/** Object interfaces plugged into one another, with reference counts on the
    objects they belong to and recursive close notifications.  Interfaces and
    objects are numbered; interface 0 is the null interface. */
module Interface {
  import opened CLib

  type Intf = nat
  type Obj = nat

  const NULL: Intf := 0

  /** What an object's close method does, call by call. */
  datatype Action = Shutdown(i: Intf) | Restart(i: Intf)

  /** Which object each interface belongs to, if any, and its close method: None
      stands for an interface that does not implement one. */
  datatype Program = Program(owner: seq<Option<Obj>>, close: seq<Option<seq<Action>>>, objects: nat)

  /** A close method being entered or left, or an object being freed. */
  datatype Event = Enter(i: Intf) | Leave(i: Intf) | Freed(o: Obj)

  ghost predicate ActionsOk(p: Program, acts: seq<Action>) {
    forall k :: 0 <= k < |acts| ==> acts[k].i < |p.owner|
  }

  ghost predicate ProgramOk(p: Program) {
    && |p.owner| > 0 && p.owner[NULL] == None && |p.close| == |p.owner|
    && (forall i :: 0 <= i < |p.owner| && p.owner[i].Some? ==> p.owner[i].value < p.objects)
    && (forall i :: 0 <= i < |p.close| && p.close[i].Some? ==> ActionsOk(p, p.close[i].value))
  }

  /** Every interface is plugged into some interface, possibly the null one. */
  ghost predicate DestOk(p: Program, dest: seq<Intf>) {
    && |dest| == |p.owner| > 0 && dest[NULL] == NULL
    && forall i :: 0 <= i < |dest| ==> dest[i] < |p.owner|
  }

  function Owner(p: Program, i: Intf): Option<Obj> {
    if i < |p.owner| then p.owner[i] else None
  }

  /** 1 if interface `d` belongs to object `o`. */
  function Refs(p: Program, d: Intf, o: Obj): nat {
    if Owner(p, d) == Some(o) then 1 else 0
  }

  /** The number of interfaces plugged into object `o`. */
  function PlugsInto(p: Program, dest: seq<Intf>, o: Obj): nat {
    if dest == [] then 0 else Refs(p, dest[0], o) + PlugsInto(p, dest[1..], o)
  }

  /** The number of interfaces that are plugged into anything. */
  function Plugged(dest: seq<Intf>): nat {
    if dest == [] then 0 else (if dest[0] != NULL then 1 else 0) + Plugged(dest[1..])
  }

  /** Replugging one interface moves one reference. */
  lemma {:induction false} Replug(p: Program, dest: seq<Intf>, i: nat, d: Intf, o: Obj)
    requires i < |dest|
    ensures PlugsInto(p, dest[i := d], o) == PlugsInto(p, dest, o) - Refs(p, dest[i], o) + Refs(p, d, o)
  {
    if i == 0 {
      assert dest[i := d][1..] == dest[1..];
    } else {
      assert dest[i := d][1..] == dest[1..][i - 1 := d];
      Replug(p, dest[1..], i - 1, d, o);
    }
  }

  lemma {:induction false} UnplugShrinks(dest: seq<Intf>, i: nat)
    requires i < |dest|
    ensures Plugged(dest[i := NULL]) == Plugged(dest) - (if dest[i] != NULL then 1 else 0)
  {
    if i == 0 {
      assert dest[i := NULL][1..] == dest[1..];
    } else {
      assert dest[i := NULL][1..] == dest[1..][i - 1 := NULL];
      UnplugShrinks(dest[1..], i - 1);
    }
  }

  lemma {:induction false} NothingPlugged(p: Program, dest: seq<Intf>, o: Obj)
    requires ProgramOk(p) && forall i :: 0 <= i < |dest| ==> dest[i] == NULL
    ensures PlugsInto(p, dest, o) == 0
  {
    if dest != [] { NothingPlugged(p, dest[1..], o); }
  }

  /** The object an event is about. */
  function Subject(p: Program, e: Event): Option<Obj> {
    match e
    case Freed(o) => Some(o)
    case Enter(i) => Owner(p, i)
    case Leave(i) => Owner(p, i)
  }

  /** Nothing happens to an object once it has been freed: it is not freed again,
      and no close method of its interfaces is entered or still to be left. */
  ghost predicate LogOk(p: Program, log: seq<Event>) {
    forall a, b :: 0 <= a < b < |log| && log[a].Freed? ==> Subject(p, log[b]) != Some(log[a].o)
  }

  /** The counting invariant: every count is one less than the references there
      are, by plugs and by holders, and exactly the objects without references
      have been freed. */
  ghost predicate Counted(p: Program, dest: seq<Intf>, count: seq<int>, held: seq<int>, log: seq<Event>) {
    && |count| == |held| == p.objects
    && (forall o :: 0 <= o < p.objects ==> held[o] >= 0 && count[o] + 1 == PlugsInto(p, dest, o) + held[o])
    && (forall o :: 0 <= o < p.objects ==> (Freed(o) in log <==> count[o] == -1))
    && LogOk(p, log)
  }

  /** Something still refers to the object of interface `i`. */
  ghost predicate Live(p: Program, dest: seq<Intf>, held: seq<int>, i: Intf) {
    forall o :: Owner(p, i) == Some(o) ==> o < |held| && PlugsInto(p, dest, o) + held[o] > 0
  }

  /** Adjust the entry of an object, if there is one. */
  function Bump(s: seq<int>, o: Option<Obj>, n: int): (r: seq<int>)
    ensures |r| == |s|
  {
    if o.Some? && o.value < |s| then s[o.value := s[o.value] + n] else s
  }

  lemma BumpBack(s: seq<int>, o: Option<Obj>)
    ensures Bump(Bump(s, o, 1), o, -1) == s
  {
  }

  lemma CountedDomain(p: Program, dest: seq<Intf>, count: seq<int>, held: seq<int>, log: seq<Event>)
    requires Counted(p, dest, count, held, log)
    ensures |count| == |held| == p.objects && forall o :: 0 <= o < p.objects ==> held[o] >= 0
  {
  }

  /** One more reference for its holder. */
  lemma GetCounted(p: Program, dest: seq<Intf>, count: seq<int>, held: seq<int>, log: seq<Event>, i: Intf)
    requires ProgramOk(p) && Counted(p, dest, count, held, log) && Live(p, dest, held, i)
    ensures Counted(p, dest, Bump(count, Owner(p, i), 1), Bump(held, Owner(p, i), 1), log)
    ensures Live(p, dest, Bump(held, Owner(p, i), 1), i)
  {
  }

  /** An interface that something is plugged into belongs to a live object. */
  lemma DestinationLive(p: Program, dest: seq<Intf>, count: seq<int>, held: seq<int>, log: seq<Event>, i: Intf)
    requires ProgramOk(p) && DestOk(p, dest) && Counted(p, dest, count, held, log) && i < |dest|
    ensures Live(p, dest, held, dest[i])
  {
    MoveCounted(p, dest, count, held, log, i);
    forall o { Replug(p, dest, i, NULL, o); }
  }

  /** A holder's reference keeps the object alive, whatever is replugged. */
  lemma HeldLive(p: Program, dest: seq<Intf>, count: seq<int>, was: seq<int>, held: seq<int>, log: seq<Event>, i: Intf)
    requires ProgramOk(p) && Counted(p, dest, count, held, log)
    requires |was| == p.objects && (forall o :: 0 <= o < p.objects ==> was[o] >= 0)
    requires held == Bump(was, Owner(p, i), 1)
    ensures Live(p, dest, held, i)
    ensures forall o :: Owner(p, i) == Some(o) ==> o < |held| && held[o] > 0
  {
  }

  /** What a decrement adds to the log. */
  function Dropped(count: seq<int>, o: Option<Obj>): seq<Event> {
    if o.Some? && o.value < |count| && count[o.value] == 0 then [Freed(o.value)] else []
  }

  /** One reference to the object of `d` is given up, by a plug or by a holder. */
  lemma PutCounted(p: Program, dest: seq<Intf>, count: seq<int>, held: seq<int>, log: seq<Event>, d: Intf,
                   dest': seq<Intf>, held': seq<int>)
    requires ProgramOk(p) && Counted(p, dest, count, held, log)
    requires |held'| == p.objects
    requires forall x :: 0 <= x < p.objects ==> held'[x] >= 0
    requires forall x :: 0 <= x < p.objects ==>
      PlugsInto(p, dest', x) + held'[x] == PlugsInto(p, dest, x) + held[x] - Refs(p, d, x)
    ensures Counted(p, dest', Bump(count, Owner(p, d), -1), held', log + Dropped(count, Owner(p, d)))
  {
    var o := Owner(p, d);
    if o.Some? {
      assert Refs(p, d, o.value) == 1;
      assert count[o.value] >= 0 && Freed(o.value) !in log;
      assert forall a :: 0 <= a < |log| && log[a].Freed? ==> log[a] in log;
    }
  }

  /** Letting go of an extra reference frees nothing while another is left. */
  lemma StillReferenced(p: Program, dest: seq<Intf>, count: seq<int>, was: seq<int>, held: seq<int>, log: seq<Event>, i: Intf)
    requires ProgramOk(p) && Counted(p, dest, count, held, log)
    requires |was| == p.objects && held == Bump(was, Owner(p, i), 1)
    ensures Live(p, dest, was, i) ==> Dropped(count, Owner(p, i)) == []
  {
  }

  /** A plug becomes a holder's reference. */
  lemma MoveCounted(p: Program, dest: seq<Intf>, count: seq<int>, held: seq<int>, log: seq<Event>, i: Intf)
    requires ProgramOk(p) && DestOk(p, dest) && Counted(p, dest, count, held, log) && i < |dest|
    ensures Counted(p, dest[i := NULL], count, Bump(held, Owner(p, dest[i]), 1), log)
    ensures Live(p, dest[i := NULL], Bump(held, Owner(p, dest[i]), 1), dest[i])
  {
    forall o ensures PlugsInto(p, dest[i := NULL], o) == PlugsInto(p, dest, o) - Refs(p, dest[i], o) {
      Replug(p, dest, i, NULL, o);
    }
  }

  /** A close method of a live object may be logged. */
  lemma LogCounted(p: Program, dest: seq<Intf>, count: seq<int>, held: seq<int>, log: seq<Event>, e: Event)
    requires ProgramOk(p) && Counted(p, dest, count, held, log) && !e.Freed? && Live(p, dest, held, e.i)
    ensures Counted(p, dest, count, held, log + [e])
  {
    forall a | 0 <= a < |log| && log[a].Freed? ensures Subject(p, e) != Some(log[a].o) {
      assert log[a] in log;
    }
  }

  /** Nothing is lost and nothing freed twice: once every interface is unplugged
      and every holder has let go, each object has been freed, in one place. */
  lemma AllFreedOnce(p: Program, dest: seq<Intf>, count: seq<int>, held: seq<int>, log: seq<Event>, o: Obj)
    requires ProgramOk(p) && Counted(p, dest, count, held, log) && o < p.objects
    requires (forall i :: 0 <= i < |dest| ==> dest[i] == NULL) && held[o] == 0
    ensures exists k :: 0 <= k < |log| && log[k] == Freed(o) && forall j :: 0 <= j < |log| && j != k ==> log[j] != Freed(o)
  {
    NothingPlugged(p, dest, o);
    var k :| 0 <= k < |log| && log[k] == Freed(o);
    assert forall j :: 0 <= j < |log| && j != k && log[j] == Freed(o) ==> Subject(p, log[j]) == Some(o);
  }

  /** `dest` after some interfaces have been unplugged. */
  ghost predicate OnlyUnplugged(dest: seq<Intf>, was: seq<Intf>) {
    && |dest| == |was|
    && forall i :: 0 <= i < |dest| ==> dest[i] == was[i] || dest[i] == NULL
  }

  /** How many close methods have been entered. */
  function Entered(log: seq<Event>): nat {
    if log == [] then 0 else Entered(log[..|log| - 1]) + (if log[|log| - 1].Enter? then 1 else 0)
  }

  lemma EnteredSnoc(log: seq<Event>, e: Event)
    ensures Entered(log + [e]) == Entered(log) + (if e.Enter? then 1 else 0)
  {
    assert (log + [e])[..|log|] == log;
  }

  /** Freeing an object is not a close call. */
  lemma PutEnters(log: seq<Event>, log': seq<Event>)
    requires log' == log || exists o :: log' == log + [Freed(o)]
    ensures Entered(log') == Entered(log)
    ensures forall k :: |log| <= k < |log'| ==> !log'[k].Enter?
  {
    if log' != log {
      var o :| log' == log + [Freed(o)];
      EnteredSnoc(log, Freed(o));
    }
  }

  /** Some close method restarts interface `x`. */
  ghost predicate Restarted(p: Program, x: Intf) {
    exists d :: 0 <= d < |p.close| && p.close[d].Some? && Restart(x) in p.close[d].value
  }

  /** Interfaces blocked to begin with stay blocked, and their close methods are
      not entered, unless some close method restarts them. */
  ghost predicate StayBlocked(p: Program, was: seq<bool>, now: seq<bool>, start: nat, log: seq<Event>) {
    && |was| == |now|
    && forall x :: 0 <= x < |was| && was[x] && !Restarted(p, x) ==>
         now[x] && forall k :: start <= k < |log| ==> log[k] != Enter(x)
  }

  lemma StayBlockedTrans(p: Program, a: seq<bool>, b: seq<bool>, c: seq<bool>, start: nat, log: seq<Event>, log': seq<Event>)
    requires StayBlocked(p, a, b, start, log) && StayBlocked(p, b, c, |log|, log')
    requires log <= log'
    ensures StayBlocked(p, a, c, start, log')
  {
  }

  /** Some close method shuts down or restarts interface `x`. */
  ghost predicate Acted(p: Program, x: Intf) {
    exists d :: 0 <= d < |p.close| && p.close[d].Some? && (Shutdown(x) in p.close[d].value || Restart(x) in p.close[d].value)
  }

  /** An interface that no close method acts on is left as it was, except that one
      without a close method is unplugged when it is told. */
  ghost predicate Spared(p: Program, was: seq<bool>, now: seq<bool>, plugs: seq<Intf>, dest: seq<Intf>) {
    && |was| == |now| == |plugs| == |dest| == |p.close|
    && forall x :: 0 <= x < |was| && !Acted(p, x) ==> now[x] == was[x] && (p.close[x].Some? ==> dest[x] == plugs[x])
  }

  lemma SparedTrans(p: Program, a: seq<bool>, b: seq<bool>, c: seq<bool>, k: seq<Intf>, l: seq<Intf>, m: seq<Intf>)
    requires Spared(p, a, b, k, l) && Spared(p, b, c, l, m)
    ensures Spared(p, a, c, k, m)
  {
  }

  /** A change to an interface that some close method acts on may be forgotten. */
  lemma SparedActed(p: Program, was: seq<bool>, now: seq<bool>, plugs: seq<Intf>, dest: seq<Intf>, i: Intf, b: bool)
    requires i < |was| == |plugs| && Acted(p, i) && Spared(p, was[i := b], now, plugs[i := NULL], dest)
    ensures Spared(p, was, now, plugs, dest)
  {
  }

  /** Something that has been unplugged since was plugged into `x`. */
  ghost predicate Lost(was: seq<Intf>, dest: seq<Intf>, x: Intf) {
    exists y :: 0 <= y < |was| && y < |dest| && was[y] == x && dest[y] == NULL
  }

  /** Every close method entered since the log had `start` entries is that of `d`, or
      of an interface that has lost a plug. */
  ghost predicate Told(was: seq<Intf>, dest: seq<Intf>, start: nat, log: seq<Event>, d: Intf) {
    forall k :: start <= k < |log| && log[k].Enter? ==> log[k].i != NULL && (log[k].i == d || Lost(was, dest, log[k].i))
  }

  lemma LostTrans(a: seq<Intf>, b: seq<Intf>, c: seq<Intf>, x: Intf)
    requires OnlyUnplugged(b, a) && OnlyUnplugged(c, b) && x != NULL
    ensures Lost(a, b, x) ==> Lost(a, c, x)
    ensures Lost(b, c, x) ==> Lost(a, c, x)
  {
    if Lost(a, b, x) {
      var y :| 0 <= y < |a| && y < |b| && a[y] == x && b[y] == NULL;
      assert c[y] == NULL;
    }
    if Lost(b, c, x) {
      var y :| 0 <= y < |b| && y < |c| && b[y] == x && c[y] == NULL;
      assert a[y] == x;
    }
  }

  lemma ToldTrans(a: seq<Intf>, b: seq<Intf>, c: seq<Intf>, start: nat, log: seq<Event>, log': seq<Event>)
    requires OnlyUnplugged(b, a) && OnlyUnplugged(c, b) && log <= log' && start <= |log|
    requires Told(a, b, start, log, NULL) && Told(b, c, |log|, log', NULL)
    ensures Told(a, c, start, log', NULL)
  {
    forall k | start <= k < |log'| && log'[k].Enter? ensures log'[k].i != NULL && Lost(a, c, log'[k].i) {
      if k < |log| { assert log[k] == log'[k]; }
      LostTrans(a, b, c, log'[k].i);
    }
  }

  lemma ToldNothing(was: seq<Intf>, dest: seq<Intf>, log: seq<Event>, d: Intf)
    ensures Told(was, dest, |log|, log, d)
  {
  }

  lemma ToldWeaker(was: seq<Intf>, dest: seq<Intf>, start: nat, log: seq<Event>, d: Intf)
    requires Told(was, dest, start, log, NULL)
    ensures Told(was, dest, start, log, d)
  {
  }

  /** Events other than close calls do not matter. */
  lemma ToldMore(was: seq<Intf>, dest: seq<Intf>, start: nat, log: seq<Event>, log': seq<Event>, d: Intf)
    requires Told(was, dest, start, log, d) && log <= log' && forall k :: |log| <= k < |log'| ==> !log'[k].Enter?
    ensures Told(was, dest, start, log', d)
  {
    assert forall k :: 0 <= k < |log| ==> log[k] == log'[k];
  }

  /** The close method of `d` has been entered, and then others. */
  lemma ToldEntered(was: seq<Intf>, dest: seq<Intf>, before: seq<Event>, log: seq<Event>, d: Intf)
    requires d != NULL && before + [Enter(d)] <= log && Told(was, dest, |before| + 1, log, NULL)
    ensures Told(was, dest, |before|, log, d)
  {
    assert log[|before|] == Enter(d);
  }

  /** The plug of `i` into `d` has been given up. */
  lemma ToldUnplugged(was: seq<Intf>, i: Intf, dest: seq<Intf>, start: nat, log: seq<Event>)
    requires i < |was| && OnlyUnplugged(dest, was[i := NULL]) && Told(was[i := NULL], dest, start, log, was[i])
    ensures Told(was, dest, start, log, NULL)
  {
    forall k | start <= k < |log| && log[k].Enter? ensures log[k].i != NULL && Lost(was, dest, log[k].i) {
      var x := log[k].i;
      if x == was[i] {
        assert was[i] == x && dest[i] == NULL;
      } else {
        var y :| 0 <= y < |was| && y < |dest| && was[i := NULL][y] == x && dest[y] == NULL;
        assert was[y] == x;
      }
    }
  }

  lemma ActionsActed(p: Program, d: Intf)
    requires d < |p.close| && p.close[d].Some?
    ensures forall a :: a in p.close[d].value ==> Acted(p, a.i)
  {
    forall a | a in p.close[d].value ensures Acted(p, a.i) {
      assert a == Shutdown(a.i) || a == Restart(a.i);
    }
  }

  /** The effect that closing can have on the plumbing: interfaces are unplugged
      and nothing else is replugged, and apart from `extra` close calls each one
      made is paid for by a plug given up. */
  ghost predicate Closed(was: seq<Intf>, dest: seq<Intf>, before: seq<Event>, log: seq<Event>, extra: nat) {
    && OnlyUnplugged(dest, was)
    && before <= log
    && Plugged(dest) <= Plugged(was)
    && Entered(log) - Entered(before) <= Plugged(was) - Plugged(dest) + extra
  }

  lemma ClosedTrans(a: seq<Intf>, b: seq<Intf>, c: seq<Intf>,
                    l0: seq<Event>, l1: seq<Event>, l2: seq<Event>, m: nat, n: nat)
    requires Closed(a, b, l0, l1, m) && Closed(b, c, l1, l2, n)
    ensures Closed(a, c, l0, l2, m + n)
  {
  }

  /** `dest` after plugging `i` into `d`; the null interface is left alone. */
  function Replugged(dest: seq<Intf>, i: Intf, d: Intf): (r: seq<Intf>)
    ensures |r| == |dest|
  {
    if i == NULL || i >= |dest| then dest else dest[i := d]
  }

  /** The listed interfaces blocked or unblocked, and unplugged. */
  function Blocked(was: seq<bool>, intfs: seq<Intf>, b: bool): (r: seq<bool>)
    ensures |r| == |was| && forall x :: 0 <= x < |r| ==> r[x] == if x in intfs then b else was[x]
  {
    seq(|was|, x requires 0 <= x < |was| => if x in intfs then b else was[x])
  }

  function Unplugged(dest: seq<Intf>, intfs: seq<Intf>): (r: seq<Intf>)
    ensures |r| == |dest| && forall x :: 0 <= x < |r| ==> r[x] == if x in intfs then NULL else dest[x]
  {
    seq(|dest|, x requires 0 <= x < |dest| => if x in intfs then NULL else dest[x])
  }

  class Plumbing {
    const p: Program
    var dest: seq<Intf>
    var nullified: seq<bool>
    var count: seq<int>
    var log: seq<Event>
    /** References taken by code outside the plumbing, by callers on the stack and
        by temporary interfaces. */
    ghost var held: seq<int>

    ghost predicate Valid()
      reads this
    {
      && ProgramOk(p) && DestOk(p, dest) && |nullified| == |dest|
      && Counted(p, dest, count, held, log)
    }

    /** All interfaces unplugged, every object with its creator's reference. */
    constructor (p: Program)
      requires ProgramOk(p)
      ensures Valid() && this.p == p && log == []
      ensures forall i :: 0 <= i < |dest| ==> dest[i] == NULL && !nullified[i]
      ensures forall o :: 0 <= o < p.objects ==> held[o] == 1
    {
      this.p := p;
      dest := seq(|p.owner|, _ => NULL);
      nullified := seq(|p.owner|, _ => false);
      count := seq(p.objects, _ => 0);
      held := seq(p.objects, _ => 1);
      log := [];
      new;
      forall o ensures PlugsInto(p, dest, o) == 0 { NothingPlugged(p, dest, o); }
    }

    method RefIncrement(o: Option<Obj>)
      requires o.Some? ==> o.value < |count|
      modifies `count
      ensures count == Bump(old(count), o, 1)
    {
      if o.Some? {
        count := count[o.value := count[o.value] + 1];
      }
    }

    /** Frees the object exactly when the count goes below zero for the first time;
        a further decrement does not free it again. */
    method RefDecrement(o: Option<Obj>)
      requires o.Some? ==> o.value < |count|
      modifies `count, `log
      ensures count == Bump(old(count), o, -1)
      ensures log == old(log) + Dropped(old(count), o)
    {
      if o.None? { return; }
      count := count[o.value := count[o.value] - 1];
      if count[o.value] >= 0 { return; }
      if count[o.value] < -1 { return; }
      log := log + [Freed(o.value)];
    }

    method IntfGet(i: Intf)
      requires Valid() && i < |dest| && Live(p, dest, held, i)
      modifies `count, `held
      ensures Valid() && held == Bump(old(held), Owner(p, i), 1)
      ensures Live(p, dest, held, i)
    {
      hide Counted;
      GetCounted(p, dest, count, held, log, i);
      CountedDomain(p, dest, count, held, log);
      RefIncrement(p.owner[i]);
      held := Bump(held, Owner(p, i), 1);
    }

    method IntfPut(i: Intf)
      requires Valid() && i < |dest|
      requires forall o :: Owner(p, i) == Some(o) ==> o < |held| && held[o] > 0
      modifies `count, `log, `held
      ensures Valid() && held == Bump(old(held), Owner(p, i), -1)
      ensures log == old(log) + Dropped(old(count), Owner(p, i))
    {
      hide Counted, PlugsInto;
      CountedDomain(p, dest, count, held, log);
      PutCounted(p, dest, count, held, log, i, dest, Bump(held, Owner(p, i), -1));
      RefDecrement(p.owner[i]);
      held := Bump(held, Owner(p, i), -1);
    }

    /** The old destination loses a reference only after the new one has gained
        it, so replugging into the same object never frees it. */
    method IntfPlug(i: Intf, d: Intf)
      requires Valid() && i < |dest| && d < |dest| && Live(p, dest, held, d)
      modifies `count, `log, `dest
      ensures Valid() && dest == Replugged(old(dest), i, d)
      ensures i != NULL ==> Live(p, dest, held, d)
      ensures log == old(log) || (exists o :: Owner(p, old(dest[i])) == Some(o) && log == old(log) + [Freed(o)])
    {
      hide Counted, PlugsInto;
      if i == NULL { return; }
      CountedDomain(p, dest, count, held, log);
      GetCounted(p, dest, count, held, log, d);
      RefIncrement(p.owner[d]);
      ghost var held' := Bump(held, Owner(p, d), 1);
      forall o ensures PlugsInto(p, dest[i := d], o) == PlugsInto(p, dest, o) - Refs(p, dest[i], o) + Refs(p, d, o) {
        Replug(p, dest, i, d, o);
      }
      PutCounted(p, dest, count, held', log, dest[i], dest[i := d], held);
      RefDecrement(p.owner[dest[i]]);
      dest := dest[i := d];
    }

    method IntfPlugPlug(a: Intf, b: Intf)
      requires Valid() && a < |dest| && b < |dest|
      requires Live(p, dest, held, b) && Live(p, Replugged(dest, a, b), held, a)
      modifies `count, `log, `dest
      ensures Valid() && dest == Replugged(Replugged(old(dest), a, b), b, a)
      ensures old(log) <= log
    {
      hide Counted, PlugsInto;
      IntfPlug(a, b);
      IntfPlug(b, a);
    }

    method IntfUnplug(i: Intf)
      requires Valid() && i < |dest|
      modifies `count, `log, `dest
      ensures Valid() && dest == old(dest)[i := NULL]
      ensures log == old(log) || (exists o :: Owner(p, old(dest[i])) == Some(o) && log == old(log) + [Freed(o)])
    {
      hide Counted, PlugsInto;
      CountedDomain(p, dest, count, held, log);
      forall o ensures PlugsInto(p, dest[i := NULL], o) == PlugsInto(p, dest, o) - Refs(p, dest[i], o) {
        Replug(p, dest, i, NULL, o);
      }
      PutCounted(p, dest, count, held, log, dest[i], dest[i := NULL], held);
      RefDecrement(p.owner[dest[i]]);
      dest := dest[i := NULL];
    }

    /** A filter goes in between `i` and what it was plugged into.  The old
        destination is held meanwhile, so that it outlives being unplugged from
        `i` before `lower` is plugged into it. */
    method IntfInsert(i: Intf, upper: Intf, lower: Intf)
      requires Valid() && i < |dest| && upper < |dest| && lower < |dest|
      requires
        var d := dest[i];
        var h := Bump(held, Owner(p, d), 1);
        && Live(p, dest, h, upper)
        && Live(p, Replugged(dest, i, upper), h, i)
        && Live(p, Replugged(Replugged(Replugged(dest, i, upper), upper, i), lower, d), h, lower)
      modifies this
      ensures Valid() && held == old(held) && nullified == old(nullified) && old(log) <= log
      ensures
        var d := old(dest[i]);
        dest == Replugged(Replugged(Replugged(Replugged(old(dest), i, upper), upper, i), lower, d), d, lower)
    {
      hide Counted, PlugsInto, Live;
      var d := dest[i];
      DestinationLive(p, dest, count, held, log, i);
      CountedDomain(p, dest, count, held, log);
      ghost var held0 := held;
      IntfGet(d);
      IntfPlugPlug(i, upper);
      HeldLive(p, dest, count, held0, held, log, d);
      IntfPlugPlug(lower, d);
      HeldLive(p, dest, count, held0, held, log, d);
      IntfPut(d);
      BumpBack(held0, Owner(p, d));
    }

    /** What every form of closing keeps, and what it may do. */
    twostate predicate Settled(extra: nat)
      reads this
    {
      Valid() && held == old(held) && Closed(old(dest), dest, old(log), log, extra)
    }

    /** The destination is told, unless it is the null interface or blocked, and
        its object is kept alive until its close method has returned. */
    method IntfClose(d: Intf)
      requires Valid() && d < |dest| && Live(p, dest, held, d)
      modifies this
      ensures Settled(if d == NULL then 0 else 1)
      ensures StayBlocked(p, old(nullified), nullified, |old(log)|, log)
      ensures d != NULL && !old(nullified[d]) && p.close[d].Some? ==> old(log) + [Enter(d)] <= log
      ensures d != NULL && !old(nullified[d]) && p.close[d].None? ==> dest[d] == NULL && !nullified[d]
      ensures d == NULL || old(nullified[d]) ==> dest == old(dest) && nullified == old(nullified) && log == old(log)
      ensures Spared(p, old(nullified), nullified, old(dest), dest)
      ensures Told(old(dest), dest, |old(log)|, log, d)
      decreases if d == NULL then 0 else Plugged(dest), if d == NULL then 0 else 5
    {
      hide Counted, PlugsInto, Live, Plugged, Entered, Acted, Lost, Told;
      CountedDomain(p, dest, count, held, log);
      ghost var held0 := held;
      ToldNothing(dest, dest, log, d);
      IntfGet(d);
      if d != NULL && !nullified[d] {
        if p.close[d].Some? {
          Invoke(d, held0);
        } else {
          IntfRestart(d);
          ToldWeaker(old(dest), dest, |old(log)|, log, d);
        }
      }
      HeldLive(p, dest, count, held0, held, log, d);
      ghost var log0 := log;
      StillReferenced(p, dest, count, held0, held, log, d);
      IntfPut(d);
      PutEnters(log0, log);
      ToldMore(old(dest), dest, |old(log)|, log0, log, d);
      BumpBack(held0, Owner(p, d));
    }

    /** The close method of `d`, called by a holder of its object. */
    method Invoke(d: Intf, ghost was: seq<int>)
      requires Valid() && d < |dest| && d != NULL && !nullified[d] && p.close[d].Some?
      requires |was| == p.objects && (forall o :: 0 <= o < p.objects ==> was[o] >= 0)
      requires held == Bump(was, Owner(p, d), 1)
      modifies this
      ensures Settled(1)
      ensures StayBlocked(p, old(nullified), nullified, |old(log)|, log)
      ensures old(log) + [Enter(d)] <= log && log[|log| - 1] == Leave(d)
      ensures Spared(p, old(nullified), nullified, old(dest), dest)
      ensures Told(old(dest), dest, |old(log)|, log, d)
      decreases Plugged(dest), 4
    {
      hide Counted, PlugsInto, Live, Plugged, Entered, Acted, Lost, Told;
      HeldLive(p, dest, count, was, held, log, d);
      LogCounted(p, dest, count, held, log, Enter(d));
      EnteredSnoc(log, Enter(d));
      log := log + [Enter(d)];
      ActionsActed(p, d);
      RunActions(p.close[d].value);
      ToldEntered(old(dest), dest, old(log), log, d);
      ToldMore(old(dest), dest, |old(log)|, log, log + [Leave(d)], d);
      HeldLive(p, dest, count, was, held, log, d);
      LogCounted(p, dest, count, held, log, Leave(d));
      EnteredSnoc(log, Leave(d));
      log := log + [Leave(d)];
    }

    /** A close method at work. */
    method RunActions(acts: seq<Action>)
      requires Valid() && ActionsOk(p, acts)
      modifies this
      ensures Settled(0)
      ensures (forall x :: Restart(x) in acts ==> Restarted(p, x)) ==>
        StayBlocked(p, old(nullified), nullified, |old(log)|, log)
      ensures forall k :: 0 <= k < |acts| ==> dest[acts[k].i] == NULL
      ensures (forall a :: a in acts ==> Acted(p, a.i)) ==> Spared(p, old(nullified), nullified, old(dest), dest)
      ensures Told(old(dest), dest, |old(log)|, log, NULL)
      ensures acts != [] ==> Finished(acts[|acts| - 1])
      decreases Plugged(dest), 3
    {
      hide Counted, PlugsInto, Live, Plugged, Entered, Acted, Lost, Told, Restarted;
      ToldNothing(dest, dest, log, NULL);
      for k := 0 to |acts|
        invariant Settled(0)
        invariant (forall x :: Restart(x) in acts ==> Restarted(p, x)) ==>
          StayBlocked(p, old(nullified), nullified, |old(log)|, log)
        invariant forall j :: 0 <= j < k ==> dest[acts[j].i] == NULL
        invariant (forall a :: a in acts ==> Acted(p, a.i)) ==> Spared(p, old(nullified), nullified, old(dest), dest)
        invariant Told(old(dest), dest, |old(log)|, log, NULL)
        invariant k > 0 ==> Finished(acts[k - 1])
      {
        ghost var dest0, log0, nul0 := dest, log, nullified;
        assert acts[k] in acts;
        RunAction(acts[k]);
        ClosedTrans(old(dest), dest0, dest, old(log), log0, log, 0, 0);
        ToldTrans(old(dest), dest0, dest, |old(log)|, log0, log);
        if forall a :: a in acts ==> Acted(p, a.i) {
          SparedTrans(p, old(nullified), nul0, nullified, old(dest), dest0, dest);
        }
        if forall x :: Restart(x) in acts ==> Restarted(p, x) {
          StayBlockedTrans(p, old(nullified), nul0, nullified, |old(log)|, log0, log);
        }
      }
    }

    /** A restart leaves its interface unblocked; a shutdown leaves it blocked unless
        some close method restarts it. */
    ghost predicate Finished(a: Action)
      reads this
    {
      && a.i < |nullified|
      && (a.Restart? ==> !nullified[a.i])
      && (a.Shutdown? && !Restarted(p, a.i) ==> nullified[a.i])
    }

    method RunAction(a: Action)
      requires Valid() && a.i < |dest|
      modifies this
      ensures Settled(0) && dest[a.i] == NULL && Finished(a)
      ensures a.Shutdown? || Restarted(p, a.i) ==> StayBlocked(p, old(nullified), nullified, |old(log)|, log)
      ensures Acted(p, a.i) ==> Spared(p, old(nullified), nullified, old(dest), dest)
      ensures Told(old(dest), dest, |old(log)|, log, NULL)
      decreases Plugged(dest), 3, 0
    {
      hide Counted, PlugsInto, Live, Plugged, Entered, Acted, Lost, Told;
      match a {
        case Shutdown(i) => IntfShutdown(i);
        case Restart(i) => IntfRestart(i);
      }
      if Acted(p, a.i) {
        SparedActed(p, old(nullified), nullified, old(dest), dest, a.i, a.Shutdown?);
      }
    }

    /** The interface ends up unplugged.  Every close call made on the way, by
        whatever chain of close methods, used up a plug. */
    method IntfShutdown(i: Intf)
      requires Valid() && i < |dest|
      modifies this
      ensures Settled(0) && dest[i] == NULL
      ensures StayBlocked(p, old(nullified)[i := true], nullified, |old(log)|, log)
      ensures
        var d := old(dest[i]);
        d != NULL && d != i && !old(nullified[d]) && p.close[d].Some? ==> old(log) + [Enter(d)] <= log
      ensures Spared(p, old(nullified)[i := true], nullified, old(dest)[i := NULL], dest)
      ensures !Restarted(p, i) ==> nullified[i]
      ensures Told(old(dest), dest, |old(log)|, log, NULL)
      decreases Plugged(dest), 1
    {
      hide Counted, PlugsInto, Live, Plugged, Entered, Acted, Lost, Told;
      CountedDomain(p, dest, count, held, log);
      ghost var held0 := held;
      nullified := nullified[i := true];
      var d := dest[i];
      MoveCounted(p, dest, count, held, log, i);
      UnplugShrinks(dest, i);
      dest := dest[i := NULL];
      held := Bump(held, Owner(p, d), 1);
      ghost var dest1, log1 := dest, log;
      IntfClose(d);
      HeldLive(p, dest, count, held0, held, log, d);
      ghost var log2 := log;
      IntfPut(d);
      PutEnters(log2, log);
      ToldMore(dest1, dest, |log1|, log2, log, d);
      ToldUnplugged(old(dest), i, dest, |log1|, log);
      BumpBack(held0, Owner(p, d));
    }

    method IntfRestart(i: Intf)
      requires Valid() && i < |dest|
      modifies this
      ensures Settled(0) && dest[i] == NULL && !nullified[i]
      ensures StayBlocked(p, old(nullified)[i := false], nullified, |old(log)|, log)
      ensures Spared(p, old(nullified)[i := false], nullified, old(dest)[i := NULL], dest)
      ensures Told(old(dest), dest, |old(log)|, log, NULL)
      decreases Plugged(dest), 2
    {
      hide Counted, PlugsInto, Live, Plugged, Entered, Acted, Lost, Told;
      IntfShutdown(i);
      nullified := nullified[i := false];
    }

    /** All are blocked before the first is shut down, so that none of them is
        told of the closing of the others. */
    method IntfsShutdown(intfs: seq<Intf>)
      requires Valid() && forall k :: 0 <= k < |intfs| ==> intfs[k] < |dest|
      modifies this
      ensures Settled(0)
      ensures forall k :: 0 <= k < |intfs| ==> dest[intfs[k]] == NULL
      ensures forall x :: x in intfs && !Restarted(p, x) ==> Silent(x, |old(log)|) && nullified[x]
      ensures Spared(p, Blocked(old(nullified), intfs, true), nullified, Unplugged(old(dest), intfs), dest)
      ensures Told(old(dest), dest, |old(log)|, log, NULL)
    {
      hide Counted, PlugsInto, Live, Plugged, Entered, Acted, Lost, Told;
      for k := 0 to |intfs|
        invariant Valid() && held == old(held) && dest == old(dest) && log == old(log)
        invariant forall j :: 0 <= j < k ==> nullified[intfs[j]]
        invariant nullified == Blocked(old(nullified), intfs[..k], true)
      {
        BlockedMore(old(nullified), intfs, k, true);
        nullified := nullified[intfs[k] := true];
      }
      assert intfs[..|intfs|] == intfs;
      ghost var nul1 := nullified;
      ToldNothing(dest, dest, log, NULL);
      NoneUnplugged(dest, intfs);
      for k := 0 to |intfs|
        invariant Settled(0) && StayBlocked(p, nul1, nullified, |old(log)|, log)
        invariant forall j :: 0 <= j < k ==> dest[intfs[j]] == NULL
        invariant Spared(p, nul1, nullified, Unplugged(old(dest), intfs[..k]), dest)
        invariant Told(old(dest), dest, |old(log)|, log, NULL)
      {
        ghost var dest0, log0, nul0 := dest, log, nullified;
        IntfShutdown(intfs[k]);
        ClosedTrans(old(dest), dest0, dest, old(log), log0, log, 0, 0);
        ToldTrans(old(dest), dest0, dest, |old(log)|, log0, log);
        SparedNext(p, nul1, nul0, nullified, old(dest), intfs, k, dest0, dest);
        StayBlockedTrans(p, nul1, nul0, nullified, |old(log)|, log0, log);
      }
    }

    /** No close method of `x` has been entered since the log had `start` entries. */
    ghost predicate Silent(x: Intf, start: nat)
      reads this
    {
      forall k :: start <= k < |log| ==> log[k] != Enter(x)
    }

    method IntfsRestart(intfs: seq<Intf>)
      requires Valid() && forall k :: 0 <= k < |intfs| ==> intfs[k] < |dest|
      modifies this
      ensures Settled(0)
      ensures forall k :: 0 <= k < |intfs| ==> dest[intfs[k]] == NULL && !nullified[intfs[k]]
      ensures forall x :: x in intfs && !Restarted(p, x) ==> Silent(x, |old(log)|)
      ensures Spared(p, Blocked(old(nullified), intfs, false), nullified, Unplugged(old(dest), intfs), dest)
      ensures Told(old(dest), dest, |old(log)|, log, NULL)
    {
      hide Counted, PlugsInto, Live, Plugged, Entered, Acted, Lost, Told;
      IntfsShutdown(intfs);
      ghost var nul1 := nullified;
      for k := 0 to |intfs|
        invariant Settled(0) && nullified == Blocked(nul1, intfs[..k], false)
        invariant Spared(p, Blocked(old(nullified), intfs, true), nul1, Unplugged(old(dest), intfs), dest)
        invariant Told(old(dest), dest, |old(log)|, log, NULL)
        invariant forall j :: 0 <= j < |intfs| ==> dest[intfs[j]] == NULL
        invariant forall j :: 0 <= j < k ==> !nullified[intfs[j]]
        invariant forall x :: x in intfs && !Restarted(p, x) ==> Silent(x, |old(log)|)
      {
        BlockedMore(nul1, intfs, k, false);
        nullified := nullified[intfs[k] := false];
      }
      assert intfs[..|intfs|] == intfs;
      SparedUnblocked(p, old(nullified), nul1, Unplugged(old(dest), intfs), dest, intfs);
    }
  }

  lemma BlockedMore(was: seq<bool>, intfs: seq<Intf>, k: nat, b: bool)
    requires k < |intfs| && intfs[k] < |was|
    ensures Blocked(was, intfs[..k + 1], b) == Blocked(was, intfs[..k], b)[intfs[k] := b]
  {
    assert intfs[..k + 1] == intfs[..k] + [intfs[k]];
  }

  lemma NoneUnplugged(dest: seq<Intf>, intfs: seq<Intf>)
    ensures Unplugged(dest, intfs[..0]) == dest
  {
  }

  /** One more of the listed interfaces has been shut down; all were blocked. */
  lemma SparedNext(p: Program, was: seq<bool>, mid: seq<bool>, now: seq<bool>, plugs: seq<Intf>, intfs: seq<Intf>, k: nat,
                   l: seq<Intf>, dest: seq<Intf>)
    requires k < |intfs| && intfs[k] < |was| == |plugs| && was[intfs[k]]
    requires |mid| == |was| == |l|
    requires Spared(p, was, mid, Unplugged(plugs, intfs[..k]), l)
    requires Spared(p, mid[intfs[k] := true], now, l[intfs[k] := NULL], dest)
    ensures Spared(p, was, now, Unplugged(plugs, intfs[..k + 1]), dest)
  {
    hide Acted;
    var i := intfs[k];
    assert intfs[..k + 1] == intfs[..k] + [i];
    forall x | 0 <= x < |was| && !Acted(p, x)
      ensures now[x] == was[x] && (p.close[x].Some? ==> dest[x] == Unplugged(plugs, intfs[..k + 1])[x])
    {
      assert mid[i := true][x] == was[x];
    }
  }

  lemma SparedUnblocked(p: Program, was: seq<bool>, mid: seq<bool>, plugs: seq<Intf>, dest: seq<Intf>, intfs: seq<Intf>)
    requires Spared(p, Blocked(was, intfs, true), mid, plugs, dest)
    ensures Spared(p, Blocked(was, intfs, false), Blocked(mid, intfs, false), plugs, dest)
  {
    hide Acted;
  }
}
