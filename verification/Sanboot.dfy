/** A SAN device reached by one or more paths, of which one is active.  Paths are
    numbered from zero.  The outside world appears as batches of events, one
    batch for each call of step(). */
module Sanboot {
  import opened CLib

  const EINPROGRESS := -115
  const ENOTCONN := -107
  const ECONNRESET := -104
  const ETIMEDOUT := -110
  const ENODEV := -19

  /** A path's process or window notification, with what the path then offers; the
      far end of a path closing; a command completing; the command timer expiring. */
  datatype Event = Window(i: nat, ready: bool) | BlockClose(i: nat, rc: int) | Completed(rc: int) | Expired

  /** The two lists of paths, the active one, each path's status, and the command. */
  datatype Dev = Dev(openList: seq<nat>, closedList: seq<nat>, active: Option<nat>, pathRc: seq<int>, commandRc: int, timer: bool)

  function Count(s: seq<nat>, i: nat): nat {
    if s == [] then 0 else (if s[0] == i then 1 else 0) + Count(s[1..], i)
  }

  /** A list without one entry. */
  function Without(s: seq<nat>, i: nat): seq<nat> {
    if s == [] then [] else if s[0] == i then s[1..] else [s[0]] + Without(s[1..], i)
  }

  /** The others stay in their order. */
  lemma {:induction false} WithoutKeepsOrder(s: seq<nat>, i: nat) returns (k: nat)
    requires i in s
    ensures k < |s| && s[k] == i && Without(s, i) == s[..k] + s[k + 1..]
  {
    if s[0] == i {
      k := 0;
    } else {
      k := WithoutKeepsOrder(s[1..], i);
      k := k + 1;
    }
  }

  lemma {:induction false} CountWithout(s: seq<nat>, i: nat, j: nat)
    ensures Count(Without(s, i), j) == Count(s, j) - (if i == j && Count(s, i) > 0 then 1 else 0)
  {
    if s != [] && s[0] != i {
      CountWithout(s[1..], i, j);
      assert ([s[0]] + Without(s[1..], i))[1..] == Without(s[1..], i);
    }
  }

  lemma {:induction false} CountSnoc(s: seq<nat>, i: nat, j: nat)
    ensures Count(s + [i], j) == Count(s, j) + (if i == j then 1 else 0)
  {
    if s != [] {
      CountSnoc(s[1..], i, j);
      assert (s + [i])[1..] == s[1..] + [i];
    }
  }

  lemma {:induction false} CountIn(s: seq<nat>, i: nat)
    ensures Count(s, i) > 0 <==> i in s
  {
    if s != [] { CountIn(s[1..], i); }
  }

  /** Every path is on exactly one of the lists, once, and the active path is one
      of the opened ones. */
  ghost predicate Inv(d: Dev) {
    && (forall i: nat :: Count(d.openList, i) + Count(d.closedList, i) == if i < |d.pathRc| then 1 else 0)
    && (d.active.Some? ==> Count(d.openList, d.active.value) > 0)
  }

  /** What the invariant means for a path. */
  lemma OnOneList(d: Dev, i: nat)
    requires Inv(d)
    ensures i < |d.pathRc| <==> i in d.openList || i in d.closedList
    ensures !(i in d.openList && i in d.closedList)
    ensures d.active == Some(i) ==> i in d.openList
  {
    CountIn(d.openList, i);
    CountIn(d.closedList, i);
  }

  function CommandClose(d: Dev, rc: int): Dev {
    d.(timer := false, commandRc := rc)
  }

  /** sanpath_close(): to the end of the closed list, giving up the command if it
      was the active path's. */
  function Close(d: Dev, i: nat, rc: int): Dev
    requires i < |d.pathRc|
  {
    var d' := d.(pathRc := d.pathRc[i := rc],
                 openList := Without(d.openList, i),
                 closedList := Without(d.closedList, i) + [i]);
    if d.active == Some(i) then CommandClose(d'.(active := None), rc) else d'
  }

  /** sanpath_open() once the connection has been made. */
  function Opened(d: Dev, i: nat): Dev
    requires i < |d.pathRc|
  {
    d.(openList := Without(d.openList, i) + [i], closedList := Without(d.closedList, i), pathRc := d.pathRc[i := EINPROGRESS])
  }

  /** sanpath_step(): the first path to become available is the active one, and
      any other is closed. */
  function StepPath(d: Dev, i: nat, ready: bool): Dev
    requires i < |d.pathRc|
  {
    if d.active == Some(i) || !ready then d
    else
      var d' := d.(pathRc := d.pathRc[i := 0]);
      if d.active.None? then d'.(active := Some(i)) else Close(d', i, 0)
  }

  /** One event.  Notifications are taken to come for open paths only: closing a path
      stops its process and unplugs its interface. */
  function Handle(d: Dev, e: Event): (r: Dev)
    ensures |r.pathRc| == |d.pathRc|
  {
    match e
    case Window(i, ready) => if i < |d.pathRc| && i in d.openList then StepPath(d, i, ready) else d
    case BlockClose(i, rc) => if i < |d.pathRc| then Close(d, i, if rc == 0 then ENOTCONN else rc) else d
    case Completed(rc) => CommandClose(d, rc)
    case Expired => if d.timer then CommandClose(d, ETIMEDOUT) else d
  }

  function HandleAll(d: Dev, batch: seq<Event>): (r: Dev)
    ensures |r.pathRc| == |d.pathRc|
    decreases |batch|
  {
    if batch == [] then d else HandleAll(Handle(d, batch[0]), batch[1..])
  }

  lemma CommandInv(d: Dev, rc: int)
    requires Inv(d)
    ensures Inv(CommandClose(d, rc))
  {
  }

  /** Moving an entry from one list to the end of the other, or of the same. */
  lemma MoveCounts(a: seq<nat>, b: seq<nat>, i: nat, j: nat)
    requires Count(a, i) + Count(b, i) == 1
    ensures Count(Without(a, i), j) + Count(Without(b, i) + [i], j) == Count(a, j) + Count(b, j)
    ensures j != i ==> Count(Without(a, i), j) == Count(a, j)
    ensures Count(Without(b, i) + [i], i) == 1
    ensures j != i ==> Count(Without(b, i) + [i], j) == Count(b, j)
  {
    CountWithout(a, i, j);
    CountWithout(b, i, j);
    CountSnoc(Without(b, i), i, j);
    CountWithout(b, i, i);
    CountSnoc(Without(b, i), i, i);
  }

  lemma CloseInv(d: Dev, i: nat, rc: int)
    requires Inv(d) && i < |d.pathRc|
    ensures Inv(Close(d, i, rc))
  {
    hide Count, Without;
    var d' := Close(d, i, rc);
    assert Count(d.openList, i) + Count(d.closedList, i) == 1;
    forall j: nat
      ensures Count(d'.openList, j) + Count(d'.closedList, j) == Count(d.openList, j) + Count(d.closedList, j)
      ensures j != i ==> Count(d'.openList, j) == Count(d.openList, j)
    {
      MoveCounts(d.openList, d.closedList, i, j);
    }
  }

  lemma OpenedInv(d: Dev, i: nat)
    requires Inv(d) && i < |d.pathRc|
    ensures Inv(Opened(d, i))
  {
    hide Count, Without;
    var d' := Opened(d, i);
    assert Count(d.openList, i) + Count(d.closedList, i) == 1;
    forall j: nat
      ensures Count(d'.openList, j) + Count(d'.closedList, j) == Count(d.openList, j) + Count(d.closedList, j)
      ensures Count(d'.openList, i) == 1 && (j != i ==> Count(d'.openList, j) == Count(d.openList, j))
    {
      MoveCounts(d.closedList, d.openList, i, j);
    }
  }

  /** A step keeps the invariant except for a notification that a closed path is
      available while none is active: that path would become the active one. */
  lemma StepKeepsInv(d: Dev, i: nat, ready: bool)
    requires Inv(d) && i < |d.pathRc|
    ensures Inv(StepPath(d, i, ready)) <==> !(ready && d.active.None? && i in d.closedList)
  {
    hide Count, Without, Close;
    OnOneList(d, i);
    CountIn(d.openList, i);
    CloseInv(d.(pathRc := d.pathRc[i := 0]), i, 0);
  }

  lemma HandleInv(d: Dev, e: Event)
    requires Inv(d)
    ensures Inv(Handle(d, e))
  {
    hide Inv, Count, Without, Close, StepPath;
    if e.Window? && e.i < |d.pathRc| && e.i in d.openList {
      OnOneList(d, e.i);
      StepKeepsInv(d, e.i, e.ready);
    } else if e.Completed? {
      CommandInv(d, e.rc);
    } else if e.Expired? {
      CommandInv(d, ETIMEDOUT);
    } else if e.BlockClose? && e.i < |d.pathRc| {
      CloseInv(d, e.i, if e.rc == 0 then ENOTCONN else e.rc);
    }
  }

  /** The invariant holds whatever happens. */
  lemma {:induction false} HandleAllInv(d: Dev, batch: seq<Event>)
    requires Inv(d)
    ensures Inv(HandleAll(d, batch))
    decreases |batch|
  {
    hide Inv, Handle;
    if batch != [] {
      HandleInv(d, batch[0]);
      HandleAllInv(Handle(d, batch[0]), batch[1..]);
    }
  }

  /** No path has ended well. */
  ghost predicate AllFailing(d: Dev) {
    forall i :: 0 <= i < |d.pathRc| ==> d.pathRc[i] != 0
  }

  /** While no path is active, one event can make a path active but cannot close
      one without an error. */
  lemma OneEvent(d: Dev, e: Event)
    requires d.active.None? && AllFailing(d)
    ensures Handle(d, e).active.None? ==> AllFailing(Handle(d, e))
  {
    hide Without;
  }

  /** With one path it takes no bound on the events: the path cannot be surplus. */
  lemma {:induction false} OnePath(d: Dev, batch: seq<Event>)
    requires Inv(d) && |d.pathRc| <= 1 && (d.active.None? ==> AllFailing(d))
    ensures HandleAll(d, batch).active.None? ==> AllFailing(HandleAll(d, batch))
    decreases |batch|
  {
    hide Without, Count, Handle;
    if batch != [] {
      HandleInv(d, batch[0]);
      OnePathEvent(d, batch[0]);
      OnePath(Handle(d, batch[0]), batch[1..]);
    }
  }

  lemma OnePathEvent(d: Dev, e: Event)
    requires Inv(d) && |d.pathRc| <= 1 && (d.active.None? ==> AllFailing(d))
    ensures Handle(d, e).active.None? ==> AllFailing(Handle(d, e))
  {
    hide Without, Count;
    if d.active.Some? {
      CountIn(d.openList, d.active.value);
      OnOneList(d, d.active.value);
    }
  }

  // ------------------------------------------------------------------------
  // Waiting for a path
  // ------------------------------------------------------------------------

  /** What a call comes to: its status; it waits for what never happens; a command is
      begun with no path active. */
  datatype Outcome = Rc(rc: int) | Waiting | NoPath

  /** How the wait of sandev_reopen() ends, and in what state. */
  datatype End = End(r: Outcome, d: Dev)

  /** The wait: until a path is active, or none is open any more. */
  function Wait(d: Dev, env: seq<seq<Event>>): End
    decreases |env|
  {
    if d.active.Some? then End(Rc(0), d)
    else if env == [] then End(Waiting, d)
    else
      var d' := HandleAll(d, env[0]);
      if d'.openList == [] then End(Rc(FirstStatus(d')), d') else Wait(d', env[1..])
  }

  /** The status of the first path to be closed. */
  function FirstStatus(d: Dev): int {
    if d.closedList == [] || d.closedList[0] >= |d.pathRc| then ENODEV else d.pathRc[d.closedList[0]]
  }

  /** All paths connected, in this order. */
  function Fresh(order: seq<nat>): Dev {
    Dev(order, [], None, seq(|order|, _ => EINPROGRESS), ECONNRESET, false)
  }

  /** Status zero is reported exactly with a path active. */
  predicate Right(e: End) {
    e.r.Rc? ==> (e.r.rc == 0 <==> e.d.active.Some?)
  }

  /** The wait ends right if no event leaves a path with status zero and none active. */
  lemma {:induction false} WaitRight(d: Dev, env: seq<seq<Event>>)
    requires Inv(d) && (d.active.None? ==> AllFailing(d))
    requires |d.pathRc| <= 1 || Small(env)
    ensures Right(Wait(d, env))
    decreases |env|
  {
    hide Inv, Count, HandleAll;
    if d.active.None? && env != [] {
      var d' := HandleAll(d, env[0]);
      HandleAllInv(d, env[0]);
      if |d.pathRc| <= 1 { OnePath(d, env[0]); } else { SmallBatch(d, env[0]); }
      if d'.openList == [] {
        NothingActive(d');
      } else {
        WaitRight(d', env[1..]);
      }
    }
  }

  /** Paths 0 and 1 become available, paths `k` to `n` - 1 and then path 0 are lost. */
  function Closes(k: nat, n: nat): seq<Event>
    decreases n - k
  {
    if k >= n then [BlockClose(0, ECONNRESET)] else [BlockClose(k, ECONNRESET)] + Closes(k + 1, n)
  }

  function Losing(n: nat): seq<Event> {
    [Window(0, true), Window(1, true)] + Closes(2, n)
  }

  /** Path 0 is active, path 1 was closed first, as surplus and with status zero, and
      of the others only those from `k` on are left. */
  ghost predicate Lost(d: Dev, k: nat) {
    && Inv(d) && d.active == Some(0) && |d.pathRc| >= 2 && d.pathRc[1] == 0
    && d.closedList != [] && d.closedList[0] == 1
    && forall j: nat :: Count(d.openList, j) > 0 ==> j == 0 || j >= k
  }

  lemma LostStep(d: Dev, k: nat)
    requires Lost(d, k) && 2 <= k < |d.pathRc|
    ensures Lost(Handle(d, BlockClose(k, ECONNRESET)), k + 1)
  {
    hide Count;
    var d' := Close(d, k, ECONNRESET);
    CloseInv(d, k, ECONNRESET);
    forall j: nat ensures Count(d'.openList, j) > 0 ==> j == 0 || j >= k + 1 {
      CountWithout(d.openList, k, j);
    }
  }

  /** Status zero, and no path. */
  ghost predicate WronglyZero(d: Dev) {
    d.active.None? && d.openList == [] && FirstStatus(d) == 0
  }

  lemma LostEnd(d: Dev)
    requires Lost(d, |d.pathRc|)
    ensures WronglyZero(Handle(d, BlockClose(0, ECONNRESET)))
  {
    hide Count;
    var d' := Close(d, 0, ECONNRESET);
    forall j: nat ensures Count(d'.openList, j) == 0 {
      CountWithout(d.openList, 0, j);
      assert Count(d.openList, j) + Count(d.closedList, j) == if j < |d.pathRc| then 1 else 0;
    }
    EmptyCount(d'.openList);
  }

  lemma {:induction false} LostRuns(d: Dev, k: nat)
    requires Lost(d, k) && 2 <= k <= |d.pathRc|
    ensures WronglyZero(HandleAll(d, Closes(k, |d.pathRc|)))
    decreases |d.pathRc| - k
  {
    hide Lost, Handle, WronglyZero;
    var n := |d.pathRc|;
    var all := Closes(k, n);
    if k == n {
      LostEnd(d);
      assert all[1..] == [];
    } else {
      LostStep(d, k);
      assert all[1..] == Closes(k + 1, n);
      LostRuns(Handle(d, all[0]), k + 1);
    }
  }

  lemma LosingStart(n: nat)
    requires n >= 2
    ensures var d := Fresh(seq(n, i => i));
      Lost(Handle(Handle(d, Window(0, true)), Window(1, true)), 2) && |d.pathRc| == n
  {
    hide Count, Without;
    var d := Fresh(seq(n, i => i));
    FreshInv(n);
    OnOneList(d, 0);
    OnOneList(d, 1);
    var d1 := Handle(d, Window(0, true));
    HandleInv(d, Window(0, true));
    var d2 := Handle(d1, Window(1, true));
    HandleInv(d1, Window(1, true));
    WithoutAbsent([], 1);
    forall j: nat ensures Count(d2.openList, j) > 0 ==> j == 0 || j >= 2 {
      CountWithout(d.openList, 1, j);
      assert Count(d.openList, j) + Count(d.closedList, j) == if j < n then 1 else 0;
    }
  }

  lemma FreshInv(n: nat)
    ensures Inv(Fresh(seq(n, i => i)))
  {
    var order := seq(n, i => i);
    forall i: nat ensures Count(order, i) == if i < n then 1 else 0 {
      CountRange(n, i);
      assert order == seq(n, k => k);
    }
  }

  /** Whatever the number of paths beyond one, two becoming available and all being
      lost again in one step is reported as success with no path. */
  lemma LosingEnvironment(n: nat)
    requires n >= 2
    ensures Inv(Fresh(seq(n, i => i)))
    ensures WronglyZero(HandleAll(Fresh(seq(n, i => i)), Losing(n)))
    ensures !Right(Wait(Fresh(seq(n, i => i)), [Losing(n)]))
  {
    hide Count, Lost, Handle, Closes;
    FreshInv(n);
    var d := Fresh(seq(n, i => i));
    var d1 := Handle(d, Window(0, true));
    var d2 := Handle(d1, Window(1, true));
    LosingStart(n);
    LostRuns(d2, 2);
    var all := Losing(n);
    assert all[0] == Window(0, true) && all[1..][0] == Window(1, true) && all[1..][1..] == Closes(2, n);
    assert HandleAll(d, all) == HandleAll(d1, all[1..]) == HandleAll(d2, Closes(2, n));
  }

  /** Reopening reports success exactly with an active path, for every order of the
      paths and whatever happens, if and only if there is at most one path. */
  lemma ReopenRight(n: nat)
    ensures (forall order: seq<nat>, env: seq<seq<Event>> ::
               |order| == n && Inv(Fresh(order)) ==> Right(Wait(Fresh(order), env)))
       <==> n <= 1
  {
    if n <= 1 {
      forall order: seq<nat>, env: seq<seq<Event>> | |order| == n && Inv(Fresh(order))
        ensures Right(Wait(Fresh(order), env))
      {
        WaitRight(Fresh(order), env);
      }
    } else {
      LosingEnvironment(n);
      assert |seq(n, i => i)| == n;
    }
  }

  /** No more than two events at once. */
  ghost predicate Small(env: seq<seq<Event>>) {
    forall k :: 0 <= k < |env| ==> |env[k]| <= 2
  }

  /** One attempt at a command.  Pathless: reopening reported success with no path,
      and the command is begun without one. */
  datatype Attempt = Done | ReopenFailed(rc: int) | Failed(rc: int) | NeverEnds | Pathless

  /** How many attempts count against the retries. */
  function Counted(trace: seq<Attempt>, paths: nat): nat {
    if trace == [] then 0
    else
      var a := trace[|trace| - 1];
      Counted(trace[..|trace| - 1], paths) + if a.Failed? || (a.ReopenFailed? && paths <= 1) then 1 else 0
  }

  /** The status of an attempt that has failed. */
  function Status(a: Attempt): Outcome {
    if a.Failed? || a.ReopenFailed? then Rc(a.rc) else Waiting
  }

  const W32: int := 0x1_0000_0000
  const W64: int := 0x1_0000_0000_0000_0000

  /** One command: so many blocks from `lba` on, at `off` in the buffer. */
  datatype Frag = Frag(lba: nat, count: nat, off: nat)

  function Frags(lba: nat, off: nat, remaining: nat, max: nat, blksize: nat): seq<Frag>
    requires max > 0
    decreases remaining
  {
    if remaining == 0 then []
    else
      var n := if max > remaining then remaining else max;
      [Frag(lba, n, off)] + Frags((lba + n) % W64, off + blksize * n, remaining - n, max, blksize)
  }

  function Total(frags: seq<Frag>): nat {
    if frags == [] then 0 else frags[0].count + Total(frags[1..])
  }

  /** The fragments follow one another without gap or overlap, on the device and
      in the buffer, and none is empty or too long. */
  ghost predicate Tiles(frags: seq<Frag>, lba: nat, off: nat, max: nat, blksize: nat)
    decreases |frags|
  {
    frags != [] ==>
      && frags[0].lba == lba && frags[0].off == off && 0 < frags[0].count <= max
      && Tiles(frags[1..], lba + frags[0].count, off + blksize * frags[0].count, max, blksize)
  }

  /** A transfer is complete exactly when its length in device blocks does not
      overflow 32 bits. */
  lemma TransferComplete(lba: nat, count: nat, scale: nat, max: nat, blksize: nat)
    requires max > 0 && (lba + count) * scale < W64
    ensures
      var frags := Frags(lba * scale % W64, 0, count * scale % W32, max, blksize);
      Tiles(frags, lba * scale, 0, max, blksize) && (Total(frags) == count * scale <==> count * scale < W32)
  {
    hide Frags, Tiles, Total;
    assert (lba + count) * scale == lba * scale + count * scale;
    assert count * scale >= 0 && lba * scale >= 0;
    BlocksComplete(lba * scale, count * scale, max, blksize);
  }

  lemma BlocksComplete(lba: nat, count: nat, max: nat, blksize: nat)
    requires max > 0 && lba + count < W64
    ensures
      var frags := Frags(lba % W64, 0, count % W32, max, blksize);
      Tiles(frags, lba, 0, max, blksize) && (Total(frags) == count <==> count < W32)
  {
    hide Frags, Tiles, Total;
    FragsTile(lba, 0, count % W32, max, blksize);
  }

  /** Every fragment but the last is as long as the device takes. */
  lemma {:induction false} FragsFull(lba: nat, off: nat, remaining: nat, max: nat, blksize: nat, i: nat)
    requires max > 0
    ensures var frags := Frags(lba, off, remaining, max, blksize);
      i + 1 < |frags| ==> frags[i].count == max
    decreases remaining
  {
    if remaining > 0 {
      var n := if max > remaining then remaining else max;
      var rest := Frags((lba + n) % W64, off + blksize * n, remaining - n, max, blksize);
      if i > 0 {
        FragsFull((lba + n) % W64, off + blksize * n, remaining - n, max, blksize, i - 1);
      }
      assert ([Frag(lba, n, off)] + rest)[1..] == rest;
    }
  }

  lemma {:induction false} FragsTile(lba: nat, off: nat, remaining: nat, max: nat, blksize: nat)
    requires max > 0 && lba + remaining < W64
    ensures Tiles(Frags(lba, off, remaining, max, blksize), lba, off, max, blksize)
    ensures Total(Frags(lba, off, remaining, max, blksize)) == remaining
    decreases remaining
  {
    if remaining > 0 {
      var n := if max > remaining then remaining else max;
      var rest := Frags(lba + n, off + blksize * n, remaining - n, max, blksize);
      FragsTile(lba + n, off + blksize * n, remaining - n, max, blksize);
      assert ([Frag(lba, n, off)] + rest)[1..] == rest;
    }
  }

  class SanDevice {
    var openList: seq<nat>
    var closedList: seq<nat>
    var active: Option<nat>
    var pathRc: seq<int>
    var commandRc: int
    var timer: bool
    /** What is still to happen, and the results of connecting paths and of
        starting commands, by number. */
    var env: seq<seq<Event>>
    const openRc: nat -> int
    const startRc: nat -> int
    var opens: nat
    var starts: nat

    function St(): Dev
      reads this
    {
      Dev(openList, closedList, active, pathRc, commandRc, timer)
    }

    ghost predicate Valid()
      reads this
    {
      Inv(St())
    }

    constructor (paths: nat, env: seq<seq<Event>>, openRc: nat -> int, startRc: nat -> int)
      ensures Valid() && |pathRc| == paths && openList == [] && active == None && !timer && this.env == env
    {
      this.env, this.openRc, this.startRc, opens, starts := env, openRc, startRc, 0, 0;
      openList, closedList, active, commandRc, timer := [], seq(paths, i => i), None, 0, false;
      pathRc := seq(paths, _ => 0);
      new;
      forall i: nat ensures Count(closedList, i) == if i < paths then 1 else 0 { CountRange(paths, i); }
    }

    method SandevCommandClose(rc: int)
      modifies this`timer, this`commandRc
      ensures St() == CommandClose(old(St()), rc)
    {
      timer := false;
      commandRc := rc;
    }

    method SanpathClose(i: nat, rc: int)
      requires Valid() && i < |pathRc|
      modifies this
      ensures Valid() && St() == Close(old(St()), i, rc)
      ensures env == old(env) && opens == old(opens) && starts == old(starts)
    {
      hide Inv, Without;
      CloseInv(St(), i, rc);
      pathRc := pathRc[i := rc];
      openList, closedList := Without(openList, i), Without(closedList, i) + [i];
      if active == Some(i) {
        active := None;
        SandevCommandClose(rc);
      }
    }

    /** Fails as connecting fails, with nothing changed. */
    method SanpathOpen(i: nat) returns (rc: int)
      requires Valid() && i < |pathRc|
      modifies this
      ensures Valid() && rc == openRc(old(opens)) && opens == old(opens) + 1
      ensures St() == if rc == 0 then Opened(old(St()), i) else old(St())
      ensures env == old(env) && starts == old(starts)
    {
      hide Inv, Without;
      OpenedInv(St(), i);
      rc := openRc(opens);
      opens := opens + 1;
      if rc != 0 { return; }
      closedList, openList := Without(closedList, i), Without(openList, i) + [i];
      pathRc := pathRc[i := EINPROGRESS];
    }

    method SanpathStep(i: nat, ready: bool)
      requires Valid() && i < |pathRc|
      modifies this
      ensures St() == StepPath(old(St()), i, ready)
      ensures Valid() <==> !(ready && old(active).None? && i in old(closedList))
      ensures env == old(env) && opens == old(opens) && starts == old(starts)
    {
      hide Inv, Without, Count;
      StepKeepsInv(St(), i, ready);
      if active == Some(i) { return; }
      if !ready { return; }
      StatusInv(St(), i, 0);
      pathRc := pathRc[i := 0];
      if active.None? {
        active := Some(i);
      } else {
        SanpathClose(i, 0);
      }
    }

    method SanpathBlockClose(i: nat, rc: int)
      requires Valid() && i < |pathRc|
      modifies this
      ensures Valid() && St() == Close(old(St()), i, if rc == 0 then ENOTCONN else rc)
      ensures env == old(env) && opens == old(opens) && starts == old(starts)
    {
      SanpathClose(i, if rc == 0 then ENOTCONN else rc);
    }

    method HandleEvent(e: Event)
      requires Valid()
      modifies this
      ensures Valid() && St() == Handle(old(St()), e)
      ensures env == old(env) && opens == old(opens) && starts == old(starts)
    {
      hide Inv, Without, Count, Close;
      match e
      case Window(i, ready) =>
        if i < |pathRc| && i in openList {
          OnOneList(St(), i);
          SanpathStep(i, ready);
        }
      case BlockClose(i, rc) => if i < |pathRc| { SanpathBlockClose(i, rc); }
      case Completed(rc) =>
        CommandInv(St(), rc);
        SandevCommandClose(rc);
      case Expired =>
        CommandInv(St(), ETIMEDOUT);
        if timer { SandevCommandClose(ETIMEDOUT); }
    }

    /** One call of step(): what happens next, if anything ever does. */
    method Step() returns (more: bool)
      requires Valid()
      modifies this
      ensures Valid() && opens == old(opens) && starts == old(starts)
      ensures more == (old(env) != [])
      ensures more ==> env == old(env)[1..] && St() == HandleAll(old(St()), old(env)[0])
      ensures !more ==> env == old(env) && St() == old(St())
    {
      hide Inv, Handle;
      if env == [] { return false; }
      var batch := env[0];
      env := env[1..];
      var n := 0;
      while n < |batch|
        invariant 0 <= n <= |batch| && Valid() && opens == old(opens) && starts == old(starts) && env == old(env)[1..]
        invariant HandleAll(St(), batch[n..]) == HandleAll(old(St()), batch)
      {
        assert batch[n..][0] == batch[n] && batch[n..][1..] == batch[n + 1..];
        HandleEvent(batch[n]);
        n := n + 1;
      }
      return true;
    }

    /** Everything closed, in order, the command included. */
    method SandevRestart(rc: int)
      requires Valid()
      modifies this
      ensures Valid() && openList == [] && active == None && !timer && commandRc == rc
      ensures |pathRc| == |old(pathRc)| == |closedList| && closedList == old(closedList) + old(openList)
      ensures forall i :: 0 <= i < |pathRc| ==> pathRc[i] == if i in old(openList) then rc else old(pathRc[i])
      ensures env == old(env) && opens == old(opens) && starts == old(starts)
    {
      hide Inv, Without, Count;
      while openList != []
        invariant Valid() && |pathRc| == |old(pathRc)|
        invariant closedList + openList == old(closedList) + old(openList)
        invariant forall i :: i in openList ==> i in old(openList)
        invariant forall i :: 0 <= i < |pathRc| && i !in old(openList) ==> pathRc[i] == old(pathRc[i])
        invariant forall i :: 0 <= i < |pathRc| && i in old(openList) ==> pathRc[i] == rc || i in openList
        invariant env == old(env) && opens == old(opens) && starts == old(starts)
        decreases |openList|
      {
        var i := openList[0];
        OnOneList(St(), i);
        WithoutFirst(openList);
        WithoutAbsent(closedList, i);
        MoveFirst(closedList, openList);
        SanpathClose(i, rc);
      }
      ClosedAll(St(), rc);
      active := None;
      SandevCommandClose(rc);
    }

    /** All paths connected, or the failure to connect one of them. */
    method OpenAll() returns (rc: int)
      requires Valid() && openList == [] && active == None && !timer
      modifies this
      ensures Valid() && active == None && !timer && |pathRc| == |old(pathRc)| && commandRc == old(commandRc)
      ensures openList + closedList == old(closedList)
      ensures rc == 0 ==> closedList == [] && forall i :: 0 <= i < |pathRc| ==> pathRc[i] == EINPROGRESS
      ensures rc != 0 ==> old(opens) < opens <= old(opens) + |old(closedList)| && rc == openRc(opens - 1)
      ensures forall k :: old(opens) <= k < opens - 1 ==> openRc(k) == 0
      ensures rc == 0 ==> forall k :: old(opens) <= k < old(opens) + |old(closedList)| ==> openRc(k) == 0
      ensures env == old(env) && starts == old(starts)
    {
      hide Inv, Without, Count;
      ghost var paths := |pathRc|;
      forall i | 0 <= i < paths ensures i in closedList { OnOneList(St(), i); }
      while closedList != []
        invariant Valid() && active == None && !timer && |pathRc| == paths && commandRc == old(commandRc)
        invariant openList + closedList == old(closedList)
        invariant opens == old(opens) + |openList| && forall k :: old(opens) <= k < opens ==> openRc(k) == 0
        invariant forall i :: 0 <= i < paths && i !in closedList ==> pathRc[i] == EINPROGRESS
        invariant env == old(env) && starts == old(starts)
        decreases |closedList|
      {
        var i := closedList[0];
        OnOneList(St(), i);
        WithoutFirst(closedList);
        WithoutAbsent(openList, i);
        MoveFirst(openList, closedList);
        rc := SanpathOpen(i);
        if rc != 0 { return; }
      }
      return 0;
    }

    /** How the wait ends if every path can be connected. */
    ghost function Waited(): End
      reads this
    {
      Wait(Fresh(closedList + openList), env)
    }

    ghost predicate AllConnect()
      reads this
    {
      forall k :: opens <= k < opens + |pathRc| ==> openRc(k) == 0
    }

    /** The status of the first path that cannot be connected. */
    ghost predicate FirstRefusal(from: nat, rc: int) {
      exists k :: from <= k && openRc(k) == rc != 0 && forall j :: from <= j < k ==> openRc(j) == 0
    }

    /** An error means that all is closed.  With one path, or with no more than two
        events at once, zero means an active path; in all, the result is that of
        the wait. */
    method SandevReopen() returns (r: Outcome)
      requires Valid()
      modifies this
      ensures Valid() && |pathRc| == |old(pathRc)| && starts == old(starts) && !r.NoPath?
      ensures |env| <= |old(env)| && (Small(old(env)) ==> Small(env))
      ensures r.Rc? && active.Some? ==> r.rc == 0
      ensures r.Rc? && active.None? ==> openList == []
      ensures r.Rc? && (|pathRc| <= 1 || Small(old(env))) ==> (r.rc == 0 <==> active.Some?)
      ensures old(AllConnect()) ==> r == old(Waited()).r && (r.Rc? ==> active == old(Waited()).d.active)
      ensures old(AllConnect()) && r.Rc? && active.Some? ==> St() == old(Waited()).d
      ensures !old(AllConnect()) ==> r.Rc? && r.rc != 0 && active.None? && FirstRefusal(old(opens), r.rc)
      ensures r.Rc? ==> !timer
      ensures r.Waiting? ==> env == []
    {
      hide Inv, Without, Count, HandleAll;
      ghost var order := closedList + openList;
      SandevRestart(ECONNRESET);
      var rc := OpenAll();
      if rc != 0 {
        SandevRestart(rc);
        return Rc(rc);
      }
      assert St() == Fresh(order);
      WaitsRight(order, env);
      while active.None?
        invariant Valid() && |pathRc| == |old(pathRc)| && starts == old(starts) && !timer
        invariant |env| <= |old(env)| && (Small(old(env)) ==> Small(env))
        invariant Wait(St(), env) == old(Waited())
        decreases |env|
      {
        ghost var d := St();
        ghost var batch := if env == [] then [] else env[0];
        var more := Step();
        if !more { return Waiting; }
        NoTimer(d, batch);
        if openList == [] {
          rc := ENODEV;
          if closedList != [] {
            OnOneList(St(), closedList[0]);
            rc := pathRc[closedList[0]];
          }
          NothingActive(St());
          SandevRestart(rc);
          return Rc(rc);
        }
      }
      return Rc(0);
    }

    /** Wait for the command timer to stop. */
    method Await() returns (more: bool)
      requires Valid()
      modifies this
      ensures Valid() && |pathRc| == |old(pathRc)| && starts == old(starts)
      ensures |env| <= |old(env)| && (Small(old(env)) ==> Small(env))
      ensures more ==> !timer && (old(timer) ==> |env| < |old(env)|)
      ensures !more ==> env == []
    {
      hide Inv, HandleAll;
      while timer
        invariant Valid() && |pathRc| == |old(pathRc)| && starts == old(starts)
        invariant |env| <= |old(env)| && (Small(old(env)) ==> Small(env))
        invariant old(timer) && !timer ==> |env| < |old(env)|
        decreases |env|
      {
        more := Step();
        if !more { return; }
      }
      return true;
    }

    /** One round of the retry loop: reopen if need be, begin the command with a
        path active, and wait for it. */
    method Attempt() returns (a: Attempt)
      requires Valid() && !timer
      modifies this
      ensures Valid() && |pathRc| == |old(pathRc)| && |env| <= |old(env)| && (Small(old(env)) ==> Small(env))
      ensures !a.NeverEnds? ==> !timer
      ensures a.Done? ==> starts == old(starts) + 1 && startRc(old(starts)) == 0 && commandRc == 0 && |env| < |old(env)|
      ensures a.ReopenFailed? ==> a.rc != 0 && starts == old(starts) && |env| < |old(env)|
      ensures a.Failed? ==> a.rc != 0 && starts == old(starts) + 1
      ensures a.Failed? ==> a.rc == if startRc(old(starts)) != 0 then startRc(old(starts)) else commandRc
      ensures a.ReopenFailed? ==> old(active).None?
      ensures a.ReopenFailed? ==> if old(AllConnect()) then Rc(a.rc) == old(Waited()).r else FirstRefusal(old(opens), a.rc)
      ensures a.NeverEnds? ==> starts <= old(starts) + 1 && env == []
      ensures a.Pathless? ==> active.None? && starts == old(starts) && |pathRc| > 1 && !Small(old(env))
    {
      hide Inv, HandleAll, Count, Small;
      if active == None {
        var reopened := SandevReopen();
        if reopened.Waiting? { return NeverEnds; }
        if reopened.rc != 0 {
          ghost var d, batch := St(), if env == [] then [] else env[0];
          ghost var before := env;
          var more := Step();
          if !more { return NeverEnds; }
          if Small(before) { SmallTail(before); }
          NoTimer(d, batch);
          return ReopenFailed(reopened.rc);
        }
      }
      if active.None? { return Pathless; }
      var rc := startRc(starts);
      starts := starts + 1;
      if rc != 0 { return Failed(rc); }
      TimerInv(St());
      timer := true;
      var more := Await();
      if !more { return NeverEnds; }
      return if commandRc == 0 then Done else Failed(commandRc);
    }

    /** A command is tried again until an attempt succeeds or more than `retries` of
        them have counted, and then the status is that of the last.  Failing to reopen
        counts on a device with one path only, so that with more it is tried for as
        long as it takes. */
    method SandevCommand(retries: nat) returns (r: Outcome, ghost trace: seq<Attempt>)
      requires Valid() && !timer
      modifies this
      ensures Valid() && |pathRc| == |old(pathRc)| && |env| <= |old(env)| && (Small(old(env)) ==> Small(env))
      ensures trace != [] && Counted(trace[..|trace| - 1], |pathRc|) <= retries
      ensures starts - old(starts) <= retries + 1 && starts - old(starts) <= |trace|
      ensures |pathRc| <= 1 ==> |trace| <= retries + 1
      ensures r.Rc? ==> !timer
      ensures r == Rc(0) <==> trace[|trace| - 1].Done?
      ensures r == Rc(0) ==> starts > old(starts) && commandRc == 0 && startRc(starts - 1) == 0 && |env| < |old(env)|
      ensures r.Rc? && r.rc != 0 ==> Counted(trace, |pathRc|) == retries + 1 && Status(trace[|trace| - 1]) == r
      ensures r.NoPath? ==> |pathRc| > 1 && !Small(old(env))
      ensures r.Waiting? ==> env == []
    {
      hide Inv, Small;
      var tries, rc := 0, 0;
      trace := [];
      while tries <= retries
        invariant Valid() && !timer && |pathRc| == |old(pathRc)| && |env| <= |old(env)|
        invariant Small(old(env)) ==> Small(env)
        invariant old(starts) <= starts && starts - old(starts) <= tries <= retries + 1 && tries <= |trace|
        invariant |pathRc| <= 1 ==> |trace| == tries
        invariant tries == Counted(trace, |pathRc|) && (tries > 0 ==> trace != [])
        invariant trace != [] ==> rc != 0 && Status(trace[|trace| - 1]) == Rc(rc)
        invariant trace != [] ==> Counted(trace[..|trace| - 1], |pathRc|) <= retries
        decreases |env|, retries + 1 - tries
      {
        ghost var before := trace;
        var a := Attempt();
        trace := trace + [a];
        assert trace[..|trace| - 1] == before;
        match a {
          case NeverEnds => return Waiting, trace;
          case Pathless => return NoPath, trace;
          case Done => return Rc(0), trace;
          case ReopenFailed(e) =>
            rc := e;
            if |pathRc| <= 1 { tries := tries + 1; }
          case Failed(e) =>
            rc := e;
            tries := tries + 1;
        }
      }
      return Rc(rc), trace;
    }

    /** `length` blocks from `start` on, one command for each fragment, as far as the
        commands succeeded. */
    method Transfer(start: nat, length: nat, max: nat, blksize: nat, retries: nat) returns (r: Outcome, done: seq<Frag>)
      requires Valid() && !timer
      modifies this
      ensures Valid() && |pathRc| == |old(pathRc)|
      ensures max > 0 && r == Rc(0) ==> done == Frags(start, 0, length, max, blksize)
      ensures max > 0 && r != Rc(0) ==> done < Frags(start, 0, length, max, blksize)
      ensures max == 0 && length > 0 ==> r != Rc(0) && Total(done) == 0
      ensures r.Rc? ==> !timer
      ensures r.NoPath? ==> |pathRc| > 1 && !Small(old(env))
      ensures r.Waiting? ==> env == []
    {
      hide Inv, Small, Frags, Total, Counted, Status;
      var at: nat, off: nat, n: nat, remaining: nat := start, 0, max, length;
      ghost var all := if max > 0 then Frags(at, off, remaining, max, blksize) else [];
      done := [];
      TotalNone();
      while remaining > 0
        invariant Valid() && !timer && |pathRc| == |old(pathRc)| && (Small(old(env)) ==> Small(env))
        invariant n == max || (remaining == 0 && max > 0)
        invariant max > 0 ==> done + Frags(at, off, remaining, max, blksize) == all
        invariant max == 0 ==> remaining == length && Total(done) == 0
        decreases |env|
      {
        if n > remaining { n := remaining; }
        if max > 0 { FragsStep(at, off, remaining, max, blksize); }
        TotalSnoc(done, Frag(at, n, off));
        ghost var trace;
        r, trace := SandevCommand(retries);
        if r != Rc(0) { return; }
        done := done + [Frag(at, n, off)];
        off := off + blksize * n;
        at := (at + n) % W64;
        remaining := remaining - n;
      }
      if max > 0 { FragsNone(at, off, max, blksize); }
      r := Rc(0);
    }

    /** The fragments of a transfer.  A device that takes no blocks at once never
        completes one. */
    method SandevRw(lba: nat, count: nat, scale: nat, max: nat, blksize: nat, retries: nat)
      returns (r: Outcome, done: seq<Frag>)
      requires Valid() && !timer
      modifies this
      ensures Valid() && |pathRc| == |old(pathRc)|
      ensures max > 0 && r == Rc(0) ==> done == Frags(lba * scale % W64, 0, count * scale % W32, max, blksize)
      ensures max > 0 && r != Rc(0) ==> done < Frags(lba * scale % W64, 0, count * scale % W32, max, blksize)
      ensures max == 0 && count * scale % W32 > 0 ==> r != Rc(0) && Total(done) == 0
      ensures r.Rc? ==> !timer
      ensures r.NoPath? ==> |pathRc| > 1 && !Small(old(env))
      ensures r.Waiting? ==> env == []
    {
      hide Inv, Small, Frags, Total;
      r, done := Transfer(lba * scale % W64, count * scale % W32, max, blksize, retries);
    }
  }

  lemma FragsStep(lba: nat, off: nat, remaining: nat, max: nat, blksize: nat)
    requires max > 0 && remaining > 0
    ensures var n := if max > remaining then remaining else max;
      && off + blksize * n >= 0
      && Frags(lba, off, remaining, max, blksize)
         == [Frag(lba, n, off)] + Frags((lba + n) % W64, off + blksize * n, remaining - n, max, blksize)
  {
  }

  lemma FragsNone(lba: nat, off: nat, max: nat, blksize: nat)
    requires max > 0
    ensures Frags(lba, off, 0, max, blksize) == []
  {
  }

  lemma TotalNone()
    ensures Total([]) == 0
  {
  }

  lemma {:induction false} TotalSnoc(frags: seq<Frag>, f: Frag)
    ensures Total(frags + [f]) == Total(frags) + f.count
  {
    if frags != [] {
      TotalSnoc(frags[1..], f);
      assert (frags + [f])[1..] == frags[1..] + [f];
    }
  }

  lemma SmallTail(env: seq<seq<Event>>)
    requires Small(env) && env != []
    ensures Small(env[1..])
  {
  }

  /** The wait that follows when all paths could be connected. */
  lemma WaitsRight(order: seq<nat>, env: seq<seq<Event>>)
    requires Inv(Fresh(order))
    ensures |order| <= 1 || Small(env) ==> Right(Wait(Fresh(order), env))
  {
    hide Inv, Wait, Right;
    if |order| <= 1 || Small(env) {
      WaitRight(Fresh(order), env);
    }
  }

  lemma StatusInv(d: Dev, i: nat, rc: int)
    requires Inv(d) && i < |d.pathRc|
    ensures Inv(d.(pathRc := d.pathRc[i := rc]))
  {
  }

  lemma TimerInv(d: Dev)
    requires Inv(d)
    ensures Inv(d.(timer := true))
  {
  }

  /** Events only ever stop the timer. */
  lemma {:induction false} NoTimer(d: Dev, batch: seq<Event>)
    ensures HandleAll(d, batch).timer ==> d.timer
    decreases |batch|
  {
    if batch != [] { NoTimer(Handle(d, batch[0]), batch[1..]); }
  }

  /** Two events, if the first makes a path active and the second closes it again,
      leave that path with an error. */
  lemma SmallBatch(d: Dev, batch: seq<Event>)
    requires d.active.None? && AllFailing(d) && |batch| <= 2
    ensures HandleAll(d, batch).active.None? ==> AllFailing(HandleAll(d, batch))
  {
    hide Handle, AllFailing;
    if |batch| == 1 {
      OneEvent(d, batch[0]);
      assert HandleAll(Handle(d, batch[0]), batch[1..]) == Handle(d, batch[0]);
    } else if |batch| == 2 {
      var d1 := Handle(d, batch[0]);
      OneEvent(d, batch[0]);
      assert batch[1..][0] == batch[1] && batch[1..][1..] == [];
      assert HandleAll(d1, batch[1..]) == Handle(d1, batch[1]);
      if d1.active.None? { OneEvent(d1, batch[1]); } else { LostAgain(d, batch[0], batch[1]); }
    }
  }

  lemma LostAgain(d: Dev, e: Event, f: Event)
    requires d.active.None? && AllFailing(d) && Handle(d, e).active.Some?
    ensures Handle(Handle(d, e), f).active.None? ==> AllFailing(Handle(Handle(d, e), f))
  {
    hide Without;
  }

  /** The bound is exact: an error status stays on every closed path for as long as
      no path is active, for all devices and events, up to two events at once and
      no further. */
  lemma BatchBound(n: nat)
    ensures (forall d: Dev, batch: seq<Event> ::
              d.active.None? && AllFailing(d) && |batch| <= n && HandleAll(d, batch).active.None? ==> AllFailing(HandleAll(d, batch)))
       <==> n <= 2
  {
    if n <= 2 {
      forall d: Dev, batch: seq<Event> | d.active.None? && AllFailing(d) && |batch| <= n && HandleAll(d, batch).active.None?
        ensures AllFailing(HandleAll(d, batch))
      {
        SmallBatch(d, batch);
      }
    } else {
      LosingEnvironment(2);
      var d, batch := Fresh(seq(2, i => i)), Losing(2);
      var d' := HandleAll(d, batch);
      assert |batch| == 3 && d'.pathRc[d'.closedList[0]] == 0 && !AllFailing(d');
    }
  }

  lemma NothingActive(d: Dev)
    requires Inv(d) && d.openList == []
    ensures d.active.None?
  {
  }

  lemma WithoutFirst(s: seq<nat>)
    requires s != []
    ensures Without(s, s[0]) == s[1..]
    ensures forall i :: i in s ==> i == s[0] || i in s[1..]
  {
  }

  lemma MoveFirst(a: seq<nat>, b: seq<nat>)
    requires b != []
    ensures a + b == a + [b[0]] + b[1..]
  {
  }

  lemma {:induction false} WithoutAbsent(s: seq<nat>, i: nat)
    requires i !in s
    ensures Without(s, i) == s
  {
    if s != [] { WithoutAbsent(s[1..], i); }
  }

  lemma EmptyCount(s: seq<nat>)
    requires forall i: nat :: Count(s, i) == 0
    ensures s == []
  {
    assert Count(s, if s == [] then 0 else s[0]) == 0;
  }

  lemma {:induction false} TotalCount(s: seq<nat>, n: nat)
    requires forall i: nat :: Count(s, i) == if i < n then 1 else 0
    ensures |s| == n
    decreases n
  {
    if n == 0 {
      EmptyCount(s);
    } else {
      var r := Without(s, n - 1);
      forall i: nat ensures Count(r, i) == if i < n - 1 then 1 else 0 { CountWithout(s, n - 1, i); }
      TotalCount(r, n - 1);
      CountIn(s, n - 1);
      WithoutLength(s, n - 1);
    }
  }

  lemma {:induction false} WithoutLength(s: seq<nat>, i: nat)
    requires i in s
    ensures |Without(s, i)| == |s| - 1
  {
    if s[0] != i { WithoutLength(s[1..], i); }
  }

  /** With nothing open, everything is closed. */
  lemma ClosedAll(d: Dev, rc: int)
    requires Inv(d) && d.openList == []
    ensures |d.closedList| == |d.pathRc|
    ensures Inv(CommandClose(d.(active := None), rc))
  {
    TotalCount(d.closedList, |d.pathRc|);
  }

  lemma CountRange(n: nat, i: nat)
    ensures Count(seq(n, k => k), i) == if i < n then 1 else 0
  {
    if n > 0 {
      CountRange(n - 1, i);
      assert seq(n, k => k) == seq(n - 1, k => k) + [n - 1];
      CountSnoc(seq(n - 1, k => k), n - 1, i);
    }
  }
}
