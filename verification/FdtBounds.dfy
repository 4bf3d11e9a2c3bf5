/** How far a device tree search reaches.  fdt_traverse() measures what is left
    against the size of the whole blob, and the recorded length of the structure
    block is used only when the tree is registered. */
module FdtBounds {
  import opened Arith
  import opened CLib
  import opened Fdt
  import opened FdtLookup

  /** Where the bytes end, as an offset in the structure block, that one step reads
      or hands out. */
  function Reach(f: FDT, pos: Pos): (r: nat)
    ensures r >= pos.offset
  {
    var rem := Remaining(f, pos.offset);
    var token := f.structure + pos.offset;
    if rem < 4 then pos.offset
    else if token + 4 > |f.raw| then pos.offset + 4
    else if Be32(f.raw, token) == BEGIN_NODE then pos.offset + 4 + NameReach(f, token + 4, rem - 4)
    else if Be32(f.raw, token) == PROP && rem >= 12 then pos.offset + 12 + DataReach(f, token + 4, rem - 4)
    else pos.offset + 4
  }

  /** A name is read to its terminator, or as far as it may go. */
  function NameReach(f: FDT, data: nat, rem: nat): nat
    requires data <= |f.raw|
  {
    var max := if data + rem <= |f.raw| then rem else |f.raw| - data;
    var n := StrNLen(f.raw[data..data + max]);
    if n < max then n + 1 else rem
  }

  /** The data of a property is handed out if the property is accepted. */
  function DataReach(f: FDT, data: nat, rem: nat): nat {
    if data + 8 > |f.raw| then 0
    else
      var len := Be32(f.raw, data);
      if rem < 8 + len || Be32(f.raw, data + 4) > f.stringsLen then 0 else len
  }

  /** Every step of the search reads and hands out only bytes of the structure block,
      and compares only names that start in the strings block. */
  ghost predicate StaysInside(f: FDT, pos: Pos, q: Query)
    decreases |f.raw| - pos.offset
  {
    var s := Next(f, pos);
    && Reach(f, pos) <= f.structureLen
    && (s.rc.OK? ==>
      && (Compared(q, s.pos, s.desc) ==> NameInside(f, s.desc))
      && (Compare(f, q, s.pos, s.desc) == Differ ==> StaysInside(f, s.pos, q)))
  }

  predicate NameInside(f: FDT, desc: Desc) {
    desc.name.Some? && desc.data.Some? ==> desc.name.value < f.strings + f.stringsLen
  }

  // ------------------------------------------------------------------------
  // A traversal that checks against the recorded lengths
  // ------------------------------------------------------------------------

  /** One token, or nothing if it runs over the end of the structure block. */
  function Guarded(f: FDT, pos: Pos): (r: Option<Step>)
    requires f.structure + f.structureLen <= |f.raw| && pos.offset <= f.structureLen <= f.len
    ensures r.Some? && r.value.rc.OK? ==> r.value.pos.offset > pos.offset
  {
    var left := f.structureLen - pos.offset;
    var rest := f.len - pos.offset;
    var token := f.structure + pos.offset;
    if rest < 4 then Some(Step(EINVAL, pos, NO_DESC))
    else if left < 4 then None
    else
      var kind := Be32(f.raw, token);
      if kind == BEGIN_NODE then
        var n := StrNLen(f.raw[token + 4..token + left]);
        if n < left - 4 then Some(Pass(pos, n + 1, pos.depth + 1, Desc(Some(token + 4), None)))
        else if left == rest then Some(Step(EINVAL, pos, NO_DESC))
        else None
      else if kind == END_NODE then Some(EndToken(pos))
      else if kind == PROP then GuardedProp(f, pos, left, rest)
      else if kind == NOP then Some(Pass(pos, 0, pos.depth, NO_DESC))
      else Some(Step(EINVAL, pos, NO_DESC))
  }

  function GuardedProp(f: FDT, pos: Pos, left: nat, rest: nat): (r: Option<Step>)
    requires f.structure + pos.offset + left <= |f.raw|
    ensures r.Some? && r.value.rc.OK? ==> r.value.pos.offset > pos.offset
  {
    var token := f.structure + pos.offset;
    if rest < 12 then Some(Step(EINVAL, pos, NO_DESC))
    else if left < 12 then None
    else
      var len, nameOff := Be32(f.raw, token + 4), Be32(f.raw, token + 8);
      if rest < 12 + len || nameOff > f.stringsLen then Some(Step(EINVAL, pos, NO_DESC))
      else if left < 12 + len then None
      else Some(Pass(pos, 8 + len, pos.depth, Desc(Some(f.strings + nameOff), Some(Span(token + 12, len)))))
  }

  ghost predicate CursorOk(f: FDT, pos: Pos) {
    Registered(f) && pos.offset <= f.structureLen && Aligned(pos.offset)
  }

  /** A terminator in the first `k` bytes is the first terminator. */
  lemma PrefixName(b: seq<Byte>, k: nat)
    requires k <= |b|
    ensures StrNLen(b[..k]) < k ==> StrNLen(b) == StrNLen(b[..k])
    ensures StrNLen(b[..k]) == k ==> StrNLen(b) >= k
  {
    assert forall i :: 0 <= i < k ==> b[..k][i] == b[i];
  }

  lemma AlignedBound(a: int, b: int, n: nat)
    requires Aligned(a) && Aligned(b) && a + 4 + n <= b
    ensures a + 4 + RoundUp4(n) <= b && Aligned(a + 4 + RoundUp4(n))
  {
    var x, y, r := b / 4, a / 4, RoundUp4(n) / 4;
    assert b == 4 * x && a == 4 * y && RoundUp4(n) == 4 * r;
  }

  /** A token whose data ends in the block is passed to a place in the block. */
  lemma PassInside(f: FDT, pos: Pos, len: nat, depth: int, desc: Desc)
    requires CursorOk(f, pos) && pos.offset + 4 + len <= f.structureLen
    ensures Pass(pos, len, depth, desc).rc.OK? && CursorOk(f, Pass(pos, len, depth, desc).pos)
  {
    AlignedBound(pos.offset, f.structureLen, len);
  }

  lemma GuardedName(f: FDT, pos: Pos)
    requires CursorOk(f, pos) && pos.offset + 4 <= f.structureLen
    requires Be32(f.raw, f.structure + pos.offset) == BEGIN_NODE
    ensures Guarded(f, pos).Some? <==> Reach(f, pos) <= f.structureLen
    ensures Guarded(f, pos).Some? ==> Next(f, pos) == Guarded(f, pos).value && Next(f, pos).rc != OUTSIDE
    ensures Guarded(f, pos).Some? && Next(f, pos).rc.OK? ==> CursorOk(f, Next(f, pos).pos)
  {
    hide Be32, StrNLen, Pass, Aligned, EndToken, PropToken, GuardedProp, DataReach;
    var data := f.structure + pos.offset + 4;
    var left := f.structureLen - pos.offset;
    var b := f.raw[data..];
    var n := StrNLen(f.raw[data..data + left - 4]);
    assert f.raw[data..data + left - 4] == b[..left - 4];
    assert f.raw[data..data + (|f.raw| - data)] == b;
    assert Remaining(f, pos.offset) == f.len - pos.offset;
    PrefixName(b, left - 4);
    if n < left - 4 {
      PassInside(f, pos, n + 1, pos.depth + 1, Desc(Some(data), None));
    }
  }

  lemma GuardedPropStep(f: FDT, pos: Pos)
    requires CursorOk(f, pos) && pos.offset + 4 <= f.structureLen
    requires Be32(f.raw, f.structure + pos.offset) == PROP
    ensures Guarded(f, pos).Some? <==> Reach(f, pos) <= f.structureLen
    ensures Guarded(f, pos).Some? ==> Next(f, pos) == Guarded(f, pos).value && Next(f, pos).rc != OUTSIDE
    ensures Guarded(f, pos).Some? && Next(f, pos).rc.OK? ==> CursorOk(f, Next(f, pos).pos)
  {
    hide Be32, StrNLen, Pass, Aligned;
    var token := f.structure + pos.offset;
    var left, rest := f.structureLen - pos.offset, f.len - pos.offset;
    assert Remaining(f, pos.offset) == rest;
    if left >= 12 {
      var len, nameOff := Be32(f.raw, token + 4), Be32(f.raw, token + 8);
      if left >= 12 + len {
        PassInside(f, pos, 8 + len, pos.depth, Desc(Some(f.strings + nameOff), Some(Span(token + 12, len))));
      }
    }
  }

  /** The traversal stays in the structure block for one step exactly when the
      checked one accepts the step, and then they agree. */
  lemma GuardedStep(f: FDT, pos: Pos)
    requires CursorOk(f, pos)
    ensures Guarded(f, pos).Some? <==> Reach(f, pos) <= f.structureLen
    ensures Guarded(f, pos).Some? ==> Next(f, pos) == Guarded(f, pos).value && Next(f, pos).rc != OUTSIDE
    ensures Guarded(f, pos).Some? && Next(f, pos).rc.OK? ==> CursorOk(f, Next(f, pos).pos)
  {
    hide Be32, StrNLen, Pass, Aligned;
    assert Remaining(f, pos.offset) == f.len - pos.offset;
    if pos.offset + 4 <= f.structureLen {
      var kind := Be32(f.raw, f.structure + pos.offset);
      if kind == BEGIN_NODE {
        GuardedName(f, pos);
      } else if kind == PROP {
        GuardedPropStep(f, pos);
      } else {
        PassInside(f, pos, 0, pos.depth, NO_DESC);
        PassInside(f, pos, 0, pos.depth - 1, NO_DESC);
      }
    }
  }

  /** A search that gives up at a token over the end of the structure block, and at
      a name that is not in the strings block. */
  function GuardedSearch(f: FDT, pos: Pos, q: Query): Option<Found>
    requires f.structure + f.structureLen <= |f.raw| && f.structureLen <= f.len
    decreases f.structureLen - pos.offset
  {
    if pos.offset > f.structureLen then None
    else
      match Guarded(f, pos)
      case None => None
      case Some(s) =>
        if !s.rc.OK? then Some(Found(s.rc, pos.offset, s.desc))
        else if Compared(q, s.pos, s.desc) && !NameInside(f, s.desc) then None
        else
          match Compare(f, q, s.pos, s.desc)
          case Same => Some(Found(OK, pos.offset, s.desc))
          case Beyond => None
          case Differ => GuardedSearch(f, s.pos, q)
  }

  /** A comparison with a string that ends in the blob ends in it. */
  lemma {:induction false} StrCmpEnds(raw: seq<Byte>, p: nat, e: nat, name: seq<Byte>)
    requires p <= e < |raw| && raw[e] == 0 && 0 !in name
    ensures StrCmp(raw, p, name) != Beyond
    decreases |name|
  {
    if name != [] && raw[p] == name[0] {
      assert name[0] in name;
      StrCmpEnds(raw, p + 1, e, name[1..]);
    }
  }

  /** Where a node's name ends. */
  lemma NodeNameEnds(f: FDT, pos: Pos)
    requires Next(f, pos).rc.OK? && Next(f, pos).desc.name.Some? && Next(f, pos).desc.data.None?
    ensures var p := Next(f, pos).desc.name.value;
      p < |f.raw| && p + StrNLen(f.raw[p..]) < |f.raw|
  {
    hide Be32, StrNLen;
    var data := f.structure + pos.offset + 4;
    var rem := Remaining(f, pos.offset) - 4;
    var max := if data + rem <= |f.raw| then rem else |f.raw| - data;
    assert f.raw[data..data + max] == f.raw[data..][..max];
    PrefixName(f.raw[data..], max);
  }

  /** A name that starts in its block is compared without leaving the blob. */
  lemma NamesEnd(f: FDT, pos: Pos, q: Query)
    requires Registered(f) && 0 !in q.name
    requires Next(f, pos).rc.OK? && NameInside(f, Next(f, pos).desc)
    ensures Compare(f, q, Next(f, pos).pos, Next(f, pos).desc) != Beyond
  {
    hide Next, StrCmp, StrNLen, Aligned;
    var s := Next(f, pos);
    if Compared(q, s.pos, s.desc) {
      var p := s.desc.name.value;
      if s.desc.data.None? {
        NodeNameEnds(f, pos);
        var n := StrNLen(f.raw[p..]);
        assert f.raw[p..][n] == f.raw[p + n];
        StrCmpEnds(f.raw, p, p + n, q.name);
      } else {
        StringsNotEmpty(f, pos);
        StrCmpEnds(f.raw, p, f.strings + f.stringsLen - 1, q.name);
      }
    }
  }

  lemma StringsNotEmpty(f: FDT, pos: Pos)
    requires Next(f, pos).rc.OK? && Next(f, pos).desc.data.Some? && NameInside(f, Next(f, pos).desc)
    ensures f.strings <= Next(f, pos).desc.name.value && f.stringsLen > 0
  {
    hide Be32, StrNLen;
  }

  /** In any registered blob the search stays inside exactly when the checked search
      does not give up; then they find the same, and nothing beyond the blob is read. */
  lemma {:induction false} BoundsExact(f: FDT, pos: Pos, q: Query)
    requires CursorOk(f, pos) && 0 !in q.name
    ensures StaysInside(f, pos, q) <==> GuardedSearch(f, pos, q).Some?
    ensures StaysInside(f, pos, q) ==> GuardedSearch(f, pos, q) == Some(Search(f, pos, q))
    ensures StaysInside(f, pos, q) ==> Search(f, pos, q).rc != OUTSIDE
    decreases |f.raw| - pos.offset
  {
    hide Next, Guarded, Reach, Compare, Aligned, Compared, NameInside;
    GuardedStep(f, pos);
    var s := Next(f, pos);
    if Reach(f, pos) <= f.structureLen {
      if s.rc.OK? && NameInside(f, s.desc) {
        NamesEnd(f, pos, q);
      }
      if s.rc.OK? && Compare(f, q, s.pos, s.desc) == Differ {
        BoundsExact(f, s.pos, q);
      }
      if !Compared(q, s.pos, s.desc) {
        NotCompared(f, q, s);
      }
    }
  }

  lemma NotCompared(f: FDT, q: Query, s: Step)
    requires !Compared(q, s.pos, s.desc)
    ensures Compare(f, q, s.pos, s.desc) == Differ
  {
  }

  // ------------------------------------------------------------------------
  // Serialised trees are read inside
  // ------------------------------------------------------------------------

  lemma ReachToken(f: FDT, o: nat, d: int, token: nat)
    requires token < W32 && token != BEGIN_NODE && token != PROP && At(f, o, B32(token))
    ensures Reach(f, Pos(o, d)) <= f.structureLen
  {
    hide B32, Be32;
    assert B32(token) + [] == B32(token);
    TokenAt(f, o, token, []);
  }

  lemma ReachBegin(f: FDT, o: nat, d: int, name: seq<Byte>)
    requires At(f, o, Header(name)) && 0 !in name
    ensures Reach(f, Pos(o, d)) <= f.structureLen
  {
    hide Aligned, B32, Be32, StrNLen, DataReach;
    HeaderAligned(name);
    var tail := name + [0] + Pad(|name| + 1);
    assert Header(name) == B32(BEGIN_NODE) + tail;
    TokenAt(f, o, BEGIN_NODE, tail);
    HeaderRead(f, o, name);
    var data := f.structure + o + 4;
    assert f.raw[data..data + (|f.raw| - data)] == f.raw[data..];
  }

  lemma ReachProp(f: FDT, o: nat, d: int, t: Item)
    requires t.Prop? && Encodable(t, f.stringsLen) && At(f, o, Ser(t, f.stringsLen))
    ensures Reach(f, Pos(o, d)) <= f.structureLen && NameInside(f, DescOf(f, o, t))
  {
    hide B32, Be32, StrNLen, Ser, NameReach;
    PropRead(f, o, t);
    assert Remaining(f, o) == f.len - o;
  }

  lemma InsideStep(f: FDT, pos: Pos, p: Pos, desc: Desc, q: Query)
    requires Next(f, pos) == Step(OK, p, desc) && Compare(f, q, p, desc) == Differ
    requires Reach(f, pos) <= f.structureLen && NameInside(f, desc)
    ensures StaysInside(f, pos, q) <==> StaysInside(f, p, q)
  {
    hide Next, Compare, Compared, Reach;
  }

  lemma InsideStops(f: FDT, pos: Pos, q: Query)
    requires Reach(f, pos) <= f.structureLen
    requires Next(f, pos).rc.OK? ==>
      NameInside(f, Next(f, pos).desc) && Compare(f, q, Next(f, pos).pos, Next(f, pos).desc) == Same
    ensures StaysInside(f, pos, q)
  {
    hide Next, Compare, Compared, Reach;
  }

  lemma {:induction false} SkipInside(f: FDT, o: nat, t: Item, d: nat, q: Query)
    requires Encodable(t, f.stringsLen) && At(f, o, Ser(t, f.stringsLen)) && 0 !in q.name
    requires Registered(f) && !(d == 0 && Wanted(f, q, t))
    ensures StaysInside(f, Pos(o, d), q) <==> StaysInside(f, Pos(o + |Ser(t, f.stringsLen)|, d), q)
    decreases t, 1
  {
    hide Aligned, Encodable, Next, At, Header, B32, SerAll, Ser, Registered, AllEncodable, StrCmp, Wanted, StaysInside, Reach;
    if t.Nop? {
      SerNop(f.stringsLen);
      NextNop(f, o, d);
      ReachToken(f, o, d, NOP);
      InsideStep(f, Pos(o, d), Pos(o + 4, d), NO_DESC, q);
    } else if t.Prop? {
      NextProp(f, o, d, t);
      var end := o + |Ser(t, f.stringsLen)|;
      PropCompared(f, o, d, t, q, end);
      ReachProp(f, o, d, t);
      InsideStep(f, Pos(o, d), Pos(end, d), DescOf(f, o, t), q);
    } else {
      NodeParts(f, o, t);
      var h, c := |Header(t.name)|, |SerAll(t.items, f.stringsLen)|;
      NextBegin(f, o, d, t.name);
      NodeCompared(f, o, d, t, q, o + h);
      ReachBegin(f, o, d, t.name);
      InsideStep(f, Pos(o, d), Pos(o + h, d + 1), DescOf(f, o, t), q);
      SkipAllInside(f, o + h, t.items, d + 1, q);
      NextEnd(f, o + h + c, d + 1);
      ReachToken(f, o + h + c, d + 1, END_NODE);
      InsideStep(f, Pos(o + h + c, d + 1), Pos(o + h + c + 4, d), NO_DESC, q);
    }
  }

  lemma {:induction false} SkipAllInside(f: FDT, o: nat, ts: seq<Item>, d: nat, q: Query)
    requires AllEncodable(ts, f.stringsLen) && At(f, o, SerAll(ts, f.stringsLen)) && d > 0
    requires Registered(f) && 0 !in q.name
    ensures StaysInside(f, Pos(o, d), q) <==> StaysInside(f, Pos(o + |SerAll(ts, f.stringsLen)|, d), q)
    decreases ts, 0
  {
    hide Aligned, Encodable, Ser, SerAll, StaysInside, At, Registered, AllEncodable;
    if ts == [] {
      SerAllEmpty(f.stringsLen);
    } else {
      ItemsParts(f, o, ts);
      SkipInside(f, o, ts[0], d, q);
      SkipAllInside(f, o + |Ser(ts[0], f.stringsLen)|, ts[1..], d, q);
    }
  }

  lemma WantedInside(f: FDT, o: nat, t: Item, q: Query)
    requires Encodable(t, f.stringsLen) && At(f, o, Ser(t, f.stringsLen)) && 0 !in q.name
    requires Registered(f) && Wanted(f, q, t)
    ensures StaysInside(f, Pos(o, 0), q)
  {
    hide Aligned, Encodable, Next, At, Header, B32, SerAll, Ser, Registered, AllEncodable, StrCmp, Compare, StaysInside, Reach;
    if t.Prop? {
      NextProp(f, o, 0, t);
      PropCompared(f, o, 0, t, q, o + |Ser(t, f.stringsLen)|);
      ReachProp(f, o, 0, t);
    } else {
      NodeParts(f, o, t);
      NextBegin(f, o, 0, t.name);
      NodeCompared(f, o, 0, t, q, o + |Header(t.name)|);
      ReachBegin(f, o, 0, t.name);
    }
    InsideStops(f, Pos(o, 0), q);
  }

  lemma {:induction false} ScanInside(f: FDT, o: nat, ts: seq<Item>, q: Query)
    requires AllEncodable(ts, f.stringsLen) && Registered(f) && 0 !in q.name
    requires At(f, o, SerAll(ts, f.stringsLen)) && At(f, o + |SerAll(ts, f.stringsLen)|, B32(END_NODE))
    ensures StaysInside(f, Pos(o, 0), q)
    decreases ts
  {
    hide Aligned, Encodable, Next, Ser, SerAll, At, Registered, B32, AllEncodable, Wanted, StaysInside, Reach;
    if ts == [] {
      SerAllEmpty(f.stringsLen);
      NextEnd(f, o, 0);
      ReachToken(f, o, 0, END_NODE);
      InsideStops(f, Pos(o, 0), q);
    } else {
      ItemsParts(f, o, ts);
      if Wanted(f, q, ts[0]) {
        WantedInside(f, o, ts[0], q);
      } else {
        SkipInside(f, o, ts[0], 0, q);
        ScanInside(f, o + |Ser(ts[0], f.stringsLen)|, ts[1..], q);
      }
    }
  }

  /** A search of any node of a serialised tree stays in the structure and strings
      blocks, whatever it is for and whatever else is in the blob. */
  lemma TreeStaysInside(f: FDT, o: nat, t: Item, q: Query)
    requires t.Node? && Encodable(t, f.stringsLen) && At(f, o, Ser(t, f.stringsLen))
    requires Registered(f) && 0 !in q.name
    ensures StaysInside(f, Pos(o, -1), q)
  {
    hide Aligned, Encodable, Next, Ser, SerAll, Header, B32, At, Registered, AllEncodable, Wanted, StaysInside, Reach;
    NodeParts(f, o, t);
    NextBegin(f, o, -1, t.name);
    var h := |Header(t.name)|;
    NodeCompared(f, o, -1, t, q, o + h);
    ReachBegin(f, o, -1, t.name);
    InsideStep(f, Pos(o, -1), Pos(o + h, 0), DescOf(f, o, t), q);
    ScanInside(f, o + h, t.items, q);
  }

  // ------------------------------------------------------------------------
  // Blobs that are read beyond their end
  // ------------------------------------------------------------------------

  /** The blob with everything from its structure block on replaced by NOP tokens. */
  function AllNops(f: FDT): FDT
    requires Registered(f)
  {
    f.(raw := seq(f.len, i requires 0 <= i < f.len =>
         if i < f.structure then f.raw[i] else if i % 4 == 3 then 4 else 0),
       stringsLen := 0)
  }

  /** If there is a token at offset `o`, it is a NOP. */
  ghost predicate NopAt(f: FDT, o: nat) {
    Aligned(o) && f.structure + o + 4 <= |f.raw| ==> Be32(f.raw, f.structure + o) == NOP
  }

  /** Whatever the layout, registration does not keep a search inside the blob: NOP
      tokens are followed past its end. */
  lemma NopsLeaveTheBlob(f: FDT, q: Query)
    requires Registered(f) && f.structure > 0
    ensures Registered(AllNops(f))
    ensures Search(AllNops(f), Pos(0, -1), q).rc == OUTSIDE
  {
    hide Search;
    NopsFrom(AllNops(f), 0, q);
  }

  lemma {:induction false} NopsFrom(f: FDT, o: nat, q: Query)
    requires Registered(f) && f.structure > 0 && Aligned(o) && f.structure + o <= f.len
    requires forall i: nat :: NopAt(f, i)
    ensures Search(f, Pos(o, -1), q).rc == OUTSIDE
    decreases |f.raw| - o
  {
    hide Be32, StrNLen;
    assert Remaining(f, o) == f.len - o;
    if f.structure + o + 4 <= |f.raw| {
      assert NopAt(f, o);
      PassNone(Pos(o, -1), -1, NO_DESC);
      NopsFrom(f, o + 4, q);
    }
  }

  function Words(ws: seq<nat>): (b: seq<Byte>)
    requires forall i :: 0 <= i < |ws| ==> ws[i] < W32
    ensures |b| == 4 * |ws|
  {
    if ws == [] then [] else B32(ws[0]) + Words(ws[1..])
  }

  lemma {:induction false} WordAt(ws: seq<nat>, i: nat)
    requires i < |ws| && forall i :: 0 <= i < |ws| ==> ws[i] < W32
    ensures Be32(Words(ws), 4 * i) == ws[i]
  {
    if i > 0 {
      WordAt(ws[1..], i - 1);
    }
  }

  /** A header and one NOP token: accepted, and read beyond its end. */
  lemma NopBlobLeaves(q: Query)
    ensures var blob := Words([MAGIC, 44, 40, 44, 40, 17, VERSION, 0, 0, 4, NOP]);
      var f := FDT(blob, 44, 40, 4, 44, 0);
      HeaderOk(blob) && Be32(blob, 4) == |blob| && Registered(f) && Search(f, Pos(0, -1), q).rc == OUTSIDE
  {
    hide Be32, Search, B32, Words;
    var ws := [MAGIC, 44, 40, 44, 40, 17, VERSION, 0, 0, 4, NOP];
    WordAt(ws, 0);
    WordAt(ws, 1);
    WordAt(ws, 2);
    WordAt(ws, 3);
    WordAt(ws, 6);
    WordAt(ws, 8);
    WordAt(ws, 9);
    WordAt(ws, 10);
    var f := FDT(Words(ws), 44, 40, 4, 44, 0);
    forall o: nat ensures NopAt(f, o) {
      if Aligned(o) && 40 + o + 4 <= 44 {
        assert o == 0;
      }
    }
    NopsFrom(f, 0, q);
  }

  /** A property name at the very end of the strings block is accepted, and comparing
      it leaves the blob when the strings block is last in it. */
  lemma NameAtEndLeaves(f: FDT, o: nat, name: seq<Byte>, want: seq<Byte>)
    requires 0 !in name && f.strings + f.stringsLen == f.len < W32
    requires At(f, o, Header(name) + (B32(PROP) + B32(0) + B32(f.stringsLen)))
    ensures Property(f, o, want).rc == OUTSIDE
  {
    hide Aligned, B32, Be32, StrNLen, Header, StrCmp, Next;
    HeaderAligned(name);
    var h := |Header(name)|;
    AtSplit(f, o, Header(name), B32(PROP) + B32(0) + B32(f.stringsLen));
    NextBegin(f, o, -1, name);
    SearchStep(f, Pos(o, -1), Pos(o + h, 0), Desc(Some(f.structure + o + 4), None), WantProperty(want));
    EmptyPropAt(f, o + h, 0);
    NameBeyond(f, want);
  }

  lemma NameBeyond(f: FDT, want: seq<Byte>)
    requires |f.raw| == f.len == f.strings + f.stringsLen
    ensures StrCmp(f.raw, f.strings + f.stringsLen, want) == Beyond
  {
  }

  lemma EmptyPropAt(f: FDT, o: nat, d: int)
    requires f.stringsLen < W32 && At(f, o, B32(PROP) + B32(0) + B32(f.stringsLen))
    ensures Next(f, Pos(o, d)) == Step(OK, Pos(o + 12, d),
                                       Desc(Some(f.strings + f.stringsLen), Some(Span(f.structure + o + 12, 0))))
  {
    hide B32, Be32, StrNLen;
    var p := f.structure + o;
    SliceSplit(f.raw, p, B32(PROP) + B32(0), B32(f.stringsLen));
    SliceSplit(f.raw, p, B32(PROP), B32(0));
    Be32Of(f, p, PROP);
    Be32Of(f, p + 4, 0);
    Be32Of(f, p + 8, f.stringsLen);
    assert Remaining(f, o) == f.len - o;
    assert RoundUp4(8) == 8;
  }
}
