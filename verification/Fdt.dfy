/** Lookup in a flattened device tree (the structure block of section 5.4 of the
    Devicetree Specification): a cursor that only counts depth. */
module Fdt {
  import opened Arith
  import opened CLib

  /** OUTSIDE is no status of the code: it marks a step that reads memory beyond the
      blob, or wraps its 32-bit offset, and of which nothing more can be said. */
  datatype Rc = OK | ENOENT | EINVAL | OUTSIDE

  const BEGIN_NODE: nat := 1
  const END_NODE: nat := 2
  const PROP: nat := 3
  const NOP: nat := 4

  /** One more than the largest unsigned int. */
  const W32: nat := 0x1_0000_0000

  /** The blob in memory, and what its header says of it. */
  datatype FDT = FDT(raw: seq<Byte>, len: nat, structure: nat, structureLen: nat, strings: nat, stringsLen: nat)

  predicate Aligned(n: int) {
    n % 4 == 0
  }

  /** What register_fdt() has checked: both blocks are in the blob, the structure
      block is in units of tokens, the strings block is empty or ends in a NUL. */
  ghost predicate Registered(f: FDT) {
    && |f.raw| == f.len < W32
    && f.structure + f.structureLen <= f.len && Aligned(f.structure) && Aligned(f.structureLen)
    && f.strings + f.stringsLen <= f.len
    && (f.stringsLen > 0 ==> f.raw[f.strings + f.stringsLen - 1] == 0)
  }

  datatype Pos = Pos(offset: nat, depth: int)

  datatype Span = Span(at: nat, len: nat)

  /** A lexical descriptor: where the name and the data are in the blob, if the
      token has them. */
  datatype Desc = Desc(name: Option<nat>, data: Option<Span>)

  const NO_DESC := Desc(None, None)

  datatype Step = Step(rc: Rc, pos: Pos, desc: Desc)

  /** strnlen(). */
  function StrNLen(b: seq<Byte>): (n: nat)
    ensures n <= |b|
    ensures n < |b| ==> b[n] == 0
    ensures forall i :: 0 <= i < n ==> b[i] != 0
  {
    if b == [] || b[0] == 0 then 0 else 1 + StrNLen(b[1..])
  }

  /** A NUL-terminated string in memory. */
  function CStrAt(raw: seq<Byte>, p: nat): seq<Byte>
    requires p <= |raw|
  {
    raw[p..p + StrNLen(raw[p..])]
  }

  datatype Cmp = Same | Differ | Beyond

  /** strcmp() of the string at `p` with `name`: it stops at the first difference,
      and is Beyond if the blob ends before one. */
  function StrCmp(raw: seq<Byte>, p: nat, name: seq<Byte>): Cmp
    decreases |name|
  {
    if p >= |raw| then Beyond
    else if name == [] then (if raw[p] == 0 then Same else Differ)
    else if raw[p] != name[0] then Differ
    else StrCmp(raw, p + 1, name[1..])
  }

  /** Whether the terminated string at `p` is `name`, without a read beyond it. */
  lemma {:induction false} StrCmpIs(raw: seq<Byte>, p: nat, s: seq<Byte>, name: seq<Byte>)
    requires p + |s| < |raw| && raw[p..p + |s|] == s && raw[p + |s|] == 0 && 0 !in s && 0 !in name
    ensures StrCmp(raw, p, name) == if s == name then Same else Differ
    decreases |name|
  {
    if s != [] {
      assert raw[p] == s[0] && s[0] in s;
    }
    if s != [] && name != [] && s[0] == name[0] {
      assert raw[p + 1..p + |s|] == s[1..];
      StrCmpIs(raw, p + 1, s[1..], name[1..]);
      assert s == [s[0]] + s[1..] && name == [name[0]] + name[1..];
    } else if s == [] && name != [] {
      assert name[0] in name;
    }
  }

  function Be32(raw: seq<Byte>, p: nat): (n: nat)
    requires p + 4 <= |raw|
    ensures n < W32
  {
    ((raw[p] as int * 256 + raw[p + 1]) * 256 + raw[p + 2]) * 256 + raw[p + 3]
  }

  function RoundUp4(n: nat): (r: nat)
    ensures n <= r < n + 4 && r % 4 == 0
  {
    (n + 3) / 4 * 4
  }

  /** The space that fdt_traverse() takes to be left: an unsigned difference, from
      the size of the whole blob. */
  function Remaining(f: FDT, offset: nat): (n: nat) {
    (f.len - offset) % WORD
  }

  /** A token and `len` bytes after it are passed. */
  function Pass(pos: Pos, len: nat, depth: int, desc: Desc): (r: Step)
    ensures r.rc.OK? ==> pos.offset + 4 + len <= r.pos.offset < pos.offset + 8 + len && r.pos.offset < W32
  {
    var offset := pos.offset + 4 + RoundUp4(len);
    if offset < W32 then Step(OK, Pos(offset, depth), desc) else Step(OUTSIDE, pos, NO_DESC)
  }

  /** FDT_BEGIN_NODE: a name and its terminator follow. */
  function BeginToken(f: FDT, pos: Pos, rem: nat): (r: Step)
    requires f.structure + pos.offset + 4 <= |f.raw|
    ensures r.rc.OK? ==> r.pos.offset > pos.offset
  {
    var data := f.structure + pos.offset + 4;
    var max := if data + rem <= |f.raw| then rem else |f.raw| - data;
    var n := StrNLen(f.raw[data..data + max]);
    if n < max then Pass(pos, n + 1, pos.depth + 1, Desc(Some(data), None))
    else if max < rem then Step(OUTSIDE, pos, NO_DESC)
    else Step(EINVAL, pos, NO_DESC)
  }

  /** FDT_END_NODE. */
  function EndToken(pos: Pos): (r: Step)
    ensures r.rc.OK? ==> r.pos.offset > pos.offset
  {
    if pos.depth < 0 then Step(EINVAL, pos, NO_DESC)
    else if pos.depth == 0 then Step(ENOENT, Pos(pos.offset, -1), NO_DESC)
    else Pass(pos, 0, pos.depth - 1, NO_DESC)
  }

  /** FDT_PROP: length, name offset and data follow. */
  function PropToken(f: FDT, pos: Pos, rem: nat): (r: Step)
    requires f.structure + pos.offset + 4 <= |f.raw|
    ensures r.rc.OK? ==> r.pos.offset > pos.offset
  {
    var data := f.structure + pos.offset + 4;
    if rem < 8 then Step(EINVAL, pos, NO_DESC)
    else if data + 8 > |f.raw| then Step(OUTSIDE, pos, NO_DESC)
    else
      var len := Be32(f.raw, data);
      var nameOff := Be32(f.raw, data + 4);
      if rem < 8 + len || nameOff > f.stringsLen then Step(EINVAL, pos, NO_DESC)
      else Pass(pos, 8 + len, pos.depth, Desc(Some(f.strings + nameOff), Some(Span(data + 8, len))))
  }

  /** fdt_traverse(): one token. */
  function Next(f: FDT, pos: Pos): (r: Step)
    ensures r.rc.OK? ==> pos.offset < r.pos.offset && pos.offset < |f.raw|
  {
    var rem := Remaining(f, pos.offset);
    if rem < 4 then Step(EINVAL, pos, NO_DESC)
    else if f.structure + pos.offset + 4 > |f.raw| then Step(OUTSIDE, pos, NO_DESC)
    else
      var token := Be32(f.raw, f.structure + pos.offset);
      if token == BEGIN_NODE then BeginToken(f, pos, rem - 4)
      else if token == END_NODE then EndToken(pos)
      else if token == PROP then PropToken(f, pos, rem - 4)
      else if token == NOP then Pass(pos, 0, pos.depth, NO_DESC)
      else Step(EINVAL, pos, NO_DESC)
  }

  /** What a search is for: fdt_child() wants a node one level down, fdt_property()
      a property of the node itself. */
  datatype Query = WantChild(name: seq<Byte>) | WantProperty(name: seq<Byte>)

  /** The token is one whose name is compared. */
  predicate Compared(q: Query, pos: Pos, desc: Desc) {
    && desc.name.Some?
    && (q.WantChild? ==> pos.depth == 1 && desc.data.None?)
    && (q.WantProperty? ==> pos.depth == 0 && desc.data.Some?)
  }

  function Compare(f: FDT, q: Query, pos: Pos, desc: Desc): Cmp {
    if Compared(q, pos, desc) then StrCmp(f.raw, desc.name.value, q.name) else Differ
  }

  /** Status, offset of the last token looked at, and its descriptor. */
  datatype Found = Found(rc: Rc, offset: nat, desc: Desc)

  /** The search loops of fdt_child() and fdt_property(). */
  function Search(f: FDT, pos: Pos, q: Query): (r: Found)
    ensures r.rc.OK? ==> pos.offset <= r.offset < |f.raw|
    decreases |f.raw| - pos.offset
  {
    var s := Next(f, pos);
    if !s.rc.OK? then Found(s.rc, pos.offset, s.desc)
    else
      match Compare(f, q, s.pos, s.desc)
      case Same => Found(OK, pos.offset, s.desc)
      case Beyond => Found(OUTSIDE, pos.offset, NO_DESC)
      case Differ => Search(f, s.pos, q)
  }

  function Child(f: FDT, offset: nat, name: seq<Byte>): Found {
    Search(f, Pos(offset, -1), WantChild(name))
  }

  function Property(f: FDT, offset: nat, name: seq<Byte>): Found {
    Search(f, Pos(offset, -1), WantProperty(name))
  }

  // ------------------------------------------------------------------------
  // Trees and their serialisation
  // ------------------------------------------------------------------------

  /** What a node contains, in order; tokens to be ignored may be anywhere. */
  datatype Item =
    | Nop
    | Prop(nameOff: nat, data: seq<Byte>)
    | Node(name: seq<Byte>, items: seq<Item>)

  function Zeros(n: nat): (z: seq<Byte>)
    ensures |z| == n
  {
    seq(n, _ => 0)
  }

  function B32(n: nat): (b: seq<Byte>)
    requires n < W32
    ensures |b| == 4
  {
    var a := n / 256;
    var b := a / 256;
    [b / 256, b % 256, a % 256, n % 256]
  }

  function Pad(n: nat): seq<Byte> {
    Zeros(RoundUp4(n) - n)
  }

  /** Names have no NUL or lie in the strings block, and numbers fit their fields. */
  ghost predicate Encodable(t: Item, stringsLen: nat)
    decreases t
  {
    match t
    case Nop => true
    case Prop(nameOff, data) => nameOff < stringsLen && nameOff < W32 && |data| < W32
    case Node(name, items) => 0 !in name && forall i :: 0 <= i < |items| ==> Encodable(items[i], stringsLen)
  }

  ghost predicate AllEncodable(ts: seq<Item>, stringsLen: nat) {
    forall i :: 0 <= i < |ts| ==> Encodable(ts[i], stringsLen)
  }

  function Header(name: seq<Byte>): seq<Byte> {
    B32(BEGIN_NODE) + name + [0] + Pad(|name| + 1)
  }

  ghost function Ser(t: Item, stringsLen: nat): (b: seq<Byte>)
    requires Encodable(t, stringsLen)
    decreases t, 1
  {
    match t
    case Nop => B32(NOP)
    case Prop(nameOff, data) => B32(PROP) + B32(|data|) + B32(nameOff) + data + Pad(|data|)
    case Node(name, items) => Header(name) + SerAll(items, stringsLen) + B32(END_NODE)
  }

  ghost function SerAll(ts: seq<Item>, stringsLen: nat): (b: seq<Byte>)
    requires AllEncodable(ts, stringsLen)
    decreases ts, 0
  {
    if ts == [] then [] else Ser(ts[0], stringsLen) + SerAll(ts[1..], stringsLen)
  }

  lemma HeaderAligned(name: seq<Byte>)
    ensures |Header(name)| == 4 + RoundUp4(|name| + 1) && Aligned(|Header(name)|)
  {
  }

  lemma {:induction false} SerAligned(t: Item, stringsLen: nat)
    requires Encodable(t, stringsLen)
    ensures Aligned(|Ser(t, stringsLen)|) && |Ser(t, stringsLen)| >= 4
    decreases t, 1
  {
    if t.Node? {
      HeaderAligned(t.name);
      SerAllAligned(t.items, stringsLen);
      hide Header, SerAll, AllEncodable;
      AlignedSum(|Header(t.name)|, |SerAll(t.items, stringsLen)|);
    } else if t.Prop? {
      assert |Ser(t, stringsLen)| == 12 + RoundUp4(|t.data|);
    }
  }

  lemma {:induction false} SerAllAligned(ts: seq<Item>, stringsLen: nat)
    requires AllEncodable(ts, stringsLen)
    ensures Aligned(|SerAll(ts, stringsLen)|)
    decreases ts, 0
  {
    if ts != [] {
      SerAligned(ts[0], stringsLen);
      SerAllAligned(ts[1..], stringsLen);
      hide Ser, Encodable;
      AlignedSum(|Ser(ts[0], stringsLen)|, |SerAll(ts[1..], stringsLen)|);
    }
  }

  lemma AlignedSum(x: int, y: int)
    requires Aligned(x) && Aligned(y)
    ensures Aligned(x + y)
  {
  }

  /** The bytes `b` are in the structure block at offset `o`. */
  ghost predicate At(f: FDT, o: nat, b: seq<Byte>) {
    && Registered(f) && Aligned(o) && o + |b| <= f.structureLen
    && f.raw[f.structure + o..f.structure + o + |b|] == b
  }

  lemma AtSplit(f: FDT, o: nat, a: seq<Byte>, b: seq<Byte>)
    requires At(f, o, a + b) && Aligned(|a|)
    ensures At(f, o, a) && At(f, o + |a|, b)
  {
    SliceSplit(f.raw, f.structure + o, a, b);
    AlignedSum(o, |a|);
  }

  lemma AtSplit3(f: FDT, o: nat, a: seq<Byte>, b: seq<Byte>, c: seq<Byte>)
    requires At(f, o, a + b + c) && Aligned(|a|) && Aligned(|b|)
    ensures At(f, o, a) && At(f, o + |a|, b) && At(f, o + |a| + |b|, c)
  {
    hide At, Aligned;
    assert a + b + c == a + (b + c);
    AtSplit(f, o, a, b + c);
    AtSplit(f, o + |a|, b, c);
  }

  lemma SliceSplit(raw: seq<Byte>, s: nat, a: seq<Byte>, b: seq<Byte>)
    requires s + |a| + |b| <= |raw| && raw[s..s + |a| + |b|] == a + b
    ensures raw[s..s + |a|] == a && raw[s + |a|..s + |a| + |b|] == b
  {
    var w := raw[s..s + |a| + |b|];
    assert raw[s..s + |a|] == w[..|a|];
    assert raw[s + |a|..s + |a| + |b|] == w[|a|..];
  }

  lemma Be32Of(f: FDT, p: nat, n: nat)
    requires n < W32 && p + 4 <= |f.raw| && f.raw[p..p + 4] == B32(n)
    ensures Be32(f.raw, p) == n
  {
    assert f.raw[p] == f.raw[p..p + 4][0] && f.raw[p + 1] == f.raw[p..p + 4][1]
        && f.raw[p + 2] == f.raw[p..p + 4][2] && f.raw[p + 3] == f.raw[p..p + 4][3];
  }

  // ------------------------------------------------------------------------
  // One token of a serialised tree
  // ------------------------------------------------------------------------

  lemma TokenAt(f: FDT, o: nat, n: nat, rest: seq<Byte>)
    requires n < W32 && At(f, o, B32(n) + rest)
    ensures Remaining(f, o) == f.len - o >= 4 && f.structure + o + 4 <= |f.raw|
    ensures Be32(f.raw, f.structure + o) == n
  {
    SliceSplit(f.raw, f.structure + o, B32(n), rest);
    Be32Of(f, f.structure + o, n);
  }

  lemma PassNone(pos: Pos, depth: int, desc: Desc)
    requires pos.offset + 4 < W32
    ensures Pass(pos, 0, depth, desc) == Step(OK, Pos(pos.offset + 4, depth), desc)
  {
  }

  lemma NextNop(f: FDT, o: nat, d: int)
    requires At(f, o, B32(NOP))
    ensures Next(f, Pos(o, d)) == Step(OK, Pos(o + 4, d), NO_DESC)
  {
    hide Be32, B32, StrNLen;
    assert B32(NOP) + [] == B32(NOP);
    TokenAt(f, o, NOP, []);
    PassNone(Pos(o, d), d, NO_DESC);
  }

  lemma NextEnd(f: FDT, o: nat, d: int)
    requires At(f, o, B32(END_NODE)) && d >= 0
    ensures d == 0 ==> Next(f, Pos(o, d)) == Step(ENOENT, Pos(o, -1), NO_DESC)
    ensures d > 0 ==> Next(f, Pos(o, d)) == Step(OK, Pos(o + 4, d - 1), NO_DESC)
  {
    hide Be32, B32, StrNLen;
    assert B32(END_NODE) + [] == B32(END_NODE);
    TokenAt(f, o, END_NODE, []);
    PassNone(Pos(o, d), d - 1, NO_DESC);
  }

  lemma StrNLenIs(b: seq<Byte>, name: seq<Byte>)
    requires |name| < |b| && b[..|name|] == name && b[|name|] == 0 && 0 !in name
    ensures StrNLen(b) == |name|
  {
  }

  /** A node name followed by its terminator is read back. */
  lemma NameRead(raw: seq<Byte>, data: nat, name: seq<Byte>, pad: seq<Byte>)
    requires data + |name| + 1 + |pad| <= |raw| && 0 !in name
    requires raw[data..data + |name| + 1 + |pad|] == name + [0] + pad
    ensures StrNLen(raw[data..]) == |name| && raw[data..data + |name|] == name && raw[data + |name|] == 0
  {
    var b := raw[data..];
    var w := raw[data..data + |name| + 1 + |pad|];
    assert w[..|name|] == name && w[|name|] == 0;
    assert b[..|name|] == w[..|name|] && b[|name|] == w[|name|];
    StrNLenIs(b, name);
    assert raw[data..data + |name|] == w[..|name|];
  }

  /** The name of a serialised node, where its first token says it is. */
  lemma HeaderRead(f: FDT, o: nat, name: seq<Byte>)
    requires At(f, o, Header(name)) && 0 !in name
    ensures var data := f.structure + o + 4;
      && data + |name| < |f.raw| && f.raw[data..data + |name|] == name && f.raw[data + |name|] == 0
      && StrNLen(f.raw[data..]) == |name|
  {
    hide Aligned, B32, StrNLen;
    var tail := name + [0] + Pad(|name| + 1);
    assert Header(name) == B32(BEGIN_NODE) + tail;
    SliceSplit(f.raw, f.structure + o, B32(BEGIN_NODE), tail);
    NameRead(f.raw, f.structure + o + 4, name, Pad(|name| + 1));
  }

  /** A node name that ends in the blob is passed. */
  lemma BeginTokenIs(f: FDT, pos: Pos, rem: nat, n: nat)
    requires f.structure + pos.offset + 4 + n < |f.raw| <= f.structure + pos.offset + 4 + rem
    requires StrNLen(f.raw[f.structure + pos.offset + 4..]) == n
    ensures BeginToken(f, pos, rem)
         == Pass(pos, n + 1, pos.depth + 1, Desc(Some(f.structure + pos.offset + 4), None))
  {
    hide StrNLen, Pass;
    var data := f.structure + pos.offset + 4;
    assert f.raw[data..data + (|f.raw| - data)] == f.raw[data..];
  }

  lemma NextBegin(f: FDT, o: nat, d: int, name: seq<Byte>)
    requires At(f, o, Header(name)) && 0 !in name
    ensures Next(f, Pos(o, d)) == Step(OK, Pos(o + |Header(name)|, d + 1), Desc(Some(f.structure + o + 4), None))
  {
    hide Aligned, B32, Be32, StrNLen, RoundUp4, BeginToken, PropToken, EndToken;
    HeaderAligned(name);
    var tail := name + [0] + Pad(|name| + 1);
    assert Header(name) == B32(BEGIN_NODE) + tail;
    TokenAt(f, o, BEGIN_NODE, tail);
    HeaderRead(f, o, name);
    BeginTokenIs(f, Pos(o, d), f.len - o - 4, |name|);
  }

  ghost function PropName(f: FDT, t: Item): seq<Byte>
    requires Registered(f) && t.Prop? && t.nameOff < f.stringsLen
  {
    CStrAt(f.raw, f.strings + t.nameOff)
  }

  /** A name that starts in the strings block ends in it. */
  lemma PropNameEnds(f: FDT, t: Item)
    requires Registered(f) && t.Prop? && t.nameOff < f.stringsLen
    ensures var p, s := f.strings + t.nameOff, PropName(f, t);
      && p + |s| < |f.raw| && p + |s| < f.strings + f.stringsLen
      && f.raw[p..p + |s|] == s && f.raw[p + |s|] == 0 && 0 !in s
  {
    var p := f.strings + t.nameOff;
    var b := f.raw[p..];
    assert b[f.stringsLen - 1 - t.nameOff] == f.raw[f.strings + f.stringsLen - 1];
    var n := StrNLen(b);
    assert forall i :: 0 <= i < n ==> f.raw[p..p + n][i] == b[i];
  }

  /** A serialised property's length, name offset and data are read back. */
  lemma PropRead(f: FDT, o: nat, t: Item)
    requires t.Prop? && Encodable(t, f.stringsLen) && At(f, o, Ser(t, f.stringsLen))
    ensures var p := f.structure + o;
      && |Ser(t, f.stringsLen)| == 12 + RoundUp4(|t.data|) && f.structureLen - o >= 12 + RoundUp4(|t.data|)
      && Be32(f.raw, p) == PROP && Be32(f.raw, p + 4) == |t.data| && Be32(f.raw, p + 8) == t.nameOff
      && p + 12 + |t.data| <= |f.raw| && f.raw[p + 12..p + 12 + |t.data|] == t.data
  {
    hide B32, Be32;
    var a, b, c := B32(|t.data|), B32(t.nameOff), t.data + Pad(|t.data|);
    var p := f.structure + o;
    assert Ser(t, f.stringsLen) == B32(PROP) + (a + (b + c));
    SliceSplit(f.raw, p, B32(PROP), a + (b + c));
    SliceSplit(f.raw, p + 4, a, b + c);
    SliceSplit(f.raw, p + 8, b, c);
    SliceSplit(f.raw, p + 12, t.data, Pad(|t.data|));
    Be32Of(f, p, PROP);
    Be32Of(f, p + 4, |t.data|);
    Be32Of(f, p + 8, t.nameOff);
  }

  lemma NextProp(f: FDT, o: nat, d: int, t: Item)
    requires t.Prop? && Encodable(t, f.stringsLen) && At(f, o, Ser(t, f.stringsLen))
    ensures Next(f, Pos(o, d)) == Step(OK, Pos(o + |Ser(t, f.stringsLen)|, d), DescOf(f, o, t))
  {
    hide B32, Be32, StrNLen, Ser;
    PropRead(f, o, t);
    assert RoundUp4(8 + |t.data|) == 8 + RoundUp4(|t.data|);
    assert Remaining(f, o) == f.len - o;
  }

  // ------------------------------------------------------------------------
  // Walking a serialised tree
  // ------------------------------------------------------------------------

  /** The three parts of a serialised node. */
  lemma NodeParts(f: FDT, o: nat, t: Item)
    requires t.Node? && Encodable(t, f.stringsLen) && At(f, o, Ser(t, f.stringsLen))
    ensures AllEncodable(t.items, f.stringsLen)
    ensures var h, c := |Header(t.name)|, |SerAll(t.items, f.stringsLen)|;
      && AllEncodable(t.items, f.stringsLen) && 0 !in t.name
      && At(f, o, Header(t.name)) && At(f, o + h, SerAll(t.items, f.stringsLen)) && At(f, o + h + c, B32(END_NODE))
      && |Ser(t, f.stringsLen)| == h + c + 4
  {
    hide Header, SerAll, B32, At, Aligned, Registered;
    HeaderAligned(t.name);
    SerAllAligned(t.items, f.stringsLen);
    AtSplit3(f, o, Header(t.name), SerAll(t.items, f.stringsLen), B32(END_NODE));
  }

  lemma ItemsParts(f: FDT, o: nat, ts: seq<Item>)
    requires ts != [] && AllEncodable(ts, f.stringsLen) && At(f, o, SerAll(ts, f.stringsLen))
    ensures AllEncodable(ts[1..], f.stringsLen) && Encodable(ts[0], f.stringsLen)
    ensures At(f, o, Ser(ts[0], f.stringsLen))
    ensures At(f, o + |Ser(ts[0], f.stringsLen)|, SerAll(ts[1..], f.stringsLen))
    ensures |SerAll(ts, f.stringsLen)| == |Ser(ts[0], f.stringsLen)| + |SerAll(ts[1..], f.stringsLen)|
  {
    SerAligned(ts[0], f.stringsLen);
    hide Ser, Encodable;
    AtSplit(f, o, Ser(ts[0], f.stringsLen), SerAll(ts[1..], f.stringsLen));
  }

  /** A step of the search that finds nothing. */
  lemma SearchStep(f: FDT, pos: Pos, p: Pos, desc: Desc, q: Query)
    requires Next(f, pos) == Step(OK, p, desc) && Compare(f, q, p, desc) == Differ
    ensures Search(f, pos, q) == Search(f, p, q)
  {
    hide Next, Compare;
  }

  /** The search ends at a failing token or at a match. */
  lemma SearchStops(f: FDT, pos: Pos, q: Query)
    requires !Next(f, pos).rc.OK? || Compare(f, q, Next(f, pos).pos, Next(f, pos).desc) == Same
    ensures Search(f, pos, q) == Found(Next(f, pos).rc, pos.offset, Next(f, pos).desc)
  {
    hide Next, Compare;
  }

  /** Where the name and the data of an item at offset `o` are. */
  ghost function DescOf(f: FDT, o: nat, t: Item): Desc {
    match t
    case Nop => NO_DESC
    case Prop(nameOff, data) => Desc(Some(f.strings + nameOff), Some(Span(f.structure + o + 12, |data|)))
    case Node(name, _) => Desc(Some(f.structure + o + 4), None)
  }

  /** An item of the starting node that the query is after. */
  ghost predicate Wanted(f: FDT, q: Query, t: Item)
    requires Registered(f) && Encodable(t, f.stringsLen)
  {
    match q
    case WantChild(name) => t.Node? && t.name == name
    case WantProperty(name) => t.Prop? && PropName(f, t) == name
  }

  /** The name of an item `d` levels down is compared when the item could be wanted,
      and then found the same exactly when it is. */
  lemma PropCompared(f: FDT, o: nat, d: int, t: Item, q: Query, end: nat)
    requires t.Prop? && Encodable(t, f.stringsLen) && Registered(f) && 0 !in q.name
    ensures Compare(f, q, Pos(end, d), DescOf(f, o, t)) == if d == 0 && Wanted(f, q, t) then Same else Differ
  {
    hide StrCmp, StrNLen;
    PropNameEnds(f, t);
    StrCmpIs(f.raw, f.strings + t.nameOff, PropName(f, t), q.name);
  }

  lemma NodeCompared(f: FDT, o: nat, d: int, t: Item, q: Query, end: nat)
    requires t.Node? && Encodable(t, f.stringsLen) && At(f, o, Header(t.name)) && 0 !in q.name
    ensures Compare(f, q, Pos(end, d + 1), DescOf(f, o, t)) == if d == 0 && Wanted(f, q, t) then Same else Differ
  {
    hide StrCmp, StrNLen, Header;
    HeaderRead(f, o, t.name);
    StrCmpIs(f.raw, f.structure + o + 4, t.name, q.name);
  }

  /** The traversal passes over an item, and everything below it, unless the item
      itself belongs to the starting node and is wanted. */
  lemma {:induction false} SkipItem(f: FDT, o: nat, t: Item, d: nat, q: Query)
    requires Encodable(t, f.stringsLen) && At(f, o, Ser(t, f.stringsLen)) && 0 !in q.name
    requires Registered(f) && !(d == 0 && Wanted(f, q, t))
    ensures Search(f, Pos(o, d), q) == Search(f, Pos(o + |Ser(t, f.stringsLen)|, d), q)
    decreases t, 1
  {
    hide Aligned, Encodable, Next, At, Search, Header, B32, SerAll, Ser, Registered, AllEncodable, StrCmp, Wanted;
    if t.Nop? {
      SerNop(f.stringsLen);
      NextNop(f, o, d);
      SearchStep(f, Pos(o, d), Pos(o + 4, d), NO_DESC, q);
    } else if t.Prop? {
      NextProp(f, o, d, t);
      var end := o + |Ser(t, f.stringsLen)|;
      PropCompared(f, o, d, t, q, end);
      SearchStep(f, Pos(o, d), Pos(end, d), DescOf(f, o, t), q);
    } else {
      NodeParts(f, o, t);
      var h, c := |Header(t.name)|, |SerAll(t.items, f.stringsLen)|;
      NextBegin(f, o, d, t.name);
      NodeCompared(f, o, d, t, q, o + h);
      SearchStep(f, Pos(o, d), Pos(o + h, d + 1), DescOf(f, o, t), q);
      SkipItems(f, o + h, t.items, d + 1, q);
      NextEnd(f, o + h + c, d + 1);
      SearchStep(f, Pos(o + h + c, d + 1), Pos(o + h + c + 4, d), NO_DESC, q);
    }
  }

  lemma SerNop(stringsLen: nat)
    ensures Ser(Nop, stringsLen) == B32(NOP) && |Ser(Nop, stringsLen)| == 4
  {
  }

  lemma SerAllEmpty(stringsLen: nat)
    ensures AllEncodable([], stringsLen) && SerAll([], stringsLen) == []
  {
  }

  lemma {:induction false} SkipItems(f: FDT, o: nat, ts: seq<Item>, d: nat, q: Query)
    requires AllEncodable(ts, f.stringsLen) && At(f, o, SerAll(ts, f.stringsLen)) && d > 0
    requires Registered(f) && 0 !in q.name
    ensures Search(f, Pos(o, d), q) == Search(f, Pos(o + |SerAll(ts, f.stringsLen)|, d), q)
    decreases ts, 0
  {
    hide Aligned, Encodable, Next, Ser, SerAll, Search, At, Registered, AllEncodable;
    if ts == [] {
      SerAllEmpty(f.stringsLen);
    } else {
      ItemsParts(f, o, ts);
      SkipItem(f, o, ts[0], d, q);
      SkipItems(f, o + |Ser(ts[0], f.stringsLen)|, ts[1..], d, q);
    }
  }

  /** The index of the first wanted item, or the number of items. */
  ghost function FirstWanted(f: FDT, ts: seq<Item>, q: Query): (k: nat)
    requires Registered(f) && AllEncodable(ts, f.stringsLen)
    ensures k <= |ts|
    ensures k < |ts| ==> Wanted(f, q, ts[k])
    ensures forall i :: 0 <= i < k ==> !Wanted(f, q, ts[i])
  {
    if ts == [] || Wanted(f, q, ts[0]) then 0 else 1 + FirstWanted(f, ts[1..], q)
  }

  /** Where item `k` starts, relative to the first item. */
  ghost function ItemOffset(ts: seq<Item>, k: nat, stringsLen: nat): nat
    requires AllEncodable(ts, stringsLen) && k <= |ts|
  {
    if k == 0 then 0 else |Ser(ts[0], stringsLen)| + ItemOffset(ts[1..], k - 1, stringsLen)
  }

  /** What scanning a node's items from offset `o` should find. */
  ghost function Expected(f: FDT, o: nat, ts: seq<Item>, q: Query): Found
    requires Registered(f) && AllEncodable(ts, f.stringsLen)
  {
    var k := FirstWanted(f, ts, q);
    var p := o + ItemOffset(ts, k, f.stringsLen);
    if k < |ts| then Found(OK, p, DescOf(f, p, ts[k])) else Found(ENOENT, p, NO_DESC)
  }

  lemma ExpectedUnroll(f: FDT, o: nat, ts: seq<Item>, q: Query)
    requires Registered(f) && AllEncodable(ts, f.stringsLen)
    ensures ts == [] ==> Expected(f, o, ts, q) == Found(ENOENT, o, NO_DESC)
    ensures ts != [] ==> AllEncodable(ts[1..], f.stringsLen) && Encodable(ts[0], f.stringsLen)
    ensures ts != [] && Wanted(f, q, ts[0]) ==> Expected(f, o, ts, q) == Found(OK, o, DescOf(f, o, ts[0]))
    ensures ts != [] && !Wanted(f, q, ts[0]) ==>
      Expected(f, o, ts, q) == Expected(f, o + |Ser(ts[0], f.stringsLen)|, ts[1..], q)
  {
    hide Ser, Encodable, Registered, Wanted, DescOf;
  }

  /** The first token of a wanted item. */
  lemma WantedFound(f: FDT, o: nat, t: Item, q: Query)
    requires Encodable(t, f.stringsLen) && At(f, o, Ser(t, f.stringsLen)) && 0 !in q.name
    requires Registered(f) && Wanted(f, q, t)
    ensures Search(f, Pos(o, 0), q) == Found(OK, o, DescOf(f, o, t))
  {
    hide Aligned, Encodable, Next, At, Search, Header, B32, SerAll, Ser, Registered, AllEncodable, StrCmp, Compare;
    if t.Prop? {
      NextProp(f, o, 0, t);
      PropCompared(f, o, 0, t, q, o + |Ser(t, f.stringsLen)|);
    } else {
      NodeParts(f, o, t);
      NextBegin(f, o, 0, t.name);
      NodeCompared(f, o, 0, t, q, o + |Header(t.name)|);
    }
    SearchStops(f, Pos(o, 0), q);
  }

  /** Scanning the items of the starting node. */
  lemma {:induction false} ScanItems(f: FDT, o: nat, ts: seq<Item>, q: Query)
    requires AllEncodable(ts, f.stringsLen) && Registered(f) && 0 !in q.name
    requires At(f, o, SerAll(ts, f.stringsLen)) && At(f, o + |SerAll(ts, f.stringsLen)|, B32(END_NODE))
    ensures Search(f, Pos(o, 0), q) == Expected(f, o, ts, q)
    decreases ts
  {
    hide Aligned, Encodable, Next, Ser, SerAll, At, Registered, B32, AllEncodable, Search, Expected, Wanted, DescOf;
    ExpectedUnroll(f, o, ts, q);
    if ts == [] {
      SerAllEmpty(f.stringsLen);
      NextEnd(f, o, 0);
      SearchStops(f, Pos(o, 0), q);
    } else {
      ItemsParts(f, o, ts);
      if Wanted(f, q, ts[0]) {
        WantedFound(f, o, ts[0], q);
      } else {
        SkipItem(f, o, ts[0], 0, q);
        ScanItems(f, o + |Ser(ts[0], f.stringsLen)|, ts[1..], q);
      }
    }
  }

  /** On the serialisation of any node in any registered blob, fdt_child() finds the
      first immediate child with the name and fdt_property() the first property of
      the node itself, no matter what is nested in between or ignored; otherwise
      they report ENOENT.  Neither reads beyond the blob. */
  lemma SearchCorrect(f: FDT, o: nat, t: Item, q: Query)
    requires t.Node? && Encodable(t, f.stringsLen) && At(f, o, Ser(t, f.stringsLen))
    requires Registered(f) && 0 !in q.name
    ensures AllEncodable(t.items, f.stringsLen)
    ensures Search(f, Pos(o, -1), q) == Expected(f, o + |Header(t.name)|, t.items, q)
  {
    hide Aligned, Encodable, Next, Ser, SerAll, Header, B32, At, Registered, Search, Expected, AllEncodable, Wanted;
    NodeParts(f, o, t);
    NextBegin(f, o, -1, t.name);
    var h := |Header(t.name)|;
    NodeCompared(f, o, -1, t, q, o + h);
    SearchStep(f, Pos(o, -1), Pos(o + h, 0), DescOf(f, o, t), q);
    ScanItems(f, o + h, t.items, q);
  }

  lemma {:induction false} ItemAt(f: FDT, o: nat, ts: seq<Item>, k: nat)
    requires AllEncodable(ts, f.stringsLen) && At(f, o, SerAll(ts, f.stringsLen)) && k < |ts|
    ensures At(f, o + ItemOffset(ts, k, f.stringsLen), Ser(ts[k], f.stringsLen))
    decreases ts
  {
    hide Aligned, Encodable, Ser, SerAll, At, Registered;
    ItemsParts(f, o, ts);
    if k > 0 {
      ItemAt(f, o + |Ser(ts[0], f.stringsLen)|, ts[1..], k - 1);
    }
  }

  /** The offset that fdt_child() returns is that of the child's own node. */
  lemma ChildCorrect(f: FDT, o: nat, t: Item, name: seq<Byte>)
    requires t.Node? && Encodable(t, f.stringsLen) && At(f, o, Ser(t, f.stringsLen))
    requires Registered(f) && 0 !in name
    ensures AllEncodable(t.items, f.stringsLen)
    ensures var k := FirstWanted(f, t.items, WantChild(name));
      if k < |t.items|
      then Child(f, o, name).rc.OK? && At(f, Child(f, o, name).offset, Ser(t.items[k], f.stringsLen))
      else Child(f, o, name).rc.ENOENT?
  {
    hide Aligned, Encodable, Ser, SerAll, Header, B32, At, Registered, Search, AllEncodable, FirstWanted, ItemOffset;
    SearchCorrect(f, o, t, WantChild(name));
    NodeParts(f, o, t);
    var k := FirstWanted(f, t.items, WantChild(name));
    if k < |t.items| {
      ItemAt(f, o + |Header(t.name)|, t.items, k);
    }
  }

  /** The bytes that fdt_property() points to are the property's own data. */
  lemma PropertyCorrect(f: FDT, o: nat, t: Item, name: seq<Byte>)
    requires t.Node? && Encodable(t, f.stringsLen) && At(f, o, Ser(t, f.stringsLen))
    requires Registered(f) && 0 !in name
    ensures AllEncodable(t.items, f.stringsLen)
    ensures var k, r := FirstWanted(f, t.items, WantProperty(name)), Property(f, o, name);
      if k < |t.items|
      then r.rc.OK? && r.desc.data.Some? && HoldsData(f, r.desc.data.value, t.items[k])
      else r.rc.ENOENT?
  {
    hide Aligned, Encodable, Ser, SerAll, Header, B32, At, Registered, Search, AllEncodable, FirstWanted, ItemOffset;
    SearchCorrect(f, o, t, WantProperty(name));
    NodeParts(f, o, t);
    var k := FirstWanted(f, t.items, WantProperty(name));
    if k < |t.items| {
      ItemAt(f, o + |Header(t.name)|, t.items, k);
      AllEncodableAt(t.items, f.stringsLen, k);
      PropRead(f, o + |Header(t.name)| + ItemOffset(t.items, k, f.stringsLen), t.items[k]);
    }
  }

  ghost predicate HoldsData(f: FDT, s: Span, t: Item) {
    t.Prop? && s.at + s.len <= |f.raw| && f.raw[s.at..s.at + s.len] == t.data
  }

  lemma AllEncodableAt(ts: seq<Item>, stringsLen: nat, k: nat)
    requires AllEncodable(ts, stringsLen) && k < |ts|
    ensures Encodable(ts[k], stringsLen)
  {
  }
}
