/** The device tree functions as they run: a cursor advanced in place, and a path
    string whose delimiters are overwritten and put back. */
module FdtLookup {
  import opened CLib
  import opened Fdt

  const SLASH: Byte := 0x2f

  class FdtCursor {
    var offset: nat
    var depth: int

    constructor (offset: nat, depth: int)
      ensures this.offset == offset && this.depth == depth
    {
      this.offset, this.depth := offset, depth;
    }

    function Value(): Pos
      reads this
    {
      Pos(offset, depth)
    }
  }

  /** strnlen() at `p`, looking at no more than `max` bytes. */
  method NameLength(raw: seq<Byte>, p: nat, max: nat) returns (n: nat)
    requires p + max <= |raw|
    ensures n == StrNLen(raw[p..p + max])
  {
    n := 0;
    ghost var b := raw[p..p + max];
    assert b[0..] == b;
    while n < max && raw[p + n] != 0
      invariant 0 <= n <= max && StrNLen(b) == n + StrNLen(b[n..])
    {
      assert b[n] == raw[p + n] && b[n..][0] == b[n] && b[n..][1..] == b[n + 1..];
      n := n + 1;
    }
    assert n < max ==> b[n..][0] == raw[p + n];
  }

  /** What a step leaves in the cursor and the descriptor, unless it goes outside. */
  ghost predicate Stepped(rc: Rc, pos: Pos, desc: Desc, s: Step) {
    rc == s.rc && (rc != OUTSIDE ==> pos == s.pos && desc == s.desc)
  }

  /** Move the cursor past a token and its data. */
  method Advance(pos: FdtCursor, len: nat, ghost desc: Desc) returns (rc: Rc)
    modifies pos
    ensures Stepped(rc, pos.Value(), desc, Pass(old(pos.Value()), len, old(pos.depth), desc))
  {
    rc := OUTSIDE;
    if pos.offset + 4 + RoundUp4(len) < W32 {
      pos.offset := pos.offset + 4 + RoundUp4(len);
      rc := OK;
    }
  }

  /** The depth from which a token was reached does not matter. */
  lemma PassFrom(o: nat, d: int, len: nat, depth: int, desc: Desc)
    ensures var a, b := Pass(Pos(o, d), len, depth, desc), Pass(Pos(o, depth), len, depth, desc);
      a.rc == b.rc && (a.rc.OK? ==> a == b) && (a.rc.OK? || a.rc.OUTSIDE?)
  {
  }

  /** fdt_traverse(). */
  method FdtTraverse(f: FDT, pos: FdtCursor) returns (rc: Rc, desc: Desc)
    modifies pos
    ensures Stepped(rc, pos.Value(), desc, Next(f, old(pos.Value())))
  {
    hide Be32, StrNLen, Aligned, RoundUp4, Pass;
    desc := NO_DESC;
    var remaining := Remaining(f, pos.offset);
    if remaining < 4 {
      return EINVAL, NO_DESC;
    }
    var token := f.structure + pos.offset;
    if token + 4 > |f.raw| {
      return OUTSIDE, NO_DESC;
    }
    remaining := remaining - 4;
    var data := token + 4;
    var len := 0;
    var kind := Be32(f.raw, token);
    if kind == BEGIN_NODE {
      var max := if data + remaining <= |f.raw| then remaining else |f.raw| - data;
      var n := NameLength(f.raw, data, max);
      if n == max {
        rc := if max < remaining then OUTSIDE else EINVAL;
        return rc, NO_DESC;
      }
      len := n + 1;
      desc := Desc(Some(data), None);
      pos.depth := pos.depth + 1;
    } else if kind == END_NODE {
      if pos.depth < 0 {
        return EINVAL, NO_DESC;
      }
      pos.depth := pos.depth - 1;
      if pos.depth < 0 {
        return ENOENT, NO_DESC;
      }
    } else if kind == PROP {
      if remaining < 8 {
        return EINVAL, NO_DESC;
      }
      if data + 8 > |f.raw| {
        return OUTSIDE, NO_DESC;
      }
      var dataLen := Be32(f.raw, data);
      len := 8 + dataLen;
      if remaining < len {
        return EINVAL, NO_DESC;
      }
      var nameOff := Be32(f.raw, data + 4);
      if nameOff > f.stringsLen {
        return EINVAL, NO_DESC;
      }
      desc := Desc(Some(f.strings + nameOff), Some(Span(data + 8, dataLen)));
    } else if kind != NOP {
      return EINVAL, NO_DESC;
    }
    PassFrom(pos.offset, old(pos.depth), len, pos.depth, desc);
    rc := Advance(pos, len, desc);
  }

  /** strcmp(). */
  method Strcmp(raw: seq<Byte>, p: nat, name: seq<Byte>) returns (c: Cmp)
    ensures c == StrCmp(raw, p, name)
  {
    var i := 0;
    assert name[0..] == name;
    while true
      invariant 0 <= i <= |name| && StrCmp(raw, p + i, name[i..]) == StrCmp(raw, p, name)
      decreases |name| - i
    {
      if p + i >= |raw| {
        return Beyond;
      }
      if i == |name| {
        return if raw[p + i] == 0 then Same else Differ;
      }
      if raw[p + i] != name[i] {
        return Differ;
      }
      assert name[i..][1..] == name[i + 1..];
      i := i + 1;
    }
  }

  /** fdt_child(). */
  method FdtChild(f: FDT, offset: nat, name: seq<Byte>) returns (rc: Rc, child: nat)
    ensures rc == Child(f, offset, name).rc && child == Child(f, offset, name).offset
  {
    hide Next, StrCmp;
    var pos := new FdtCursor(offset, -1);
    while true
      invariant fresh(pos)
      invariant Search(f, pos.Value(), WantChild(name)) == Child(f, offset, name)
      decreases |f.raw| - pos.offset
    {
      child := pos.offset;
      var desc;
      rc, desc := FdtTraverse(f, pos);
      if rc != OK {
        return;
      }
      if pos.depth == 1 && desc.name.Some? && desc.data.None? {
        var c := Strcmp(f.raw, desc.name.value, name);
        if c != Differ {
          rc := if c == Same then OK else OUTSIDE;
          return;
        }
      }
    }
  }

  /** fdt_property(). */
  method FdtProperty(f: FDT, offset: nat, name: seq<Byte>) returns (rc: Rc, desc: Desc)
    ensures rc == Property(f, offset, name).rc && (rc != OUTSIDE ==> desc == Property(f, offset, name).desc)
  {
    hide Next, StrCmp;
    var pos := new FdtCursor(offset, -1);
    while true
      invariant fresh(pos)
      invariant Search(f, pos.Value(), WantProperty(name)) == Property(f, offset, name)
      decreases |f.raw| - pos.offset
    {
      rc, desc := FdtTraverse(f, pos);
      if rc != OK {
        return;
      }
      if pos.depth == 0 && desc.name.Some? && desc.data.Some? {
        var c := Strcmp(f.raw, desc.name.value, name);
        if c != Differ {
          rc := if c == Same then OK else OUTSIDE;
          return;
        }
      }
    }
  }

  // ------------------------------------------------------------------------
  // Registration
  // ------------------------------------------------------------------------

  const HEADER_LEN: nat := 40
  const MAGIC: nat := 0xd00d_feed
  const VERSION: nat := 16

  /** The checks of register_fdt() on the header. */
  predicate HeaderOk(mem: seq<Byte>)
    requires |mem| >= HEADER_LEN
  {
    var len, structure, strings := Be32(mem, 4), Be32(mem, 8), Be32(mem, 12);
    var stringsLen, structureLen := Be32(mem, 32), Be32(mem, 36);
    && Be32(mem, 0) == MAGIC && Be32(mem, 24) == VERSION
    && structure + structureLen <= len && Aligned(structure) && Aligned(structureLen)
    && strings + stringsLen <= len
  }

  /** The fields of a header, in the order of the Devicetree Specification, section
      5.2. */
  datatype Fields = Fields(magic: nat, totalSize: nat, structure: nat, strings: nat, reserved: nat, version: nat,
                           lastCompatible: nat, bootCpu: nat, stringsLen: nat, structureLen: nat)

  /** The ten numbers are in memory one after the other, the high byte first. */
  ghost predicate HeaderIs(mem: seq<Byte>, h: Fields) {
    && |mem| >= HEADER_LEN
    && NumberAt(mem, 0, h.magic) && NumberAt(mem, 4, h.totalSize) && NumberAt(mem, 8, h.structure)
    && NumberAt(mem, 12, h.strings) && NumberAt(mem, 16, h.reserved) && NumberAt(mem, 20, h.version)
    && NumberAt(mem, 24, h.lastCompatible) && NumberAt(mem, 28, h.bootCpu) && NumberAt(mem, 32, h.stringsLen)
    && NumberAt(mem, 36, h.structureLen)
  }

  ghost predicate NumberAt(mem: seq<Byte>, p: nat, n: nat) {
    p + 4 <= |mem| && n == 0x100_0000 * (mem[p] as int) + 0x1_0000 * (mem[p + 1] as int) + 0x100 * (mem[p + 2] as int) + mem[p + 3]
  }

  lemma NumberRead(mem: seq<Byte>, p: nat, n: nat)
    requires NumberAt(mem, p, n)
    ensures Be32(mem, p) == n
  {
  }

  /** What registration makes of the fields of a header. */
  lemma FieldsRead(mem: seq<Byte>, h: Fields)
    requires HeaderIs(mem, h)
    ensures HeaderOk(mem) <==>
      && h.magic == 0xd00d_feed && h.lastCompatible == 16
      && h.structure + h.structureLen <= h.totalSize && h.structure % 4 == 0 && h.structureLen % 4 == 0
      && h.strings + h.stringsLen <= h.totalSize
    ensures Be32(mem, 4) == h.totalSize && Be32(mem, 8) == h.structure && Be32(mem, 36) == h.structureLen
    ensures Be32(mem, 12) == h.strings && Be32(mem, 32) == h.stringsLen
  {
    hide Be32;
    NumberRead(mem, 0, h.magic);
    NumberRead(mem, 4, h.totalSize);
    NumberRead(mem, 8, h.structure);
    NumberRead(mem, 12, h.strings);
    NumberRead(mem, 24, h.lastCompatible);
    NumberRead(mem, 32, h.stringsLen);
    NumberRead(mem, 36, h.structureLen);
  }

  /** register_fdt(), with a header in memory and `totalsize` bytes from it on: what
      is accepted is Registered(), and the strings block is the longest start of
      the one in the header that ends in a NUL. */
  method RegisterFdt(mem: seq<Byte>) returns (r: Option<FDT>)
    requires |mem| >= HEADER_LEN && |mem| >= Be32(mem, 4)
    ensures r.Some? <==> HeaderOk(mem)
    ensures r.Some? ==>
      var f := r.value;
      && Registered(f) && f.raw == mem[..Be32(mem, 4)]
      && f.structure == Be32(mem, 8) && f.structureLen == Be32(mem, 36)
      && f.strings == Be32(mem, 12) && f.stringsLen <= Be32(mem, 32)
      && 0 !in mem[f.strings + f.stringsLen..f.strings + Be32(mem, 32)]
  {
    hide Be32;
    var len := Be32(mem, 4);
    if Be32(mem, 0) != MAGIC || Be32(mem, 24) != VERSION {
      return None;
    }
    var structure, structureLen := Be32(mem, 8), Be32(mem, 36);
    if structure > len || structureLen > len - structure {
      return None;
    }
    if !Aligned(structure) || !Aligned(structureLen) {
      return None;
    }
    var strings, stringsLen := Be32(mem, 12), Be32(mem, 32);
    if strings > len || stringsLen > len - strings {
      return None;
    }
    var end := strings + stringsLen;
    while stringsLen > 0 && mem[strings + stringsLen - 1] != 0
      invariant 0 <= stringsLen && strings + stringsLen <= end <= len && 0 !in mem[strings + stringsLen..end]
    {
      assert mem[strings + stringsLen - 1..end] == [mem[strings + stringsLen - 1]] + mem[strings + stringsLen..end];
      stringsLen := stringsLen - 1;
    }
    return Some(FDT(mem[..len], len, structure, structureLen, strings, stringsLen));
  }

  // ------------------------------------------------------------------------
  // Paths
  // ------------------------------------------------------------------------

  function SkipSlashes(s: seq<Byte>): (r: seq<Byte>)
    ensures |r| <= |s|
    ensures s != [] && s[0] == SLASH ==> |r| < |s|
    ensures r != [] ==> r[0] != SLASH
    ensures s != [] && s[0] != SLASH ==> r == s
    ensures forall i :: 0 <= i < |s| - |r| ==> s[i] == SLASH
  {
    if s != [] && s[0] == SLASH then SkipSlashes(s[1..]) else s
  }

  /** Length of the leading path component. */
  function ComponentLen(s: seq<Byte>): (n: nat)
    ensures n <= |s|
    ensures n < |s| ==> s[n] == SLASH
    ensures forall i :: 0 <= i < n ==> s[i] != SLASH
  {
    if s == [] || s[0] == SLASH then 0 else 1 + ComponentLen(s[1..])
  }

  /** fdt_path() on what is left of the path: skip slashes, look up the component
      up to the next slash, and go on from the child found. */
  function PathLookup(f: FDT, s: seq<Byte>, offset: nat): (Rc, nat)
    decreases |s|
  {
    if s == [] then (OK, offset)
    else
      var t := SkipSlashes(s);
      var n := ComponentLen(t);
      var r := Child(f, offset, t[..n]);
      if r.rc.OK? then PathLookup(f, t[n..], r.offset) else (r.rc, r.offset)
  }

  /** The C string `s` at position `p` of the path buffer. */
  ghost predicate Rest(m: seq<Byte>, p: nat, s: seq<Byte>) {
    p + |s| < |m| && m[p..p + |s|] == s && m[p + |s|] == 0 && 0 !in s
  }

  lemma RestTail(m: seq<Byte>, p: nat, s: seq<Byte>, k: nat)
    requires Rest(m, p, s) && k <= |s|
    ensures Rest(m, p + k, s[k..]) && (k < |s| ==> m[p + k] == s[k])
  {
    assert m[p + k..p + |s|] == m[p..p + |s|][k..];
    if k < |s| { assert m[p + k] == m[p..p + |s|][k]; }
  }

  lemma RestFirst(m: seq<Byte>, p: nat, s: seq<Byte>)
    requires Rest(m, p, s)
    ensures p < |m| && (s == [] <==> m[p] == 0) && (s != [] ==> m[p] == s[0])
  {
    if s != [] { RestTail(m, p, s, 0); assert s[0] in s; }
  }

  /** Skip any leading '/'. */
  method SkipLeading(path: array<Byte>, p: nat, ghost s: seq<Byte>) returns (q: nat)
    requires Rest(path[..], p, s)
    ensures Rest(path[..], q, SkipSlashes(s)) && q == p + |s| - |SkipSlashes(s)|
  {
    hide Rest;
    q := p;
    ghost var t := s;
    RestFirst(path[..], p, s);
    while path[q] == SLASH
      invariant Rest(path[..], q, t) && q < path.Length && SkipSlashes(t) == SkipSlashes(s) && q == p + |s| - |t|
      invariant (t == [] <==> path[q] == 0) && (t != [] ==> path[q] == t[0])
      decreases |t|
    {
      RestTail(path[..], q, t, 1);
      t := t[1..];
      q := q + 1;
      RestFirst(path[..], q, t);
    }
  }

  /** Distance to the next '/' or to the end of the string. */
  method FindDelimiter(path: array<Byte>, p: nat, ghost s: seq<Byte>) returns (n: nat)
    requires Rest(path[..], p, s)
    ensures n == ComponentLen(s)
  {
    hide Rest;
    n := 0;
    ghost var t := s;
    RestFirst(path[..], p, s);
    while path[p + n] != 0 && path[p + n] != SLASH
      invariant Rest(path[..], p + n, t) && p + n < path.Length && ComponentLen(s) == n + ComponentLen(t)
      invariant (t == [] <==> path[p + n] == 0) && (t != [] ==> path[p + n] == t[0])
      decreases |t|
    {
      RestTail(path[..], p + n, t, 1);
      t := t[1..];
      n := n + 1;
      RestFirst(path[..], p + n, t);
    }
  }

  lemma ComponentRead(m: seq<Byte>, p: nat, s: seq<Byte>, n: nat)
    requires n <= |s| && p + |s| < |m| && m[p..p + n] == s[..n] && m[p + n] == 0 && 0 !in s
    ensures CStrAt(m, p) == s[..n]
  {
    var b := m[p..];
    assert b[..n] == s[..n] && b[n] == 0;
    assert forall i :: 0 <= i < n ==> b[i] == s[i] && s[i] in s;
    StrNLenIs(b, s[..n]);
  }

  /** Look up one component with its delimiter temporarily replaced by NUL. */
  method LookupComponent(f: FDT, path: array<Byte>, p: nat, n: nat, offset: nat, ghost t: seq<Byte>)
    returns (rc: Rc, child: nat)
    requires Rest(path[..], p, t) && n == ComponentLen(t)
    modifies path
    ensures path[..] == old(path[..])
    ensures rc == Child(f, offset, t[..n]).rc && child == Child(f, offset, t[..n]).offset
  {
    hide ComponentLen, Search, Rest, CStrAt;
    ghost var m := path[..];
    DelimiterByte(m, p, t, n);
    var c := path[p + n];
    if c == SLASH {
      path[p + n] := 0;
      assert path[..] == m[p + n := 0];
    }
    rc, child := FdtChild(f, offset, CStrAt(path[..], p));
    if c == SLASH {
      path[p + n] := SLASH;
      assert path[..] == m;
    }
  }

  /** With its delimiter replaced, the component reads as a C string. */
  lemma DelimiterByte(m: seq<Byte>, p: nat, t: seq<Byte>, n: nat)
    requires Rest(m, p, t) && n == ComponentLen(t)
    ensures p + n < |m|
    ensures m[p + n] == SLASH ==> CStrAt(m[p + n := 0], p) == t[..n]
    ensures m[p + n] != SLASH ==> CStrAt(m, p) == t[..n]
  {
    assert m[p..p + n] == m[p..p + |t|][..n];
    RestTail(m, p, t, n);
    if m[p + n] == SLASH {
      var m' := m[p + n := 0];
      assert m'[p..p + n] == m[p..p + n];
      ComponentRead(m', p, t, n);
    } else {
      ComponentRead(m, p, t, n);
    }
  }

  /** fdt_path(): the path string is restored before the function returns. */
  method FdtPath(f: FDT, path: array<Byte>, ghost s: seq<Byte>) returns (rc: Rc, offset: nat)
    requires Rest(path[..], 0, s)
    modifies path
    ensures path[..] == old(path[..])
    ensures (rc, offset) == PathLookup(f, s, 0)
  {
    hide Rest, ComponentLen, SkipSlashes, Search;
    offset := 0;
    var tmp: nat := 0;
    ghost var t := s;
    RestFirst(path[..], 0, s);
    while path[tmp] != 0
      invariant path[..] == old(path[..]) && Rest(path[..], tmp, t) && tmp < path.Length
      invariant t == [] <==> path[tmp] == 0
      invariant PathLookup(f, t, offset) == PathLookup(f, s, 0)
      decreases |t|
    {
      ghost var before := t;
      tmp := SkipLeading(path, tmp, t);
      t := SkipSlashes(t);
      var n := FindDelimiter(path, tmp, t);
      rc, offset := LookupComponent(f, path, tmp, n, offset, t);
      if rc != OK {
        return;
      }
      RestTail(path[..], tmp, t, n);
      RestFirst(path[..], tmp + n, t[n..]);
      tmp := tmp + n;
      t := t[n..];
      assert |t| < |before|;
    }
    rc := OK;
  }

  // ------------------------------------------------------------------------
  // Paths in trees
  // ------------------------------------------------------------------------

  /** The first child with this name, or the number of items. */
  function FirstNamed(ts: seq<Item>, name: seq<Byte>): (k: nat)
    ensures k <= |ts|
    ensures k < |ts| ==> ts[k].Node? && ts[k].name == name
    ensures forall i :: 0 <= i < k ==> !(ts[i].Node? && ts[i].name == name)
  {
    if ts == [] || (ts[0].Node? && ts[0].name == name) then 0 else 1 + FirstNamed(ts[1..], name)
  }

  lemma {:induction false} FirstNamedIsWanted(f: FDT, ts: seq<Item>, name: seq<Byte>)
    requires Registered(f) && AllEncodable(ts, f.stringsLen)
    ensures FirstWanted(f, ts, WantChild(name)) == FirstNamed(ts, name)
  {
    if ts != [] && !(ts[0].Node? && ts[0].name == name) {
      FirstNamedIsWanted(f, ts[1..], name);
    }
  }

  /** Walking the tree itself along a path. */
  function Walk(t: Item, s: seq<Byte>): Option<Item>
    decreases |s|
  {
    if s == [] then Some(t)
    else if !t.Node? then None
    else
      var c := SkipSlashes(s);
      var n := ComponentLen(c);
      var k := FirstNamed(t.items, c[..n]);
      if k < |t.items| then Walk(t.items[k], c[n..]) else None
  }

  /** fdt_path() resolves a path exactly when the tree has it, to the offset of
      that node; otherwise it reports ENOENT. */
  lemma {:induction false} PathCorrect(f: FDT, o: nat, t: Item, s: seq<Byte>)
    requires Registered(f) && t.Node? && Encodable(t, f.stringsLen) && At(f, o, Ser(t, f.stringsLen)) && 0 !in s
    ensures Walk(t, s).None? ==> PathLookup(f, s, o).0.ENOENT?
    ensures Walk(t, s).Some? ==>
      && PathLookup(f, s, o).0.OK? && Walk(t, s).value.Node?
      && Encodable(Walk(t, s).value, f.stringsLen)
      && At(f, PathLookup(f, s, o).1, Ser(Walk(t, s).value, f.stringsLen))
    decreases |s|
  {
    hide Registered, Encodable, At, Ser, Search, SkipSlashes, ComponentLen, FirstWanted, FirstNamed, AllEncodable;
    if s == [] {
      ChildCorrect(f, o, t, []);
    } else {
      var c := SkipSlashes(s);
      var n := ComponentLen(c);
      SkipSuffix(s);
      ChildCorrect(f, o, t, c[..n]);
      FirstNamedIsWanted(f, t.items, c[..n]);
      var k := FirstNamed(t.items, c[..n]);
      if k < |t.items| {
        AllEncodableAt(t.items, f.stringsLen, k);
        PathCorrect(f, Child(f, o, c[..n]).offset, t.items[k], c[n..]);
      }
    }
  }

  // ------------------------------------------------------------------------
  // Paths as lists of names
  // ------------------------------------------------------------------------

  /** A path of names, each after so many slashes. */
  function PathText(names: seq<seq<Byte>>, gaps: seq<nat>): seq<Byte>
    requires |gaps| == |names|
  {
    if names == [] then [] else seq(gaps[0], _ => SLASH) + (names[0] + PathText(names[1..], gaps[1..]))
  }

  /** Names have neither slash nor NUL, and all but the first have a slash before
      them. */
  ghost predicate NamesOk(names: seq<seq<Byte>>, gaps: seq<nat>) {
    && |gaps| == |names|
    && (forall i :: 0 <= i < |names| ==> names[i] != [] && SLASH !in names[i] && 0 !in names[i])
    && (forall i :: 0 < i < |gaps| ==> gaps[i] > 0)
  }

  /** The first child of that name. */
  function ChildNamed(items: seq<Item>, name: seq<Byte>): (r: Option<Item>)
    ensures r.Some? ==> r.value.Node?
  {
    if items == [] then None
    else if items[0].Node? && items[0].name == name then Some(items[0])
    else ChildNamed(items[1..], name)
  }

  /** The node reached by taking the first child of each name in turn. */
  function Descend(t: Item, names: seq<seq<Byte>>): Option<Item>
    decreases |names|
  {
    if names == [] then Some(t)
    else if !t.Node? then None
    else
      match ChildNamed(t.items, names[0])
      case None => None
      case Some(c) => Descend(c, names[1..])
  }

  lemma {:induction false} ChildNamedIsFirst(items: seq<Item>, name: seq<Byte>)
    ensures var k := FirstNamed(items, name);
      ChildNamed(items, name) == if k < |items| then Some(items[k]) else None
  {
    if items != [] && !(items[0].Node? && items[0].name == name) {
      ChildNamedIsFirst(items[1..], name);
    }
  }

  lemma {:induction false} SlashesSkipped(n: nat, rest: seq<Byte>)
    requires rest != [] && rest[0] != SLASH
    ensures SkipSlashes(seq(n, _ => SLASH) + rest) == rest
  {
    var s: seq<Byte> := seq(n, _ => SLASH) + rest;
    if n == 0 {
      assert s == rest;
    } else {
      assert s[1..] == seq(n - 1, _ => SLASH) + rest;
      SlashesSkipped(n - 1, rest);
    }
  }

  lemma {:induction false} NameTaken(name: seq<Byte>, rest: seq<Byte>)
    requires SLASH !in name && (rest == [] || rest[0] == SLASH)
    ensures ComponentLen(name + rest) == |name|
  {
    if name == [] {
      assert name + rest == rest;
    } else {
      assert (name + rest)[1..] == name[1..] + rest;
      NameTaken(name[1..], rest);
    }
  }

  lemma NamesTail(names: seq<seq<Byte>>, gaps: seq<nat>)
    requires NamesOk(names, gaps) && names != []
    ensures NamesOk(names[1..], gaps[1..])
    ensures var rest := PathText(names[1..], gaps[1..]); rest == [] || rest[0] == SLASH
  {
  }

  /** Walking along a path of names is descending by the names. */
  lemma {:induction false} WalkNames(t: Item, names: seq<seq<Byte>>, gaps: seq<nat>)
    requires NamesOk(names, gaps)
    ensures Walk(t, PathText(names, gaps)) == Descend(t, names)
    decreases |names|
  {
    hide SkipSlashes, ComponentLen, FirstNamed, ChildNamed;
    if names != [] {
      FirstName(names, gaps);
      NamesTail(names, gaps);
      var rest := PathText(names[1..], gaps[1..]);
      SlashesSkipped(gaps[0], names[0] + rest);
      NameTaken(names[0], rest);
      var c := names[0] + rest;
      assert c[..|names[0]|] == names[0] && c[|names[0]|..] == rest;
      if t.Node? {
        ChildNamedIsFirst(t.items, names[0]);
        var k := FirstNamed(t.items, names[0]);
        if k < |t.items| {
          WalkNames(t.items[k], names[1..], gaps[1..]);
        }
      }
    }
  }

  lemma FirstName(names: seq<seq<Byte>>, gaps: seq<nat>)
    requires NamesOk(names, gaps) && names != []
    ensures names[0] != [] && names[0][0] != SLASH && SLASH !in names[0]
  {
    assert names[0][0] in names[0];
  }

  lemma {:induction false} PathTextNoNul(names: seq<seq<Byte>>, gaps: seq<nat>)
    requires NamesOk(names, gaps)
    ensures 0 !in PathText(names, gaps)
    decreases |names|
  {
    if names != [] { PathTextNoNul(names[1..], gaps[1..]); }
  }

  /** fdt_path() on names separated by any positive numbers of slashes, with or
      without slashes in front, finds the node reached by taking the first child of
      each name in turn; it reports ENOENT if one is missing. */
  lemma NamesResolved(f: FDT, o: nat, t: Item, names: seq<seq<Byte>>, gaps: seq<nat>)
    requires Registered(f) && t.Node? && Encodable(t, f.stringsLen) && At(f, o, Ser(t, f.stringsLen))
    requires NamesOk(names, gaps)
    ensures var r := PathLookup(f, PathText(names, gaps), o);
      match Descend(t, names)
      case None => r.0.ENOENT?
      case Some(node) => r.0.OK? && Encodable(node, f.stringsLen) && At(f, r.1, Ser(node, f.stringsLen))
  {
    hide Registered, Encodable, At, Ser, PathText, PathLookup, Walk, Descend;
    PathTextNoNul(names, gaps);
    WalkNames(t, names, gaps);
    PathCorrect(f, o, t, PathText(names, gaps));
  }

  /** No node in the tree has an empty name, the root aside. */
  ghost predicate NamesNonEmpty(t: Item)
    decreases t
  {
    t.Node? ==> forall i :: 0 <= i < |t.items| ==>
      (t.items[i].Node? ==> t.items[i].name != []) && NamesNonEmpty(t.items[i])
  }

  /** A trailing slash asks for a child with an empty name: a path that ends in one,
      "/" included, never resolves in a tree without such nodes. */
  lemma {:induction false} TrailingSlashNeverResolves(t: Item, s: seq<Byte>)
    requires NamesNonEmpty(t) && s != [] && s[|s| - 1] == SLASH
    ensures Walk(t, s).None?
    decreases |s|
  {
    if t.Node? {
      var c := SkipSlashes(s);
      var n := ComponentLen(c);
      var k := FirstNamed(t.items, c[..n]);
      if k < |t.items| {
        SkipSuffix(s);
        if n < |c| {
          TrailingSlashNeverResolves(t.items[k], c[n..]);
        }
      }
    }
  }

  lemma {:induction false} SkipSuffix(s: seq<Byte>)
    ensures SkipSlashes(s) == s[|s| - |SkipSlashes(s)|..]
  {
    if s != [] && s[0] == SLASH {
      SkipSuffix(s[1..]);
    }
  }
}
