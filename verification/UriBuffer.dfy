/** The parser as it really works: one buffer holding two copies of the string,
    cut up in place by overwriting delimiters with NUL, fields as pointers into
    it, and percent-decoding on the spot. */
module UriBuffer {
  import opened CLib
  import opened UriCodec
  import opened Uri

  /** The C string `s` is stored at `p`. */
  ghost predicate StrAt(m: seq<char>, p: nat, s: string) {
    && p + |s| < |m|
    && NUL !in s
    && m[p + |s|] == NUL
    && m[p..p + |s|] == s
  }

  lemma {:induction false} StrAtIsCStr(m: seq<char>, p: nat, s: string)
    requires StrAt(m, p, s)
    ensures CStr(m[p..]) == s
    decreases |s|
  {
    if s == [] {
      assert m[p..][0] == NUL;
    } else {
      assert m[p..][0] == m[p..p + |s|][0] == s[0] && m[p..][1..] == m[p + 1..];
      StrAtTail(m, p, s);
      StrAtIsCStr(m, p + 1, s[1..]);
    }
  }

  lemma StrAtIndex(m: seq<char>, p: nat, s: string, i: nat)
    requires StrAt(m, p, s) && i < |s|
    ensures p + i < |m| && m[p + i] == s[i]
  {
    assert m[p + i] == m[p..p + |s|][i];
  }

  lemma StrAtTail(m: seq<char>, p: nat, s: string)
    requires StrAt(m, p, s) && s != []
    ensures StrAt(m, p + 1, s[1..]) && m[p] == s[0] && m[p] != NUL
  {
    assert m[p + 1..p + |s|] == m[p..p + |s|][1..];
    assert m[p] == m[p..p + |s|][0] && s[0] in s;
  }

  lemma {:induction false} StrAtDrop(m: seq<char>, p: nat, s: string, k: nat)
    requires StrAt(m, p, s) && k <= |s|
    ensures StrAt(m, p + k, s[k..])
  {
    assert m[p + k..p + |s|] == m[p..p + |s|][k..];
  }

  /** A string is unaffected by writes elsewhere. */
  lemma StrAtFrame(m: seq<char>, m': seq<char>, p: nat, s: string)
    requires StrAt(m, p, s) && |m'| == |m|
    requires forall i :: p <= i <= p + |s| ==> m'[i] == m[i]
    ensures StrAt(m', p, s)
  {
    assert m'[p..p + |s|] == m[p..p + |s|];
  }

  /** At most two characters, as snprintf ( hexbuf, 3, "%s", ... ) copies them. */
  method HexBuf(src: array<char>, p: nat, ghost t: string) returns (h: string)
    requires StrAt(src[..], p, t)
    ensures h == if |t| <= 2 then t else t[..2]
  {
    h := [];
    if src[p] != NUL {
      assert t != [];
      StrAtTail(src[..], p, t);
      h := [src[p]];
      if src[p + 1] != NUL {
        assert t[1..] != [];
        StrAtTail(src[..], p + 1, t[1..]);
        h := h + [src[p + 1]];
      }
    }
  }

  /** The character at the read position, decoded, and how far to move on. */
  method NextChar(src: array<char>, p: nat, ghost t: string) returns (c: char, used: nat)
    requires StrAt(src[..], p, t) && t != []
    ensures 1 <= used <= |t| && StrAt(src[..], p + used, t[used..])
    ensures Decode(t) == [c] + Decode(t[used..])
  {
    StrAtTail(src[..], p, t);
    c := src[p];
    used := 1;
    if c == '%' {
      var hexbuf := HexBuf(src, p + 1, t[1..]);
      var (decoded, skip) := StrToChar(hexbuf);
      used := used + skip;
      if skip > 0 {
        c := decoded;
      }
    }
    StrAtDrop(src[..], p, t, used);
  }

  /** uri_decode(): decode into `dst`, storing at most `len` characters and
      returning how many there are.  The two buffers may be the same one: the
      write position never overtakes the read position. */
  method UriDecode(src: array<char>, sp: nat, dst: array<char>, dp: nat, len: nat, ghost s: string) returns (count: nat)
    requires StrAt(src[..], sp, s)
    requires dp + len <= dst.Length
    requires src != dst || sp == dp
    modifies dst
    ensures count == |Decode(s)|
    ensures forall j :: dp <= j < dp + len && j < dp + count ==> dst[j] == Decode(s)[j - dp]
    ensures forall j :: 0 <= j < dst.Length && !(dp <= j < dp + len && j < dp + count) ==> dst[j] == old(dst[j])
  {
    hide Decode;
    count := 0;
    var r := 0;
    ghost var done: string, t: string := [], s;
    while src[sp + r] != NUL
      invariant 0 <= count <= r && |done| == count && r + |t| == |s|
      invariant Decode(s) == done + Decode(t)
      invariant StrAt(src[..], sp + r, t)
      invariant forall j :: dp <= j < dp + len && j < dp + count ==> dst[j] == done[j - dp]
      invariant forall j :: 0 <= j < dst.Length && !(dp <= j < dp + len && j < dp + count) ==> dst[j] == old(dst[j])
      decreases |t|
    {
      var c, used := NextChar(src, sp + r, t);
      r, t := r + used, t[used..];
      ghost var m := src[..];
      if count < len {
        dst[dp + count] := c;
      }
      StrAtFrame(m, src[..], sp + r, t);
      done := done + [c];
      count := count + 1;
    }
    AtEnd(src[..], sp + r, t);
    EmptyDecode();
  }

  lemma AtEnd(m: seq<char>, p: nat, t: string)
    requires StrAt(m, p, t) && m[p] == NUL
    ensures t == []
  {
    if t != [] { StrAtTail(m, p, t); }
  }

  /** uri_decode_inplace(). */
  method UriDecodeInplace(b: array<char>, p: nat, ghost s: string)
    requires StrAt(b[..], p, s)
    modifies b
    ensures StrAt(b[..], p, CStr(Decode(s)))
    ensures |CStr(Decode(s))| <= |s|
    ensures forall j :: 0 <= j < b.Length && !(p <= j <= p + |s|) ==> b[j] == old(b[j])
  {
    hide CStr;
    var len := StrLen(b, p, s);
    var n := UriDecode(b, p, b, p, len, s);
    hide Decode;
    b[p + n] := NUL;
    assert b[p..p + n] == Decode(s);
    CStrStored(b[..], p, Decode(s));
  }

  /** strlen(). */
  method StrLen(b: array<char>, p: nat, ghost s: string) returns (n: nat)
    requires StrAt(b[..], p, s)
    ensures n == |s|
  {
    n := 0;
    assert s[0..] == s;
    while b[p + n] != NUL
      invariant n <= |s| && StrAt(b[..], p + n, s[n..])
      decreases |s| - n
    {
      assert s[n..] != [];
      StrAtTail(b[..], p + n, s[n..]);
      assert s[n..][1..] == s[n + 1..];
      n := n + 1;
    }
    AtEnd(b[..], p + n, s[n..]);
  }

  lemma {:induction false} CStrStored(m: seq<char>, p: nat, d: string)
    requires p + |d| < |m| && m[p + |d|] == NUL && m[p..p + |d|] == d
    ensures StrAt(m, p, CStr(d)) && |CStr(d)| <= |d|
    decreases |d|
  {
    if d != [] {
      assert m[p] == m[p..p + |d|][0];
      if d[0] != NUL {
        assert m[p + 1..p + |d|] == m[p..p + |d|][1..];
        CStrStored(m, p + 1, d[1..]);
        var c := CStr(d[1..]);
        assert m[p..p + 1 + |c|] == [d[0]] + c;
      }
    }
  }

  // ------------------------------------------------------------------------
  // Fields as pointers into the buffer
  // ------------------------------------------------------------------------

  const SCHEME := 0
  const OPAQUE := 1
  const USER := 2
  const PASSWORD := 3
  const HOST := 4
  const PORT := 5
  const PATH := 6
  const EPATH := 7
  const EQUERY := 8
  const EFRAGMENT := 9
  const FIELDS := 10

  function Fields(u: URI): (f: seq<Option<string>>)
    ensures |f| == FIELDS
  {
    [u.scheme, u.opaquePart, u.user, u.password, u.host, u.port, u.path, u.epath, u.equery, u.efragment]
  }

  /** Assign field number `k`. */
  function With(u: URI, k: nat, s: string): URI
    requires k < FIELDS
  {
    match k
    case 0 => u.(scheme := Some(s))
    case 1 => u.(opaquePart := Some(s))
    case 2 => u.(user := Some(s))
    case 3 => u.(password := Some(s))
    case 4 => u.(host := Some(s))
    case 5 => u.(port := Some(s))
    case 6 => u.(path := Some(s))
    case 7 => u.(epath := Some(s))
    case 8 => u.(equery := Some(s))
    case _ => u.(efragment := Some(s))
  }

  lemma WithFields(u: URI, k: nat, s: string)
    requires k < FIELDS
    ensures Fields(With(u, k, s)) == Fields(u)[k := Some(s)]
  {
  }

  const NO_FIELDS := URI(None, None, None, None, None, None, None, None, None, None)

  /** [lo, hi] touches no field's string or terminator. */
  ghost predicate Apart(field: seq<Option<nat>>, vals: seq<Option<string>>, lo: int, hi: int) {
    && |field| == |vals|
    && forall i :: 0 <= i < |field| && field[i].Some? && vals[i].Some? ==>
         field[i].value + |vals[i].value| < lo || hi < field[i].value
  }

  /** Every field points at its value, and no two values overlap. */
  ghost predicate Laid(m: seq<char>, field: seq<Option<nat>>, vals: seq<Option<string>>) {
    && |field| == |vals| == FIELDS
    && (forall i :: 0 <= i < FIELDS ==> field[i].Some? == vals[i].Some?)
    && (forall i :: 0 <= i < FIELDS && field[i].Some? ==> StrAt(m, field[i].value, vals[i].value))
    && (forall i, j :: 0 <= i < j < FIELDS && field[i].Some? && field[j].Some? ==>
          || field[i].value + |vals[i].value| < field[j].value
          || field[j].value + |vals[j].value| < field[i].value)
  }

  lemma LaidFrame(m: seq<char>, m': seq<char>, field: seq<Option<nat>>, vals: seq<Option<string>>, lo: int, hi: int)
    requires Laid(m, field, vals) && |m'| == |m| && Apart(field, vals, lo, hi)
    requires forall i :: 0 <= i < |m| && !(lo <= i <= hi) ==> m'[i] == m[i]
    ensures Laid(m', field, vals)
  {
    forall i | 0 <= i < FIELDS && field[i].Some? ensures StrAt(m', field[i].value, vals[i].value) {
      StrAtFrame(m, m', field[i].value, vals[i].value);
    }
  }

  lemma LaidAdd(m: seq<char>, field: seq<Option<nat>>, vals: seq<Option<string>>, k: nat, p: nat, s: string)
    requires Laid(m, field, vals) && k < FIELDS && field[k].None?
    requires StrAt(m, p, s) && Apart(field, vals, p, p + |s|)
    ensures Laid(m, field[k := Some(p)], vals[k := Some(s)])
  {
    hide StrAt;
  }

  lemma ApartSub(field: seq<Option<nat>>, vals: seq<Option<string>>, lo: int, hi: int, lo': int, hi': int)
    requires Apart(field, vals, lo, hi) && lo <= lo' && hi' <= hi
    ensures Apart(field, vals, lo', hi')
  {
  }

  lemma EpathStored(m: seq<char>, field: seq<Option<nat>>, u: URI)
    requires Laid(m, field, Fields(u)) && u.epath.Some? && |field| == FIELDS && field[EPATH].Some?
    ensures StrAt(m, field[EPATH].value, u.epath.value)
  {
    assert Fields(u)[EPATH] == u.epath;
  }

  lemma ApartAdd(field: seq<Option<nat>>, vals: seq<Option<string>>, lo: int, hi: int, k: nat, p: nat, s: string)
    requires Apart(field, vals, lo, hi) && k < |field| && (p + |s| < lo || hi < p)
    ensures Apart(field[k := Some(p)], vals[k := Some(s)], lo, hi)
  {
  }

  class UriStruct {
    const buf: array<char>
    var field: seq<Option<nat>>
    ghost var vals: URI
    /** Start of the second copy. */
    const second: nat

    ghost predicate Ok()
      reads this, buf
    {
      && Laid(buf[..], field, Fields(vals)) && |field| == FIELDS
      && 0 < second && buf.Length == 2 * second
    }

    /** A string that has not been assigned to a field yet, in the first copy. */
    ghost predicate Work(p: nat, w: string)
      reads this, buf
    {
      StrAt(buf[..], p, w) && Apart(field, Fields(vals), p, p + |w|) && p + |w| < second
    }

    /** The second copy is still unused. */
    ghost predicate SecondFree()
      reads this
    {
      Apart(field, Fields(vals), second, buf.Length)
    }

    lemma WorkDrop(p: nat, w: string, k: nat)
      requires Work(p, w) && k <= |w|
      ensures Work(p + k, w[k..])
    {
      StrAtDrop(buf[..], p, w, k);
    }

    /** zalloc and memcpy of the raw string. */
    constructor (s: string)
      requires NUL !in s
      ensures Ok() && Work(0, s) && SecondFree() && fresh(buf)
      ensures vals == NO_FIELDS && second == |s| + 1
    {
      second := |s| + 1;
      buf := new char[2 * (|s| + 1)](i => if 0 <= i < |s| then s[i] else NUL);
      field := seq(FIELDS, _ => None);
      vals := NO_FIELDS;
      new;
      assert buf[0..0 + |s|] == s;
    }

    /** Other unassigned strings, apart from [lo, hi]. */
    ghost predicate Others(o: seq<(nat, string)>, lo: int, hi: int)
      reads this, buf
    {
      forall i :: 0 <= i < |o| ==> Work(o[i].0, o[i].1) && (o[i].0 + |o[i].1| < lo || hi < o[i].0)
    }

    /** Assign a field. */
    method SetField(k: nat, p: nat, ghost w: string, ghost o: seq<(nat, string)>)
      requires Ok() && k < FIELDS && field[k].None? && Work(p, w) && Others(o, p, p + |w|)
      modifies `field, `vals
      ensures Ok() && field == old(field)[k := Some(p)] && vals == With(old(vals), k, w)
      ensures old(SecondFree()) ==> SecondFree()
      ensures Others(o, p, p + |w|)
    {
      hide StrAt;
      ghost var f := Fields(vals);
      WithFields(vals, k, w);
      LaidAdd(buf[..], field, f, k, p, w);
      forall i | 0 <= i < |o| ensures Apart(field[k := Some(p)], f[k := Some(w)], o[i].0, o[i].0 + |o[i].1|) {
        ApartAdd(field, f, o[i].0, o[i].0 + |o[i].1|, k, p, w);
      }
      field := field[k := Some(p)];
      vals := With(vals, k, w);
    }

    /** Overwrite the delimiter `k` characters into a string. */
    method Cut(p: nat, k: nat, ghost w: string, ghost o: seq<(nat, string)>)
      requires Ok() && Work(p, w) && k < |w| && Others(o, p, p + |w|)
      modifies buf
      ensures Ok() && Work(p, w[..k]) && Work(p + k + 1, w[k + 1..])
      ensures Others(o, p, p + |w|)
    {
      ghost var m := buf[..];
      buf[p + k] := NUL;
      LaidFrame(m, buf[..], field, Fields(vals), p, p + |w|);
      CutStrings(m, buf[..], p, w, k);
      forall i | 0 <= i < |o| ensures StrAt(buf[..], o[i].0, o[i].1) {
        StrAtFrame(m, buf[..], o[i].0, o[i].1);
      }
    }

    /** strchr(): distance to the first `c`, or -1. */
    method StrChr(p: nat, c: char, ghost w: string) returns (k: int)
      requires StrAt(buf[..], p, w) && c != NUL
      ensures k == if IndexOf(w, c) < |w| then IndexOf(w, c) else -1
    {
      k := 0;
      assert w[0..] == w;
      while buf[p + k] != c
        invariant 0 <= k <= |w| && StrAt(buf[..], p + k, w[k..])
        invariant IndexOf(w, c) == k + IndexOf(w[k..], c)
        decreases |w| - k
      {
        if buf[p + k] == NUL {
          AtEnd(buf[..], p + k, w[k..]);
          return -1;
        }
        assert w[k..] != [];
        StrAtTail(buf[..], p + k, w[k..]);
        assert w[k..][1..] == w[k + 1..];
        k := k + 1;
      }
      assert w[k..] != [];
      StrAtTail(buf[..], p + k, w[k..]);
    }

    /** strrchr(): distance to the last `c`, or -1. */
    method StrRChr(p: nat, c: char, ghost w: string) returns (k: int)
      requires StrAt(buf[..], p, w) && c != NUL
      ensures k == if LastIndexOf(w, c) < |w| then LastIndexOf(w, c) else -1
    {
      hide LastIndexOf;
      k := -1;
      var i := 0;
      assert w[0..] == w;
      while buf[p + i] != NUL
        invariant 0 <= i <= |w| && -1 <= k < i && StrAt(buf[..], p + i, w[i..])
        invariant k == -1 ==> forall j :: 0 <= j < i ==> w[j] != c
        invariant k >= 0 ==> w[k] == c && forall j :: k < j < i ==> w[j] != c
        decreases |w| - i
      {
        assert w[i..] != [];
        StrAtTail(buf[..], p + i, w[i..]);
        assert w[i..][1..] == w[i + 1..] && w[i..][0] == w[i];
        if buf[p + i] == c {
          k := i;
        }
        i := i + 1;
      }
      AtEnd(buf[..], p + i, w[i..]);
      LastIndexIs(w, c, k);
    }

    /** Split host into host[:port]. */
    method SplitPort(p: nat, ghost hp: string)
      requires Ok() && Work(p, hp) && vals.host.None? && vals.port.None?
      modifies buf, `field, `vals
      ensures Ok()
      ensures vals == old(vals).(host := Some(HostPort(hp).0), port := HostPort(hp).1)
    {
      hide Laid, Apart, StrAt, LastIndexOf, Fields;
      FieldsMatch(buf[..], field, vals);
      var k := StrRChr(p, ':', hp);
      if k >= 0 {
        var n := StrLen(buf, p, hp);
        StrAtIndex(buf[..], p, hp, n - 1);
        if buf[p + (n - 1)] != ']' {
          TakePort(p, k, hp);
          return;
        }
      }
      SetField(HOST, p, hp, []);
    }

    /** Cut at the colon and assign both halves. */
    method TakePort(p: nat, k: nat, ghost hp: string)
      requires Ok() && Work(p, hp) && vals.host.None? && vals.port.None? && k < |hp|
      modifies buf, `field, `vals
      ensures Ok() && vals == old(vals).(host := Some(hp[..k]), port := Some(hp[k + 1..]))
    {
      hide Laid, Apart, StrAt, Fields;
      FieldsMatch(buf[..], field, vals);
      Cut(p, k, hp, []);
      ghost var o := [(p, hp[..k])];
      SetField(PORT, p + k + 1, hp[k + 1..], o);
      assert Work(o[0].0, o[0].1);
      SetField(HOST, p, hp[..k], []);
    }

    /** Split authority into user[:password] and host[:port]. */
    method SplitAuthority(p: nat, ghost a: string)
      requires Ok() && Work(p, a)
      requires vals.user.None? && vals.password.None? && vals.host.None? && vals.port.None?
      modifies buf, `field, `vals
      ensures Ok() && vals == WithAuthority(old(vals), a)
    {
      hide HostPort, Laid, StrAt, Apart, IndexOf, Fields;
      var k := StrChr(p, '@', a);
      var host := p;
      ghost var hp := a;
      if k >= 0 {
        Cut(p, k, a, []);
        host := p + k + 1;
        hp := a[k + 1..];
        SplitUser(p, a[..k], host, hp);
      }
      SplitPort(host, hp);
    }

    /** Split user[:password]. */
    method SplitUser(p: nat, ghost info: string, host: nat, ghost hp: string)
      requires Ok() && Work(p, info) && Work(host, hp) && p + |info| < host
      requires vals.user.None? && vals.password.None?
      modifies buf, `field, `vals
      ensures Ok() && Work(host, hp)
      ensures var c := IndexOf(info, ':');
        vals == old(vals).(user := Some(info[..c]), password := if c < |info| then Some(info[c + 1..]) else None)
    {
      hide Laid, StrAt, Apart, IndexOf, Fields;
      FieldsMatch(buf[..], field, vals);
      ghost var o := [(host, hp)];
      var c := StrChr(p, ':', info);
      if c >= 0 {
        TakePassword(p, c, info, host, hp);
      } else {
        assert info[..|info|] == info;
        SetField(USER, p, info, o);
        assert Work(o[0].0, o[0].1);
      }
    }

    method TakePassword(p: nat, c: nat, ghost info: string, host: nat, ghost hp: string)
      requires Ok() && Work(p, info) && Work(host, hp) && p + |info| < host && c < |info|
      requires vals.user.None? && vals.password.None?
      modifies buf, `field, `vals
      ensures Ok() && Work(host, hp)
      ensures vals == old(vals).(user := Some(info[..c]), password := Some(info[c + 1..]))
    {
      hide Laid, StrAt, Apart, Fields;
      FieldsMatch(buf[..], field, vals);
      ghost var o := [(host, hp)];
      Cut(p, c, info, o);
      assert Work(o[0].0, o[0].1);
      ghost var both := [(p, info[..c]), (host, hp)];
      SetField(PASSWORD, p + c + 1, info[c + 1..], both);
      assert Work(both[0].0, both[0].1) && Work(both[1].0, both[1].1);
      SetField(USER, p, info[..c], o);
      assert Work(o[0].0, o[0].1);
    }

    /** Shuffle the authority down by one byte to make room for its terminator. */
    method ShuffleDown(p: nat, k: nat, ghost ep: string)
      requires Ok() && Work(p, ep) && 2 + k < |ep|
      modifies buf
      ensures Ok() && Work(p + 1, ep[2..2 + k]) && Work(p + 2 + k, ep[2 + k..])
    {
      ghost var m := buf[..];
      var i := 0;
      while i < k
        invariant 0 <= i <= k
        invariant forall j :: p + 1 <= j < p + 1 + i ==> buf[j] == m[j + 1]
        invariant forall j :: 0 <= j < buf.Length && !(p + 1 <= j < p + 1 + i) ==> buf[j] == m[j]
      {
        buf[p + 1 + i] := buf[p + 2 + i];
        i := i + 1;
      }
      buf[p + 1 + k] := NUL;
      LaidFrame(m, buf[..], field, Fields(vals), p, p + |ep|);
      ShuffledStrings(m, buf[..], p, ep, k);
    }

    /** strcpy of the encoded path into the second copy, for decoding. */
    method CopyPath(q: nat, ghost ep: string, ghost o: seq<(nat, string)>)
      requires Ok() && SecondFree() && vals.path.None? && vals.epath == Some(ep) && field[EPATH] == Some(q)
      requires q + |ep| < second && Others(o, second, second + |ep|)
      modifies buf, `field, `vals
      ensures Ok() && vals == old(vals).(path := Some(ep)) && Others(o, second, second + |ep|)
    {
      hide Laid, StrAt, Apart, Fields;
      ghost var m := buf[..];
      FieldsMatch(m, field, vals);
      EpathStored(m, field, vals);
      ApartSub(field, Fields(vals), second, buf.Length, second, second + |ep|);
      CopyString(q, ep);
      LaidFrame(m, buf[..], field, Fields(vals), second, second + |ep|);
      forall i | 0 <= i < |o| ensures StrAt(buf[..], o[i].0, o[i].1) {
        StrAtFrame(m, buf[..], o[i].0, o[i].1);
      }
      PathAssigned(ep, o);
    }

    method PathAssigned(ghost ep: string, ghost o: seq<(nat, string)>)
      requires Ok() && SecondFree() && vals.path.None? && field[PATH].None? && StrAt(buf[..], second, ep) && |ep| < second
      requires Others(o, second, second + |ep|)
      modifies `field, `vals
      ensures Ok() && vals == old(vals).(path := Some(ep)) && Others(o, second, second + |ep|)
    {
      hide StrAt;
      ghost var f := Fields(vals);
      WithFields(vals, PATH, ep);
      LaidAdd(buf[..], field, f, PATH, second, ep);
      forall i | 0 <= i < |o|
        ensures Apart(field[PATH := Some(second)], f[PATH := Some(ep)], o[i].0, o[i].0 + |o[i].1|)
      {
        ApartAdd(field, f, o[i].0, o[i].0 + |o[i].1|, PATH, second, ep);
      }
      field := field[PATH := Some(second)];
      vals := With(vals, PATH, ep);
    }

    /** strcpy to the start of the second copy. */
    method CopyString(q: nat, ghost t: string)
      requires StrAt(buf[..], q, t) && q + |t| < second && buf.Length == 2 * second
      modifies buf
      ensures StrAt(buf[..], second, t)
      ensures forall j :: 0 <= j < buf.Length && !(second <= j <= second + |t|) ==> buf[j] == old(buf[j])
    {
      ghost var m := buf[..];
      var i := 0;
      while buf[q + i] != NUL
        invariant 0 <= i <= |t|
        invariant forall j :: second <= j < second + i ==> buf[j] == m[j - second + q]
        invariant forall j :: 0 <= j < buf.Length && !(second <= j < second + i) ==> buf[j] == m[j]
        decreases |t| - i
      {
        assert i < |t|;
        buf[second + i] := buf[q + i];
        i := i + 1;
      }
      assert i == |t| by { if i < |t| { StrAtIndex(m, q, t, i); } }
      buf[second + i] := NUL;
      assert buf[second..second + |t|] == m[q..q + |t|];
    }

    /** A path without an authority. */
    method PlainPath(p: nat, ghost ep: string)
      requires Ok() && SecondFree() && Work(p, ep) && vals.epath.None? && vals.path.None?
      modifies buf, `field, `vals
      ensures Ok() && vals == old(vals).(path := Some(ep), epath := Some(ep))
    {
      hide Laid, StrAt, Apart, Fields;
      FieldsMatch(buf[..], field, vals);
      SetField(EPATH, p, ep, []);
      CopyPath(p, ep, []);
    }

    /** A net path: authority, then possibly an absolute path. */
    method NetPath(p: nat, ghost ep: string)
      requires Ok() && SecondFree() && Work(p, ep) && "//" <= ep
      requires vals.user.None? && vals.password.None? && vals.host.None? && vals.port.None?
      requires vals.epath.None? && vals.path.None?
      modifies buf, `field, `vals
      ensures Ok()
      ensures var rest := ep[2..];
        var k := IndexOf(rest, '/');
        var path := if k < |rest| then Some(rest[k..]) else None;
        vals == WithAuthority(old(vals).(path := path, epath := path), rest[..k])
    {
      hide Laid, StrAt, Apart, Fields, IndexOf, WithAuthority;
      ghost var rest := ep[2..];
      WorkDrop(p, ep, 2);
      var k := StrChr(p + 2, '/', rest);
      if k >= 0 {
        assert rest[k..] == ep[2 + k..] && rest[..k] == ep[2..2 + k];
        NetPathWithPath(p, k, ep);
        SplitAuthority(p + 1, rest[..k]);
      } else {
        assert rest[..|rest|] == rest;
        SplitAuthority(p + 2, rest);
      }
    }

    method NetPathWithPath(p: nat, k: nat, ghost ep: string)
      requires Ok() && SecondFree() && Work(p, ep) && 2 + k < |ep|
      requires vals.epath.None? && vals.path.None?
      modifies buf, `field, `vals
      ensures Ok() && Work(p + 1, ep[2..2 + k])
      ensures vals == old(vals).(path := Some(ep[2 + k..]), epath := Some(ep[2 + k..]))
    {
      hide Laid, StrAt, Apart, Fields;
      FieldsMatch(buf[..], field, vals);
      ShuffleDown(p, k, ep);
      ghost var o := [(p + 1, ep[2..2 + k])];
      SetField(EPATH, p + 2 + k, ep[2 + k..], o);
      assert Work(o[0].0, o[0].1);
      CopyPath(p + 2 + k, ep[2 + k..], o);
      assert Work(o[0].0, o[0].1);
    }

    /** The hierarchical part: query, then net path or plain path. */
    method ParseHierarchical(p: nat, ghost hier: string)
      requires Ok() && SecondFree() && Work(p, hier)
      requires vals == NO_FIELDS.(scheme := vals.scheme, efragment := vals.efragment)
      modifies buf, `field, `vals
      ensures Ok() && vals == Hierarchical(old(vals).scheme, hier, old(vals).efragment)
    {
      hide Laid, StrAt, Apart, Fields, IndexOf, WithAuthority;
      ghost var ep := ChopQuery(p, hier);
      if buf[p] == NUL {
        AtEnd(buf[..], p, ep);
        return;
      }
      FirstChars(buf[..], p, ep);
      FieldsMatch(buf[..], field, vals);
      if field[SCHEME].Some? && buf[p] == '/' && buf[p + 1] == '/' {
        NetPath(p, ep);
      } else {
        PlainPath(p, ep);
      }
    }

    /** Chop off the query, if it exists. */
    method ChopQuery(p: nat, ghost hier: string) returns (ghost ep: string)
      requires Ok() && SecondFree() && Work(p, hier) && vals.equery.None?
      modifies buf, `field, `vals
      ensures Ok() && SecondFree() && Work(p, ep)
      ensures var q := IndexOf(hier, '?');
        && ep == hier[..q]
        && vals == old(vals).(equery := if q < |hier| then Some(hier[q + 1..]) else None)
    {
      hide Laid, StrAt, Apart, Fields, IndexOf;
      FieldsMatch(buf[..], field, vals);
      var q := StrChr(p, '?', hier);
      if q >= 0 {
        ep := hier[..q];
        Cut(p, q, hier, []);
        ghost var o := [(p, ep)];
        SetField(EQUERY, p + q + 1, hier[q + 1..], o);
        assert Work(o[0].0, o[0].1);
      } else {
        ep := hier;
        assert hier[..|hier|] == hier;
      }
    }

    /** Identify the scheme, then the opaque or hierarchical part. */
    method ParseScheme(ghost raw: string)
      requires Ok() && SecondFree() && Work(0, raw) && vals == NO_FIELDS.(efragment := vals.efragment)
      modifies buf, `field, `vals
      ensures Ok() && vals == ParseMain(raw, old(vals).efragment)
    {
      hide Laid, StrAt, Apart, Fields, Hierarchical, SchemeLen;
      FieldsMatch(buf[..], field, vals);
      var n := SchemeEnd(raw);
      if buf[n] != ':' {
        ParseHierarchical(0, raw);
        return;
      }
      ghost var scheme, rest := raw[..n], raw[n + 1..];
      Cut(0, n, raw, []);
      ghost var o := [(n + 1, rest)];
      SetField(SCHEME, 0, scheme, o);
      assert Work(o[0].0, o[0].1);
      assert buf[n + 1] == '/' <==> rest != [] && rest[0] == '/' by { FirstChar(buf[..], n + 1, rest); }
      FieldsMatch(buf[..], field, vals);
      if buf[n + 1] == '/' {
        ParseHierarchical(n + 1, rest);
      } else {
        SetField(OPAQUE, n + 1, rest, []);
      }
    }

    /** The scan over possible scheme characters. */
    method SchemeEnd(ghost raw: string) returns (n: nat)
      requires StrAt(buf[..], 0, raw)
      ensures n == SchemeLen(raw) && n < buf.Length
      ensures buf[n] == ':' <==> n < |raw| && raw[n] == ':'
    {
      n := 0;
      assert raw[0..] == raw;
      while SchemeChar(buf[n])
        invariant 0 <= n <= |raw| && StrAt(buf[..], n, raw[n..])
        invariant SchemeLen(raw) == n + SchemeLen(raw[n..])
        decreases |raw| - n
      {
        assert raw[n..] != [];
        StrAtTail(buf[..], n, raw[n..]);
        assert raw[n..][1..] == raw[n + 1..];
        n := n + 1;
      }
      FirstChar(buf[..], n, raw[n..]);
    }

    /** Chop off the parameter list and the fragment. */
    method ChopFragment(ghost s: string) returns (ghost raw: string)
      requires Ok() && SecondFree() && Work(0, s) && vals == NO_FIELDS
      modifies buf, `field, `vals
      ensures Ok() && SecondFree() && Work(0, raw)
      ensures var t := s[..FindParams(s)];
        var k := IndexOf(t, '#');
        && raw == t[..k]
        && vals == NO_FIELDS.(efragment := if k < |t| then Some(t[k + 1..]) else None)
    {
      hide Laid, StrAt, Apart, Fields, IndexOf, FindParams;
      FieldsMatch(buf[..], field, vals);
      ghost var t := ChopParams(s);
      var k := StrChr(0, '#', t);
      if k >= 0 {
        raw := t[..k];
        Cut(0, k, t, []);
        ghost var o := [(0, raw)];
        SetField(EFRAGMENT, k + 1, t[k + 1..], o);
        assert Work(o[0].0, o[0].1);
      } else {
        raw := t;
        assert t[..|t|] == t;
      }
    }

    /** Identify the parameter list, if present, and cut it off. */
    method ChopParams(ghost s: string) returns (ghost t: string)
      requires Ok() && Work(0, s)
      modifies buf
      ensures Ok() && Work(0, t) && t == s[..FindParams(s)]
    {
      hide Laid, StrAt, Apart, Fields, FindParams;
      var k := StrStr(s);
      if k >= 0 {
        t := s[..k];
        Cut(0, k, s, []);
      } else {
        t := s;
        assert s[..|s|] == s;
      }
    }

    /** strstr(): position of the parameter list marker, or -1. */
    method StrStr(ghost s: string) returns (k: int)
      requires StrAt(buf[..], 0, s)
      ensures k == if FindParams(s) < |s| then FindParams(s) else -1
    {
      k := 0;
      assert s[0..] == s;
      while buf[k] != NUL
        invariant 0 <= k <= |s| && StrAt(buf[..], k, s[k..])
        invariant FindParams(s) == k + FindParams(s[k..])
        decreases |s| - k
      {
        assert s[k..] != [];
        StrAtTail(buf[..], k, s[k..]);
        var found := MatchParams(k, s[k..]);
        if found {
          return;
        }
        assert s[k..][1..] == s[k + 1..];
        k := k + 1;
      }
      AtEnd(buf[..], k, s[k..]);
      k := -1;
    }

    /** memcmp with the marker. */
    method MatchParams(p: nat, ghost t: string) returns (found: bool)
      requires StrAt(buf[..], p, t)
      ensures found <==> PARAMS <= t
    {
      var i := 0;
      while i < |PARAMS| && buf[p + i] == PARAMS[i]
        invariant 0 <= i <= |PARAMS| && i <= |t| && t[..i] == PARAMS[..i]
      {
        assert i < |t|;
        StrAtIndex(buf[..], p, t, i);
        assert t[..i + 1] == t[..i] + [t[i]];
        assert PARAMS[..i + 1] == PARAMS[..i] + [PARAMS[i]];
        i := i + 1;
      }
      if i == |PARAMS| {
        assert PARAMS[..i] == PARAMS;
        return true;
      }
      if i < |t| {
        StrAtIndex(buf[..], p, t, i);
      }
      return false;
    }

    /** Decode the fields that are not kept encoded, each in its place. */
    method DecodeAll()
      requires Ok()
      modifies buf, `vals
      ensures Ok() && vals == DecodeFields(old(vals))
    {
      hide Laid, StrAt, Fields, DecodeFields, Decoded;
      var k := 0;
      while k < EPATH
        invariant 0 <= k <= EPATH && Ok() && vals == DecodedTo(old(vals), k)
      {
        DecodeOne(k);
        k := k + 1;
      }
      DecodedAll(old(vals));
    }

    /** uri_decode_inplace on field `k`. */
    method DecodeOne(k: nat)
      requires Ok() && k < FIELDS
      modifies buf, `vals
      ensures Ok() && vals == Decoded(old(vals), k)
    {
      hide StrAt;
      FieldIs(buf[..], field, vals, k);
      if field[k].Some? {
        ghost var f := Fields(vals);
        ghost var m := buf[..];
        UriDecodeInplace(buf, field[k].value, f[k].value);
        LaidReplace(m, buf[..], field, f, k, CStr(Decode(f[k].value)));
        WithFields(vals, k, CStr(Decode(f[k].value)));
        vals := With(vals, k, CStr(Decode(f[k].value)));
      }
    }
  }

  /** parse_uri(): the pointers end up at exactly the parts that Parse names. */
  method ParseUri(s: string) returns (u: UriStruct)
    requires NUL !in s
    ensures fresh(u) && fresh(u.buf) && u.Ok() && u.vals == Parse(s)
    ensures forall k :: 0 <= k < FIELDS ==>
      && u.field[k].Some? == Fields(Parse(s))[k].Some?
      && (u.field[k].Some? ==> u.field[k].value <= u.buf.Length && CStr(u.buf[..][u.field[k].value..]) == Fields(Parse(s))[k].value)
  {
    hide Laid, StrAt, Apart, ParseMain, DecodeFields, Fields;
    u := new UriStruct(s);
    ghost var raw := u.ChopFragment(s);
    u.ParseScheme(raw);
    u.DecodeAll();
    forall k | 0 <= k < FIELDS
      ensures u.field[k].Some? == Fields(Parse(s))[k].Some?
      ensures u.field[k].Some? ==> u.field[k].value <= u.buf.Length && CStr(u.buf[..][u.field[k].value..]) == Fields(Parse(s))[k].value
    {
      FieldIs(u.buf[..], u.field, u.vals, k);
    }
  }

  lemma LastIndexIs(w: string, c: char, k: int)
    requires -1 <= k < |w|
    requires k == -1 ==> forall j :: 0 <= j < |w| ==> w[j] != c
    requires k >= 0 ==> w[k] == c && forall j :: k < j < |w| ==> w[j] != c
    ensures k == if LastIndexOf(w, c) < |w| then LastIndexOf(w, c) else -1
  {
    var n := LastIndexOf(w, c);
    if k >= 0 {
      assert w[k] in w;
    }
  }

  lemma FieldsMatch(m: seq<char>, field: seq<Option<nat>>, u: URI)
    requires Laid(m, field, Fields(u))
    ensures |field| == FIELDS
    ensures field[SCHEME].None? <==> u.scheme.None?
    ensures field[OPAQUE].None? <==> u.opaquePart.None?
    ensures field[USER].None? <==> u.user.None?
    ensures field[PASSWORD].None? <==> u.password.None?
    ensures field[HOST].None? <==> u.host.None?
    ensures field[PORT].None? <==> u.port.None?
    ensures field[PATH].None? <==> u.path.None?
    ensures field[EPATH].None? <==> u.epath.None?
    ensures field[EQUERY].None? <==> u.equery.None?
    ensures field[EFRAGMENT].None? <==> u.efragment.None?
  {
    var f := Fields(u);
    assert f[SCHEME] == u.scheme && f[OPAQUE] == u.opaquePart && f[USER] == u.user && f[PASSWORD] == u.password
        && f[HOST] == u.host && f[PORT] == u.port && f[PATH] == u.path && f[EPATH] == u.epath
        && f[EQUERY] == u.equery && f[EFRAGMENT] == u.efragment;
  }

  lemma CutStrings(m: seq<char>, m': seq<char>, p: nat, w: string, k: nat)
    requires StrAt(m, p, w) && k < |w| && m' == m[p + k := NUL]
    ensures StrAt(m', p, w[..k]) && StrAt(m', p + k + 1, w[k + 1..])
  {
    assert m'[p..p + k] == m[p..p + |w|][..k];
    assert m'[p + k + 1..p + |w|] == m[p..p + |w|][k + 1..];
  }

  lemma ShuffledStrings(m: seq<char>, m': seq<char>, p: nat, ep: string, k: nat)
    requires StrAt(m, p, ep) && 2 + k < |ep| && |m'| == |m|
    requires forall j :: p + 1 <= j < p + 1 + k ==> m'[j] == m[j + 1]
    requires m'[p + 1 + k] == NUL
    requires forall j :: p + 2 + k <= j <= p + |ep| ==> m'[j] == m[j]
    ensures StrAt(m', p + 1, ep[2..2 + k]) && StrAt(m', p + 2 + k, ep[2 + k..])
  {
    var a, b := m'[p + 1..p + 1 + k], m[p..p + |ep|][2..2 + k];
    forall i | 0 <= i < k ensures a[i] == b[i] {
      assert m'[p + 1 + i] == m[p + 1 + i + 1];
    }
    assert a == b;
    assert m'[p + 2 + k..p + |ep|] == m[p..p + |ep|][2 + k..];
  }

  /** Comparing the first two characters, as strncmp does. */
  lemma FirstChars(m: seq<char>, p: nat, s: string)
    requires StrAt(m, p, s) && m[p] != NUL
    ensures s != [] && p + 1 < |m| && m[p] == s[0]
    ensures "//" <= s <==> m[p] == '/' && m[p + 1] == '/'
  {
    assert s != [];
    StrAtIndex(m, p, s, 0);
    if |s| > 1 { StrAtIndex(m, p, s, 1); }
  }

  lemma FirstChar(m: seq<char>, p: nat, s: string)
    requires StrAt(m, p, s)
    ensures p < |m| && (s == [] ==> m[p] == NUL) && (s != [] ==> m[p] == s[0])
  {
    if s != [] { StrAtIndex(m, p, s, 0); }
  }

  lemma FieldIs(m: seq<char>, field: seq<Option<nat>>, u: URI, k: nat)
    requires Laid(m, field, Fields(u)) && k < FIELDS
    ensures |field| == |Fields(u)| == FIELDS && field[k].Some? == Fields(u)[k].Some?
    ensures field[k].Some? ==>
      && StrAt(m, field[k].value, Fields(u)[k].value)
      && field[k].value <= |m| && CStr(m[field[k].value..]) == Fields(u)[k].value
  {
    if field[k].Some? {
      StrAtIsCStr(m, field[k].value, Fields(u)[k].value);
    }
  }

  /** Field `k` decoded. */
  ghost function Decoded(u: URI, k: nat): URI
    requires k < FIELDS
  {
    if Fields(u)[k].Some? then With(u, k, CStr(Decode(Fields(u)[k].value))) else u
  }

  /** The first `n` fields decoded. */
  ghost function DecodedTo(u: URI, n: nat): URI
    requires n <= FIELDS
  {
    if n == 0 then u else Decoded(DecodedTo(u, n - 1), n - 1)
  }

  lemma DecodedAll(u: URI)
    ensures DecodedTo(u, EPATH) == DecodeFields(u)
  {
    hide Decode, CStr;
    var u1 := u.(scheme := DecodeField(u.scheme));
    var u2 := u1.(opaquePart := DecodeField(u.opaquePart));
    var u3 := u2.(user := DecodeField(u.user));
    var u4 := u3.(password := DecodeField(u.password));
    var u5 := u4.(host := DecodeField(u.host));
    var u6 := u5.(port := DecodeField(u.port));
    assert DecodedTo(u, 1) == u1;
    assert DecodedTo(u, 2) == u2;
    assert DecodedTo(u, 3) == u3;
    assert DecodedTo(u, 4) == u4;
    assert DecodedTo(u, 5) == u5;
    assert DecodedTo(u, 6) == u6;
  }

  /** A shorter string in the place of a field's value. */
  lemma LaidReplace(m: seq<char>, m': seq<char>, field: seq<Option<nat>>, vals: seq<Option<string>>, k: nat, s: string)
    requires Laid(m, field, vals) && k < FIELDS && field[k].Some? && |m'| == |m|
    requires StrAt(m', field[k].value, s) && |s| <= |vals[k].value|
    requires forall j :: 0 <= j < |m| && !(field[k].value <= j <= field[k].value + |vals[k].value|) ==> m'[j] == m[j]
    ensures Laid(m', field, vals[k := Some(s)])
  {
    hide StrAt;
    forall i | 0 <= i < FIELDS && field[i].Some? && i != k ensures StrAt(m', field[i].value, vals[i].value) {
      var lo, hi := field[k].value, field[k].value + |vals[k].value|;
      assert field[i].value + |vals[i].value| < lo || hi < field[i].value;
      StrAtBound(m, field[i].value, vals[i].value);
      StrAtFrame(m, m', field[i].value, vals[i].value);
    }
  }

  lemma StrAtBound(m: seq<char>, p: nat, s: string)
    requires StrAt(m, p, s)
    ensures p + |s| < |m|
  {
  }
}
