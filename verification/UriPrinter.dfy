/** The printer as it really works: a bounded buffer filled piece by piece, the
    full length counted even after the space has run out. */
module UriPrinter {
  import opened CLib
  import opened UriCodec
  import opened Uri

  function Min(a: int, b: int): int {
    if a < b then a else b
  }

  /** A buffer of `len` characters holds as much of `text` as fits, terminated. */
  ghost predicate Holds(m: seq<char>, len: nat, text: string) {
    && len <= |m|
    && (len > 0 ==> var n := Min(|text|, len - 1); m[..n] == text[..n] && m[n] == NUL)
  }

  /** ssnprintf() of a piece of text at position `used`: a non-positive size
      stores nothing. */
  method Emit(buf: array<char>, len: nat, used: nat, text: string, ghost sofar: string) returns (n: nat)
    requires Holds(buf[..], len, sofar) && used == |sofar|
    modifies buf
    ensures n == |text| && Holds(buf[..], len, sofar + text)
    ensures forall j :: len <= j < buf.Length ==> buf[j] == old(buf[j])
  {
    n := |text|;
    var size := len - used;
    if size > 0 {
      ghost var m := buf[..];
      var i := 0;
      while i < |text| && i < size - 1
        invariant 0 <= i <= |text| && i <= size - 1
        invariant buf[..used] == m[..used] && buf[used..used + i] == text[..i]
        invariant forall j :: len <= j < buf.Length ==> buf[j] == m[j]
      {
        buf[used + i] := text[i];
        i := i + 1;
      }
      buf[used + i] := NUL;
      Extended(m, buf[..], len, sofar, text, i);
    } else {
      StillFull(buf[..], len, sofar, text);
    }
  }

  lemma Extended(m: seq<char>, m': seq<char>, len: nat, sofar: string, text: string, i: nat)
    requires Holds(m, len, sofar) && |sofar| < len && |m'| == |m| && i == Min(|text|, len - |sofar| - 1)
    requires m'[..|sofar|] == m[..|sofar|] && m'[|sofar|..|sofar| + i] == text[..i] && m'[|sofar| + i] == NUL
    ensures Holds(m', len, sofar + text)
  {
    var n := |sofar| + i;
    assert sofar[..|sofar|] == sofar;
    assert m'[..n] == m'[..|sofar|] + m'[|sofar|..n];
    assert (sofar + text)[..n] == sofar + text[..i];
  }

  lemma StillFull(m: seq<char>, len: nat, sofar: string, text: string)
    requires Holds(m, len, sofar) && |sofar| >= len
    ensures Holds(m, len, sofar + text)
  {
    if len > 0 {
      assert (sofar + text)[..len - 1] == sofar[..len - 1];
    }
  }

  /** uri_encode(). */
  method UriEncode(f: Field, raw: string, buf: array<char>, len: nat, start: nat, ghost sofar: string) returns (used: nat)
    requires CString(raw) && Holds(buf[..], len, sofar) && start == |sofar|
    modifies buf
    ensures used == |Encode(f, raw)| && Holds(buf[..], len, sofar + Encode(f, raw))
    ensures forall j :: len <= j < buf.Length ==> buf[j] == old(buf[j])
  {
    hide Holds, EncodeChar;
    used := 0;
    var i := 0;
    ghost var done: string := [];
    assert sofar + [] == sofar && raw[0..] == raw;
    while i < |raw|
      invariant 0 <= i <= |raw| && used == |done| && Encode(f, raw) == done + Encode(f, raw[i..])
      invariant Holds(buf[..], len, sofar + done)
      invariant forall j :: len <= j < buf.Length ==> buf[j] == old(buf[j])
    {
      var piece := EncodeChar(raw[i], f);
      var n := Emit(buf, len, start + used, piece, sofar + done);
      assert raw[i..][1..] == raw[i + 1..];
      assert sofar + done + piece == sofar + (done + piece);
      done := done + piece;
      used := used + n;
      i := i + 1;
    }
    assert done + [] == done;
  }

  /** Field number `k` of a URI. */
  function FieldOf(u: URI, k: nat): Option<string>
    requires k < 10
  {
    match k
    case 0 => u.scheme
    case 1 => u.opaquePart
    case 2 => u.user
    case 3 => u.password
    case 4 => u.host
    case 5 => u.port
    case 6 => u.path
    case 7 => u.epath
    case 8 => u.equery
    case _ => u.efragment
  }

  function KindOf(k: nat): Field
    requires k < 10
  {
    [Scheme, OpaquePart, User, Password, Host, Port, Path, EPath, EQuery, EFragment][k]
  }

  /** The character printed before field `k`, if any. */
  function Prefix(u: URI, k: nat): string
    requires k < 10
  {
    match k
    case 3 => ":"
    case 4 => if u.user.Some? then "@" else ""
    case 5 => ":"
    case 8 => "?"
    case 9 => "#"
    case _ => ""
  }

  function Suffix(u: URI, k: nat): string {
    if k == 0 then ":" + (if u.host.Some? then "//" else "") else ""
  }

  /** What the loop prints for field `k`. */
  ghost function Piece(u: URI, k: nat): string
    requires k < 10 && CStrings(u)
  {
    if FieldOf(u, k).None? || (k == 6 && u.epath.Some?) then []
    else Prefix(u, k) + Encode(KindOf(k), FieldOf(u, k).value) + Suffix(u, k)
  }

  ghost function Pieces(u: URI, k: nat): string
    requires k <= 10 && CStrings(u)
  {
    if k == 0 then [] else Pieces(u, k - 1) + Piece(u, k - 1)
  }

  lemma SimplePiece(u: URI, k: nat)
    requires CStrings(u) && 0 < k < 10 && k != 6
    ensures Piece(u, k) == Print(Prefix(u, k), KindOf(k), FieldOf(u, k))
  {
    hide Encode, CString, Prefix, KindOf;
    if FieldOf(u, k).Some? {
      var p, e := Prefix(u, k), Encode(KindOf(k), FieldOf(u, k).value);
      assert p + e + [] == p + e;
    }
  }

  lemma SchemePiece(u: URI)
    requires CStrings(u)
    ensures Piece(u, 0) == PrintScheme(u)
  {
    hide Encode, CString;
    if u.scheme.Some? {
      var e := Encode(Scheme, u.scheme.value);
      assert [] + e + Suffix(u, 0) == [] + e + ":" + (if u.host.Some? then "//" else "");
    }
  }

  lemma PathPieces(u: URI)
    requires CStrings(u)
    ensures Piece(u, 6) + Piece(u, 7) == PrintPath(u)
  {
    hide Encode, CString;
    SimplePiece(u, 7);
    if u.epath.None? && u.path.Some? {
      var e := Encode(Path, u.path.value);
      assert [] + e + [] + [] == [] + e;
    }
  }

  lemma AuthorityPieces(u: URI)
    requires CStrings(u)
    ensures Piece(u, 2) + Piece(u, 3) + Piece(u, 4) + Piece(u, 5) == PrintAuthority(u)
  {
    SimplePiece(u, 2);
    SimplePiece(u, 3);
    SimplePiece(u, 4);
    SimplePiece(u, 5);
    hide Encode, CString, Print, Piece;
  }

  /** The loop over the fields prints what Format says. */
  lemma PiecesAreFormat(u: URI)
    requires CStrings(u)
    ensures Pieces(u, 10) == Format(u)
  {
    SchemePiece(u);
    SimplePiece(u, 1);
    AuthorityPieces(u);
    PathPieces(u);
    SimplePiece(u, 8);
    SimplePiece(u, 9);
    hide Encode, CString, Print, Piece, PrintScheme, PrintAuthority, PrintPath, Pieces;
    Unroll(u);
    Regroup(Piece(u, 0) + Piece(u, 1), Piece(u, 2), Piece(u, 3), Piece(u, 4), Piece(u, 5), Piece(u, 6), Piece(u, 7));
  }

  lemma Unroll(u: URI)
    requires CStrings(u)
    ensures Pieces(u, 10) == Piece(u, 0) + Piece(u, 1) + Piece(u, 2) + Piece(u, 3) + Piece(u, 4) + Piece(u, 5)
                           + Piece(u, 6) + Piece(u, 7) + Piece(u, 8) + Piece(u, 9)
  {
    hide CStrings, Piece;
    assert Pieces(u, 1) == Piece(u, 0);
    assert Pieces(u, 3) == Pieces(u, 1) + Piece(u, 1) + Piece(u, 2);
    assert Pieces(u, 5) == Pieces(u, 3) + Piece(u, 3) + Piece(u, 4);
    assert Pieces(u, 7) == Pieces(u, 5) + Piece(u, 5) + Piece(u, 6);
    assert Pieces(u, 9) == Pieces(u, 7) + Piece(u, 7) + Piece(u, 8);
  }

  lemma Regroup(s: string, a: string, b: string, c: string, d: string, e: string, f: string)
    ensures s + a + b + c + d + e + f == s + (a + b + c + d) + (e + f)
  {
  }

  /** format_uri() of a URI that is present. */
  method FormatUri(u: URI, buf: array<char>, len: nat) returns (used: nat)
    requires CStrings(u) && len <= buf.Length
    modifies buf
    ensures used == |Format(u)| && Holds(buf[..], len, Format(u))
    ensures forall j :: len <= j < buf.Length ==> buf[j] == old(buf[j])
  {
    if len > 0 {
      buf[0] := NUL;
    }
    used := 0;
    assert Holds(buf[..], len, []);
    hide Holds, Piece;
    var k := 0;
    while k < 10
      invariant 0 <= k <= 10 && used == |Pieces(u, k)|
      invariant Holds(buf[..], len, Pieces(u, k))
      invariant forall j :: len <= j < buf.Length ==> buf[j] == old(buf[j])
    {
      var n := FormatField(u, k, buf, len, used, Pieces(u, k));
      used := used + n;
      k := k + 1;
    }
    PiecesAreFormat(u);
  }

  /** One turn of the formatting loop. */
  method FormatField(u: URI, k: nat, buf: array<char>, len: nat, start: nat, ghost sofar: string) returns (used: nat)
    requires CStrings(u) && k < 10 && Holds(buf[..], len, sofar) && start == |sofar|
    modifies buf
    ensures used == |Piece(u, k)| && Holds(buf[..], len, sofar + Piece(u, k))
    ensures forall j :: len <= j < buf.Length ==> buf[j] == old(buf[j])
  {
    hide Holds, Encode, Prefix, Suffix, KindOf;
    used := 0;
    assert sofar + [] == sofar;
    if FieldOf(u, k).None? || (k == 6 && u.epath.Some?) {
      return;
    }
    var s := FieldOf(u, k).value;
    ghost var a, b, c := Prefix(u, k), Encode(KindOf(k), s), Suffix(u, k);
    var n := Emit(buf, len, start, Prefix(u, k), sofar);
    used := used + n;
    n := UriEncode(KindOf(k), s, buf, len, start + used, sofar + a);
    used := used + n;
    n := Emit(buf, len, start + used, Suffix(u, k), sofar + a + b);
    used := used + n;
    assert sofar + a + b + c == sofar + (a + b + c);
  }
}
