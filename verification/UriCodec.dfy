/** Percent-encoding of URI fields (section 2.1 of RFC 3986), with the code's own
    escape tables and its own strtoul(). */
module UriCodec {
  import opened CLib

  datatype Field =
    | Scheme | OpaquePart | User | Password | Host | Port | Path
    | EPath | EQuery | EFragment

  // ------------------------------------------------------------------------
  // Characters
  // ------------------------------------------------------------------------

  predicate IsPrint(c: char) {
    ' ' <= c <= '~'
  }

  predicate IsAlpha(c: char) {
    'A' <= c <= 'Z' || 'a' <= c <= 'z'
  }

  /** A C string of bytes: no NUL, every character below 256. */
  ghost predicate CString(s: string) {
    forall i :: 0 <= i < |s| ==> s[i] != NUL && s[i] as int < 256
  }

  ghost predicate SevenBit(s: string) {
    forall i :: 0 <= i < |s| ==> s[i] as int < 128
  }

  /** The C string held in a buffer: everything before the first NUL. */
  function CStr(s: string): (r: string)
    ensures r <= s && NUL !in r && (|r| < |s| ==> s[|r|] == NUL)
  {
    if s == [] || s[0] == NUL then [] else [s[0]] + CStr(s[1..])
  }

  lemma {:induction false} CStrId(s: string)
    requires NUL !in s
    ensures CStr(s) == s
  {
    if s != [] { CStrId(s[1..]); }
  }

  // ------------------------------------------------------------------------
  // Decoding
  // ------------------------------------------------------------------------

  /** digit_value(): anything that is not a digit in some base is large. */
  function DigitValue(c: char): (d: int)
    ensures d < 16 <==> '0' <= c <= '9' || 'A' <= c <= 'F' || 'a' <= c <= 'f'
    ensures d >= 0
  {
    var x := c as int;
    if x >= 'a' as int then x - ('a' as int - 10)
    else if x >= 'A' as int then x - ('A' as int - 10)
    else if x <= '9' as int then (x - '0' as int) % 0x1_0000_0000
    else x
  }

  function SkipSpace(h: string): (n: nat)
    ensures n <= |h|
  {
    if h != [] && IsSpace(h[0]) then 1 + SkipSpace(h[1..]) else 0
  }

  /** The digit loop of strtoul() in base 16: value and number of digits. */
  function HexDigits(h: string, value: nat): (r: (nat, nat))
    ensures r.1 <= |h|
  {
    if h != [] && DigitValue(h[0]) < 16 then
      var (v, n) := HexDigits(h[1..], value * 16 + DigitValue(h[0]));
      (v, n + 1)
    else (value, 0)
  }

  /** strtoul ( h, &end, 16 ) cast to char, and the number of characters consumed:
      leading white space and a sign are accepted. */
  function StrToChar(h: string): (r: (char, nat))
    ensures r.1 <= |h|
  {
    var ws := SkipSpace(h);
    var signed := ws < |h| && (h[ws] == '-' || h[ws] == '+');
    var start := if signed then ws + 1 else ws;
    var (v, n) := HexDigits(h[start..], 0);
    var value := if signed && h[ws] == '-' then (0 - v) % 256 else v % 256;
    (value as char, start + n)
  }

  /** The character that `%` followed by `rest` stands for, and how much of `rest`
      belongs to the escape. */
  function Escape(rest: string): (r: (char, nat))
    ensures r.1 <= |rest| && r.1 <= 2
  {
    var h := if |rest| <= 2 then rest else rest[..2];
    var (c, skip) := StrToChar(h);
    (if skip > 0 then c else '%', skip)
  }

  /** uri_decode(). */
  function Decode(s: string): (r: string)
    ensures |r| <= |s|
    decreases |s|
  {
    if s == [] then []
    else if s[0] == '%' then
      var (c, skip) := Escape(s[1..]);
      [c] + Decode(s[1 + skip..])
    else [s[0]] + Decode(s[1..])
  }

  /** A character that begins no escape stands for itself, and so does a percent sign
      at the end. */
  lemma DecodePlain(c: char, rest: string)
    requires c != '%' || rest == []
    ensures Decode([c] + rest) == [c] + Decode(rest)
  {
    assert ([c] + rest)[1..] == rest;
    assert HexDigits([], 0) == (0, 0);
  }

  const UPPER := "0123456789ABCDEF"
  const LOWER := "0123456789abcdef"

  /** `c` is the digit for `d`, in either case. */
  predicate IsDigit(c: char, d: nat)
    requires d < 16
  {
    c == UPPER[d] || c == LOWER[d]
  }

  predicate IsHex(c: char) {
    c in UPPER || c in LOWER
  }

  /** A digit stands for its position. */
  lemma DigitPosition(c: char, d: nat)
    requires d < 16 && IsDigit(c, d)
    ensures DigitValue(c) == d
  {
    if d < 10 {
      assert UPPER[d] as int == '0' as int + d && LOWER[d] as int == '0' as int + d;
    } else {
      assert UPPER[d] as int == 'A' as int + d - 10 && LOWER[d] as int == 'a' as int + d - 10;
    }
  }

  lemma HexExactly(c: char)
    ensures IsHex(c) <==> DigitValue(c) < 16
    ensures IsHex(c) ==> IsDigit(c, DigitValue(c)) && !IsSpace(c) && c != '-' && c != '+'
  {
    var d := DigitValue(c);
    if d < 16 {
      assert c == UPPER[d] || c == LOWER[d];
    }
    if c in UPPER {
      var k :| 0 <= k < |UPPER| && UPPER[k] == c;
      DigitPosition(c, k);
    } else if c in LOWER {
      var k :| 0 <= k < |LOWER| && LOWER[k] == c;
      DigitPosition(c, k);
    }
  }

  /** Two hexadecimal digits after a percent sign, in either case, are one character:
      sixteen times the first plus the second. */
  lemma DecodePair(hi: char, lo: char, a: nat, b: nat, rest: string)
    requires a < 16 && b < 16 && IsDigit(hi, a) && IsDigit(lo, b)
    ensures Decode("%" + [hi, lo] + rest) == [(16 * a + b) as char] + Decode(rest)
  {
    hide DigitValue, UPPER, LOWER;
    DigitPosition(hi, a);
    DigitPosition(lo, b);
    HexExactly(hi);
    HexExactly(lo);
    PairRead(hi, lo, rest);
    var s := "%" + [hi, lo] + rest;
    assert s[1..] == [hi, lo] + rest && s[3..] == rest;
  }

  lemma PairRead(hi: char, lo: char, rest: string)
    requires DigitValue(hi) < 16 && DigitValue(lo) < 16 && !IsSpace(hi) && hi != '-' && hi != '+'
    ensures Escape([hi, lo] + rest) == ((16 * DigitValue(hi) + DigitValue(lo)) as char, 2)
  {
    hide DigitValue;
    var h := [hi, lo];
    assert (if |h + rest| <= 2 then h + rest else (h + rest)[..2]) == h;
    assert SkipSpace(h) == 0;
    assert h[0..] == h && h[1..] == [lo] && h[1..][1..] == [];
    assert HexDigits([lo], DigitValue(hi)) == (16 * DigitValue(hi) + DigitValue(lo), 1);
    assert HexDigits(h, 0) == (16 * DigitValue(hi) + DigitValue(lo), 2);
  }

  /** Every other start: a single digit counts by itself; a space or a sign before a
      digit is skipped, the minus sign negating, and without a digit it makes a NUL;
      anything else leaves the percent sign alone. */
  lemma DecodeOdd(x: char, y: char, rest: string)
    requires !(IsHex(x) && IsHex(y))
    ensures var skips := IsSpace(x) || x == '-' || x == '+';
      Decode("%" + [x, y] + rest) ==
        if IsHex(x) then [DigitValue(x) as char] + Decode([y] + rest)
        else if skips && IsHex(y) then
          [(if x == '-' then (256 - DigitValue(y)) % 256 else DigitValue(y)) as char] + Decode(rest)
        else if IsSpace(x) && (IsSpace(y) || y == '-' || y == '+') then [NUL] + Decode(rest)
        else if skips then [NUL] + Decode([y] + rest)
        else ['%'] + Decode([x, y] + rest)
  {
    hide DigitValue, UPPER, LOWER, IsHex, IsSpace;
    HexExactly(x);
    HexExactly(y);
    SpaceSigns(x);
    SpaceSigns(y);
    OddRead(x, y, rest);
    var s := "%" + [x, y] + rest;
    assert s[1..] == [x, y] + rest && s[2..] == [y] + rest && s[3..] == rest;
  }

  /** One character between a percent sign and the end. */
  lemma DecodeLast(x: char)
    ensures Decode(['%', x]) ==
      if IsHex(x) then [DigitValue(x) as char]
      else if IsSpace(x) || x == '-' || x == '+' then [NUL]
      else if x == '%' then "%%"
      else ['%', x]
  {
    hide DigitValue, UPPER, LOWER, IsHex, IsSpace;
    HexExactly(x);
    SpaceSigns(x);
    LastRead(x);
    var s := ['%', x];
    assert s[1..] == [x] && s[2..] == [];
    DecodePlain(x, []);
    assert [x] + [] == [x];
  }

  lemma LastRead(x: char)
    requires DigitValue(x) < 16 ==> !IsSpace(x) && x != '-' && x != '+'
    requires IsSpace(x) ==> x != '-' && x != '+'
    ensures Escape([x]) ==
      if DigitValue(x) < 16 then (DigitValue(x) as char, 1)
      else if IsSpace(x) || x == '-' || x == '+' then (NUL, 1)
      else ('%', 0)
  {
    hide DigitValue, IsSpace;
    var h := [x];
    assert h[0..] == h && h[1..] == [];
    assert HexDigits([], 0) == (0, 0) && SkipSpace([]) == 0;
    assert HexDigits(h, 0) == if DigitValue(x) < 16 then (DigitValue(x), 1) else (0, 0);
    assert SkipSpace(h) == if IsSpace(x) then 1 else 0;
  }

  lemma SpaceSigns(c: char)
    ensures IsSpace(c) ==> c != '-' && c != '+'
  {
  }

  lemma OddRead(x: char, y: char, rest: string)
    requires !(DigitValue(x) < 16 && DigitValue(y) < 16)
    requires DigitValue(x) < 16 ==> !IsSpace(x) && x != '-' && x != '+'
    requires DigitValue(y) < 16 ==> !IsSpace(y) && y != '-' && y != '+'
    requires IsSpace(x) ==> x != '-' && x != '+'
    requires IsSpace(y) ==> y != '-' && y != '+'
    ensures var skips := IsSpace(x) || x == '-' || x == '+';
      Escape([x, y] + rest) ==
        if DigitValue(x) < 16 then (DigitValue(x) as char, 1)
        else if skips && DigitValue(y) < 16 then
          ((if x == '-' then (256 - DigitValue(y)) % 256 else DigitValue(y)) as char, 2)
        else if IsSpace(x) && (IsSpace(y) || y == '-' || y == '+') then (NUL, 2)
        else if skips then (NUL, 1)
        else ('%', 0)
  {
    hide DigitValue, IsSpace;
    var h := [x, y];
    assert (if |h + rest| <= 2 then h + rest else (h + rest)[..2]) == h;
    assert h[0..] == h && h[1..] == [y] && [y][1..] == [] && h[2..] == [];
    assert HexDigits([], 0) == (0, 0);
    assert HexDigits([y], 0) == if DigitValue(y) < 16 then (DigitValue(y), 1) else (0, 0);
    assert SkipSpace([]) == 0;
    assert SkipSpace([y]) == if IsSpace(y) then 1 else 0;
    assert SkipSpace(h) == if IsSpace(x) then (if IsSpace(y) then 2 else 1) else 0;
    if DigitValue(x) < 16 {
      assert HexDigits(h, 0) == (DigitValue(x), 1);
    } else {
      assert HexDigits(h, 0) == (0, 0);
    }
  }

  // ------------------------------------------------------------------------
  // Encoding
  // ------------------------------------------------------------------------

  /** The characters besides `%` that a field must escape. */
  function Table(f: Field): string {
    match f
    case Scheme => "/#:@?=&"
    case OpaquePart => "#"
    case User => "/#:@?"
    case Password => "/#:@?"
    case Host => "/#@?"
    case Port => "/#:@?"
    case Path => "#:@?"
    case _ => ""
  }

  predicate AlreadyEncoded(f: Field) {
    f.EPath? || f.EQuery? || f.EFragment?
  }

  /** uri_character_escaped(). */
  predicate Escaped(c: char, f: Field) {
    if !IsPrint(c) || c == ' ' then true
    else if AlreadyEncoded(f) then false
    else c == '%' || c in Table(f)
  }

  function HexDigit(d: nat): (c: char)
    requires d < 16
    ensures DigitValue(c) == d
    ensures '0' <= c <= '9' || 'A' <= c <= 'F'
  {
    if d < 10 then ('0' as int + d) as char else ('A' as int + d - 10) as char
  }

  /** "%%%02X" applied to a plain char, which is signed: a byte of 0x80 or more
      is sign-extended and prints as eight digits. */
  function HexEscape(c: char): (r: string)
    requires c as int < 256
  {
    var x := c as int;
    (if x < 128 then "%" else "%FFFFFF") + [HexDigit(x / 16), HexDigit(x % 16)]
  }

  function EncodeChar(c: char, f: Field): (r: string)
    requires c as int < 256
    ensures r != []
  {
    if Escaped(c, f) then HexEscape(c) else [c]
  }

  /** What is printed for a character: itself, if it is visible and means nothing in
      its field, or else a percent sign and its two upper-case digits, which a byte of
      128 or more gets six more of. */
  lemma EncodedAs(c: char, f: Field)
    requires c as int < 256
    ensures var special := match f {
        case Scheme => "%/#:@?=&"
        case OpaquePart => "%#"
        case User => "%/#:@?"
        case Password => "%/#:@?"
        case Host => "%/#@?"
        case Port => "%/#:@?"
        case Path => "%#:@?"
        case EPath => ""
        case EQuery => ""
        case EFragment => ""
      };
      var x := c as int;
      EncodeChar(c, f) ==
        if '!' <= c <= '~' && c !in special then [c]
        else (if x < 128 then "%" else "%FFFFFF") + [UPPER[x / 16], UPPER[x % 16]]
  {
    var x := c as int;
    PrintedDigit(x / 16);
    PrintedDigit(x % 16);
  }

  lemma PrintedDigit(d: nat)
    requires d < 16
    ensures HexDigit(d) == UPPER[d]
  {
    if d < 10 {
      assert UPPER[d] as int == '0' as int + d;
    } else {
      assert UPPER[d] as int == 'A' as int + d - 10;
    }
  }

  /** uri_encode(). */
  function Encode(f: Field, s: string): (r: string)
    requires CString(s)
    ensures |r| >= |s|
  {
    if s == [] then [] else EncodeChar(s[0], f) + Encode(f, s[1..])
  }

  // ------------------------------------------------------------------------
  // Decoding undoes encoding
  // ------------------------------------------------------------------------

  lemma EscapeTwoDigits(a: nat, b: nat, rest: string)
    requires a < 16 && b < 16
    ensures Escape([HexDigit(a), HexDigit(b)] + rest) == ((16 * a + b) as char, 2)
  {
    var h := [HexDigit(a), HexDigit(b)];
    assert (if |h + rest| <= 2 then h + rest else (h + rest)[..2]) == h;
    assert SkipSpace(h) == 0;
    assert h[0..] == h && h[1..] == [HexDigit(b)] && h[1..][1..] == [];
    assert HexDigits(h[1..], a) == (16 * a + b, 1);
    assert HexDigits(h, 0) == (16 * a + b, 2);
    assert StrToChar(h) == ((16 * a + b) as char, 2);
  }

  /** Decoding one encoded character of an unencoded field. */
  lemma DecodeEncodeChar(c: char, f: Field, rest: string)
    requires c as int < 128 && !AlreadyEncoded(f)
    ensures Decode(EncodeChar(c, f) + rest) == [c] + Decode(rest)
  {
    var e := EncodeChar(c, f);
    if Escaped(c, f) {
      var x := c as int;
      EscapeTwoDigits(x / 16, x % 16, rest);
      var d := [HexDigit(x / 16), HexDigit(x % 16)];
      assert e + rest == "%" + (d + rest);
      assert (e + rest)[1..] == d + rest;
      assert (e + rest)[3..] == rest;
    } else {
      assert (e + rest)[1..] == rest;
    }
  }

  lemma {:induction false} LiteralPrefix(p: string, rest: string)
    requires '%' !in p
    ensures Decode(p + rest) == p + Decode(rest)
  {
    if p == [] {
      assert p + rest == rest;
    } else {
      assert (p + rest)[1..] == p[1..] + rest;
      LiteralPrefix(p[1..], rest);
    }
  }

  /** A byte of 0x80 or more does not survive: it comes back as seven characters. */
  function Echo(c: char): (r: string)
    requires c as int < 256
    ensures |r| == if c as int < 128 then 1 else 7
  {
    if c as int < 128 then [c] else [255 as char] + "FFFF" + HexEscape(c)[7..]
  }

  lemma DecodeEncodeHighChar(c: char, f: Field, rest: string)
    requires 128 <= c as int < 256
    ensures Decode(EncodeChar(c, f) + rest) == Echo(c) + Decode(rest)
  {
    var d := HexEscape(c)[7..];
    var t := "FFFF" + d;
    var s := EncodeChar(c, f) + rest;
    assert s == "%" + ([HexDigit(15), HexDigit(15)] + (t + rest));
    EscapeTwoDigits(15, 15, t + rest);
    assert s[1..] == [HexDigit(15), HexDigit(15)] + (t + rest);
    assert s[3..] == t + rest;
    LiteralPrefix(t, rest);
    hide EncodeChar;
    assert [255 as char] + (t + Decode(rest)) == Echo(c) + Decode(rest);
  }

  function EchoAll(s: string): string
    requires CString(s)
  {
    if s == [] then [] else Echo(s[0]) + EchoAll(s[1..])
  }

  /** What a formatted field decodes to, whichever unencoded field it is. */
  lemma {:induction false} DecodeEncode(f: Field, s: string)
    requires CString(s) && !AlreadyEncoded(f)
    ensures Decode(Encode(f, s)) == EchoAll(s)
  {
    hide Decode, EncodeChar, Echo;
    if s == [] {
      EmptyDecode();
    } else {
      DecodeEncode(f, s[1..]);
      if s[0] as int < 128 {
        DecodeEncodeChar(s[0], f, Encode(f, s[1..]));
        EchoLow(s[0]);
      } else {
        DecodeEncodeHighChar(s[0], f, Encode(f, s[1..]));
      }
    }
  }

  lemma EmptyDecode()
    ensures Decode([]) == []
  {
  }

  lemma EchoLow(c: char)
    requires c as int < 128
    ensures Echo(c) == [c]
  {
  }

  lemma EchoNoNul(c: char)
    requires c != NUL && c as int < 256
    ensures NUL !in Echo(c)
  {
    var x := c as int;
    if x >= 128 {
      assert HexEscape(c)[7..] == [HexDigit(x / 16), HexDigit(x % 16)];
    }
  }

  lemma {:induction false} EchoAllExact(s: string)
    requires CString(s)
    ensures NUL !in EchoAll(s)
    ensures |EchoAll(s)| >= |s|
    ensures SevenBit(s) ==> EchoAll(s) == s
    ensures !SevenBit(s) ==> |EchoAll(s)| > |s|
  {
    hide Echo;
    if s != [] {
      EchoAllExact(s[1..]);
      EchoNoNul(s[0]);
      if s[0] as int < 128 { EchoLow(s[0]); }
      assert forall i :: 1 <= i < |s| ==> s[i] == s[1..][i - 1];
      assert s[0] as int < 128 && SevenBit(s[1..]) ==> SevenBit(s);
      assert SevenBit(s) ==> SevenBit(s[1..]);
    }
  }

  /** What a field becomes when it is formatted and parsed again is the field
      itself exactly when all its bytes are 7-bit. */
  lemma DecodeEncodeExact(f: Field, s: string)
    requires CString(s) && !AlreadyEncoded(f)
    ensures CStr(Decode(Encode(f, s))) == Decode(Encode(f, s))
    ensures Decode(Encode(f, s)) == s <==> SevenBit(s)
  {
    DecodeEncode(f, s);
    EchoAllExact(s);
    CStrId(EchoAll(s));
  }
}
