/** Base64 as a regrouping of one stream of bits: the bits of the raw bytes,
    eight at a time, are the bits of the encoded digits, six at a time. */
module Base64 {
  import opened CLib

  /** A to Z, a to z, 0 to 9, plus and slash. */
  function Digit(k: nat): char
    requires k < 64
  {
    if k < 26 then ('A' as int + k) as char
    else if k < 52 then ('a' as int + k - 26) as char
    else if k < 62 then ('0' as int + k - 52) as char
    else if k == 62 then '+'
    else '/'
  }

  function Alphabet(): (r: string)
    ensures |r| == 64 && forall k :: 0 <= k < 64 ==> r[k] == Digit(k)
  {
    seq(64, k requires 0 <= k < 64 => Digit(k))
  }

  const CAPITALS := "ABCDEFGHIJKLMNOPQRSTUVWXYZ"
  const SMALL := "abcdefghijklmnopqrstuvwxyz"
  const TEN := "0123456789"

  lemma CapitalAt(k: nat)
    requires k < 26
    ensures CAPITALS[k] as int == 'A' as int + k
  {
  }

  lemma SmallAt(k: nat)
    requires k < 26
    ensures SMALL[k] as int == 'a' as int + k
  {
  }

  lemma TenAt(k: nat)
    requires k < 10
    ensures TEN[k] as int == '0' as int + k
  {
  }

  /** The alphabet of RFC 4648, section 4. */
  lemma AlphabetIs()
    ensures Alphabet() == CAPITALS + SMALL + TEN + "+/"
  {
    hide CAPITALS, SMALL, TEN;
    var a := CAPITALS + SMALL + TEN + "+/";
    LetterCounts();
    forall k | 0 <= k < 64 ensures Alphabet()[k] == a[k] {
      if k < 26 { CapitalAt(k); }
      else if k < 52 { SmallAt(k - 26); }
      else if k < 62 { TenAt(k - 52); }
    }
  }

  lemma LetterCounts()
    ensures |CAPITALS| == 26 && |SMALL| == 26 && |TEN| == 10
  {
  }

  /** One more than the largest unsigned int, in bits and in whole bytes. */
  const WORD: int := 0x1_0000_0000
  const BYTES: int := 0x2000_0000

  /** Bit `i` of a byte, counting from the most significant. */
  predicate TopBit(b: Octet, i: nat)
    requires i < 8
  {
    match i
    case 0 => b & 0x80 != 0
    case 1 => b & 0x40 != 0
    case 2 => b & 0x20 != 0
    case 3 => b & 0x10 != 0
    case 4 => b & 0x08 != 0
    case 5 => b & 0x04 != 0
    case 6 => b & 0x02 != 0
    case _ => b & 0x01 != 0
  }

  function FromBits(a: bool, b: bool, c: bool, d: bool, e: bool, f: bool, g: bool, h: bool): Octet {
    (if a then 0x80 else 0) | (if b then 0x40 else 0) | (if c then 0x20 else 0) | (if d then 0x10 else 0) |
    (if e then 0x08 else 0) | (if f then 0x04 else 0) | (if g then 0x02 else 0) | (if h then 0x01 else 0)
  }

  lemma FromTopBits(b: Octet)
    ensures FromBits(TopBit(b, 0), TopBit(b, 1), TopBit(b, 2), TopBit(b, 3),
                     TopBit(b, 4), TopBit(b, 5), TopBit(b, 6), TopBit(b, 7)) == b
  {
  }

  /** Bit `i` of a string of bytes; zero past the end. */
  predicate Bit(raw: seq<Octet>, i: nat) {
    i / 8 < |raw| && TopBit(raw[i / 8], i % 8)
  }

  /** Bit `i` of a string of six-bit digits; zero past the end. */
  predicate DigitBit(digits: seq<Octet>, i: nat) {
    i / 6 < |digits| && TopBit(digits[i / 6], 2 + i % 6)
  }

  /** The digit that holds bits 6j to 6j+5. */
  function DigitAt(raw: seq<Octet>, j: nat): (r: Octet)
    ensures r < 64
  {
    var i := 6 * j;
    FromBits(false, false, Bit(raw, i), Bit(raw, i + 1), Bit(raw, i + 2), Bit(raw, i + 3), Bit(raw, i + 4), Bit(raw, i + 5))
  }

  /** The byte that holds bits 8k to 8k+7. */
  function ByteAt(digits: seq<Octet>, k: nat): Octet {
    var i := 8 * k;
    FromBits(DigitBit(digits, i), DigitBit(digits, i + 1), DigitBit(digits, i + 2), DigitBit(digits, i + 3),
             DigitBit(digits, i + 4), DigitBit(digits, i + 5), DigitBit(digits, i + 6), DigitBit(digits, i + 7))
  }

  /** How many digits it takes to cover the bits of `n` bytes. */
  function DigitCount(n: nat): nat { (8 * n + 5) / 6 }

  function EncodedLen(n: nat): nat { (n + 2) / 3 * 4 }

  function DigitsOf(raw: seq<Octet>): (r: seq<Octet>)
    ensures |r| == DigitCount(|raw|)
    ensures forall j :: 0 <= j < |r| ==> r[j] == DigitAt(raw, j) < 64
  {
    seq(DigitCount(|raw|), j requires 0 <= j => DigitAt(raw, j))
  }

  /** The canonical text: digits, then pads up to a multiple of four. */
  function Encode(raw: seq<Octet>): (r: string)
    ensures |r| == EncodedLen(|raw|)
  {
    var digits := DigitsOf(raw);
    seq(EncodedLen(|raw|), j requires 0 <= j => if j < |digits| then Alphabet()[digits[j] as int] else '=')
  }

  /** The text without its white space. */
  function Strip(t: string): string {
    if t == [] then []
    else
      var c := t[|t| - 1];
      Strip(t[..|t| - 1]) + if IsSpace(c) then [] else [c]
  }

  /** Digits, then at most two pads. */
  predicate Good(s: string) {
    && (forall k :: 0 <= k < |s| ==> s[k] in Alphabet() || s[k] == '=')
    && (forall j, k :: 0 <= j < k < |s| && s[j] == '=' ==> s[k] == '=')
    && (forall k :: 0 <= k < |s| - 2 ==> s[k] != '=')
  }

  lemma DigitsDiffer(j: nat, k: nat)
    requires j < 64 && k < 64 && Alphabet()[j] == Alphabet()[k]
    ensures j == k
  {
  }

  lemma DigitsPlain(c: char)
    requires c in Alphabet()
    ensures !IsSpace(c) && c != '='
  {
    var k :| 0 <= k < 64 && c == Alphabet()[k];
  }

  function ToByte(x: int): (v: Octet)
    requires 0 <= x < 64
    ensures v < 64 && v as int == x
  {
    x as Octet
  }

  function Value(c: char): (v: Octet)
    requires c in Alphabet()
    ensures v < 64 && Alphabet()[v as int] == c
  {
    ToByte(IndexOf(Alphabet(), c))
  }

  lemma ValueOfDigit(v: Octet)
    requires v < 64
    ensures Alphabet()[v as int] in Alphabet() && Value(Alphabet()[v as int]) == v
  {
    hide IndexOf;
    DigitsDiffer(v as int, IndexOf(Alphabet(), Alphabet()[v as int]));
  }

  /** The digits before the first pad. */
  function DigitsIn(s: string): (r: seq<Octet>)
    requires Good(s)
    ensures |r| == IndexOf(s, '=')
    ensures forall k :: 0 <= k < |r| ==> s[k] in Alphabet() && r[k] == Value(s[k])
  {
    seq(IndexOf(s, '='), k requires 0 <= k < IndexOf(s, '=') => Value(s[k]))
  }

  /** The bytes covered by the digits, given that pads stand for missing ones. */
  function DecodedLen(s: string): nat
    requires |s| % 4 == 0 && Good(s)
  {
    IndexOf(s, '=') - |s| / 4
  }

  /** The first `n` bytes of the bits of `digits`. */
  function Bytes(digits: seq<Octet>, n: nat): (r: seq<Octet>)
    ensures |r| == n && forall k :: 0 <= k < n ==> r[k] == ByteAt(digits, k)
  {
    seq(n, k requires 0 <= k => ByteAt(digits, k))
  }

  /** What a text stands for: white space aside, a multiple of four characters,
      digits first and at most two pads last. */
  function Decoded(t: string): Option<seq<Octet>> {
    var s := Strip(t);
    if |s| % 4 == 0 && Good(s) then Some(Bytes(DigitsIn(s), DecodedLen(s)))
    else None
  }

  lemma DigitBits(raw: seq<Octet>, j: nat, i: nat)
    requires i < 6
    ensures TopBit(DigitAt(raw, j), 2 + i) == Bit(raw, 6 * j + i)
  {
    hide Bit;
  }

  lemma ByteBits(digits: seq<Octet>, k: nat, i: nat)
    requires i < 8
    ensures TopBit(ByteAt(digits, k), i) == DigitBit(digits, 8 * k + i)
  {
    hide DigitBit;
  }

  /** Regrouping loses no bit. */
  lemma SameBits(raw: seq<Octet>, i: nat)
    requires i / 6 < DigitCount(|raw|)
    ensures DigitBit(DigitsOf(raw), i) == Bit(raw, i)
  {
    hide DigitAt, TopBit, DigitCount, Bit, DigitsOf;
    DigitBits(raw, i / 6, i % 6);
  }

  lemma SameByte(raw: seq<Octet>, k: nat)
    requires k < |raw|
    ensures ByteAt(DigitsOf(raw), k) == raw[k]
  {
    hide DigitsOf, TopBit, FromBits, DigitBit;
    forall i | 0 <= i < 8 ensures DigitBit(DigitsOf(raw), 8 * k + i) == TopBit(raw[k], i) {
      assert (8 * k + i) / 6 < DigitCount(|raw|);
      SameBits(raw, 8 * k + i);
    }
    FromTopBits(raw[k]);
  }

  lemma FirstIs(s: string, c: char, n: nat)
    requires n <= |s| && (forall i :: 0 <= i < n ==> s[i] != c) && (n < |s| ==> s[n] == c)
    ensures IndexOf(s, c) == n
  {
  }

  function Pads(n: nat): nat { (3 - n % 3) % 3 }

  lemma Lengths(n: nat)
    ensures EncodedLen(n) % 4 == 0 && DigitCount(n) + Pads(n) == EncodedLen(n)
    ensures DigitCount(n) == n + EncodedLen(n) / 4
  {
    var q, r := n / 3, n % 3;
    assert n == 3 * q + r;
  }

  /** An encoding is well formed and its digits are those of the raw data. */
  lemma EncodeGood(raw: seq<Octet>)
    ensures |Encode(raw)| % 4 == 0 && Good(Encode(raw))
    ensures DecodedLen(Encode(raw)) == |raw| && DigitsIn(Encode(raw)) == DigitsOf(raw)
  {
    hide DigitAt, IndexOf, Digit, DigitCount, EncodedLen;
    var s, digits := Encode(raw), DigitsOf(raw);
    Lengths(|raw|);
    forall j | 0 <= j < |digits| ensures s[j] in Alphabet() && s[j] != '=' && Value(s[j]) == digits[j] {
      ValueOfDigit(digits[j]);
      DigitsPlain(s[j]);
    }
    FirstIs(s, '=', |digits|);
  }

  lemma SameBytes(raw: seq<Octet>)
    ensures Bytes(DigitsOf(raw), |raw|) == raw
  {
    hide *;
    forall k | 0 <= k < |raw| ensures Bytes(DigitsOf(raw), |raw|)[k] == raw[k] { SameByte(raw, k); }
  }

  /** Decoding an encoding gives the raw data back, whatever white space has been
      put in. */
  lemma DecodeEncode(raw: seq<Octet>, t: string)
    requires Strip(t) == Encode(raw)
    ensures Decoded(t) == Some(raw)
  {
    hide DigitsOf, DigitsIn, ByteAt, Good, DecodedLen, Encode, Strip, Bytes, Value, Alphabet, Digit;
    EncodeGood(raw);
    SameBytes(raw);
  }

  lemma DigitFromBits(d: Octet)
    requires d < 64
    ensures FromBits(false, false, TopBit(d, 2), TopBit(d, 3), TopBit(d, 4), TopBit(d, 5), TopBit(d, 6), TopBit(d, 7)) == d
  {
  }

  /** The digits hold no bit beyond the bytes they stand for. */
  ghost predicate Clear(digits: seq<Octet>, n: nat) {
    forall i :: 8 * n <= i < 6 * |digits| ==> !DigitBit(digits, i)
  }

  /** The bits of the decoded bytes are those of the digits, as far as they go. */
  lemma BytesBits(digits: seq<Octet>, n: nat, i: nat)
    ensures Bit(Bytes(digits, n), i) == (i < 8 * n && DigitBit(digits, i))
  {
    hide TopBit, ByteAt, DigitBit;
    if i < 8 * n {
      ByteBits(digits, i / 8, i % 8);
      assert 8 * (i / 8) + i % 8 == i;
    }
  }

  lemma DigitBitRestored(digits: seq<Octet>, n: nat, j: nat, i: nat)
    requires j < |digits| && i < 6 && Clear(digits, n)
    ensures Bit(Bytes(digits, n), 6 * j + i) == TopBit(digits[j], 2 + i)
  {
    hide TopBit, Bit, Bytes;
    BytesBits(digits, n, 6 * j + i);
    assert (6 * j + i) / 6 == j && (6 * j + i) % 6 == i;
    assert DigitBit(digits, 6 * j + i) == TopBit(digits[j], 2 + i);
  }

  lemma DigitRestored(digits: seq<Octet>, n: nat, j: nat)
    requires j < |digits| && digits[j] < 64 && Clear(digits, n)
    ensures DigitAt(Bytes(digits, n), j) == digits[j]
  {
    hide TopBit, FromBits, Bit, ByteAt, Bytes, Clear;
    DigitBitRestored(digits, n, j, 0);
    DigitBitRestored(digits, n, j, 1);
    DigitBitRestored(digits, n, j, 2);
    DigitBitRestored(digits, n, j, 3);
    DigitBitRestored(digits, n, j, 4);
    DigitBitRestored(digits, n, j, 5);
    DigitFromBits(digits[j]);
  }

  /** Regrouping the bytes again gives the same digits exactly when no bits were
      left over. */
  lemma DigitsRestored(digits: seq<Octet>, n: nat)
    requires |digits| == DigitCount(n) && forall j :: 0 <= j < |digits| ==> digits[j] < 64
    ensures DigitsOf(Bytes(digits, n)) == digits <==> Clear(digits, n)
  {
    hide TopBit, FromBits, Bit, ByteAt, DigitAt, DigitBit, Bytes, DigitsOf, DigitCount;
    var raw := Bytes(digits, n);
    if Clear(digits, n) {
      forall j | 0 <= j < |digits| ensures DigitsOf(raw)[j] == digits[j] { DigitRestored(digits, n, j); }
    } else if DigitsOf(raw) == digits {
      var i :| 8 * n <= i < 6 * |digits| && DigitBit(digits, i);
      SameBits(raw, i);
      BytesBits(digits, n, i);
    }
  }

  /** A well-formed text is its digits and its pads. */
  lemma TextOfDigits(s: string, raw: seq<Octet>)
    requires |s| % 4 == 0 && Good(s) && |raw| == DecodedLen(s)
    ensures |s| == EncodedLen(|raw|) && |DigitsIn(s)| == DigitCount(|raw|)
    ensures DigitsOf(raw) == DigitsIn(s) ==> Encode(raw) == s
  {
    hide DigitAt, Value, Alphabet, Digit, DigitsOf, DigitsIn, IndexOf;
    PadsLast(s);
    DecodedLengths(|s| / 4, |s| - IndexOf(s, '='));
  }

  lemma PadsLast(s: string)
    requires Good(s)
    ensures |s| - 2 <= IndexOf(s, '=') && forall k :: IndexOf(s, '=') <= k < |s| ==> s[k] == '='
  {
    hide IndexOf;
  }

  lemma DecodedLengths(q: nat, p: nat)
    requires p <= 2 && p <= 3 * q
    ensures EncodedLen(3 * q - p) == 4 * q && DigitCount(3 * q - p) == 4 * q - p
  {
  }

  /** Encoding a decoded text gives the text back, white space aside, exactly
      when its last digit holds no bits beyond the last byte. */
  lemma EncodeDecode(t: string)
    requires Decoded(t).Some?
    ensures Encode(Decoded(t).value) == Strip(t) <==> Clear(DigitsIn(Strip(t)), DecodedLen(Strip(t)))
  {
    hide *;
    DecodedForm(t);
    var s, raw := Strip(t), Decoded(t).value;
    TextOfDigits(s, raw);
    EncodeGood(raw);
    DigitsRestored(DigitsIn(s), DecodedLen(s));
  }

  lemma DecodedForm(t: string)
    requires Decoded(t).Some?
    ensures |Strip(t)| % 4 == 0 && Good(Strip(t))
    ensures Decoded(t).value == Bytes(DigitsIn(Strip(t)), DecodedLen(Strip(t)))
  {
  }

  /** Shifts by the amounts that six-bit steps through bytes can need. */
  function Left(x: bv16, n: nat): bv16
    requires n <= 8 && n % 2 == 0
  {
    if n == 0 then x else if n == 2 then x << 2 else if n == 4 then x << 4 else if n == 6 then x << 6 else x << 8
  }

  function Right(x: bv16, n: nat): bv16
    requires n <= 8 && n % 2 == 0
  {
    if n == 0 then x else if n == 2 then x >> 2 else if n == 4 then x >> 4 else if n == 6 then x >> 6 else x >> 8
  }

  /** Six bits cut out of two bytes. */
  function Cut(hi: Octet, lo: Octet, shift: nat): Octet
    requires shift < 8 && shift % 2 == 0
  {
    var tmp := Left(hi as bv16, shift) | Right(lo as bv16, 8 - shift);
    ((tmp >> 2) & 0x3f) as Octet
  }

  lemma CutBits(hi: Octet, lo: Octet, shift: nat, i: nat)
    requires shift < 8 && shift % 2 == 0 && i < 6
    ensures Cut(hi, lo, shift) < 64
    ensures TopBit(Cut(hi, lo, shift), 2 + i) == if shift + i < 8 then TopBit(hi, shift + i) else TopBit(lo, shift + i - 8)
  {
    assert shift == 0 || shift == 2 || shift == 4 || shift == 6;
  }

  /** Bit `i` of a byte in which digit `v` starts at bit `off`. */
  predicate PartBit(v: Octet, off: int, i: nat) {
    0 <= i - off < 6 && TopBit(v, 2 + i - off)
  }

  function Part(v: Octet, off: int): Octet {
    FromBits(PartBit(v, off, 0), PartBit(v, off, 1), PartBit(v, off, 2), PartBit(v, off, 3),
             PartBit(v, off, 4), PartBit(v, off, 5), PartBit(v, off, 6), PartBit(v, off, 7))
  }

  lemma PartRight(v: Octet, shift: nat)
    requires v < 64 && shift < 8 && shift % 2 == 0
    ensures (Right((v as bv16) << 2, shift) & 0xff) as Octet == Part(v, shift)
  {
    assert shift == 0 || shift == 2 || shift == 4 || shift == 6;
  }

  lemma PartLeft(v: Octet, shift: nat)
    requires v < 64 && shift < 8 && shift % 2 == 0
    ensures (Left((v as bv16) << 2, 8 - shift) & 0xff) as Octet == Part(v, shift - 8)
  {
    assert shift == 0 || shift == 2 || shift == 4 || shift == 6;
  }

  lemma PartNowhere(v: Octet, off: int)
    requires off >= 8 || off <= -6
    ensures Part(v, off) == 0
  {
  }

  /** Where a digit starts. */
  lemma DigitStart(j: nat, byte: nat, shift: nat)
    requires byte == 6 * j / 8 && shift == 6 * j % 8
    ensures 6 * j == 8 * byte + shift && shift < 8 && shift % 2 == 0
  {
  }

  lemma BitWithin(raw: seq<Octet>, byte: nat, x: nat)
    requires x < 16
    ensures Bit(raw, 8 * byte + x) ==
            if x < 8 then byte < |raw| && TopBit(raw[byte], x)
            else byte + 1 < |raw| && TopBit(raw[byte + 1], x - 8)
  {
    hide TopBit;
    assert (8 * byte + x) / 8 == if x < 8 then byte else byte + 1;
  }

  lemma CutBit(raw: seq<Octet>, byte: nat, shift: nat, i: nat)
    requires byte < |raw| && shift < 8 && shift % 2 == 0 && i < 6
    ensures Next(raw, byte, shift) < 64
    ensures TopBit(Next(raw, byte, shift), 2 + i) == Bit(raw, 8 * byte + shift + i)
  {
    hide Cut, Bit;
    BitWithin(raw, byte, shift + i);
    CutBits(raw[byte], if byte + 1 < |raw| then raw[byte + 1] else 0, shift, i);
  }

  /** The encoder's next digit. */
  function Next(raw: seq<Octet>, byte: nat, shift: nat): Octet
    requires byte < |raw| && shift < 8 && shift % 2 == 0
  {
    Cut(raw[byte], if byte + 1 < |raw| then raw[byte + 1] else 0, shift)
  }

  /** The shifts and masks of the encoder pick out the right six bits. */
  lemma NextIsDigit(raw: seq<Octet>, j: nat, byte: nat, shift: nat)
    requires 6 * j == 8 * byte + shift && byte < |raw| && shift < 8 && shift % 2 == 0
    ensures Next(raw, byte, shift) == DigitAt(raw, j)
  {
    hide TopBit, FromBits, Next, Bit;
    CutBit(raw, byte, shift, 0);
    CutBit(raw, byte, shift, 1);
    CutBit(raw, byte, shift, 2);
    CutBit(raw, byte, shift, 3);
    CutBit(raw, byte, shift, 4);
    CutBit(raw, byte, shift, 5);
    DigitFromBits(Next(raw, byte, shift));
  }

  lemma OrBits(a: Octet, b: Octet, r: Octet)
    requires forall i :: 0 <= i < 8 ==> TopBit(r, i) == (TopBit(a, i) || TopBit(b, i))
    ensures r == a | b
  {
    assert TopBit(r, 0) == (TopBit(a, 0) || TopBit(b, 0));
    assert TopBit(r, 1) == (TopBit(a, 1) || TopBit(b, 1));
    assert TopBit(r, 2) == (TopBit(a, 2) || TopBit(b, 2));
    assert TopBit(r, 3) == (TopBit(a, 3) || TopBit(b, 3));
    assert TopBit(r, 4) == (TopBit(a, 4) || TopBit(b, 4));
    assert TopBit(r, 5) == (TopBit(a, 5) || TopBit(b, 5));
    assert TopBit(r, 6) == (TopBit(a, 6) || TopBit(b, 6));
    assert TopBit(r, 7) == (TopBit(a, 7) || TopBit(b, 7));
  }

  lemma PartBits(v: Octet, off: int, i: nat)
    requires i < 8
    ensures TopBit(Part(v, off), i) == PartBit(v, off, i)
  {
    hide PartBit;
  }

  /** One more digit adds its bits to the bytes that it overlaps. */
  lemma AddDigit(digits: seq<Octet>, v: Octet, k: nat)
    ensures ByteAt(digits + [v], k) == ByteAt(digits, k) | Part(v, 6 * |digits| - 8 * k)
  {
    hide TopBit, ByteAt, Part, DigitBit;
    forall i | 0 <= i < 8
      ensures TopBit(ByteAt(digits + [v], k), i) == (TopBit(ByteAt(digits, k), i) || TopBit(Part(v, 6 * |digits| - 8 * k), i))
    {
      ByteBits(digits + [v], k, i);
      ByteBits(digits, k, i);
      PartBits(v, 6 * |digits| - 8 * k, i);
      AddBit(digits, v, 8 * k + i);
    }
    OrBits(ByteAt(digits, k), Part(v, 6 * |digits| - 8 * k), ByteAt(digits + [v], k));
  }

  lemma AddBit(digits: seq<Octet>, v: Octet, x: nat)
    ensures DigitBit(digits + [v], x) == (DigitBit(digits, x) || (0 <= x - 6 * |digits| < 6 && TopBit(v, 2 + x - 6 * |digits|)))
  {
    hide TopBit;
    if x / 6 == |digits| { assert x % 6 == x - 6 * |digits|; }
  }

  /** A NUL-terminated copy of as much of `text` as fits. */
  function Stored(text: string, buf: string): (r: string)
    ensures |r| == |buf|
  {
    if buf == [] then buf
    else if |text| < |buf| then (text + [NUL] + buf[|text| + 1..])[|buf| - 1 := NUL]
    else text[..|buf| - 1] + [NUL]
  }

  lemma EncodeAt(raw: seq<Octet>, k: nat)
    requires k < EncodedLen(|raw|)
    ensures Encode(raw)[k] == if k < DigitCount(|raw|) then Alphabet()[DigitAt(raw, k) as int] else '='
  {
    hide DigitAt, DigitCount, EncodedLen;
  }

  lemma FirstLoop(n: nat, used: nat)
    ensures 6 * used < 8 * n <==> used < DigitCount(n)
  {
  }

  lemma EighthsOf(x: int, k: int, r: nat)
    requires x == 8 * k + r && r < 8
    ensures x % 8 == r
  {
  }

  /** When the two loops of the encoder stop. */
  lemma LoopBounds(n: nat, used: nat)
    ensures 6 * used < 8 * n <==> used < DigitCount(n)
    ensures DigitCount(n) <= used <= EncodedLen(n) ==> ((6 * used) % 8 != 0 <==> used < EncodedLen(n))
  {
    hide DigitCount, EncodedLen;
    FirstLoop(n, used);
    if DigitCount(n) <= used <= EncodedLen(n) {
      Lengths(n);
      var q := EncodedLen(n) / 4;
      var d := 4 * q - used;
      EighthsOf(6 * used, 3 * q - d, 2 * d);
    }
  }

  /** Wrapping does not change the bit within the byte. */
  lemma WrapWithin(x: nat)
    ensures x % WORD % 8 == x % 8 && (x % WORD + 6) % WORD == (x + 6) % WORD
  {
  }

  /** The bit counter is an unsigned int, so that with 2^29 bytes or more the first
      loop would never stop; in the second the counter may wrap. */
  method Base64Encode(raw: seq<Octet>, data: array<char>) returns (used: nat)
    requires 8 * |raw| < WORD
    modifies data
    ensures used == |Encode(raw)|
    ensures data[..] == Stored(Encode(raw), old(data[..]))
  {
    hide DigitAt, Next, Alphabet, Digit, Encode, DigitCount, EncodedLen, Stored;
    ghost var text, orig := Encode(raw), data[..];
    Lengths(|raw|);
    used := 0;
    var bit := 0;
    LoopBounds(|raw|, 0);
    while bit < 8 * |raw|
      invariant bit == 6 * used < WORD && used <= DigitCount(|raw|)
      invariant bit < 8 * |raw| <==> used < DigitCount(|raw|)
      invariant forall k :: 0 <= k < used && k < data.Length ==> data[k] == text[k]
      invariant forall k :: used <= k < data.Length ==> data[k] == orig[k]
      decreases 8 * |raw| - bit
    {
      var byte, shift := bit / 8, bit % 8;
      DigitStart(used, byte, shift);
      NextIsDigit(raw, used, byte, shift);
      EncodeAt(raw, used);
      var tmp := Next(raw, byte, shift);
      if used < data.Length {
        data[used] := Alphabet()[tmp as int];
      }
      bit, used := (bit + 6) % WORD, used + 1;
      LoopBounds(|raw|, used);
    }
    LoopBounds(|raw|, used);
    used := Pad(raw, data, bit, used, orig);
    Terminate(data, used, text, orig);
  }

  /** Pads, up to a whole number of bytes. */
  method Pad(raw: seq<Octet>, data: array<char>, bit0: nat, used0: nat, ghost orig: string) returns (used: nat)
    requires bit0 == 6 * used0 < WORD && DigitCount(|raw|) <= used0 <= EncodedLen(|raw|) && |orig| == data.Length
    requires forall k :: 0 <= k < used0 && k < data.Length ==> data[k] == Encode(raw)[k]
    requires forall k :: used0 <= k < data.Length ==> data[k] == orig[k]
    modifies data
    ensures used == |Encode(raw)|
    ensures forall k :: 0 <= k < used && k < data.Length ==> data[k] == Encode(raw)[k]
    ensures forall k :: used <= k < data.Length ==> data[k] == orig[k]
  {
    hide DigitAt, Alphabet, Digit, Encode, DigitCount, EncodedLen;
    ghost var text := Encode(raw);
    var bit := bit0;
    used := used0;
    LoopBounds(|raw|, used);
    while bit % 8 != 0
      invariant bit == 6 * used % WORD && DigitCount(|raw|) <= used <= |text|
      invariant bit % 8 != 0 <==> used < |text|
      invariant forall k :: 0 <= k < used && k < data.Length ==> data[k] == text[k]
      invariant forall k :: used <= k < data.Length ==> data[k] == orig[k]
      decreases |text| - used
    {
      EncodeAt(raw, used);
      if used < data.Length {
        data[used] := '=';
      }
      WrapWithin(6 * used);
      bit, used := (bit + 6) % WORD, used + 1;
      WrapWithin(6 * used);
      LoopBounds(|raw|, used);
    }
  }

  /** The terminator, also when the text did not fit. */
  method Terminate(data: array<char>, used: nat, ghost text: string, ghost orig: string)
    requires used == |text| && |orig| == data.Length
    requires forall k :: 0 <= k < used && k < data.Length ==> data[k] == text[k]
    requires forall k :: used <= k < data.Length ==> data[k] == orig[k]
    modifies data
    ensures data[..] == Stored(text, orig)
  {
    if used < data.Length {
      data[used] := NUL;
    }
    if data.Length > 0 {
      data[data.Length - 1] := NUL;
    }
  }

  lemma {:induction false} StripPrefix(t: string, i: nat)
    requires i <= |t|
    ensures Strip(t[..i]) <= Strip(t)
    decreases |t| - i
  {
    if i == |t| {
      assert t[..i] == t;
    } else {
      StripPrefix(t, i + 1);
      StripSnoc(t, i);
    }
  }

  lemma StripSnoc(t: string, i: nat)
    requires i < |t|
    ensures Strip(t[..i + 1]) == Strip(t[..i]) + if IsSpace(t[i]) then [] else [t[i]]
    ensures |Strip(t[..i])| <= i
    decreases i
  {
    assert t[..i + 1][..i] == t[..i];
    if i > 0 { StripSnoc(t, i - 1); }
  }

  /** What has gone wrong early on is not put right later. */
  lemma BadPrefix(t: string, i: nat)
    requires i <= |t| && !Good(Strip(t[..i]))
    ensures Decoded(t) == None
  {
    StripPrefix(t, i);
    if Good(Strip(t)) { GoodPrefix(Strip(t[..i]), Strip(t)); }
  }

  lemma GoodPrefix(a: string, s: string)
    requires a <= s && Good(s)
    ensures Good(a)
  {
    hide Alphabet;
  }

  /** A third pad is one too many. */
  lemma AppendPad(s: string)
    requires Good(s)
    ensures Good(s + ['=']) <==> |s| - IndexOf(s, '=') < 2
    ensures IndexOf(s + ['='], '=') == IndexOf(s, '=')
  {
    hide Alphabet, IndexOf;
    var n, s' := IndexOf(s, '='), s + ['='];
    PadsLast(s);
    FirstIs(s', '=', n);
    if |s| - n < 2 {
      assert forall k :: 0 <= k < |s'| - 2 ==> s'[k] == s[k];
    } else {
      assert s'[n] == '=' && n < |s'| - 2;
    }
  }

  /** A digit may not follow a pad. */
  lemma AppendDigit(s: string, c: char)
    requires Good(s) && c != '='
    ensures Good(s + [c]) <==> IndexOf(s, '=') == |s| && c in Alphabet()
    ensures IndexOf(s, '=') == |s| ==> IndexOf(s + [c], '=') == |s| + 1
  {
    hide Alphabet, IndexOf;
    var n, s' := IndexOf(s, '='), s + [c];
    if n == |s| {
      FirstIs(s', '=', n + 1);
      assert s'[n] == c;
    } else {
      assert s'[n] == '=' && s'[|s|] == c;
    }
  }

  /** The digit, shifted into the byte it starts in and into the next one. */
  function High(v: Octet, shift: nat): Octet
    requires shift < 8 && shift % 2 == 0
  {
    (Right((v as bv16) << 2, shift) & 0xff) as Octet
  }

  function Low(v: Octet, shift: nat): Octet
    requires shift < 8 && shift % 2 == 0
  {
    (Left((v as bv16) << 2, 8 - shift) & 0xff) as Octet
  }

  function Or(a: Octet, b: Octet): Octet { a | b }

  lemma DigitOverlaps(digits: seq<Octet>, v: Octet, offset: nat, shift: nat, k: nat)
    requires 6 * |digits| == 8 * offset + shift && v < 64 && shift < 8 && shift % 2 == 0
    ensures ByteAt(digits + [v], k) ==
            if k == offset then Or(ByteAt(digits, k), High(v, shift))
            else if k == offset + 1 then Or(ByteAt(digits, k), Low(v, shift))
            else ByteAt(digits, k)
  {
    hide ByteAt, Part, Left, Right;
    AddDigit(digits, v, k);
    if k == offset { PartRight(v, shift); }
    else if k == offset + 1 { PartLeft(v, shift); }
    else { PartNowhere(v, shift - 8 * (k - offset)); }
  }

  /** The bits of one digit are put into the one or two bytes they fall in. */
  method StoreDigit(data: array<Octet>, bit: nat, v: Octet, ghost digits: seq<Octet>)
    requires bit == 6 * |digits| % WORD && v < 64 && Holds(data[..], digits)
    modifies data
    ensures Holds(data[..], digits + [v])
  {
    hide ByteAt, High, Low, Or;
    var offset, shift := bit / 8, bit % 8;
    EvenShift(bit, |digits|);
    if 6 * |digits| < WORD {
      DigitStart(|digits|, offset, shift);
      forall k | 0 <= k < data.Length { DigitOverlaps(digits, v, offset, shift, k); }
    }
    if offset < data.Length {
      data[offset] := Or(data[offset], High(v, shift));
    }
    offset := offset + 1;
    if offset < data.Length {
      data[offset] := Or(data[offset], Low(v, shift));
    }
  }

  lemma EvenShift(bit: nat, n: nat)
    requires bit == 6 * n % WORD
    ensures bit % 8 % 2 == 0 && (6 * n < WORD ==> bit == 6 * n)
  {
  }

  /** The bit counter, which the pads may take below zero. */
  function BitCount(s: string): nat {
    var n := IndexOf(s, '=');
    (6 * n - 2 * (|s| - n)) % WORD
  }

  lemma CountBits(s: string)
    requires Good(s)
    ensures BitCount(s) % 8 == 0 <==> |s| % 4 == 0
    ensures |s| % 4 == 0 ==> BitCount(s) / 8 == DecodedLen(s) % BYTES
  {
    hide Alphabet, IndexOf;
    var n := IndexOf(s, '=');
    PadsLast(s);
    var b := 6 * n - 2 * (|s| - n);
    assert b == 8 * n - 2 * |s|;
    var q, d := |s| / 4, |s| % 4;
    assert |s| == 4 * q + d;
    if d == 0 {
      assert b == 8 * (n - q);
      EighthsWrap(n - q);
    } else {
      EighthsOf(b, n - q - 1, 8 - 2 * d);
      WordEighths(b);
    }
  }

  /** Wrapping a whole number of bytes. */
  lemma EighthsWrap(n: nat)
    ensures 8 * n % WORD == 8 * (n % BYTES) && 8 * n % WORD % 8 == 0 && 8 * n % WORD / 8 == n % BYTES
  {
    var q, r := n / BYTES, n % BYTES;
    assert n == q * BYTES + r;
    assert 8 * n == q * WORD + 8 * r;
  }

  lemma WordEighths(b: int)
    ensures b % WORD % 8 == b % 8
  {
  }

  lemma WrapSum(x: int, y: int)
    ensures (x % WORD + y) % WORD == (x + y) % WORD
  {
  }

  /** DigitsIn() one character on. */
  lemma DigitsGrow(s: string, c: char)
    requires Good(s) && Good(s + [c]) && (c == '=' || c in Alphabet())
    ensures DigitsIn(s + [c]) == if c == '=' then DigitsIn(s) else DigitsIn(s) + [Value(c)]
    ensures BitCount(s + [c]) == (BitCount(s) + (if c == '=' then -2 else 6)) % WORD
    ensures c != '=' ==> BitCount(s) == 6 * |DigitsIn(s)| % WORD
  {
    hide Alphabet, Value, IndexOf, Good;
    if c == '=' { AppendPad(s); } else { AppendDigit(s, c); }
    var n := IndexOf(s, '=');
    WrapSum(6 * n - 2 * (|s| - n), if c == '=' then -2 else 6);
  }

  /** The buffer holds the bytes of the digits, unless there are so many that the
      counter of their bits has wrapped. */
  ghost predicate Holds(data: seq<Octet>, digits: seq<Octet>) {
    6 * |digits| < WORD + 6 ==> forall k :: 0 <= k < |data| ==> data[k] == ByteAt(digits, k)
  }

  /** The buffer, however short, receives the leading bytes, and the length returned
      is that of the whole, up to 2^29 - 1 bytes.  A text is rejected exactly when it
      is malformed, whatever its length. */
  method Base64Decode(t: string, data: array<Octet>) returns (r: Option<nat>)
    requires NUL !in t
    modifies data
    ensures r.None? <==> Decoded(t).None?
    ensures r.Some? ==> r.value == |Decoded(t).value| % BYTES
    ensures r.Some? && |Decoded(t).value| < BYTES ==>
      && r.value == |Decoded(t).value|
      && (forall k :: 0 <= k < data.Length ==> data[k] == ByteAt(DigitsIn(Strip(t)), k))
      && (forall k :: 0 <= k < data.Length && k < r.value ==> data[k] == Decoded(t).value[k])
  {
    hide Alphabet, Value, IndexOf, Good, DigitsIn, ByteAt, Strip, BitCount, Bytes, DecodedLen, Holds;
    forall k | 0 <= k < data.Length { data[k] := 0; }
    var bit, padCount := 0, 0;
    ghost var s: string := [];
    Start(t, data[..]);
    for i := 0 to |t|
      invariant s == Strip(t[..i]) && Good(s) && |s| <= i
      invariant bit == BitCount(s) && padCount == |s| - IndexOf(s, '=')
      invariant Holds(data[..], DigitsIn(s))
    {
      StripSnoc(t, i);
      var c := t[i];
      if IsSpace(c) { continue; }
      if c == '=' {
        AppendPad(s);
        if padCount >= 2 {
          BadPrefix(t, i + 1);
          return None;
        }
        padCount := padCount + 1;
        DigitsGrow(s, c);
        bit := (bit - 2) % WORD;
        s := s + [c];
        continue;
      }
      AppendDigit(s, c);
      if padCount != 0 {
        BadPrefix(t, i + 1);
        return None;
      }
      if c !in Alphabet() {
        BadPrefix(t, i + 1);
        return None;
      }
      DigitsGrow(s, c);
      StoreDigit(data, bit, Value(c), DigitsIn(s));
      bit := (bit + 6) % WORD;
      s := s + [c];
    }
    assert t[..|t|] == t;
    CountBits(s);
    if bit % 8 != 0 {
      return None;
    }
    HoldsAll(data[..], t);
    return Some(bit / 8);
  }

  lemma HoldsAll(data: seq<Octet>, t: string)
    requires Good(Strip(t)) && |Strip(t)| % 4 == 0 && Holds(data, DigitsIn(Strip(t)))
    ensures Decoded(t).Some? && |Decoded(t).value| == DecodedLen(Strip(t))
    ensures DecodedLen(Strip(t)) < BYTES ==>
      && (forall k :: 0 <= k < |data| ==> data[k] == ByteAt(DigitsIn(Strip(t)), k))
      && (forall k :: 0 <= k < |data| && k < DecodedLen(Strip(t)) ==> data[k] == Decoded(t).value[k])
  {
    hide Alphabet, Value, IndexOf, Strip, ByteAt;
    PadsLast(Strip(t));
  }

  lemma Start(t: string, data: seq<Octet>)
    requires forall k :: 0 <= k < |data| ==> data[k] == 0
    ensures Strip(t[..0]) == [] && Good([]) && BitCount([]) == 0 && DigitsIn([]) == [] && IndexOf([], '=') == 0
    ensures Holds(data, [])
  {
  }
}
