/** What the modelled files take from the C library and from the language. */
module CLib {

  datatype Option<+T> = None | Some(value: T)

  /** A byte taken as a number, and one taken as eight bits. */
  type Byte = x: int | 0 <= x < 256

  type Octet = bv8

  lemma OctetNext(b: Octet)
    ensures b != 255 ==> (b + 1) as int == b as int + 1
  {
  }

  lemma {:induction false} OctetExists(x: int) returns (b: Octet)
    requires 0 <= x < 256
    ensures b as int == x
  {
    b := 0;
    if x > 0 {
      b := OctetExists(x - 1);
      OctetNext(b);
      b := b + 1;
    }
  }

  lemma OctetBack(b: Octet)
    ensures b as int as Octet == b
  {
  }

  /** Numbers and octets correspond. */
  lemma OctetValue(x: int)
    requires 0 <= x < 256
    ensures (x as Octet) as int == x
  {
    var b := OctetExists(x);
    OctetBack(b);
  }

  const NUL: char := '\0'

  /** isspace(). */
  predicate IsSpace(c: char) {
    c == ' ' || c == 0x0c as char || c == '\n' || c == '\r' || c == '\t' || c == 0x0b as char
  }

  /** The codes of white space. */
  lemma SpaceCodes(c: char)
    ensures IsSpace(c) <==> c as int == 32 || 9 <= c as int <= 13
  {
  }

  /** strchr(): the first position of `c`, or the length. */
  function IndexOf(s: string, c: char): (n: nat)
    ensures n <= |s|
    ensures n < |s| ==> s[n] == c
    ensures forall i :: 0 <= i < n ==> s[i] != c
  {
    if s == [] || s[0] == c then 0 else 1 + IndexOf(s[1..], c)
  }

  /** Division truncates toward zero. */
  function CDiv(a: int, b: int): int
    requires b > 0
  {
    if a >= 0 then a / b else -(-a / b)
  }

  lemma CDivTruncates(a: int, b: int)
    requires b > 0
    ensures a >= 0 ==> b * CDiv(a, b) <= a < b * CDiv(a, b) + b
    ensures a <= 0 ==> b * CDiv(a, b) - b < a <= b * CDiv(a, b)
  {
    if a >= 0 {
      assert a == b * (a / b) + a % b;
    } else {
      assert -a == b * (-a / b) + -a % b;
      assert b * -(-a / b) == -(b * (-a / b));
    }
  }
}
