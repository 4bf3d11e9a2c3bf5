/** The GDB remote protocol: hexadecimal buffers, packet framing, and the packet
    parser. */
module Gdbstub {
  import opened Arith
  import opened CLib

  const DOLLAR: Byte := 36
  const HASH: Byte := 35
  const PLUS: Byte := 43
  const MINUS: Byte := 45
  const SIZEOF_PAYLOAD := 512

  function ToLower(c: Byte): Byte { if 65 <= c <= 90 then c + 32 else c }

  /** Defined for every character, hexadecimal digit or not. */
  function FromHexDigit(c: Byte): (d: Byte)
    ensures d < 16
  {
    (if 48 <= c <= 57 then c - 48 else ToLower(c) - 97 + 10) % 16
  }

  function ToHexDigit(b: nat): Byte {
    var n := b % 16;
    if n < 10 then 48 + n else 87 + n
  }

  lemma HexDigitBack(b: nat)
    ensures FromHexDigit(ToHexDigit(b)) == b % 16
  {
  }

  const LOWER := "0123456789abcdef"
  const UPPER := "0123456789ABCDEF"

  /** Digits are printed in lower case and read in either. */
  lemma DigitsAre(v: nat)
    requires v < 16
    ensures ToHexDigit(v) == LOWER[v] as int
    ensures FromHexDigit(LOWER[v] as int) == v && FromHexDigit(UPPER[v] as int) == v
  {
    if v < 10 {
      assert LOWER[v] as int == 48 + v && UPPER[v] as int == 48 + v;
    } else {
      assert LOWER[v] as int == 87 + v && UPPER[v] as int == 55 + v;
    }
  }

  /** Two digits to a byte, the high one first. */
  function FromHex(src: seq<Byte>, n: nat): (r: seq<Byte>)
    requires 2 * n <= |src|
    ensures |r| == n
  {
    seq(n, k requires 0 <= k < n => 16 * FromHexDigit(src[2 * k]) + FromHexDigit(src[2 * k + 1]))
  }

  function ToHex(src: seq<Byte>): (r: seq<Byte>)
    ensures |r| == 2 * |src|
  {
    seq(2 * |src|, k requires 0 <= k < 2 * |src| => if k % 2 == 0 then ToHexDigit(src[k / 2] / 16) else ToHexDigit(src[k / 2]))
  }

  lemma HexBack(src: seq<Byte>)
    ensures FromHex(ToHex(src), |src|) == src
  {
    hide ToHexDigit, FromHexDigit;
    forall k | 0 <= k < |src| ensures FromHex(ToHex(src), |src|)[k] == src[k] {
      HexDigitBack(src[k] / 16);
      HexDigitBack(src[k]);
      assert ToHex(src)[2 * k] == ToHexDigit(src[k] / 16) && ToHex(src)[2 * k + 1] == ToHexDigit(src[k]);
    }
  }

  /** The little-endian bytes of 16- and 32-bit words. */
  function Le16(v: nat): seq<Byte>
    requires v < 0x1_0000
  {
    [v % 0x100, v / 0x100]
  }

  function Le32(v: nat): seq<Byte>
    requires v < 0x1_0000_0000
  {
    [v % 0x100, v / 0x100 % 0x100, v / 0x1_0000 % 0x100, v / 0x100_0000]
  }

  function Word16(a: Byte, b: Byte): (v: nat)
    ensures v < 0x1_0000
  {
    a + 0x100 * b
  }

  function Word32(a: Byte, b: Byte, c: Byte, d: Byte): (v: nat)
    ensures v < 0x1_0000_0000
  {
    a + 0x100 * b + 0x1_0000 * c + 0x100_0000 * d
  }

  lemma Le16Back(a: Byte, b: Byte)
    ensures Le16(Word16(a, b)) == [a, b]
  {
  }

  lemma Le32Back(a: Byte, b: Byte, c: Byte, d: Byte)
    ensures Le32(Word32(a, b, c, d)) == [a, b, c, d]
  {
    var v, w, x := Word32(a, b, c, d), b + 0x100 * c + 0x1_0000 * d, c + 0x100 * d;
    assert v == a + 0x100 * w && v / 0x100 == w;
    assert w == b + 0x100 * x && v / 0x1_0000 == x;
    assert v / 0x100_0000 == d;
  }

  method Store(m: array<Byte>, at: nat, b: seq<Byte>)
    requires at + |b| <= m.Length
    modifies m
    ensures m[..] == old(m[..at]) + b + old(m[at + |b|..])
  {
    forall k | 0 <= k < |b| { m[at + k] := b[k]; }
  }

  /** The aligned two- and four-byte forms store what the plain loop does. */
  method FromHexBuf(m: array<Byte>, dst: nat, src: seq<Byte>, n: nat)
    requires dst + n <= m.Length && 2 * n <= |src|
    modifies m
    ensures m[..] == old(m[..dst]) + FromHex(src, n) + old(m[dst + n..])
  {
    hide FromHexDigit, Le16, Le32;
    var d := seq(|src|, k requires 0 <= k < |src| => FromHexDigit(src[k]));
    ghost var out := FromHex(src, n);
    if n == 2 && dst % 2 == 0 {
      var i := d[2] * 0x1000 + d[3] * 0x100 + d[0] * 0x10 + d[1];
      Le16Back(16 * d[0] + d[1], 16 * d[2] + d[3]);
      assert [16 * d[0] + d[1], 16 * d[2] + d[3]] == out;
      Store(m, dst, Le16(i));
    } else if n == 4 && dst % 4 == 0 {
      var i := d[6] * 0x1000_0000 + d[7] * 0x100_0000 + d[4] * 0x10_0000 + d[5] * 0x1_0000 +
               d[2] * 0x1000 + d[3] * 0x100 + d[0] * 0x10 + d[1];
      Le32Back(16 * d[0] + d[1], 16 * d[2] + d[3], 16 * d[4] + d[5], 16 * d[6] + d[7]);
      assert [16 * d[0] + d[1], 16 * d[2] + d[3], 16 * d[4] + d[5], 16 * d[6] + d[7]] == out;
      Store(m, dst, Le32(i));
    } else {
      FromHexLoop(m, dst, src, n);
    }
  }

  method FromHexLoop(m: array<Byte>, dst: nat, src: seq<Byte>, n: nat)
    requires dst + n <= m.Length && 2 * n <= |src|
    modifies m
    ensures m[..] == old(m[..dst]) + FromHex(src, n) + old(m[dst + n..])
  {
    hide FromHexDigit;
    for k := 0 to n
      invariant forall j :: 0 <= j < m.Length ==> m[j] == if dst <= j < dst + k then FromHex(src, n)[j - dst] else old(m[j])
    {
      m[dst + k] := 16 * FromHexDigit(src[2 * k]) + FromHexDigit(src[2 * k + 1]);
    }
  }

  method ToHexBuf(m: array<Byte>, src: nat, n: nat) returns (dst: seq<Byte>)
    requires src + n <= m.Length
    ensures dst == ToHex(m[src..src + n])
  {
    hide ToHexDigit, ToHex;
    ghost var s := m[src..src + n];
    if n == 2 && src % 2 == 0 {
      var i := Word16(m[src], m[src + 1]);
      dst := [ToHexDigit(i / 0x10), ToHexDigit(i), ToHexDigit(i / 0x1000), ToHexDigit(i / 0x100)];
      Nibbles16(m[src], m[src + 1]);
      ToHexSplit(s);
      ToHexSplit(s[1..]);
    } else if n == 4 && src % 4 == 0 {
      var i := Word32(m[src], m[src + 1], m[src + 2], m[src + 3]);
      dst := [ToHexDigit(i / 0x10), ToHexDigit(i), ToHexDigit(i / 0x1000), ToHexDigit(i / 0x100),
              ToHexDigit(i / 0x10_0000), ToHexDigit(i / 0x1_0000), ToHexDigit(i / 0x1000_0000), ToHexDigit(i / 0x100_0000)];
      Nibbles32(m[src], m[src + 1], m[src + 2], m[src + 3]);
      ToHexSplit(s);
      ToHexSplit(s[1..]);
      ToHexSplit(s[2..]);
      ToHexSplit(s[3..]);
      assert s[1..][1..] == s[2..] && s[2..][1..] == s[3..];
    } else {
      dst := [];
      for k := 0 to n
        invariant dst + ToHex(s[k..]) == ToHex(s)
      {
        ToHexSplit(s[k..]);
        assert s[k..][0] == m[src + k] && s[k..][1..] == s[k + 1..];
        dst := dst + [ToHexDigit(m[src + k] / 16), ToHexDigit(m[src + k])];
      }
    }
  }

  lemma ToHexSplit(s: seq<Byte>)
    requires s != []
    ensures ToHex(s) == [ToHexDigit(s[0] / 16), ToHexDigit(s[0])] + ToHex(s[1..])
  {
    hide ToHexDigit;
  }

  /** Only the low four bits make the digit. */
  lemma SameDigit(x: nat, y: nat, q: nat)
    requires x == y + 16 * q
    ensures ToHexDigit(x) == ToHexDigit(y)
  {
    ModAddMultiple(y, q, 16);
  }

  lemma Nibbles16(a: Byte, b: Byte)
    ensures
      var i := Word16(a, b);
      && ToHexDigit(i / 0x10) == ToHexDigit(a / 16) && ToHexDigit(i) == ToHexDigit(a)
      && ToHexDigit(i / 0x1000) == ToHexDigit(b / 16) && ToHexDigit(i / 0x100) == ToHexDigit(b)
  {
    hide ToHexDigit;
    SameDigit(Word16(a, b) / 0x10, a / 16, b);
    SameDigit(Word16(a, b), a, 16 * b);
  }

  lemma Nibbles32(a: Byte, b: Byte, c: Byte, d: Byte)
    ensures
      var i := Word32(a, b, c, d);
      && ToHexDigit(i / 0x10) == ToHexDigit(a / 16) && ToHexDigit(i) == ToHexDigit(a)
      && ToHexDigit(i / 0x1000) == ToHexDigit(b / 16) && ToHexDigit(i / 0x100) == ToHexDigit(b)
      && ToHexDigit(i / 0x10_0000) == ToHexDigit(c / 16) && ToHexDigit(i / 0x1_0000) == ToHexDigit(c)
      && ToHexDigit(i / 0x1000_0000) == ToHexDigit(d / 16) && ToHexDigit(i / 0x100_0000) == ToHexDigit(d)
  {
    hide ToHexDigit;
    var i := Word32(a, b, c, d);
    var w := b + 0x100 * c + 0x1_0000 * d;
    assert i == a + 0x100 * w && i / 0x100 == w && i / 0x1000 == w / 16;
    var x := c + 0x100 * d;
    assert w == b + 0x100 * x && w / 0x100 == x && i / 0x1_0000 == x && i / 0x10_0000 == x / 16;
    assert x / 0x100 == d && i / 0x100_0000 == d && i / 0x1000_0000 == d / 16;
    SameDigit(i, a, 16 * w);
    SameDigit(i / 0x10, a / 16, w);
    SameDigit(w, b, 16 * x);
    SameDigit(w / 16, b / 16, x);
    SameDigit(x, c, 16 * d);
    SameDigit(x / 16, c / 16, d);
  }

  function Sum(data: seq<Byte>): Byte {
    if data == [] then 0 else (Sum(data[..|data| - 1]) + data[|data| - 1]) % 256
  }

  lemma Add256(x: Byte, y: Byte, z: Byte)
    ensures ((x + y) % 256 + z) % 256 == (x + (y + z) % 256) % 256
    ensures (x + y) % 256 == x <==> y == 0
    ensures x / 16 % 16 * 16 + x % 16 == x
  {
  }

  lemma {:induction false} SumConcat(a: seq<Byte>, b: seq<Byte>)
    ensures Sum(a + b) == (Sum(a) + Sum(b)) % 256
  {
    if b == [] {
      assert a + b == a;
    } else {
      var b' := b[..|b| - 1];
      assert (a + b)[..|a + b| - 1] == a + b';
      SumConcat(a, b');
      Add256(Sum(a), Sum(b'), b[|b| - 1]);
    }
  }

  method Checksum(data: seq<Byte>) returns (sum: Byte)
    ensures sum == Sum(data)
  {
    sum := 0;
    for i := 0 to |data|
      invariant sum == Sum(data[..i])
    {
      assert data[..i + 1][..i] == data[..i];
      sum := (sum + data[i]) % 256;
    }
    assert data[..|data|] == data;
  }

  /** A payload on the wire. */
  function Frame(data: seq<Byte>): seq<Byte> {
    [DOLLAR] + data + [HASH, ToHexDigit(Sum(data) / 16), ToHexDigit(Sum(data))]
  }

  datatype State = New | Data | Cksum1 | Cksum2 | WaitAck

  /** The parser: its state, the first checksum digit and the payload so far. */
  datatype Parser = Parser(state: State, cksum1: Byte, data: seq<Byte>)

  /** What a character leads to: nothing, a packet accepted or refused, or the last
      packet being sent again. */
  datatype Effect = Nothing | Accept | Refuse | Resend

  function Feed(p: Parser, ch: Byte): (Parser, Effect) {
    match p.state
    case New => (if ch == DOLLAR then p.(state := Data, data := []) else p, Nothing)
    case Data =>
      (if ch == HASH then p.(state := Cksum1)
       else if ch == DOLLAR then p.(data := [])
       else if |p.data| < SIZEOF_PAYLOAD then p.(data := p.data + [ch])
       else p, Nothing)
    case Cksum1 => (p.(cksum1 := FromHexDigit(ch) * 16 % 256, state := Cksum2), Nothing)
    case Cksum2 =>
      (p.(state := New), if (p.cksum1 + FromHexDigit(ch)) % 256 == Sum(p.data) then Accept else Refuse)
    case WaitAck => if ch == PLUS then (p.(state := New), Nothing) else (p, Resend)
  }

  /** The parser after a string, and the effect of its last character. */
  function FeedAll(p: Parser, s: seq<Byte>): (Parser, Effect) {
    if s == [] then (p, Nothing) else Feed(FeedAll(p, s[..|s| - 1]).0, s[|s| - 1])
  }

  lemma FeedSnoc(p: Parser, s: seq<Byte>, ch: Byte)
    ensures FeedAll(p, s + [ch]) == Feed(FeedAll(p, s).0, ch)
  {
    assert (s + [ch])[..|s|] == s;
  }

  /** What is kept of a payload. */
  function Clip(data: seq<Byte>): seq<Byte> {
    if |data| <= SIZEOF_PAYLOAD then data else data[..SIZEOF_PAYLOAD]
  }

  /** The payload that has been begun last. */
  function Latest(d: seq<Byte>): seq<Byte> {
    if d == [] || d[|d| - 1] == DOLLAR then [] else Latest(d[..|d| - 1]) + [d[|d| - 1]]
  }

  lemma {:induction false} FeedData(p: Parser, d: seq<Byte>)
    requires p.state == New && HASH !in d
    ensures FeedAll(p, [DOLLAR] + d).0 == p.(state := Data, data := Clip(Latest(d)))
  {
    if d == [] {
      assert [DOLLAR] + d == [] + [DOLLAR];
      FeedSnoc(p, [], DOLLAR);
    } else {
      var d', ch := d[..|d| - 1], d[|d| - 1];
      FeedData(p, d');
      assert [DOLLAR] + d == [DOLLAR] + d' + [ch];
      FeedSnoc(p, [DOLLAR] + d', ch);
    }
  }

  /** Whatever arrives between a dollar sign and the next hash sign, the packet is
      accepted exactly when the two digits that follow are the checksum of what is
      kept of the payload begun last. */
  lemma PacketParsed(p: Parser, d: seq<Byte>, c1: Byte, c2: Byte)
    requires p.state == New && HASH !in d
    ensures
      var (q, e) := FeedAll(p, [DOLLAR] + d + [HASH, c1, c2]);
      && q.state == New && q.data == Clip(Latest(d))
      && e == if FromHexDigit(c1) * 16 + FromHexDigit(c2) == Sum(q.data) then Accept else Refuse
  {
    hide FromHexDigit, Latest, Clip, Sum, FeedAll;
    var s := [DOLLAR] + d;
    FeedData(p, d);
    TwoDigits(c1, c2);
    FeedSnoc(p, s, HASH);
    FeedSnoc(p, s + [HASH], c1);
    FeedSnoc(p, s + [HASH] + [c1], c2);
    assert s + [HASH] + [c1] + [c2] == s + [HASH, c1, c2];
  }

  lemma TwoDigits(c1: Byte, c2: Byte)
    ensures (FromHexDigit(c1) * 16 % 256 + FromHexDigit(c2)) % 256 == FromHexDigit(c1) * 16 + FromHexDigit(c2)
  {
    hide FromHexDigit;
  }

  lemma {:induction false} LatestWhole(d: seq<Byte>)
    requires DOLLAR !in d
    ensures Latest(d) == d
  {
    if d != [] { LatestWhole(d[..|d| - 1]); }
  }

  /** A frame for a payload without dollar or hash signs is accepted exactly when
      the bytes that did not fit add up to nothing.  A payload that fits is always
      accepted, as it is; one that does not is not always refused. */
  lemma FrameParsed(p: Parser, data: seq<Byte>)
    requires p.state == New && HASH !in data && DOLLAR !in data
    ensures
      var (q, e) := FeedAll(p, Frame(data));
      q.state == New && q.data == Clip(data) && e == if Sum(data[|Clip(data)|..]) == 0 then Accept else Refuse
  {
    hide FromHexDigit, ToHexDigit, Sum, Latest, FeedAll;
    var sum := Sum(data);
    PacketParsed(p, data, ToHexDigit(sum / 16), ToHexDigit(sum));
    LatestWhole(data);
    HexDigitBack(sum / 16);
    HexDigitBack(sum);
    var kept := Clip(data);
    SumConcat(kept, data[|kept|..]);
    assert kept + data[|kept|..] == data;
    Add256(sum, 0, 0);
    Add256(Sum(kept), Sum(data[|kept|..]), 0);
  }

  /** A payload of 513 characters, the last of them a NUL, is accepted cut short. */
  lemma LongFrameAccepted(p: Parser)
    requires p.state == New
    ensures
      var data: seq<Byte> := seq(513, i => if i == 512 then 0 else 65);
      var (q, e) := FeedAll(p, Frame(data));
      e == Accept && q.data != data
  {
    hide Frame, FeedAll;
    var data: seq<Byte> := seq(513, i => if i == 512 then 0 else 65);
    FrameParsed(p, data);
    assert data[512..] == [0];
    assert [0][..0] == [];
  }

  class Stub {
    /** The frame buffer: the payload starts at its second byte. */
    const buf: array<Byte>
    var len: nat
    var state: State
    var cksum1: Byte
    /** What has been handed to the transport. */
    var sent: seq<seq<Byte>>

    ghost predicate Valid()
      reads this
    {
      buf.Length == SIZEOF_PAYLOAD + 4 && len <= SIZEOF_PAYLOAD
    }

    ghost function St(): Parser
      reads this, buf
      requires Valid()
    {
      Parser(state, cksum1, buf[1..1 + len])
    }

    constructor ()
      ensures Valid() && fresh(buf) && St() == Parser(New, 0, []) && sent == []
    {
      buf := new Byte[SIZEOF_PAYLOAD + 4];
      len, state, cksum1, sent := 0, New, 0, [];
    }

    /** The frame is built around the payload where it stands. */
    method TxPacket()
      requires Valid()
      modifies this, buf
      ensures Valid() && St() == old(St()).(state := WaitAck)
      ensures sent == old(sent) + [Frame(old(St()).data)]
    {
      hide ToHexDigit, Sum;
      ghost var data := buf[1..1 + len];
      var cksum := Checksum(buf[1..1 + len]);
      buf[0] := DOLLAR;
      buf[len + 1] := HASH;
      buf[len + 2] := ToHexDigit(cksum / 16);
      buf[len + 3] := ToHexDigit(cksum);
      assert buf[1..1 + len] == data;
      assert buf[..len + 4] == Frame(data);
      sent := sent + [buf[..len + 4]];
      state := WaitAck;
    }

    /** One character.  `reply` is what the command handler answers to a packet, if
        it answers. */
    method Parse(ch: Byte, reply: Option<seq<Byte>>)
      requires Valid() && (reply.Some? ==> |reply.value| <= SIZEOF_PAYLOAD)
      modifies this, buf
      ensures Valid()
      ensures
        var (q, e) := Feed(old(St()), ch);
        match e
        case Nothing => St() == q && sent == old(sent)
        case Resend => St() == q && sent == old(sent) + [Frame(q.data)]
        case Refuse => St() == q && sent == old(sent) + [[MINUS]]
        case Accept =>
          if q.data == [] || reply.None? then St() == q && sent == old(sent) + [[PLUS]]
          else St() == q.(state := WaitAck, data := reply.value) && sent == old(sent) + [[PLUS], Frame(reply.value)]
    {
      hide FromHexDigit, Sum, Frame;
      match state
      case New =>
        if ch == DOLLAR { len, state := 0, Data; }
      case Data =>
        if ch == HASH {
          state := Cksum1;
        } else if ch == DOLLAR {
          len := 0;
        } else if len < SIZEOF_PAYLOAD {
          buf[1 + len] := ch;
          len := len + 1;
          assert buf[1..1 + len] == old(buf[1..1 + len]) + [ch];
        }
      case Cksum1 =>
        cksum1 := FromHexDigit(ch) * 16 % 256;
        state := Cksum2;
      case Cksum2 => CheckPacket(ch, reply);
      case WaitAck =>
        if ch == PLUS { state := New; } else { TxPacket(); }
    }

    method CheckPacket(ch: Byte, reply: Option<seq<Byte>>)
      requires Valid() && state == Cksum2 && (reply.Some? ==> |reply.value| <= SIZEOF_PAYLOAD)
      modifies this, buf
      ensures Valid()
      ensures
        var (q, e) := Feed(old(St()), ch);
        if e == Refuse then St() == q && sent == old(sent) + [[MINUS]]
        else if q.data == [] || reply.None? then e == Accept && St() == q && sent == old(sent) + [[PLUS]]
        else e == Accept && St() == q.(state := WaitAck, data := reply.value) &&
             sent == old(sent) + [[PLUS], Frame(reply.value)]
    {
      hide FromHexDigit, Sum, Frame;
      state := New;
      var theirs := (cksum1 + FromHexDigit(ch)) % 256;
      var ours := Checksum(buf[1..1 + len]);
      if theirs == ours {
        sent := sent + [[PLUS]];
        if len > 0 && reply.Some? {
          assert buf[1..1 + len] != [];
          forall k | 0 <= k < |reply.value| { buf[1 + k] := reply.value[k]; }
          len := |reply.value|;
          assert buf[1..1 + len] == reply.value;
          TxPacket();
        }
      } else {
        sent := sent + [[MINUS]];
      }
    }
  }
}
