/**
 The 32-bit cyclic redundancy check of section 8 of RFC 1952: the table-driven loop of the decoder
 against a register that is fed one message bit at a time.
 */
module Crc32 {
  import opened Bitwise
  import opened Bytes

  type word = x: int | 0 <= x < WORD

  /** The reversed polynomial 0x04C11DB7. */
  const POLY: word := 0xEDB88320
  const ONES: word := 0xFFFF_FFFF

  lemma WordSize()
    ensures Pow2(32) == WORD && Pow2(31) == 0x8000_0000 && Pow2(8) == 256
  {
    assert Pow2(4) == 16;
    assert Pow2(8) == 256;
    assert Pow2(12) == 0x1000;
    assert Pow2(16) == 0x1_0000;
    assert Pow2(20) == 0x10_0000;
    assert Pow2(24) == 0x100_0000;
    assert Pow2(28) == 0x1000_0000;
  }

  function XorWord(a: word, b: word): word {
    WordSize();
    XorBound(a, b, 32);
    Xor(a, b)
  }

  // ----- the reference: bit-by-bit division

  /** One division step: shift the register right and subtract the polynomial if a one fell out. */
  function Step(c: word): word {
    if c % 2 == 1 then XorWord(c / 2, POLY) else c / 2
  }

  function Steps(c: word, n: nat): word
    decreases n
  {
    if n == 0 then c else Steps(Step(c), n - 1)
  }

  function Bit(b: bool): word { if b then 1 else 0 }

  /** Divide a message, given as its bits, starting from the register c. */
  function Divide(c: word, bits: seq<bool>): word
    decreases |bits|
  {
    if bits == [] then c else Divide(Step(XorWord(c, Bit(bits[0]))), bits[1..])
  }

  /** The n low bits of x, least significant first. */
  function LowBits(x: nat, n: nat): (bits: seq<bool>)
    ensures |bits| == n
  {
    if n == 0 then [] else [x % 2 == 1] + LowBits(x / 2, n - 1)
  }

  /** Bytes are sent in order, each least significant bit first. */
  function MessageBits(s: seq<byte>): (bits: seq<bool>)
    ensures |bits| == 8 * |s|
  {
    if s == [] then [] else LowBits(s[0], 8) + MessageBits(s[1..])
  }

  /** The checksum by definition: divide, then complement. */
  function Checksum(s: seq<byte>, crc: word): word {
    XorWord(Divide(crc, MessageBits(s)), ONES)
  }

  // ----- the table and the loop

  predicate IsCrcTable(t: seq<word>) {
    |t| == 256 && forall i | 0 <= i < 256 :: t[i] == Steps(i, 8)
  }

  method BuildCrc32Table(table: array<word>)
    requires table.Length == 256
    modifies table
    ensures IsCrcTable(table[..])
  {
    for i := 0 to 256
      invariant forall k | 0 <= k < i :: table[k] == Steps(k, 8)
    {
      var crc: word := i;
      for j := 8 downto 0
        invariant Steps(crc, j) == Steps(i, 8)
      {
        if 1 == crc % 2 {
          crc := XorWord(crc / 2, POLY);
        } else {
          crc := crc / 2;
        }
      }
      table[i] := crc;
    }
  }

  /** The table-driven checksum is bit-by-bit division, for every buffer and starting register. */
  method CalculateChecksum(table: array<word>, buf: seq<byte>, crc: word) returns (r: word)
    requires IsCrcTable(table[..])
    ensures r == Checksum(buf, crc)
  {
    var c := crc;
    var i := 0;
    while i < |buf|
      invariant i <= |buf|
      invariant Divide(c, MessageBits(buf[i..])) == Divide(crc, MessageBits(buf))
    {
      TableStep(c, buf[i]);
      var x := XorWord(c % 256, buf[i]);
      assert table[..][x] == Steps(x, 8);
      DivideConcat(c, LowBits(buf[i], 8), MessageBits(buf[i + 1..]));
      assert buf[i..][1..] == buf[i + 1..];
      c := XorWord(c / 256, table[x]);
      i := i + 1;
    }
    r := XorWord(c, ONES);
  }

  // ----- the register is linear

  lemma MoveTerm(x: nat, y: nat, p: nat)
    ensures Xor(Xor(x, p), Xor(y, p)) == Xor(x, y)
    ensures Xor(Xor(x, p), y) == Xor(Xor(x, y), p) == Xor(x, Xor(y, p))
  {
    XorSwap(x, y, p, p);
    XorSelf(p);
    XorZero(Xor(x, y));
    XorAssoc(x, y, p);
    XorAssoc(x, p, y);
    XorComm(p, y);
  }

  /** Step, from the half and the low bit of the register. */
  function Reduce(half: nat, odd: bool): nat {
    if odd then Xor(half, POLY) else half
  }

  lemma ReduceLinear(x: nat, y: nat, p: bool, q: bool)
    ensures Reduce(Xor(x, y), p != q) == Xor(Reduce(x, p), Reduce(y, q))
  {
    MoveTerm(x, y, POLY);
  }

  lemma StepLinear(a: word, b: word)
    ensures Step(XorWord(a, b)) == XorWord(Step(a), Step(b))
  {
    SumHalf(a, b);
    ReduceLinear(a / 2, b / 2, a % 2 == 1, b % 2 == 1);
    assert Step(a) == Reduce(a / 2, a % 2 == 1);
    assert Step(b) == Reduce(b / 2, b % 2 == 1);
  }

  lemma SumHalf(a: word, b: word)
    ensures Step(XorWord(a, b)) == Reduce(Xor(a / 2, b / 2), (a % 2 == 1) != (b % 2 == 1))
  {
    XorHalf(a, b);
    Parity(a, b);
  }

  lemma Parity(a: nat, b: nat)
    ensures (a + b) % 2 == 1 <==> ((a % 2 == 1) != (b % 2 == 1))
  {
  }

  lemma {:induction false} StepsLinear(a: word, b: word, n: nat)
    ensures Steps(XorWord(a, b), n) == XorWord(Steps(a, n), Steps(b, n))
    decreases n
  {
    if n > 0 {
      StepLinear(a, b);
      StepsLinear(Step(a), Step(b), n - 1);
    }
  }

  // ----- one table lookup divides by one message byte

  lemma {:induction false} StepsShift(m: nat, n: nat)
    requires m * Pow2(n) < WORD
    ensures m < WORD && Steps(m * Pow2(n), n) == m
  {
    if n > 0 {
      MulPow2(m, n);
      StepsShift(m, n - 1);
    }
  }

  /** Feeding the n low bits of x is adding x to the register and running it. */
  lemma {:induction false} DivideWord(c: word, x: word, n: nat)
    requires x < Pow2(n)
    ensures Divide(c, LowBits(x, n)) == Steps(XorWord(c, x), n)
    decreases n
  {
    if n == 0 {
      XorZero(c);
    } else {
      var b := Bit(x % 2 == 1);
      var d := Step(XorWord(c, b));
      DivideWord(d, x / 2, n - 1);
      assert LowBits(x, n)[1..] == LowBits(x / 2, n - 1);
      FeedOne(c, x);
    }
  }

  lemma FeedOne(c: word, x: word)
    ensures XorWord(Step(XorWord(c, Bit(x % 2 == 1))), x / 2) == Step(XorWord(c, x))
  {
    var b := Bit(x % 2 == 1);
    var even: word := x - x % 2;
    assert XorWord(XorWord(c, b), even) == XorWord(c, x) by {
      XorAssoc(c, b, even);
      XorComm(b, even);
      assert even == x / 2 * Pow2(1);
      XorDisjoint(x / 2, b, 1);
    }
    StepLinear(XorWord(c, b), even);
  }

  lemma TableStep(c: word, b: byte)
    ensures XorWord(c % 256, b) < 256
    ensures Divide(c, LowBits(b, 8)) == XorWord(c / 256, Steps(XorWord(c % 256, b), 8))
  {
    assert Pow2(8) == 256 by { WordSize(); }
    XorBound(c % 256, b, 8);
    var high: word, low := c / 256 * 256, XorWord(c % 256, b);
    assert XorWord(high, low) == XorWord(c, b) by {
      XorDisjoint(c / 256, c % 256, 8);
      XorAssoc(high, c % 256, b);
    }
    DivideWord(c, b, 8);
    StepsLinear(high, low, 8);
    StepsShift(c / 256, 8);
  }

  lemma {:induction false} DivideConcat(c: word, a: seq<bool>, b: seq<bool>)
    ensures Divide(c, a + b) == Divide(Divide(c, a), b)
    decreases |a|
  {
    if a == [] {
      assert a + b == b;
    } else {
      assert (a + b)[1..] == a[1..] + b;
      DivideConcat(Step(XorWord(c, Bit(a[0]))), a[1..], b);
    }
  }

  // ----- checksumming in pieces

  lemma {:induction false} MessageBitsConcat(a: seq<byte>, b: seq<byte>)
    ensures MessageBits(a + b) == MessageBits(a) + MessageBits(b)
  {
    if a == [] {
      assert a + b == b;
    } else {
      assert (a + b)[1..] == a[1..] + b;
      MessageBitsConcat(a[1..], b);
    }
  }

  /** The checksum of a concatenation continues from the un-complemented checksum of its first part. */
  lemma ChecksumConcat(a: seq<byte>, b: seq<byte>, crc: word)
    ensures Checksum(a + b, crc) == Checksum(b, XorWord(Checksum(a, crc), ONES))
  {
    MessageBitsConcat(a, b);
    DivideConcat(crc, MessageBits(a), MessageBits(b));
    XorCancel(Divide(crc, MessageBits(a)), ONES);
  }

  // ----- burst errors

  /** A step moves the highest set bit down by at most one place, whatever bit is fed. */
  lemma HighBitFalls(d: word, b: bool, k: nat)
    requires 0 < k <= 31 && d >= Pow2(k)
    ensures Step(XorWord(d, Bit(b))) >= Pow2(k - 1)
  {
    var e := XorWord(d, Bit(b));
    XorHalf(d, Bit(b));
    XorZero(d / 2);
    WordSize();
    if e % 2 == 1 {
      XorTop(e / 2, POLY, 31);
      Pow2Mono(k - 1, 31);
    }
  }

  lemma {:induction false} Pow2Mono(j: nat, k: nat)
    requires j <= k
    ensures Pow2(j) <= Pow2(k)
  {
    if j < k { Pow2Mono(j, k - 1); }
  }

  /** Two registers a whole bit apart stay apart while fewer bits are fed than the gap is wide. */
  lemma {:induction false} DifferenceSurvives(a: word, b: word, x: seq<bool>, y: seq<bool>)
    requires |x| == |y| <= 31 && XorWord(a, b) >= Pow2(|x|)
    ensures Divide(a, x) != Divide(b, y)
    decreases |x|
  {
    if x == [] {
      if a == b { XorSelf(a); }
    } else {
      var p, q := Bit(x[0]), Bit(y[0]);
      XorSwap(a, b, p, q);
      assert Xor(p, q) == Bit(x[0] != y[0]);
      StepLinear(XorWord(a, p), XorWord(b, q));
      HighBitFalls(XorWord(a, b), x[0] != y[0], |x|);
      DifferenceSurvives(Step(XorWord(a, p)), Step(XorWord(b, q)), x[1..], y[1..]);
    }
  }

  lemma {:induction false} DivideInjective(a: word, b: word, bits: seq<bool>)
    requires Divide(a, bits) == Divide(b, bits)
    ensures a == b
    decreases |bits|
  {
    if bits != [] {
      var x := Bit(bits[0]);
      DivideInjective(Step(XorWord(a, x)), Step(XorWord(b, x)), bits[1..]);
      StepInjective(XorWord(a, x), XorWord(b, x));
      XorCancel(a, x);
      XorCancel(b, x);
    }
  }

  lemma StepInjective(a: word, b: word)
    requires Step(a) == Step(b)
    ensures a == b
  {
    WordSize();
    XorTop(a / 2, POLY, 31);
    XorTop(b / 2, POLY, 31);
    XorCancel(a / 2, POLY);
    XorCancel(b / 2, POLY);
  }

  /** Two different bit strings of at most 32 bits drive a register to different values. */
  lemma {:induction false} BurstChangesRegister(c: word, x: seq<bool>, y: seq<bool>)
    requires |x| == |y| <= 32 && x != y
    ensures Divide(c, x) != Divide(c, y)
    decreases |x|
  {
    var p, q := Bit(x[0]), Bit(y[0]);
    var a, b := Step(XorWord(c, p)), Step(XorWord(c, q));
    if x[0] == y[0] {
      assert x == [x[0]] + x[1..] && y == [y[0]] + y[1..];
      BurstChangesRegister(a, x[1..], y[1..]);
    } else {
      XorSwap(c, c, p, q);
      XorSelf(c);
      assert Xor(p, q) == 1 && Step(1) == POLY by { XorZero(1); XorZero(POLY); }
      XorZero(1);
      StepLinear(XorWord(c, p), XorWord(c, q));
      WordSize();
      Pow2Mono(|x| - 1, 31);
      DifferenceSurvives(a, b, x[1..], y[1..]);
    }
  }

  /**
   Burst detection: messages of equal length that differ, but only inside one window of 32
   consecutive bits, have different checksums.
   */
  lemma BurstDetected(s: seq<byte>, t: seq<byte>, i: nat, crc: word)
    requires |s| == |t| && s != t
    requires forall k | 0 <= k < 8 * |s| && !(i <= k < i + 32) :: MessageBits(s)[k] == MessageBits(t)[k]
    ensures Checksum(s, crc) != Checksum(t, crc)
  {
    var x, y := MessageBits(s), MessageBits(t);
    if x == y { MessageBitsInjective(s, t); }
    WindowChangesRegister(x, y, i, crc);
    XorCancel(Divide(crc, x), ONES);
    XorCancel(Divide(crc, y), ONES);
  }

  lemma WindowChangesRegister(x: seq<bool>, y: seq<bool>, i: nat, crc: word)
    requires |x| == |y| && x != y && forall k | 0 <= k < |x| && !(i <= k < i + 32) :: x[k] == y[k]
    ensures Divide(crc, x) != Divide(crc, y)
  {
    var lo, hi := Min(i, |x|), Min(i + 32, |x|);
    var pre, post, u, v := x[..lo], x[hi..], x[lo..hi], y[lo..hi];
    assert y[..lo] == pre && y[hi..] == post;
    assert x == pre + (u + post) && y == pre + (v + post);
    var c := Divide(crc, pre);
    BurstChangesRegister(c, u, v);
    DivideConcat(crc, pre, u + post);
    DivideConcat(crc, pre, v + post);
    DivideConcat(c, u, post);
    DivideConcat(c, v, post);
    if Divide(crc, x) == Divide(crc, y) {
      DivideInjective(Divide(c, u), Divide(c, v), post);
    }
  }

  /** In particular, a change inside four consecutive bytes never goes unnoticed. */
  lemma FourByteBurstDetected(s: seq<byte>, t: seq<byte>, i: nat, crc: word)
    requires |s| == |t| && s != t
    requires forall k | 0 <= k < |s| && !(i <= k < i + 4) :: s[k] == t[k]
    ensures Checksum(s, crc) != Checksum(t, crc)
  {
    var lo, hi := Min(i, |s|), Min(i + 4, |s|);
    var pre, post := s[..lo], s[hi..];
    assert s == pre + (s[lo..hi] + post) && t == pre + (t[lo..hi] + post);
    MessageBitsSplit(pre, s[lo..hi], post);
    MessageBitsSplit(pre, t[lo..hi], post);
    SameOutside(MessageBits(pre), MessageBits(s[lo..hi]), MessageBits(t[lo..hi]), MessageBits(post), 8 * i);
    BurstDetected(s, t, 8 * i, crc);
  }

  lemma MessageBitsSplit(a: seq<byte>, b: seq<byte>, c: seq<byte>)
    ensures MessageBits(a + (b + c)) == MessageBits(a) + (MessageBits(b) + MessageBits(c))
  {
    MessageBitsConcat(a, b + c);
    MessageBitsConcat(b, c);
  }

  lemma SameOutside(a: seq<bool>, x: seq<bool>, y: seq<bool>, c: seq<bool>, i: nat)
    requires |x| == |y| <= 32 && (|a| == i || |x| == 0)
    ensures forall k | 0 <= k < |a| + |x| + |c| && !(i <= k < i + 32) :: (a + (x + c))[k] == (a + (y + c))[k]
  {
  }

  lemma {:induction false} MessageBitsInjective(s: seq<byte>, t: seq<byte>)
    requires |s| == |t| && MessageBits(s) == MessageBits(t)
    ensures s == t
  {
    if s != [] {
      WordSize();
      assert LowBits(s[0], 8) == MessageBits(s)[..8] == MessageBits(t)[..8] == LowBits(t[0], 8);
      LowBitsInjective(s[0], t[0], 8);
      assert MessageBits(s)[8..] == MessageBits(s[1..]) && MessageBits(t)[8..] == MessageBits(t[1..]);
      MessageBitsInjective(s[1..], t[1..]);
      assert s == [s[0]] + s[1..] && t == [t[0]] + t[1..];
    }
  }

  lemma {:induction false} LowBitsInjective(a: nat, b: nat, n: nat)
    requires a < Pow2(n) && b < Pow2(n) && LowBits(a, n) == LowBits(b, n)
    ensures a == b
  {
    if n > 0 {
      assert LowBits(a, n)[1..] == LowBits(a / 2, n - 1) && LowBits(b, n)[1..] == LowBits(b / 2, n - 1);
      LowBitsInjective(a / 2, b / 2, n - 1);
      assert LowBits(a, n)[0] == LowBits(b, n)[0];
    }
  }
}
