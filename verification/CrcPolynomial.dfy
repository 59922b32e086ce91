/**
 The check as arithmetic of polynomials over the field of two elements: the generator is given by its
 exponents, and a step of the register multiplies by x and takes the remainder.
 */
module CrcPolynomial {
  import opened Bitwise
  import opened Bytes
  import opened Crc32

  /** x^32 + x^26 + x^23 + x^22 + x^16 + x^12 + x^11 + x^10 + x^8 + x^7 + x^5 + x^4 + x^2 + x + 1 */
  const EXPONENTS: seq<nat> := [32, 26, 23, 22, 16, 12, 11, 10, 8, 7, 5, 4, 2, 1, 0]

  /** The places of its lower terms in a register that holds coefficients in reverse. */
  const PLACES: seq<nat> := [31, 30, 29, 27, 26, 24, 23, 21, 20, 19, 15, 9, 8, 5]

  predicate BitOf(c: nat, i: nat) { c / Pow2(i) % 2 == 1 }

  /** The register holds a polynomial of degree less than 32, its coefficients in reverse. */
  predicate Coefficient(c: word, k: nat)
    requires k < 32
  {
    BitOf(c, 31 - k)
  }

  /** The coefficients of x times the polynomial, less the generator if the degree has become 32. */
  predicate TimesX(c: word, k: nat)
    requires k < 32
  {
    (k > 0 && Coefficient(c, k - 1)) != (Coefficient(c, 31) && k in EXPONENTS)
  }

  lemma BitOfHalf(c: nat, i: nat)
    ensures BitOf(c / 2, i) <==> BitOf(c, i + 1)
  {
    DivDiv(c, Pow2(i));
  }

  lemma DivDiv(c: nat, p: nat)
    requires p > 0
    ensures c / 2 / p == c / (2 * p)
  {
    var q, r := c / 2 / p, c / 2 % p;
    assert c == 2 * (q * p + r) + c % 2;
    DivModUnique(c, 2 * p, q, 2 * r + c % 2);
  }

  lemma {:induction false} BitOfXor(a: nat, b: nat, i: nat)
    ensures BitOf(Xor(a, b), i) <==> (BitOf(a, i) != BitOf(b, i))
  {
    XorHalf(a, b);
    if i == 0 {
      Parity(a, b);
    } else {
      BitOfXor(a / 2, b / 2, i - 1);
      BitOfHalf(a, i - 1);
      BitOfHalf(b, i - 1);
      BitOfHalf(Xor(a, b), i - 1);
    }
  }

  function Sum(places: seq<nat>): nat {
    if places == [] then 0 else Pow2(places[0]) + Sum(places[1..])
  }

  predicate Descends(places: seq<nat>) {
    forall i, j | 0 <= i < j < |places| :: places[i] > places[j]
  }

  /** A sum of different powers of two has just these bits. */
  lemma {:induction false} BitOfSum(places: seq<nat>, i: nat)
    requires Descends(places)
    ensures BitOf(Sum(places), i) <==> i in places
    ensures places != [] ==> Sum(places) < 2 * Pow2(places[0])
  {
    if places == [] {
      assert 0 / Pow2(i) == 0;
    } else {
      var p, low := places[0], Sum(places[1..]);
      BitOfSum(places[1..], i);
      assert low < Pow2(p) by {
        if |places| > 1 { Pow2Mono(places[1] + 1, p); }
      }
      BitOfBoth(p, low, i);
    }
  }

  lemma {:induction false} BitOfBoth(p: nat, low: nat, i: nat)
    requires low < Pow2(p)
    ensures BitOf(Pow2(p) + low, i) <==> i == p || BitOf(low, i)
    ensures BitOf(low, i) ==> i < p
  {
    var c := Pow2(p) + low;
    if p == 0 {
      if i > 0 { BitOfHalf(1, i - 1); NoBits(i - 1); }
      NoBits(i);
    } else if i > 0 {
      BitOfHalf(c, i - 1);
      BitOfHalf(low, i - 1);
      assert c / 2 == Pow2(p - 1) + low / 2;
      BitOfBoth(p - 1, low / 2, i - 1);
    }
  }

  lemma NoBits(i: nat)
    ensures !BitOf(0, i)
  {
  }

  /** The constant is the generator, without its highest term and in reverse. */
  lemma PolyIsGenerator(k: nat)
    requires k < 32
    ensures Coefficient(POLY, k) <==> k in EXPONENTS
  {
    hide Sum, Pow2;
    PolyIsSum();
    PlacesDescend();
    BitOfSum(PLACES, 31 - k);
    PlacesAreExponents(k);
  }

  lemma PlacesDescend()
    ensures Descends(PLACES)
  {
  }

  lemma PlacesAreExponents(k: nat)
    requires k < 32
    ensures (31 - k) in PLACES <==> k in EXPONENTS
  {
  }

  lemma PolyIsSum()
    ensures POLY == Sum(PLACES)
  {
    hide Sum, Pow2;
    Powers();
    SumFrom(0);
    SumFrom(1);
    SumFrom(2);
    SumFrom(3);
    SumFrom(4);
    SumFrom(5);
    SumFrom(6);
    SumFrom(7);
    SumFrom(8);
    SumFrom(9);
    SumFrom(10);
    SumFrom(11);
    SumFrom(12);
    SumFrom(13);
    SumOfNone();
  }

  lemma SumFrom(i: nat)
    requires i < |PLACES|
    ensures Sum(PLACES[i..]) == Pow2(PLACES[i]) + Sum(PLACES[i + 1..]) && PLACES[0..] == PLACES
  {
    assert PLACES[i..][1..] == PLACES[i + 1..];
  }

  lemma SumOfNone()
    ensures Sum(PLACES[14..]) == 0
  {
  }

  lemma Powers()
    ensures Pow2(5) == 0x20 && Pow2(8) == 0x100 && Pow2(9) == 0x200 && Pow2(15) == 0x8000
    ensures Pow2(19) == 0x8_0000 && Pow2(20) == 0x10_0000 && Pow2(21) == 0x20_0000 && Pow2(23) == 0x80_0000
    ensures Pow2(24) == 0x100_0000 && Pow2(26) == 0x400_0000 && Pow2(27) == 0x800_0000
    ensures Pow2(29) == 0x2000_0000 && Pow2(30) == 0x4000_0000 && Pow2(31) == 0x8000_0000
  {
    WordSize();
    assert Pow2(12) == 0x1000;
    assert Pow2(16) == 0x1_0000;
    assert Pow2(20) == 0x10_0000;
    assert Pow2(24) == 0x100_0000;
    assert Pow2(28) == 0x1000_0000;
  }

  /** A step multiplies by x modulo the generator. */
  lemma StepMultiplies(c: word, k: nat)
    requires k < 32
    ensures Coefficient(Step(c), k) <==> TimesX(c, k)
  {
    hide BitOf, Xor, Pow2;
    PolyIsGenerator(k);
    BitOfXor(c / 2, POLY, 31 - k);
    BitOfHalf(c, 31 - k);
    LowestBit(c);
    if k == 0 { TopIsGone(c); }
  }

  /** To feed a bit is to add it to the highest coefficient before that. */
  lemma FeedMultiplies(c: word, b: bool, k: nat)
    requires k < 32
    ensures Coefficient(Step(XorWord(c, Bit(b))), k)
            <==> (k > 0 && Coefficient(c, k - 1)) != ((Coefficient(c, 31) != b) && k in EXPONENTS)
  {
    hide BitOf, Xor, Pow2, Step;
    var d := XorWord(c, Bit(b));
    StepMultiplies(d, k);
    LowestBit(c);
    LowestBit(Bit(b));
    BitOfXor(c, Bit(b), 0);
    if k > 0 {
      BitOfXor(c, Bit(b), 32 - k);
      BitOfHalf(Bit(b), 31 - k);
      NoBits(31 - k);
    }
  }

  /** The checksum is the complement of the remainder. */
  lemma ChecksumComplements(s: seq<byte>, crc: word, k: nat)
    requires k < 32
    ensures Coefficient(Checksum(s, crc), k) <==> !Coefficient(Divide(crc, MessageBits(s)), k)
  {
    hide Divide, BitOf, Pow2;
    var c := Divide(crc, MessageBits(s));
    WordSize();
    OnesComplement(c, 32);
    BitOfComplement(c, 32, 31 - k);
  }

  /** A complement in n bits, from that in n - 1. */
  lemma HalfOfComplement(c: nat, p: nat)
    requires c < 2 * p
    ensures c / 2 < p && (2 * p - 1) / 2 == p - 1 && (2 * p - 1 - c) / 2 == p - 1 - c / 2
    ensures (2 * p - 1 - c) % 2 == 1 - c % 2 == (c + (2 * p - 1)) % 2
  {
  }

  lemma {:induction false} OnesComplement(c: nat, n: nat)
    requires c < Pow2(n)
    ensures Xor(c, Pow2(n) - 1) == Pow2(n) - 1 - c
  {
    if n == 0 {
      XorZero(0);
    } else {
      hide Xor;
      var p := Pow2(n - 1);
      assert Pow2(n) == 2 * p;
      hide Pow2;
      HalfOfComplement(c, p);
      XorHalf(c, Pow2(n) - 1);
      OnesComplement(c / 2, n - 1);
    }
  }

  lemma {:induction false} BitOfComplement(c: nat, n: nat, i: nat)
    requires c < Pow2(n) && i < n
    ensures BitOf(Pow2(n) - 1 - c, i) <==> !BitOf(c, i)
  {
    var p := Pow2(n - 1);
    var d := Pow2(n) - 1 - c;
    assert Pow2(n) == 2 * p;
    HalfOfComplement(c, p);
    if i > 0 {
      hide BitOf, Pow2;
      BitOfHalf(c, i - 1);
      BitOfHalf(d, i - 1);
      BitOfComplement(c / 2, n - 1, i - 1);
    }
  }

  /** Check values: the empty buffer, four bytes of ones, and a one bit behind them. */
  lemma CheckValues()
    ensures Checksum([], ONES) == 0 && Checksum([255, 255, 255, 255], ONES) == 0xFFFF_FFFF
    ensures Checksum([255, 255, 255, 255, 128], ONES) == 0x1247_7CDF
  {
    hide Xor, Pow2, Step, LowBits;
    WordSize();
    XorSelf(ONES);
    XorZero(ONES);
    XorZero(0);
    var four: seq<byte> := [255, 255, 255, 255];
    OnesGoOut(four);
    ChecksumConcat(four, [128], ONES);
    assert [255, 255, 255, 255, 128] == four + [128];
    OneBit();
    OnesComplement(POLY, 32);
  }

  lemma OnesGoOut(four: seq<byte>)
    requires four == [255, 255, 255, 255]
    ensures Divide(ONES, MessageBits(four)) == 0
  {
    WordSize();
    BitsOfOnes(32);
    AllOnes(four);
    AllSet(MessageBits(four), LowBits(ONES, 32));
    DivideWord(ONES, ONES, 32);
    XorSelf(ONES);
    StepsOfNone(32);
  }

  predicate AllTrue(bits: seq<bool>) { forall i | 0 <= i < |bits| :: bits[i] }

  lemma AllSet(a: seq<bool>, b: seq<bool>)
    requires |a| == |b| && AllTrue(a) && AllTrue(b)
    ensures a == b
  {
  }

  lemma {:induction false} BitsOfOnes(n: nat)
    ensures AllTrue(LowBits(Pow2(n) - 1, n))
  {
    if n > 0 {
      assert (Pow2(n) - 1) / 2 == Pow2(n - 1) - 1;
      BitsOfOnes(n - 1);
    }
  }

  lemma {:induction false} AllOnes(s: seq<byte>)
    requires forall k | 0 <= k < |s| :: s[k] == 255
    ensures AllTrue(MessageBits(s))
  {
    if s != [] {
      WordSize();
      BitsOfOnes(8);
      AllOnes(s[1..]);
    }
  }

  lemma {:induction false} StepsOfNone(n: nat)
    ensures Steps(0, n) == 0
  {
    if n > 0 { StepsOfNone(n - 1); }
  }

  lemma OneBit()
    ensures Divide(0, MessageBits([128])) == POLY
  {
    WordSize();
    XorZero(128);
    DivideWord(0, 128, 8);
    assert [128][1..] == [] && LowBits(128, 8) + [] == LowBits(128, 8);
    SevenHalves();
  }

  lemma SevenHalves()
    ensures Steps(128, 8) == POLY
  {
    WordSize();
    StepsShift(1, 7);
    StepsTwice(128, 7, 1);
    XorZero(POLY);
    assert Pow2(7) == 128 && Steps(1, 1) == Steps(Step(1), 0);
  }

  lemma {:induction false} StepsTwice(c: word, j: nat, k: nat)
    ensures Steps(c, j + k) == Steps(Steps(c, j), k)
    decreases j
  {
    if j > 0 { StepsTwice(Step(c), j - 1, k); }
  }

  lemma LowestBit(c: word)
    ensures BitOf(c, 0) <==> c % 2 == 1
  {
  }

  lemma TopIsGone(c: word)
    ensures !BitOf(c, 32)
  {
    WordSize();
  }
}
