/** Running the check backwards: four bytes of a buffer can be chosen to give it any checksum. */
module Crc32Inverse {
  import opened Bitwise
  import opened Bytes
  import opened Crc32

  const TOP: word := 0x8000_0000

  lemma TopsCancel(a: nat, b: nat, k: nat)
    requires a < Pow2(k) && b < Pow2(k)
    ensures Xor(Pow2(k) + a, Pow2(k) + b) == Xor(a, b) < Pow2(k)
  {
    hide Xor, Pow2;
    var top := Pow2(k);
    XorDisjoint(1, a, k);
    XorDisjoint(1, b, k);
    assert 1 * top == top;
    XorSwap(top, top, a, b);
    XorSelf(top);
    XorZero(Xor(a, b));
    XorBound(a, b, k);
  }

  lemma TopFalls(c: word)
    requires c >= TOP
    ensures XorWord(c, POLY) < TOP
  {
    hide Xor, Pow2;
    WordSize();
    TopsCancel(c - TOP, POLY - TOP, 31);
  }

  lemma OddStep(half: word, c: word)
    requires half < TOP && XorWord(half, POLY) == c
    ensures Step(2 * half + 1) == c
  {
    hide Xor, Pow2, XorWord;
  }

  /** The register before a step. */
  function Unstep(c: word): (r: word)
    ensures Step(r) == c
  {
    hide Xor, Pow2, Step;
    if c < TOP then
      EvenStep(c);
      2 * c
    else
      TopFalls(c);
      XorCancel(c, POLY);
      OddStep(XorWord(c, POLY), c);
      2 * XorWord(c, POLY) + 1
  }

  lemma EvenStep(c: word)
    requires c < TOP
    ensures Step(2 * c) == c
  {
  }

  /** The register before so many steps. */
  function Unsteps(c: word, n: nat): (r: word)
    ensures Steps(r, n) == c
    decreases n
  {
    if n == 0 then c
    else
      var r := Unstep(Unsteps(c, n - 1));
      assert Step(r) == Unsteps(c, n - 1);
      r
  }

  /** The register before a message. */
  function Undivided(c: word, bits: seq<bool>): (r: word)
    ensures Divide(r, bits) == c
    decreases |bits|
  {
    if bits == [] then c
    else
      var before := Unstep(Undivided(c, bits[1..]));
      XorCancel(before, Bit(bits[0]));
      XorWord(before, Bit(bits[0]))
  }

  // ----- bits as bytes

  function Value(bits: seq<bool>): (x: nat)
    ensures x < Pow2(|bits|) && LowBits(x, |bits|) == bits
  {
    if bits == [] then 0
    else
      var high := Value(bits[1..]);
      var x := Bit(bits[0]) + 2 * high;
      assert x / 2 == high && (x % 2 == 1) == bits[0];
      x
  }

  lemma BitsOfByte(b: byte, more: seq<byte>)
    ensures MessageBits([b] + more) == LowBits(b, 8) + MessageBits(more)
  {
    hide LowBits;
    assert ([b] + more)[1..] == more;
  }

  function Packed(bits: seq<bool>): (s: seq<byte>)
    requires |bits| % 8 == 0
    ensures 8 * |s| == |bits| && MessageBits(s) == bits
  {
    if bits == [] then []
    else
      WordSize();
      var b, more := Value(bits[..8]), Packed(bits[8..]);
      BitsOfByte(b, more);
      [b] + more
  }

  /** Four bytes that take the register from one value to another. */
  function Bridge(c: word, d: word): (s: seq<byte>)
    ensures |s| == 4 && Divide(c, MessageBits(s)) == d
  {
    WordSize();
    var e := Unsteps(d, 32);
    XorAssoc(c, c, e);
    XorSelf(c);
    XorZero(e);
    var x := XorWord(c, e);
    DivideWord(c, x, 32);
    Packed(LowBits(x, 32))
  }

  lemma BridgedChecksum(pre: seq<byte>, post: seq<byte>, crc: word, target: word) returns (mid: seq<byte>)
    ensures |mid| == 4 && Checksum(pre + (mid + post), crc) == target
  {
    hide Divide, MessageBits, Xor;
    var c := Divide(crc, MessageBits(pre));
    mid := Bridge(c, Undivided(XorWord(target, ONES), MessageBits(post)));
    MessageBitsSplit(pre, mid, post);
    DivideConcat(crc, MessageBits(pre), MessageBits(mid) + MessageBits(post));
    DivideConcat(c, MessageBits(mid), MessageBits(post));
    XorCancel(target, ONES);
  }

  predicate SameAround(s: seq<byte>, t: seq<byte>, i: nat) {
    |t| == |s| && forall k | 0 <= k < |s| && !(i <= k < i + 4) :: t[k] == s[k]
  }

  /**
   Whatever a buffer holds, some choice of four given bytes of it yields any given checksum, and no other
   choice does.
   */
  lemma AnyChecksumIsReached(s: seq<byte>, i: nat, crc: word, target: word) returns (t: seq<byte>)
    requires i + 4 <= |s|
    ensures SameAround(s, t, i) && Checksum(t, crc) == target
    ensures forall u | SameAround(t, u, i) && Checksum(u, crc) == target :: u == t
  {
    hide Checksum;
    var mid := BridgedChecksum(s[..i], s[i + 4..], crc, target);
    t := s[..i] + (mid + s[i + 4..]);
    forall u | SameAround(t, u, i) && Checksum(u, crc) == target ensures u == t {
      if u != t { FourByteBurstDetected(t, u, i, crc); }
    }
  }
}
