/** Bytes, words and the characters the codec treats specially. */
module Bytes {
  type byte = x: int | 0 <= x < 256

  /** The ranges of the 32-bit and 16-bit unsigned integers of the original. */
  const WORD := 0x1_0000_0000
  const USHORT := 0x1_0000

  const NUL: byte := 0
  const LF: byte := 10
  const CR: byte := 13
  const SPACE: byte := 32
  const DQUOTE: byte := 34
  const EQUALS: byte := 61
  const YCHAR: byte := 121

  const CRLF: seq<byte> := [13, 10]

  datatype Option<+T> = None | Some(value: T)

  function Min(a: int, b: int): int { if a < b then a else b }

  function Max(a: int, b: int): int { if a < b then b else a }

  /** Conversion to an unsigned integer of 32, 16 or 8 bits. */
  function Wrap32(x: int): (w: nat)
    ensures w < 0x1_0000_0000 && (0 <= x < 0x1_0000_0000 ==> w == x)
  {
    x % 0x1_0000_0000
  }

  function Wrap16(x: int): (w: nat)
    ensures w < 0x1_0000 && (0 <= x < 0x1_0000 ==> w == x)
  {
    x % 0x1_0000
  }

  function Wrap8(x: int): (w: byte)
    ensures 0 <= x < 256 ==> w == x
  {
    x % 256
  }

  lemma ConcatAssoc<T>(a: seq<T>, b: seq<T>, c: seq<T>)
    ensures (a + b) + c == a + (b + c)
  {
  }

  lemma SliceGrows<T>(s: seq<T>, a: nat, b: nat)
    requires a <= b < |s|
    ensures s[a..b + 1] == s[a..b] + [s[b]]
  {
  }

  /** s with some bytes from position p on replaced. */
  function Overwritten(s: seq<byte>, p: nat, bytes: seq<byte>): (r: seq<byte>)
    requires p + |bytes| <= |s|
    ensures |r| == |s|
  {
    s[..p] + bytes + s[p + |bytes|..]
  }

  lemma OverwrittenTwice(s: seq<byte>, p: nat, a: seq<byte>, b: seq<byte>)
    requires p + |a| + |b| <= |s|
    ensures Overwritten(Overwritten(s, p, a), p + |a|, b) == Overwritten(s, p, a + b)
  {
  }

  lemma OverwrittenIs(s: seq<byte>, r: seq<byte>, p: nat, bytes: seq<byte>)
    requires p + |bytes| <= |s| == |r|
    requires forall k | 0 <= k < |bytes| :: r[p + k] == bytes[k]
    requires forall k | 0 <= k < |s| && !(p <= k < p + |bytes|) :: r[k] == s[k]
    ensures r == Overwritten(s, p, bytes)
  {
    forall k | p <= k < p + |bytes| ensures r[k] == Overwritten(s, p, bytes)[k] {
      assert r[p + (k - p)] == bytes[k - p];
    }
  }

  lemma OverwrittenBytes(s: seq<byte>, p: nat, bytes: seq<byte>)
    requires p + |bytes| <= |s|
    ensures var r := Overwritten(s, p, bytes);
            && r[p..p + |bytes|] == bytes
            && forall k | 0 <= k < |s| && !(p <= k < p + |bytes|) :: r[k] == s[k]
  {
  }
}
