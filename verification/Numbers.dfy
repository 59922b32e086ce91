/** Unsigned numbers in text: the parser of the decoder, and the printf forms it must undo. */
module Numbers {
  import opened Bytes

  const DEC_DIGITS := 10
  const HEX_DIGITS := 8

  /** The value of a digit; letters count only when the base is 16. */
  function Digit(ch: byte, base: nat): Option<nat> {
    if 48 <= ch <= 57 then Some(ch - 48)
    else if base == 16 && 65 <= ch <= 70 then Some(ch - 55)
    else if base == 16 && 97 <= ch <= 102 then Some(ch - 87)
    else None
  }

  const UPPER: seq<byte> := [48, 49, 50, 51, 52, 53, 54, 55, 56, 57, 65, 66, 67, 68, 69, 70]  // "0123456789ABCDEF"
  const LOWER: seq<byte> := [48, 49, 50, 51, 52, 53, 54, 55, 56, 57, 97, 98, 99, 100, 101, 102] // "0123456789abcdef"

  /** The digits are these, in either case, and no others. */
  lemma DigitsAre(ch: byte, v: nat)
    ensures Digit(ch, 10) == Some(v) <==> v < 10 && ch == UPPER[v]
    ensures Digit(ch, 16) == Some(v) <==> v < 16 && (ch == UPPER[v] || ch == LOWER[v])
  {
  }

  /** The 32-bit value of the leading digits of s, continuing from acc. */
  function Parse(s: seq<byte>, base: nat, acc: nat): nat {
    if s == [] || Digit(s[0], base) == None then acc
    else Parse(s[1..], base, Wrap32(acc * base + Digit(s[0], base).value))
  }

  /** The value of the leading digits, of whatever size. */
  function Unbounded(s: seq<byte>, base: nat, acc: nat): nat {
    if s == [] || Digit(s[0], base) == None then acc
    else Unbounded(s[1..], base, acc * base + Digit(s[0], base).value)
  }

  /** What does not fit 32 bits wraps around, no matter where on the way. */
  lemma {:induction false} ParseWraps(s: seq<byte>, base: nat, acc: nat)
    ensures Parse(s, base, acc % 0x1_0000_0000) == Unbounded(s, base, acc) % 0x1_0000_0000
  {
    if s != [] && Digit(s[0], base).Some? {
      var d := Digit(s[0], base).value;
      WrapTwice(acc, base, d);
      ParseWraps(s[1..], base, acc * base + d);
    }
  }

  lemma WrapTwice(acc: nat, base: nat, d: nat)
    ensures (acc % 0x1_0000_0000 * base + d) % 0x1_0000_0000 == (acc * base + d) % 0x1_0000_0000
  {
    var q, r := acc / 0x1_0000_0000, acc % 0x1_0000_0000;
    assert acc * base == (q * 0x1_0000_0000 + r) * base == (q * base) * 0x1_0000_0000 + r * base;
    Multiples(r * base + d, q * base);
  }

  lemma Multiples(x: nat, k: nat)
    ensures (k * 0x1_0000_0000 + x) % 0x1_0000_0000 == x % 0x1_0000_0000
  {
  }

  method StrToUint(s: seq<byte>, base: nat) returns (value: nat)
    ensures value == Parse(s, base, 0)
  {
    value := 0;
    var useHex := base == 16;
    var i := 0;
    while i < |s|
      invariant i <= |s|
      invariant Parse(s[i..], base, value) == Parse(s, base, 0)
    {
      if 48 <= s[i] <= 57 {
        value := Wrap32(value * base + (s[i] - 48));
      } else if useHex && 65 <= s[i] <= 70 {
        value := Wrap32(value * base + (s[i] - 65 + 10));
      } else if useHex && 97 <= s[i] <= 102 {
        value := Wrap32(value * base + (s[i] - 97 + 10));
      } else {
        break;
      }
      i := i + 1;
    }
  }

  /** The number at p, reading at most limit characters and none past the end of the buffer. */
  function Read(buf: seq<byte>, p: nat, limit: nat, base: nat): nat
    requires p <= |buf|
  {
    Parse(buf[p..Min(|buf|, p + limit)], base, 0)
  }

  function ReadDec(buf: seq<byte>, p: nat): nat
    requires p <= |buf|
  {
    Read(buf, p, DEC_DIGITS, 10)
  }

  function ReadHex(buf: seq<byte>, p: nat): nat
    requires p <= |buf|
  {
    Read(buf, p, HEX_DIGITS, 16)
  }

  /** Numbers are read into an unsigned word of 32 bits. */
  lemma ReadIsWord(buf: seq<byte>, p: nat, limit: nat, base: nat)
    requires p <= |buf|
    ensures Read(buf, p, limit, base) < WORD
  {
    ParseIsWord(buf[p..Min(|buf|, p + limit)], base, 0);
  }

  lemma {:induction false} ParseIsWord(s: seq<byte>, base: nat, acc: nat)
    requires acc < WORD
    ensures Parse(s, base, acc) < WORD
  {
    if s != [] && Digit(s[0], base).Some? {
      ParseIsWord(s[1..], base, Wrap32(acc * base + Digit(s[0], base).value));
    }
  }

  // ----- printing

  /** printf "%u" */
  function Dec(n: nat): (s: seq<byte>)
    ensures |s| > 0 && forall i | 0 <= i < |s| :: 48 <= s[i] <= 57
  {
    if n < 10 then [48 + n] else Dec(n / 10) + [48 + n % 10]
  }

  function HexDigit(d: nat): (b: byte)
    requires d < 16
  {
    if d < 10 then 48 + d else 87 + d
  }

  /** The k low hexadecimal digits of n; printf "%0.8lx" when k is 8. */
  function Hex(n: nat, k: nat): (s: seq<byte>)
    ensures |s| == k && forall i | 0 <= i < |s| :: 48 <= s[i] <= 57 || 97 <= s[i] <= 102
  {
    if k == 0 then [] else Hex(n / 16, k - 1) + [HexDigit(n % 16)]
  }

  function Pow(b: nat, k: nat): nat {
    if k == 0 then 1 else b * Pow(b, k - 1)
  }

  lemma {:induction false} DecLength(n: nat, k: nat)
    requires k > 0 && n < Pow(10, k)
    ensures |Dec(n)| <= k
  {
    if n >= 10 { DecLength(n / 10, k - 1); }
  }

  lemma WordHasTenDigits(n: nat)
    requires n < WORD
    ensures |Dec(n)| <= DEC_DIGITS
  {
    assert Pow(10, 10) == 10_000_000_000 by {
      assert Pow(10, 2) == 100;
      assert Pow(10, 4) == 10_000;
      assert Pow(10, 6) == 1_000_000;
      assert Pow(10, 8) == 100_000_000;
    }
    DecLength(n, 10);
  }

  // ----- parsing undoes printing

  /** One more digit that does not overflow the word. */
  lemma ParseStep(ch: byte, d: nat, rest: seq<byte>, base: nat, acc: nat)
    requires Digit(ch, base) == Some(d) && acc * base + d < WORD
    ensures Parse([ch] + rest, base, acc) == Parse(rest, base, acc * base + d)
  {
    hide Digit, Wrap32;
    var s, v := [ch] + rest, acc * base + d;
    assert s[0] == ch && s[1..] == rest;
    assert Wrap32(v) == v by { WrapsNothing(v); }
  }

  lemma WrapsNothing(v: nat)
    requires v < WORD
    ensures Wrap32(v) == v
  {
  }

  lemma {:induction false} ParseDec(n: nat, rest: seq<byte>)
    requires n < WORD
    ensures Parse(Dec(n) + rest, 10, 0) == Parse(rest, 10, n)
  {
    var d: byte := 48 + n % 10;
    if n < 10 {
      ParseStep(d, n, rest, 10, 0);
    } else {
      assert Dec(n) + rest == Dec(n / 10) + ([d] + rest);
      ParseDec(n / 10, [d] + rest);
      ParseStep(d, n % 10, rest, 10, n / 10);
    }
  }

  lemma HexOfNone(n: nat)
    requires n < Pow(16, 0)
    ensures n == 0
  {
  }

  lemma HexStep(n: nat, k: nat)
    requires k > 0 && n < Pow(16, k)
    ensures n / 16 < Pow(16, k - 1) && n == n / 16 * 16 + n % 16
    ensures Digit(HexDigit(n % 16), 16) == Some(n % 16)
  {
    assert Pow(16, k) == 16 * Pow(16, k - 1);
  }

  lemma {:induction false} ParseHex(n: nat, k: nat, rest: seq<byte>)
    requires k <= 8 && n < Pow(16, k)
    ensures Parse(Hex(n, k) + rest, 16, 0) == Parse(rest, 16, n)
  {
    hide Digit, Pow, Parse, HexDigit;
    HexBound(k);
    if k == 0 {
      HexOfNone(n);
      assert Hex(n, k) + rest == rest;
    } else {
      var d := HexDigit(n % 16);
      HexStep(n, k);
      assert Hex(n, k) + rest == Hex(n / 16, k - 1) + ([d] + rest);
      ParseHex(n / 16, k - 1, [d] + rest);
      ParseStep(d, n % 16, rest, 16, n / 16);
    }
  }

  lemma HexBound(k: nat)
    requires k <= 8
    ensures Pow(16, k) <= WORD == Pow(16, 8)
    decreases 8 - k
  {
    if k < 8 { HexBound(k + 1); }
    else {
      assert Pow(16, 2) == 0x100;
      assert Pow(16, 4) == 0x1_0000;
      assert Pow(16, 6) == 0x100_0000;
    }
  }

  /** Reading a printed number gives it back when no further digit follows it. */
  lemma ReadPrinted(buf: seq<byte>, p: nat, limit: nat, n: nat, rest: seq<byte>)
    requires p <= |buf| && n < WORD && |Dec(n)| <= limit && buf[p..] == Dec(n) + rest
    requires rest == [] || Digit(rest[0], 10) == None
    ensures Read(buf, p, limit, 10) == n
  {
    var tail := rest[..Min(|rest|, limit - |Dec(n)|)];
    assert buf[p..Min(|buf|, p + limit)] == buf[p..][..|Dec(n)| + |tail|] == Dec(n) + tail;
    ParseDec(n, tail);
  }

  lemma ReadDecPrinted(buf: seq<byte>, p: nat, n: nat, rest: seq<byte>)
    requires p <= |buf| && n < WORD && buf[p..] == Dec(n) + rest
    requires rest == [] || Digit(rest[0], 10) == None
    ensures ReadDec(buf, p) == n
  {
    WordHasTenDigits(n);
    ReadPrinted(buf, p, DEC_DIGITS, n, rest);
  }

  /** Eight printed hexadecimal digits fill the whole field, so anything may follow them. */
  lemma ReadHexPrinted(buf: seq<byte>, p: nat, n: nat, rest: seq<byte>)
    requires p <= |buf| && n < WORD && buf[p..] == Hex(n, HEX_DIGITS) + rest
    ensures ReadHex(buf, p) == n
  {
    HexBound(8);
    assert buf[p..p + HEX_DIGITS] == buf[p..][..HEX_DIGITS] == Hex(n, HEX_DIGITS);
    assert Hex(n, HEX_DIGITS) == Hex(n, HEX_DIGITS) + [];
    ParseHex(n, HEX_DIGITS, []);
  }
}
