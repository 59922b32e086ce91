/** Bitwise operators on unsigned words, written out bit by bit so that they reason like arithmetic. */
module Bitwise {
  function Pow2(k: nat): (p: nat)
    ensures p > 0
  {
    if k == 0 then 1 else 2 * Pow2(k - 1)
  }

  /** a ^ b */
  function Xor(a: nat, b: nat): nat
    decreases a + b
  {
    if a == 0 && b == 0 then 0 else (a + b) % 2 + 2 * Xor(a / 2, b / 2)
  }

  /** a & b */
  function And(a: nat, b: nat): nat
    decreases a + b
  {
    if a == 0 || b == 0 then 0 else (a % 2) * (b % 2) + 2 * And(a / 2, b / 2)
  }

  lemma XorHalf(a: nat, b: nat)
    ensures Xor(a, b) == (a + b) % 2 + 2 * Xor(a / 2, b / 2)
    ensures Xor(a, b) % 2 == (a + b) % 2 && Xor(a, b) / 2 == Xor(a / 2, b / 2)
  {
    var h := Xor(a / 2, b / 2);
    assert Xor(a, b) == (a + b) % 2 + 2 * h by {
      if a == 0 && b == 0 {}
    }
    Halve(Xor(a, b), (a + b) % 2, h);
  }

  lemma Halve(x: nat, d: nat, h: nat)
    requires x == d + 2 * h && d < 2
    ensures x % 2 == d && x / 2 == h
  {
  }

  lemma SameHalves(a: nat, b: nat, c: nat, x: nat, y: nat, r: nat, s: nat)
    requires x % 2 == (a + b) % 2 && y % 2 == (b + c) % 2
    requires r % 2 == (x + c) % 2 && s % 2 == (a + y) % 2 && r / 2 == s / 2
    ensures r == s
  {
  }

  lemma {:induction false} XorComm(a: nat, b: nat)
    ensures Xor(a, b) == Xor(b, a)
    decreases a + b
  {
    if a != 0 || b != 0 { XorComm(a / 2, b / 2); }
  }

  lemma {:induction false} XorZero(a: nat)
    ensures Xor(a, 0) == a == Xor(0, a)
  {
    if a != 0 { XorZero(a / 2); }
  }

  lemma {:induction false} XorSelf(a: nat)
    ensures Xor(a, a) == 0
  {
    if a != 0 { XorSelf(a / 2); }
  }

  lemma AssocHalf(a: nat, b: nat, c: nat)
    requires Xor(Xor(a / 2, b / 2), c / 2) == Xor(a / 2, Xor(b / 2, c / 2))
    ensures Xor(Xor(a, b), c) == Xor(a, Xor(b, c))
  {
    var x, y := Xor(a, b), Xor(b, c);
    XorHalf(a, b);
    XorHalf(b, c);
    XorHalf(x, c);
    XorHalf(a, y);
    SameHalves(a, b, c, x, y, Xor(x, c), Xor(a, y));
  }

  lemma {:induction false} XorAssoc(a: nat, b: nat, c: nat)
    ensures Xor(Xor(a, b), c) == Xor(a, Xor(b, c))
    decreases a + b + c
  {
    if a != 0 || b != 0 || c != 0 {
      XorAssoc(a / 2, b / 2, c / 2);
      AssocHalf(a, b, c);
    }
  }

  lemma XorCancel(a: nat, b: nat)
    ensures Xor(Xor(a, b), b) == a
  {
    XorAssoc(a, b, b);
    XorSelf(b);
    XorZero(a);
  }

  lemma XorSwap(a: nat, b: nat, p: nat, q: nat)
    ensures Xor(Xor(a, p), Xor(b, q)) == Xor(Xor(a, b), Xor(p, q))
  {
    XorAssoc(a, p, Xor(b, q));
    XorAssoc(p, b, q);
    XorComm(p, b);
    XorAssoc(b, p, q);
    XorAssoc(a, b, Xor(p, q));
  }

  /** Bits that do not overlap are added. */
  lemma {:induction false} XorDisjoint(m: nat, low: nat, k: nat)
    requires low < Pow2(k)
    ensures Xor(m * Pow2(k), low) == m * Pow2(k) + low
  {
    if k == 0 {
      XorZero(m);
    } else {
      XorDisjoint(m, low / 2, k - 1);
      MulPow2(m, k);
      DisjointHalf(m * Pow2(k - 1), m * Pow2(k), low);
    }
  }

  lemma MulPow2(m: nat, k: nat)
    requires k > 0
    ensures m * Pow2(k) == 2 * (m * Pow2(k - 1))
  {
    assert Pow2(k) == 2 * Pow2(k - 1);
  }

  lemma DisjointHalf(g: nat, h: nat, low: nat)
    requires h == 2 * g && Xor(g, low / 2) == g + low / 2
    ensures Xor(h, low) == h + low
  {
    XorHalf(h, low);
    Halve(h, 0, g);
  }

  lemma {:induction false} XorBound(a: nat, b: nat, k: nat)
    requires a < Pow2(k) && b < Pow2(k)
    ensures Xor(a, b) < Pow2(k)
  {
    if k > 0 { XorBound(a / 2, b / 2, k - 1); }
  }

  /** The highest bit of one operand survives when the other lies below it. */
  lemma {:induction false} XorTop(a: nat, b: nat, k: nat)
    requires a < Pow2(k) <= b
    ensures Xor(a, b) >= Pow2(k)
  {
    if k > 0 {
      XorTop(a / 2, b / 2, k - 1);
    } else {
      XorZero(b);
    }
  }

  /** Masking with the complement of 2^k - 1 in a w-bit word clears the k low bits. */
  lemma {:induction false} AndMask(x: nat, w: nat, k: nat)
    requires k <= w && x < Pow2(w)
    ensures Pow2(k) <= Pow2(w) && And(x, Pow2(w) - Pow2(k)) == x - x % Pow2(k)
  {
    if k == 0 {
      AndAllOnes(x, w);
    } else {
      AndMask(x / 2, w - 1, k - 1);
      var p, q := Pow2(k - 1), Pow2(w - 1);
      ModDouble(x, p);
      if x != 0 && q != p {
        assert (2 * q - 2 * p) / 2 == q - p;
      }
    }
  }

  lemma ModDouble(x: nat, p: nat)
    requires p > 0
    ensures x % (2 * p) == 2 * ((x / 2) % p) + x % 2
  {
    var d, m := (x / 2) / p, (x / 2) % p;
    assert x / 2 == d * p + m;
    assert x == d * (2 * p) + (2 * m + x % 2);
    DivModUnique(x, 2 * p, d, 2 * m + x % 2);
  }

  lemma Within(e: int, p: int)
    requires p > 0
    ensures -p < e * p < p ==> e == 0
  {
    if e >= 1 { assert e * p >= p; }
    if e <= -1 { assert e * p <= -p; }
  }

  lemma DivModUnique(x: nat, p: nat, d: nat, r: nat)
    requires p > 0 && x == d * p + r && r < p
    ensures x / p == d && x % p == r
  {
    var e := x / p - d;
    assert e * p == r - x % p;
    Within(e, p);
  }

  lemma {:induction false} AndAllOnes(x: nat, w: nat)
    requires x < Pow2(w)
    ensures And(x, Pow2(w) - 1) == x
  {
    if w > 0 && x > 0 {
      AndAllOnes(x / 2, w - 1);
      assert (2 * Pow2(w - 1) - 1) / 2 == Pow2(w - 1) - 1;
    }
  }
}
