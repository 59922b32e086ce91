/** The sizes and addresses of memory blocks with a guard page, in machine words of any width. */
module GuardPage {
  import opened Bitwise

  /** A block that is allocated, the address of its guard page, and the address given to the caller. */
  datatype Block = Overflow | Block(size: nat, guard: int, address: int)

  /** Unsigned arithmetic in words of w bits. */
  function Word(x: int, w: nat): (r: nat)
    ensures r < Pow2(w)
  {
    x % Pow2(w)
  }

  /** The complement of a word. */
  function Not(x: int, w: nat): nat
    requires 0 <= x < Pow2(w)
  {
    Pow2(w) - 1 - x
  }

  /** The size to allocate for a request: one page more, rounded up to whole pages. */
  function AllocationSize(request: nat, page: nat, w: nat): nat
    requires 0 < page <= Pow2(w)
  {
    var size := Word(request + page, w);
    And(Word(size + (page - 1), w), Not(page - 1, w))
  }

  /** Where the guard page and the caller's block lie, in memory allocated at a base. */
  function Allocate(request: nat, page: nat, w: nat, base: int, overrun: bool): Block
    requires 0 < page <= Pow2(w)
  {
    var size := AllocationSize(request, page, w);
    if size < request then Overflow
    else if overrun then Block(size, base + size - page, base + size - page - request)
    else Block(size, base, base + page)
  }

  /** The size that the request really takes. */
  function TrueSize(request: nat, page: nat): nat
    requires page > 0
  {
    (request + page + (page - 1)) / page * page
  }

  lemma Multiple(n: nat, p: nat)
    requires p > 0
    ensures n - n % p == n / p * p
  {
  }

  lemma {:induction false} Pow2Grows(k: nat, w: nat)
    requires k <= w
    ensures Pow2(k) <= Pow2(w) && Pow2(w) % Pow2(k) == 0
  {
    if k < w {
      Pow2Grows(k, w - 1);
      var d := Pow2(w - 1) / Pow2(k);
      assert Pow2(w - 1) == d * Pow2(k);
      assert Pow2(w) == (2 * d) * Pow2(k);
      DivModUnique(Pow2(w), Pow2(k), 2 * d, 0);
    } else {
      DivModUnique(Pow2(w), Pow2(k), 1, 0);
    }
  }

  /** A multiple of the page that some number reaches is reached by its rounded value as well. */
  lemma RoundedDown(n: nat, p: nat, m: nat)
    requires p > 0 && m % p == 0
    ensures n / p * p <= n < n / p * p + p
    ensures n >= m <==> n / p * p >= m
  {
    Multiple(n, p);
    Multiple(m, p);
    CompareMultiples(n / p, n % p, m / p, p);
  }

  lemma CompareMultiples(q: nat, r: nat, d: nat, p: nat)
    requires r < p
    ensures q * p + r >= d * p <==> q * p >= d * p
  {
    if q < d {
      Order(q, d, p);
    } else if d < q {
      Order(d, q, p);
    }
  }

  lemma Order(a: nat, b: nat, p: nat)
    requires a < b
    ensures a * p + p <= b * p
  {
    var c := b - a - 1;
    assert b * p == a * p + p + c * p;
  }

  lemma SmallMultiple(n: nat, p: nat)
    requires p > 0
    ensures n < p ==> n / p * p == 0
    ensures n < 2 * p ==> n / p * p <= p
  {
    if n < p {
      DivModUnique(n, p, 0, n);
    } else if n < 2 * p {
      DivModUnique(n, p, 1, n - p);
    }
  }

  /** A sum that is reduced when it does not fit. */
  function Reduced(x: nat, range: nat): nat { if x < range then x else x - range }

  lemma WordIs(x: nat, w: nat)
    requires x < 2 * Pow2(w)
    ensures Word(x, w) == Reduced(x, Pow2(w))
  {
    if x < Pow2(w) {
      DivModUnique(x, Pow2(w), 0, x);
    } else {
      DivModUnique(x, Pow2(w), 1, x - Pow2(w));
    }
  }

  /** The size that is computed, with the mask replaced by what it does. */
  lemma MaskRoundsDown(x: nat, k: nat, w: nat)
    requires k < w && x < Pow2(w)
    ensures Pow2(k) < Pow2(w) && And(x, Not(Pow2(k) - 1, w)) == x / Pow2(k) * Pow2(k)
  {
    Pow2Grows(k, w - 1);
    AndMask(x, w, k);
    Multiple(x, Pow2(k));
  }

  lemma SizeCases(request: nat, page: nat, range: nat)
    requires 0 < page && 2 * page <= range && range % page == 0 && request < range
    ensures var a := request + page;
            var n := Reduced(Reduced(a, range) + (page - 1), range) / page * page;
            var size := (a + (page - 1)) / page * page;
            if size < range then n == size > request else n < request
  {
    var a := request + page;
    var x := Reduced(Reduced(a, range) + (page - 1), range);
    RoundedDown(a + (page - 1), page, range);
    SmallMultiple(x, page);
  }

  lemma AllocationSizeIs(request: nat, k: nat, w: nat)
    requires k < w && request < Pow2(w)
    ensures Pow2(k) < Pow2(w)
    ensures var n, page := AllocationSize(request, Pow2(k), w), Pow2(k);
            var size := TrueSize(request, page);
            if size < Pow2(w) then n == size > request else n < request
  {
    hide And, Not, Pow2, Word, Reduced;
    var page, a := Pow2(k), request + Pow2(k);
    HalfTheRange(k, w);
    WordIs(a, w);
    var x := Word(a, w) + (page - 1);
    WordIs(x, w);
    MaskRoundsDown(Word(x, w), k, w);
    SizeCases(request, page, Pow2(w));
  }

  lemma HalfTheRange(k: nat, w: nat)
    requires k < w
    ensures 2 * Pow2(k) <= Pow2(w) && Pow2(w) % Pow2(k) == 0
  {
    Pow2Grows(k, w - 1);
    Pow2Grows(k, w);
  }

  /**
   Guard pages are exact. For every page size 2^k that is at most half of the range of a word,
   overflow is reported exactly when the rounded size does not fit a word. Otherwise the block lies
   within the allocation and off the guard page, and touches it from below or above.
   */
  lemma GuardPageIsExact(request: nat, k: nat, w: nat, base: int, overrun: bool)
    requires k < w && request < Pow2(w)
    ensures Pow2(k) < Pow2(w)
    ensures var page := Pow2(k);
            var r, size := Allocate(request, page, w, base, overrun), TrueSize(request, page);
            && (r == Overflow <==> size >= Pow2(w))
            && (r != Overflow ==>
                  && r.size == size && base <= r.address && r.address + request <= base + size
                  && (overrun ==> r.guard + page == base + size && r.address + request == r.guard)
                  && (!overrun ==> r.guard == base && r.address == r.guard + page))
  {
    hide AllocationSize, TrueSize;
    AllocationSizeIs(request, k, w);
    TrueSizeHolds(request, Pow2(k));
  }

  /** The rounded size holds the request and the guard page, with less than a page to spare. */
  lemma TrueSizeHolds(request: nat, page: nat)
    requires page > 0
    ensures request + page <= TrueSize(request, page) < request + page + page
    ensures TrueSize(request, page) % page == 0
  {
    var n := request + page + (page - 1);
    var d := n / page;
    assert n == d * page + n % page;
    DivModUnique(d * page, page, d, 0);
  }
}
