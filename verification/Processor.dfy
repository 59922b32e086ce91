/**
 An abstract processor. It reads instructions with a decoder of its own, which has nothing to do with
 that of the relocator, and what an instruction does is arbitrary.
 */
module Processor {
  import opened Bytes
  import opened Jumps

  /** An address to go on from, and everything else that instructions read and write. */
  datatype Machine<S> = Machine(pc: nat, state: S)

  /**
   length: the length of the instruction at the start of some bytes, if there is one.
   run: what an instruction does, given its bytes, its address and the state.
   */
  datatype Cpu<!S> = Cpu(length: seq<byte> -> Option<nat>, run: (seq<byte>, nat, S) -> Machine<S>)

  /** The length of the instruction at p, which must lie in memory. */
  function Extent<S>(cpu: Cpu<S>, m: seq<byte>, p: nat): (r: Option<nat>)
    ensures r.Some? ==> 0 < r.value <= |m| - p
  {
    if p >= |m| then None
    else match cpu.length(m[p..])
      case Some(n) => if 0 < n <= |m| - p then Some(n) else None
      case None => None
  }

  function Step<S>(cpu: Cpu<S>, m: seq<byte>, x: Machine<S>): Option<Machine<S>> {
    match Extent(cpu, m, x.pc)
    case None => None
    case Some(n) => Some(cpu.run(m[x.pc..x.pc + n], x.pc, x.state))
  }

  function Run<S>(cpu: Cpu<S>, m: seq<byte>, x: Machine<S>, k: nat): Option<Machine<S>>
    decreases k
  {
    if k == 0 then Some(x)
    else match Step(cpu, m, x)
      case None => None
      case Some(y) => Run(cpu, m, y, k - 1)
  }

  // ----- what is asked of a processor

  /** If b begins with the instruction that a begins with, that instruction has the same length there. */
  predicate Delimited<S>(cpu: Cpu<S>, a: seq<byte>, b: seq<byte>) {
    match cpu.length(a)
    case None => true
    case Some(n) => n <= |a| && n <= |b| && a[..n] == b[..n] ==> cpu.length(b) == Some(n)
  }

  /** The length of an instruction depends on its own bytes only. */
  ghost predicate SelfDelimiting<S>(cpu: Cpu<S>) { forall a, b :: Delimited(cpu, a, b) }

  /** The jump E9 is known to have five bytes, to go where it says and to change nothing else. */
  ghost predicate KnowsJmp<S(!new)>(cpu: Cpu<S>) {
    forall b: seq<byte> | |b| == 5 && b[0] == 0xE9 ::
      && cpu.length(b) == Some(5)
      && forall pc: nat, s: S :: cpu.run(b, pc, s) == Machine(Wrap32(pc + Signed32(Word(b, 1)) + 5), s)
  }

  /** An instruction after which the next one in memory is executed. */
  ghost predicate FallsThrough<S(!new)>(cpu: Cpu<S>, bytes: seq<byte>) {
    forall pc: nat, s: S :: cpu.run(bytes, pc, s).pc == pc + |bytes|
  }

  /** An instruction that does the same at every address. */
  ghost predicate IgnoresPlace<S(!new)>(cpu: Cpu<S>, bytes: seq<byte>) {
    forall pc: nat, q: nat, s: S :: cpu.run(bytes, pc, s).state == cpu.run(bytes, q, s).state
  }

  /** Every instruction that the processor meets in the n bytes from p falls through and ignores its place. */
  ghost predicate StraightFrom<S(!new)>(cpu: Cpu<S>, m: seq<byte>, p: nat, n: nat)
    decreases n
  {
    n == 0 ||
    match Extent(cpu, m, p)
    case None => false
    case Some(k) =>
      && FallsThrough(cpu, m[p..p + k]) && IgnoresPlace(cpu, m[p..p + k])
      && (k < n ==> StraightFrom(cpu, m, p + k, n - k))
  }

  /** The n bytes from p are whole instructions of the processor. */
  predicate Covers<S>(cpu: Cpu<S>, m: seq<byte>, p: nat, n: nat)
    decreases n
  {
    n == 0 ||
    match Extent(cpu, m, p)
    case None => false
    case Some(k) => k <= n && Covers(cpu, m, p + k, n - k)
  }

  /** How many. */
  function Count<S>(cpu: Cpu<S>, m: seq<byte>, p: nat, n: nat): nat
    requires Covers(cpu, m, p, n)
    decreases n
  {
    if n == 0 then 0 else 1 + Count(cpu, m, p + Extent(cpu, m, p).value, n - Extent(cpu, m, p).value)
  }

  // ----- code in another place

  lemma ExtentMoves<S(!new)>(cpu: Cpu<S>, m: seq<byte>, p: nat, m': seq<byte>, q: nat, n: nat)
    requires SelfDelimiting(cpu) && Extent(cpu, m, p) == Some(n)
    requires q + n <= |m'| && m'[q..q + n] == m[p..p + n]
    ensures Extent(cpu, m', q) == Some(n)
  {
    assert m[p..][..n] == m[p..p + n] && m'[q..][..n] == m'[q..q + n];
    assert Delimited(cpu, m[p..], m'[q..]);
  }

  lemma SliceInTwo(m: seq<byte>, p: nat, n: nat, k: nat)
    requires k <= n && p + n <= |m|
    ensures m[p..p + k] == m[p..p + n][..k] && m[p + k..p + n] == m[p..p + n][k..]
  {
    var s, a, b := m[p..p + n], m[p..p + k], m[p + k..p + n];
    assert forall i | 0 <= i < k :: a[i] == s[i];
    assert forall i | 0 <= i < n - k :: b[i] == s[k + i];
  }

  lemma SliceOfSlice(m: seq<byte>, p: nat, m': seq<byte>, q: nat, n: nat, k: nat)
    requires k <= n && p + n <= |m| && q + n <= |m'| && m'[q..q + n] == m[p..p + n]
    ensures m'[q..q + k] == m[p..p + k] && m'[q + k..q + n] == m[p + k..p + n]
  {
    SliceInTwo(m, p, n, k);
    SliceInTwo(m', q, n, k);
  }

  /** Straight code that was copied whole arrives behind its copy in the state of the original. */
  lemma {:induction false} CopyKeepsStep<S(!new)>(
    cpu: Cpu<S>, m: seq<byte>, p: nat, m': seq<byte>, q: nat, n: nat, s: S)
    requires SelfDelimiting(cpu) && Covers(cpu, m, p, n) && StraightFrom(cpu, m, p, n)
    requires p + n <= |m| && q + n <= |m'| && m'[q..q + n] == m[p..p + n]
    ensures var k := Count(cpu, m, p, n);
            var r := Run(cpu, m, Machine(p, s), k);
            r.Some? && r.value.pc == p + n && Run(cpu, m', Machine(q, s), k) == Some(Machine(q + n, r.value.state))
    decreases n
  {
    hide SelfDelimiting, Extent;
    if n > 0 {
      var k := Extent(cpu, m, p).value;
      SliceOfSlice(m, p, m', q, n, k);
      ExtentMoves(cpu, m, p, m', q, k);
      var bytes := m[p..p + k];
      assert cpu.run(bytes, p, s).pc == p + |bytes| && cpu.run(bytes, q, s).pc == q + |bytes|;
      assert cpu.run(bytes, p, s).state == cpu.run(bytes, q, s).state;
      CopyKeepsStep(cpu, m, p + k, m', q + k, n - k, cpu.run(bytes, p, s).state);
    }
  }

  /** On the way, code stays within the n bytes. */
  lemma {:induction false} StaysWithin<S(!new)>(cpu: Cpu<S>, m: seq<byte>, p: nat, n: nat, s: S, j: nat)
    requires Covers(cpu, m, p, n) && StraightFrom(cpu, m, p, n) && j < Count(cpu, m, p, n)
    ensures var r := Run(cpu, m, Machine(p, s), j); r.Some? && p <= r.value.pc < p + n
    decreases n
  {
    hide Extent;
    if j > 0 {
      var k := Extent(cpu, m, p).value;
      var bytes := m[p..p + k];
      assert cpu.run(bytes, p, s).pc == p + |bytes|;
      StaysWithin(cpu, m, p + k, n - k, cpu.run(bytes, p, s).state, j - 1);
    }
  }

  /** A copy of whole instructions that is straight code is made of as many of them, and is straight too. */
  lemma {:induction false} CopyIsStraight<S(!new)>(cpu: Cpu<S>, m: seq<byte>, p: nat, m': seq<byte>, q: nat, n: nat)
    requires SelfDelimiting(cpu) && Covers(cpu, m, p, n) && StraightFrom(cpu, m, p, n)
    requires p + n <= |m| && q + n <= |m'| && m'[q..q + n] == m[p..p + n]
    ensures Covers(cpu, m', q, n) && StraightFrom(cpu, m', q, n) && Count(cpu, m', q, n) == Count(cpu, m, p, n)
    decreases n
  {
    hide SelfDelimiting, Extent, FallsThrough, IgnoresPlace;
    if n > 0 {
      var k := Extent(cpu, m, p).value;
      SliceOfSlice(m, p, m', q, n, k);
      ExtentMoves(cpu, m, p, m', q, k);
      CopyIsStraight(cpu, m, p + k, m', q + k, n - k);
    }
  }

  /** How many of the n bytes from p are whole instructions. */
  function Whole<S>(cpu: Cpu<S>, m: seq<byte>, p: nat, n: nat): (b: nat)
    ensures b <= n && Covers(cpu, m, p, b) && (b == n <==> Covers(cpu, m, p, n))
    decreases n
  {
    if n == 0 then 0
    else match Extent(cpu, m, p)
      case Some(k) => if k <= n then k + Whole(cpu, m, p + k, n - k) else 0
      case None => 0
  }

  /** Behind the whole instructions straight code has one that ends behind the n bytes, if any bytes are left. */
  lemma {:induction false} CutInstruction<S(!new)>(cpu: Cpu<S>, m: seq<byte>, p: nat, n: nat)
    requires StraightFrom(cpu, m, p, n)
    ensures var b := Whole(cpu, m, p, n);
            && StraightFrom(cpu, m, p, b) && StraightFrom(cpu, m, p + b, n - b)
            && (b < n ==> Extent(cpu, m, p + b).Some? && b + Extent(cpu, m, p + b).value > n)
    decreases n
  {
    hide Extent, FallsThrough, IgnoresPlace;
    if n > 0 && Extent(cpu, m, p).value <= n {
      CutInstruction(cpu, m, p + Extent(cpu, m, p).value, n - Extent(cpu, m, p).value);
    }
  }

  lemma {:induction false} RunGoesOn<S>(cpu: Cpu<S>, m: seq<byte>, x: Machine<S>, k: nat, y: Machine<S>)
    requires Run(cpu, m, x, k) == Some(y)
    ensures Run(cpu, m, x, k + 1) == Step(cpu, m, y)
    decreases k
  {
    hide Step;
    if k == 0 {
      var z := Step(cpu, m, x);
      if z.Some? { assert Run(cpu, m, z.value, 0) == z; }
    } else {
      RunGoesOn(cpu, m, Step(cpu, m, x).value, k - 1, y);
    }
  }

  /** The k first instructions of code from p lie within n bytes, and it then arrives behind these. */
  predicate Passes<S>(cpu: Cpu<S>, m: seq<byte>, p: nat, n: nat, s: S, k: nat) {
    && Run(cpu, m, Machine(p, s), k).Some? && Run(cpu, m, Machine(p, s), k).value.pc == p + n
    && forall j: nat | j < k ::
         Run(cpu, m, Machine(p, s), j).Some? && p <= Run(cpu, m, Machine(p, s), j).value.pc < p + n
  }

  predicate StepLeaves<S>(cpu: Cpu<S>, m: seq<byte>, p: nat, n: nat, b: nat, s: S) {
    match Step(cpu, m, Machine(p + b, s))
    case None => true
    case Some(y) => !(p <= y.pc <= p + n)
  }

  /** What begins at p + b leads neither to the n bytes from p nor to the place right behind them. */
  ghost predicate Leaves<S(!new)>(cpu: Cpu<S>, m: seq<byte>, p: nat, n: nat, b: nat) {
    forall s: S :: StepLeaves(cpu, m, p, n, b, s)
  }

  /** An instruction that falls through and ends behind the n bytes leaves them. */
  lemma FallingLeaves<S(!new)>(cpu: Cpu<S>, m: seq<byte>, p: nat, n: nat, b: nat)
    requires match Extent(cpu, m, p + b)
             case None => true
             case Some(e) => b + e > n && FallsThrough(cpu, m[p + b..p + b + e])
    ensures Leaves(cpu, m, p, n, b)
  {
    hide Extent;
    match Extent(cpu, m, p + b)
    case None =>
    case Some(e) =>
      forall s: S ensures StepLeaves(cpu, m, p, n, b, s) {
        assert cpu.run(m[p + b..p + b + e], p + b, s).pc == p + b + |m[p + b..p + b + e]|;
      }
  }

  /** Code that arrives at an instruction which leaves the n bytes does not pass them. */
  lemma LeavingNeverPasses<S(!new)>(cpu: Cpu<S>, m: seq<byte>, p: nat, n: nat, b: nat, s: S, j: nat, y: S, k: nat)
    requires b < n && Leaves(cpu, m, p, n, b) && Run(cpu, m, Machine(p, s), j) == Some(Machine(p + b, y))
    requires forall i: nat | i < j :: Run(cpu, m, Machine(p, s), i).Some? && Run(cpu, m, Machine(p, s), i).value.pc < p + n
    ensures !Passes(cpu, m, p, n, s, k)
  {
    hide Step;
    assert StepLeaves(cpu, m, p, n, b, y);
    if k > j {
      RunGoesOn(cpu, m, Machine(p, s), j, Machine(p + b, y));
    }
  }

  lemma {:induction false} ArrivesBehind<S(!new)>(cpu: Cpu<S>, m: seq<byte>, p: nat, n: nat, s: S)
    requires Covers(cpu, m, p, n) && StraightFrom(cpu, m, p, n)
    ensures var r := Run(cpu, m, Machine(p, s), Count(cpu, m, p, n)); r.Some? && r.value.pc == p + n
    decreases n
  {
    hide Extent;
    if n > 0 {
      var k := Extent(cpu, m, p).value;
      var bytes := m[p..p + k];
      assert cpu.run(bytes, p, s).pc == p + |bytes|;
      ArrivesBehind(cpu, m, p + k, n - k, cpu.run(bytes, p, s).state);
    }
  }

  /** Straight code passes n bytes only if they are whole instructions. */
  lemma PassingCovers<S(!new)>(cpu: Cpu<S>, m: seq<byte>, p: nat, n: nat, s: S, k: nat)
    requires StraightFrom(cpu, m, p, n) && Passes(cpu, m, p, n, s, k)
    ensures Covers(cpu, m, p, n)
  {
    hide Extent, Run, Passes, StepLeaves;
    var b := Whole(cpu, m, p, n);
    CutInstruction(cpu, m, p, n);
    if b < n {
      FallingLeaves(cpu, m, p, n, b);
      ArrivesBehind(cpu, m, p, b, s);
      var j := Count(cpu, m, p, b);
      forall i: nat | i < j ensures Run(cpu, m, Machine(p, s), i).Some? && Run(cpu, m, Machine(p, s), i).value.pc < p + n {
        StaysWithin(cpu, m, p, b, s, i);
      }
      LeavingNeverPasses(cpu, m, p, n, b, s, j, Run(cpu, m, Machine(p, s), j).value.state, k);
    }
  }

  /** A copy of whole instructions stays within it until it arrives behind, in the state of the original. */
  lemma CopyArrives<S(!new)>(cpu: Cpu<S>, m: seq<byte>, p: nat, m': seq<byte>, q: nat, b: nat, s: S)
    requires SelfDelimiting(cpu) && Covers(cpu, m, p, b) && StraightFrom(cpu, m, p, b)
    requires p + b <= |m| && q + b <= |m'| && m'[q..q + b] == m[p..p + b]
    ensures var k := Count(cpu, m, p, b);
            var r := Run(cpu, m, Machine(p, s), k);
            && r.Some? && r.value.pc == p + b && Run(cpu, m', Machine(q, s), k) == Some(Machine(q + b, r.value.state))
            && forall j: nat | j < k ::
                 Run(cpu, m', Machine(q, s), j).Some? && q <= Run(cpu, m', Machine(q, s), j).value.pc < q + b
  {
    hide SelfDelimiting, Extent, Run, Step, StraightFrom, Covers, Count;
    CopyKeepsStep(cpu, m, p, m', q, b, s);
    CopyIsStraight(cpu, m, p, m', q, b);
    forall j: nat | j < Count(cpu, m, p, b)
      ensures Run(cpu, m', Machine(q, s), j).Some? && q <= Run(cpu, m', Machine(q, s), j).value.pc < q + b
    {
      StaysWithin(cpu, m', q, b, s, j);
    }
  }

  /** What follows the whole instructions in a copy is never an instruction that lies within the copy. */
  lemma CutReachesBehind<S(!new)>(cpu: Cpu<S>, m: seq<byte>, p: nat, m': seq<byte>, q: nat, n: nat)
    requires SelfDelimiting(cpu) && StraightFrom(cpu, m, p, n) && Whole(cpu, m, p, n) < n
    requires p + n <= |m| && q + n <= |m'| && m'[q..q + n] == m[p..p + n]
    ensures var b := Whole(cpu, m, p, n);
            match Extent(cpu, m', q + b) case None => true case Some(e) => b + e > n
  {
    hide SelfDelimiting, Extent, StraightFrom, Covers;
    var b := Whole(cpu, m, p, n);
    CutInstruction(cpu, m, p, n);
    SliceOfSlice(m, p, m', q, n, b);
    match Extent(cpu, m', q + b)
    case None =>
    case Some(e) =>
      if b + e <= n {
        SliceOfSlice(m, p + b, m', q + b, n - b, e);
        ExtentMoves(cpu, m', q + b, m, p + b, e);
      }
  }
}
