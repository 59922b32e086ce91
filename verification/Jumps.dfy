/** Building jump instructions, and following chains of them. */
module Jumps {
  import opened Bytes

  const INT3: byte := 0xCC
  const JMP32: byte := 0xE9
  const JMP8: byte := 0xEB
  const SIZEOF_JMP32 := 5
  const SIZEOF_JMPSEQ := 15

  function Signed16(w: nat): int { if w < 0x8000 then w else w - 0x1_0000 }
  function Signed32(w: nat): int { if w < 0x8000_0000 then w else w - 0x1_0000_0000 }

  /** The bytes of a word, lowest first. */
  function LittleEndian(w: nat): (s: seq<byte>)
    ensures |s| == 4
  {
    [w % 256, w / 0x100 % 256, w / 0x1_0000 % 256, w / 0x100_0000 % 256]
  }

  function Word(m: seq<byte>, p: nat): nat
    requires p + 4 <= |m|
  {
    m[p] as int + 0x100 * m[p + 1] as int + 0x1_0000 * m[p + 2] as int + 0x100_0000 * m[p + 3] as int
  }

  function Short(m: seq<byte>, p: nat): nat
    requires p + 2 <= |m|
  {
    m[p] as int + 0x100 * m[p + 1] as int
  }

  /** The distance to the target from the instruction behind a jump at the source. */
  function GetDisplacement(source: int, target: int): int {
    Signed32(Wrap32(target - (source + SIZEOF_JMP32)))
  }

  function JmpSequence(displacement: int): (s: seq<byte>)
    ensures |s| == SIZEOF_JMP32
  {
    [JMP32] + LittleEndian(Wrap32(displacement))
  }

  method InitializeJmpSequence(displacement: int, jmpSeq: array<byte>)
    requires jmpSeq.Length == 15
    modifies jmpSeq
    ensures jmpSeq[..SIZEOF_JMP32] == JmpSequence(displacement)
    ensures forall k | 5 <= k < 15 :: jmpSeq[k] == 0xCC
  {
    for i := 0 to SIZEOF_JMPSEQ
      invariant forall k | 0 <= k < i :: jmpSeq[k] == INT3
    {
      jmpSeq[i] := INT3;
    }
    jmpSeq[0] := JMP32;
    var offset := LittleEndian(Wrap32(displacement));
    for i := 0 to 4
      invariant jmpSeq[0] == JMP32
      invariant forall k | 0 <= k < i :: jmpSeq[k + 1] == offset[k]
      invariant forall k | SIZEOF_JMP32 <= k < SIZEOF_JMPSEQ :: jmpSeq[k] == INT3
    {
      jmpSeq[i + 1] := offset[i];
    }
  }

  // ----- following

  datatype Hop = To(address: nat) | Final | Faulted

  /** Where the instruction at p jumps to, if it is one of the four kinds of jump. */
  function NextHop(m: seq<byte>, p: nat): Hop {
    if p >= |m| then Faulted
    else if m[p] == JMP8 then
      if p + 1 >= |m| then Faulted else To(Wrap32(p + m[p + 1] + 2))
    else if m[p] == 0x66 then
      if p + 1 >= |m| then Faulted
      else if m[p + 1] != JMP32 then Final
      else if p + 4 > |m| then Faulted else To(Wrap32(p + Signed16(Short(m, p + 2)) + 4))
    else if m[p] == JMP32 then
      if p + 5 > |m| then Faulted else To(Wrap32(p + Signed32(Word(m, p + 1)) + 5))
    else if m[p] == 0xFF then
      if p + 1 >= |m| then Faulted
      else if m[p + 1] != 0x25 then Final
      else if p + 6 > |m| || Word(m, p + 2) + 4 > |m| then Faulted else To(Word(m, Word(m, p + 2)))
    else Final
  }

  function Signed8(b: byte): int { if b < 0x80 then b else b - 0x100 }

  /**
   The displacement of a short jump is not taken as signed: such a jump is followed as the processor
   takes it exactly when it leads forward.
   */
  lemma ShortJumpsLeadForward(m: seq<byte>, p: nat)
    requires p + 1 < |m| && m[p] == 0xEB
    ensures NextHop(m, p) == To(Wrap32(p + Signed8(m[p + 1]) + 2)) <==> Signed8(m[p + 1]) >= 0
  {
    if m[p + 1] >= 0x80 { OffByPage(p + m[p + 1] + 2); }
  }

  lemma OffByPage(n: int)
    ensures Wrap32(n - 0x100) == if Wrap32(n) >= 0x100 then Wrap32(n) - 0x100 else Wrap32(n) + 0xFFFF_FF00
  {
    assert n == n / 0x1_0000_0000 * 0x1_0000_0000 + Wrap32(n);
  }

  /** The address n jumps on from p. */
  function Trail(m: seq<byte>, p: nat, n: nat): Option<nat>
    decreases n
  {
    if n == 0 then Some(p)
    else match NextHop(m, p)
      case To(q) => Trail(m, q, n - 1)
      case _ => None
  }

  /** Following jumps from p never comes back to an address. */
  ghost predicate Acyclic(m: seq<byte>, p: nat) {
    forall i: nat, j: nat | i < j && Trail(m, p, j).Some? :: Trail(m, p, i) != Trail(m, p, j)
  }

  /** The first address from p on that holds no jump, at most n jumps on. */
  function Chase(m: seq<byte>, p: nat, n: nat): Option<nat>
    decreases n
  {
    match NextHop(m, p)
    case Final => Some(p)
    case Faulted => None
    case To(q) => if n == 0 then None else Chase(m, q, n - 1)
  }

  /** What following jumps arrives at; None when it reads outside memory on the way. */
  function FinalTarget(m: seq<byte>, p: nat): Option<nat> { Chase(m, p, |m|) }

  /** The source loops forever when jumps lead back to themselves. */
  method FindFinalTarget(mem: array<byte>, sourceProc: nat) returns (target: Option<nat>)
    requires Acyclic(mem[..], sourceProc)
    ensures target == FinalTarget(mem[..], sourceProc)
  {
    ghost var m, n := mem[..], 0;
    var pbCode := sourceProc;
    while true
      invariant Trail(m, sourceProc, n) == Some(pbCode)
      invariant n <= |m| && Chase(m, pbCode, |m| - n) == FinalTarget(m, sourceProc)
      decreases |m| - n
    {
      TrailIsBounded(m, sourceProc, n);
      if pbCode >= mem.Length {
        return None;
      }
      if mem[pbCode] == JMP8 {
        if pbCode + 1 >= mem.Length { return None; }
        TrailGoesOn(m, sourceProc, n);
        pbCode := Wrap32(pbCode + mem[pbCode + 1] + 2);
      } else if mem[pbCode] == 0x66 {
        if pbCode + 1 >= mem.Length { return None; }
        if mem[pbCode + 1] != JMP32 { return Some(pbCode); }
        if pbCode + 4 > mem.Length { return None; }
        TrailGoesOn(m, sourceProc, n);
        pbCode := Wrap32(pbCode + Signed16(Short(mem[..], pbCode + 2)) + 4);
      } else if mem[pbCode] == JMP32 {
        if pbCode + 5 > mem.Length { return None; }
        TrailGoesOn(m, sourceProc, n);
        pbCode := Wrap32(pbCode + Signed32(Word(mem[..], pbCode + 1)) + 5);
      } else if mem[pbCode] == 0xFF {
        if pbCode + 1 >= mem.Length { return None; }
        if mem[pbCode + 1] != 0x25 { return Some(pbCode); }
        if pbCode + 6 > mem.Length { return None; }
        var pointer := Word(mem[..], pbCode + 2);
        if pointer + 4 > mem.Length { return None; }
        TrailGoesOn(m, sourceProc, n);
        pbCode := Word(mem[..], pointer);
      } else {
        return Some(pbCode);
      }
      n := n + 1;
    }
    target := None;
  }

  lemma {:induction false} TrailGoesOn(m: seq<byte>, p: nat, n: nat)
    requires Trail(m, p, n).Some?
    ensures var q := Trail(m, p, n).value;
            Trail(m, p, n + 1) == match NextHop(m, q) case To(r) => Some(r) case _ => None
    decreases n
  {
    if n > 0 {
      TrailGoesOn(m, NextHop(m, p).address, n - 1);
    }
  }

  lemma {:induction false} TrailIsClosed(m: seq<byte>, p: nat, i: nat, n: nat)
    requires i <= n && Trail(m, p, n).Some?
    ensures Trail(m, p, i).Some?
    decreases n
  {
    if i > 0 {
      TrailIsClosed(m, NextHop(m, p).address, i - 1, n - 1);
    }
  }

  // ----- chains that end

  /** The first n addresses from p on. */
  function Visited(m: seq<byte>, p: nat, n: nat): set<nat>
    decreases n
  {
    if n == 0 then {} else Visited(m, p, n - 1) + (match Trail(m, p, n - 1) case Some(q) => {q} case None => {})
  }

  lemma {:induction false} VisitedEarlier(m: seq<byte>, p: nat, n: nat, q: nat) returns (i: nat)
    requires q in Visited(m, p, n)
    ensures i < n && Trail(m, p, i) == Some(q)
    decreases n
  {
    if q in Visited(m, p, n - 1) {
      i := VisitedEarlier(m, p, n - 1, q);
    } else {
      i := n - 1;
    }
  }

  lemma {:induction false} VisitedIs(m: seq<byte>, p: nat, n: nat)
    requires Acyclic(m, p) && Trail(m, p, n).Some?
    ensures |Visited(m, p, n)| == n && forall q | q in Visited(m, p, n) :: q < |m|
    decreases n
  {
    if n > 0 {
      TrailIsClosed(m, p, n - 1, n);
      VisitedIs(m, p, n - 1);
      TrailGoesOn(m, p, n - 1);
      var q := Trail(m, p, n - 1).value;
      if q in Visited(m, p, n - 1) {
        var i := VisitedEarlier(m, p, n - 1, q);
        assert false;
      }
    }
  }

  lemma {:induction false} SmallSet(s: set<nat>, n: nat)
    requires forall x | x in s :: x < n
    ensures |s| <= n
  {
    if n > 0 {
      SmallSet(s - {n - 1}, n - 1);
    }
  }

  /** A chain without a cycle is no longer than memory. */
  lemma TrailIsBounded(m: seq<byte>, p: nat, n: nat)
    requires Acyclic(m, p) && Trail(m, p, n).Some?
    ensures n <= |m|
    ensures NextHop(m, Trail(m, p, n).value).To? ==> n < |m|
  {
    VisitedIs(m, p, n);
    SmallSet(Visited(m, p, n), |m|);
    TrailGoesOn(m, p, n);
    if Trail(m, p, n + 1).Some? {
      VisitedIs(m, p, n + 1);
      SmallSet(Visited(m, p, n + 1), |m|);
    }
  }

  /** Following jumps from p ends after n of them. */
  predicate EndsAfter(m: seq<byte>, p: nat, n: nat) {
    Trail(m, p, n).Some? && !NextHop(m, Trail(m, p, n).value).To?
  }

  lemma {:induction false} TrailFrom(m: seq<byte>, p: nat, i: nat, j: nat)
    requires Trail(m, p, i).Some?
    ensures Trail(m, p, i + j) == Trail(m, Trail(m, p, i).value, j)
    decreases i
  {
    if i > 0 {
      TrailFrom(m, NextHop(m, p).address, i - 1, j);
    }
  }

  lemma {:induction false} EndIsLast(m: seq<byte>, p: nat, n: nat, j: nat)
    requires EndsAfter(m, p, n) && j > n
    ensures Trail(m, p, j) == None
  {
    TrailFrom(m, p, n, j - n);
  }

  /** A chain that comes back to an address goes round forever. */
  lemma {:induction false} CycleNeverEnds(m: seq<byte>, p: nat, i: nat, j: nat, n: nat)
    requires i < j && Trail(m, p, j).Some? && Trail(m, p, i) == Trail(m, p, j)
    ensures !EndsAfter(m, p, n)
    decreases n
  {
    if EndsAfter(m, p, n) {
      if n < j {
        EndIsLast(m, p, n, j);
      } else {
        TrailFrom(m, p, j, n - j);
        TrailFrom(m, p, i, n - j);
        CycleNeverEnds(m, p, i, j, i + (n - j));
      }
    }
  }

  lemma {:induction false} AcyclicEnds(m: seq<byte>, p: nat, n: nat) returns (end: nat)
    requires Acyclic(m, p) && Trail(m, p, n).Some? && n <= |m|
    ensures EndsAfter(m, p, end)
    decreases |m| - n
  {
    TrailIsBounded(m, p, n);
    TrailGoesOn(m, p, n);
    if Trail(m, p, n + 1).Some? {
      end := AcyclicEnds(m, p, n + 1);
    } else {
      end := n;
    }
  }

  /** Following jumps comes to an end exactly when they do not go round in a circle. */
  lemma ChainEndsIffAcyclic(m: seq<byte>, p: nat)
    ensures Acyclic(m, p) <==> exists n: nat :: EndsAfter(m, p, n)
  {
    if Acyclic(m, p) {
      var n := AcyclicEnds(m, p, 0);
    } else {
      var i: nat, j: nat :| i < j && Trail(m, p, j).Some? && Trail(m, p, i) == Trail(m, p, j);
      forall n: nat ensures !EndsAfter(m, p, n) {
        CycleNeverEnds(m, p, i, j, n);
      }
    }
  }

  lemma {:induction false} ChaseIs(m: seq<byte>, p: nat, end: nat, n: nat)
    requires EndsAfter(m, p, end) && end <= n
    ensures var q := Trail(m, p, end).value;
            Chase(m, p, n) == if NextHop(m, q) == Final then Some(q) else None
    decreases n
  {
    if NextHop(m, p).To? {
      assert end > 0;
      ChaseIs(m, NextHop(m, p).address, end - 1, n - 1);
    }
  }

  /** The final target is the end of the chain, and holds no jump. */
  lemma FinalTargetIs(m: seq<byte>, p: nat, end: nat)
    requires EndsAfter(m, p, end)
    ensures var q := Trail(m, p, end).value;
            FinalTarget(m, p) == if NextHop(m, q) == Final then Some(q) else None
  {
    ChainEndsIffAcyclic(m, p);
    TrailIsBounded(m, p, end);
    ChaseIs(m, p, end, |m|);
  }

  // ----- building and following

  lemma WordOfLittleEndian(m: seq<byte>, p: nat, w: nat)
    requires w < 0x1_0000_0000 && p + 4 <= |m| && m[p..p + 4] == LittleEndian(w)
    ensures Word(m, p) == w
  {
    var s := m[p..p + 4];
    assert m[p] == s[0] && m[p + 1] == s[1] && m[p + 2] == s[2] && m[p + 3] == s[3];
    assert w == w % 256 + 256 * (w / 0x100);
    assert w / 0x100 == w / 0x100 % 256 + 256 * (w / 0x1_0000);
    assert w / 0x1_0000 == w / 0x1_0000 % 256 + 256 * (w / 0x100_0000);
  }

  /** The upper half of the values of a width are the negative ones. */
  lemma SignedAre(w: nat, b: byte)
    ensures w < 0x1_0000 ==> -0x8000 <= Signed16(w) < 0x8000 && (Signed16(w) == w || Signed16(w) == w - 0x1_0000)
    ensures w < 0x1_0000_0000 ==>
              -0x8000_0000 <= Signed32(w) < 0x8000_0000 && (Signed32(w) == w || Signed32(w) == w - 0x1_0000_0000)
    ensures -0x80 <= Signed8(b) < 0x80 && (Signed8(b) == b || Signed8(b) == b - 0x100)
  {
  }

  /** A jump faults exactly if some of its bytes, or the pointer it goes through, lie outside memory. */
  lemma FaultsAre(m: seq<byte>, p: nat)
    ensures NextHop(m, p) == Faulted <==>
            || p >= |m|
            || (m[p] in {0xEB, 0x66, 0xFF} && p + 1 == |m|)
            || (m[p] == 0x66 && p + 1 < |m| && m[p + 1] == 0xE9 && p + 4 > |m|)
            || (m[p] == 0xE9 && p + 5 > |m|)
            || (m[p] == 0xFF && p + 1 < |m| && m[p + 1] == 0x25 && (p + 6 > |m| || Word(m, p + 2) + 4 > |m|))
  {
    hide Word;
  }

  /** No other instruction is followed. */
  lemma OthersAreFinal(m: seq<byte>, p: nat)
    requires p + 1 < |m|
    ensures NextHop(m, p) == Final <==>
            !(m[p] in {0xEB, 0xE9} || (m[p] == 0x66 && m[p + 1] == 0xE9) || (m[p] == 0xFF && m[p + 1] == 0x25))
  {
    hide Word;
  }

  /** FF 25 leads to what its pointer points to. */
  lemma ThunkIsFollowed(m: seq<byte>, p: nat, pointer: nat, target: nat)
    requires p + 6 <= |m| && pointer + 4 <= |m| <= WORD && target < WORD
    requires m[p..p + 6] == [0xFF, 0x25] + LittleEndian(pointer) && m[pointer..pointer + 4] == LittleEndian(target)
    ensures NextHop(m, p) == To(target)
  {
    hide LittleEndian, Word;
    assert m[p..p + 6][2..] == m[p + 2..p + 6] == LittleEndian(pointer);
    assert m[p] == m[p..p + 6][0] && m[p + 1] == m[p..p + 6][1];
    WordOfLittleEndian(m, p + 2, pointer);
    WordOfLittleEndian(m, pointer, target);
  }

  /** 66 E9 leads as far as its two bytes say, counted from behind them. */
  lemma NarrowJumpIsFollowed(m: seq<byte>, p: nat, distance: int)
    requires p + 4 <= |m| <= WORD && -0x8000 <= distance < 0x8000 && 0 <= p + 4 + distance < WORD
    requires m[p..p + 4] == [0x66, 0xE9, distance % 256, distance / 256 % 256]
    ensures NextHop(m, p) == To(p + 4 + distance)
  {
    var s := m[p..p + 4];
    assert m[p] == s[0] && m[p + 1] == s[1] && m[p + 2] == s[2] && m[p + 3] == s[3];
    assert distance == 256 * (distance / 256) + distance % 256;
  }

  lemma DisplacementIsUndone(source: nat, target: nat)
    requires source < 0x1_0000_0000 && target < 0x1_0000_0000
    ensures var w := Wrap32(target - (source + 5));
            Wrap32(Signed32(w)) == w && Wrap32(source + Signed32(w) + 5) == target
  {
    var w := Wrap32(target - (source + 5));
    assert w == target - (source + 5) || w == target - (source + 5) + 0x1_0000_0000
        || w == target - (source + 5) + 0x2_0000_0000;
  }

  /** A jump that was built for a target leads there. */
  lemma JumpLeadsToTarget(m: seq<byte>, source: nat, target: nat)
    requires source + SIZEOF_JMP32 <= |m| <= WORD && target < WORD
    requires m[source..source + SIZEOF_JMP32] == JmpSequence(GetDisplacement(source, target))
    ensures m[source] == 0xE9 && NextHop(m, source) == To(target)
  {
    hide LittleEndian, Word;
    var s := m[source..source + 5];
    var w := Wrap32(target - (source + 5));
    assert m[source] == s[0];
    assert m[source + 1..source + 5] == s[1..] == LittleEndian(w);
    DisplacementIsUndone(source, target);
    WordOfLittleEndian(m, source + 1, w);
  }

  /** The bytes that are looked at to find out where the instruction at p jumps to. */
  predicate LooksAt(m: seq<byte>, p: nat, a: nat) {
    p < |m| && (
      || a == p
      || (a == p + 1 && (m[p] == JMP8 || m[p] == 0x66 || m[p] == 0xFF))
      || (m[p] == JMP32 && p < a < p + 5)
      || (p + 1 < |m| && m[p] == 0x66 && m[p + 1] == JMP32 && p < a < p + 4)
      || (p + 6 <= |m| && m[p] == 0xFF && m[p + 1] == 0x25
          && (p < a < p + 6 || Word(m, p + 2) <= a < Word(m, p + 2) + 4)))
  }

  /** No jump on the way from p looks at any of the n bytes at a. */
  ghost predicate TrailMisses(m: seq<byte>, p: nat, a: nat, n: nat) {
    forall i: nat, b: nat | Trail(m, p, i).Some? && a <= b < a + n :: !LooksAt(m, Trail(m, p, i).value, b)
  }

  lemma HopIsUnchanged(m: seq<byte>, m': seq<byte>, p: nat)
    requires |m| == |m'| && forall a: nat | a < |m| && LooksAt(m, p, a) :: m'[a] == m[a]
    ensures NextHop(m', p) == NextHop(m, p)
  {
    if p < |m| {
      assert LooksAt(m, p, p);
      if p + 1 < |m| && LooksAt(m, p, p + 1) {
        assert m'[p + 1] == m[p + 1];
        if m[p] == JMP32 && p + 5 <= |m| {
          assert forall a | p < a < p + 5 :: LooksAt(m, p, a);
        } else if m[p] == 0x66 && m[p + 1] == JMP32 && p + 4 <= |m| {
          assert forall a | p < a < p + 4 :: LooksAt(m, p, a);
        } else if m[p] == 0xFF && m[p + 1] == 0x25 && p + 6 <= |m| {
          var w := Word(m, p + 2);
          assert forall a | p < a < p + 6 || w <= a < w + 4 :: LooksAt(m, p, a);
        }
      }
    }
  }

  lemma {:induction false} TrailIsUnchanged(m: seq<byte>, m': seq<byte>, p: nat, a: nat, n: nat, i: nat)
    requires |m| == |m'| && TrailMisses(m, p, a, n) && Trail(m, p, i).Some?
    requires forall b | 0 <= b < |m| && !(a <= b < a + n) :: m'[b] == m[b]
    ensures Trail(m', p, i) == Trail(m, p, i)
    ensures NextHop(m', Trail(m, p, i).value) == NextHop(m, Trail(m, p, i).value)
    decreases i
  {
    hide NextHop, Word, LooksAt;
    HopIsUnchanged(m, m', Trail(m, p, i).value);
    if i > 0 {
      TrailIsClosed(m, p, i - 1, i);
      TrailIsUnchanged(m, m', p, a, n, i - 1);
      TrailGoesOn(m, p, i - 1);
      TrailGoesOn(m', p, i - 1);
    }
  }

  /**
   Following undoes building. Once a jump to the target stands at the source, following from the
   source ends where following from the target always did, if writing it has not hit that chain.
   */
  lemma FollowingUndoesBuilding(m: seq<byte>, source: nat, target: nat)
    requires source + SIZEOF_JMP32 <= |m| <= WORD && target < WORD
    requires Acyclic(m, target) && TrailMisses(m, target, source, SIZEOF_JMP32)
    ensures var m' := Overwritten(m, source, JmpSequence(GetDisplacement(source, target)));
            && Acyclic(m', source)
            && FinalTarget(m', source) == FinalTarget(m', target) == FinalTarget(m, target)
  {
    hide NextHop, Word, LooksAt, LittleEndian, GetDisplacement, FinalTarget, Wrap32;
    var m' := Overwritten(m, source, JmpSequence(GetDisplacement(source, target)));
    var n := AcyclicEnds(m, target, 0);
    TrailIsUnchanged(m, m', target, source, SIZEOF_JMP32, n);
    JumpLeadsToTarget(m', source, target);
    assert EndsAfter(m', target, n);
    assert EndsAfter(m', source, n + 1);
    ChainEndsIffAcyclic(m', source);
    FinalTargetIs(m, target, n);
    FinalTargetIs(m', target, n);
    FinalTargetIs(m', source, n + 1);
  }
}
