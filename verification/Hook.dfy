/**
 Installing a hook: the first instructions of a procedure move to a callgate, a jump back is put
 behind them, and a jump to the hook procedure takes their place.
 */
module Hook {
  import opened Bytes
  import opened Jumps
  import opened Relocation
  import opened X86

  const SIZEOF_JMP64 := 15

  /** Memory with n bytes of INT3 at p. */
  function Filled(m: seq<byte>, p: nat, n: nat): (r: seq<byte>)
    requires p + n <= |m|
    ensures |r| == |m|
  {
    Overwritten(m, p, seq(n, _ => INT3))
  }

  /** Protection is changed successfully wherever there is memory. */
  predicate Mapped(m: seq<byte>, p: nat, n: nat) { p + n <= |m| }

  /** The callgate: the instructions that were copied, and a jump to the rest of the procedure. */
  function CallgateBuilt(m: seq<byte>, t: Tables, source: nat, gate: nat, cbCallgate: nat): (r: Result)
    ensures |r.memory| == |m| && (r.outcome == Ok ==> SIZEOF_JMP32 <= r.actual && source + r.actual <= |m|)
  {
    if !Mapped(m, gate, cbCallgate) then Result(AccessViolation, 0, m)
    else
      var r := Relocated(m, t, source, gate, Wrap32(cbCallgate - SIZEOF_JMP64), SIZEOF_JMP32, 0);
      var n := r.actual;
      if r.outcome != Ok then r
      else if gate + n + SIZEOF_JMP32 > |m| then Result(AccessViolation, 0, r.memory)
      else
        var m' := Overwritten(r.memory, gate + n, JmpSequence(GetDisplacement(gate + n, source + n)));
        Result(if Mapped(m, gate, n + SIZEOF_JMP64) then Ok else AccessViolation, n, m')
  }

  /** The procedure: a jump to the hook, and INT3 in place of what else was copied. */
  function SourcePatched(m: seq<byte>, source: nat, hook: nat, n: nat): (r: seq<byte>)
    requires source + n <= |m| && SIZEOF_JMP32 <= n
    ensures |r| == |m|
  {
    Filled(Overwritten(m, source, JmpSequence(GetDisplacement(source, hook))), source + SIZEOF_JMP32, n - SIZEOF_JMP32)
  }

  function Hooked(m: seq<byte>, t: Tables, source: nat, gate: nat, cbCallgate: nat, hook: nat): Result {
    var r := CallgateBuilt(m, t, source, gate, cbCallgate);
    if r.outcome != Ok then r
    else r.(memory := SourcePatched(r.memory, source, hook, r.actual))
  }

  function Installed(m: seq<byte>, t: Tables, sourceProc: nat, callgate: nat, cbCallgate: nat, hookProc: nat): Result {
    if cbCallgate <= SIZEOF_JMP32 then Result(InsufficientBuffer, 0, m)
    else match (FinalTarget(m, sourceProc), FinalTarget(m, callgate), FinalTarget(m, hookProc))
      case (Some(source), Some(gate), Some(hook)) => Hooked(m, t, source, gate, cbCallgate, hook)
      case _ => Result(AccessViolation, 0, m)
  }

  method WriteJmp(mem: array<byte>, p: nat, displacement: int)
    requires p + SIZEOF_JMP32 <= mem.Length
    modifies mem
    ensures mem[..] == Overwritten(old(mem[..]), p, JmpSequence(displacement))
  {
    var jmpSeq := new byte[SIZEOF_JMPSEQ];
    InitializeJmpSequence(displacement, jmpSeq);
    Patch(mem, p, jmpSeq[..SIZEOF_JMP32]);
  }

  method BuildCallgate(mem: array<byte>, t: Tables, source: nat, gate: nat, cbCallgate: nat)
    returns (outcome: Outcome, actual: nat)
    modifies mem
    ensures Result(outcome, actual, mem[..]) == CallgateBuilt(old(mem[..]), t, source, gate, cbCallgate)
  {
    hide Relocated, Overwritten, JmpSequence, GetDisplacement;
    if gate + cbCallgate > mem.Length {
      return AccessViolation, 0;
    }
    outcome, actual := RelocateInstructionStream(mem, t, source, gate, Wrap32(cbCallgate - SIZEOF_JMP64), SIZEOF_JMP32);
    if outcome != Ok {
      return;
    }
    if gate + actual + SIZEOF_JMP32 > mem.Length {
      return AccessViolation, 0;
    }
    WriteJmp(mem, gate + actual, GetDisplacement(gate + actual, source + actual));
    if gate + actual + SIZEOF_JMP64 > mem.Length {
      outcome := AccessViolation;
    }
  }

  method InstallProcedureHook(
    mem: array<byte>, t: Tables, sourceProc: nat, callgate: nat, cbCallgate: nat, hookProc: nat)
    returns (outcome: Outcome, actual: nat)
    requires Acyclic(mem[..], sourceProc) && Acyclic(mem[..], callgate) && Acyclic(mem[..], hookProc)
    modifies mem
    ensures Result(outcome, actual, mem[..]) == Installed(old(mem[..]), t, sourceProc, callgate, cbCallgate, hookProc)
  {
    hide CallgateBuilt, Overwritten, JmpSequence, GetDisplacement, FinalTarget, Trail, Acyclic;
    if cbCallgate <= SIZEOF_JMP32 {
      return InsufficientBuffer, 0;
    }
    var source := FindFinalTarget(mem, sourceProc);
    var gate := FindFinalTarget(mem, callgate);
    var hook := FindFinalTarget(mem, hookProc);
    if source == None || gate == None || hook == None {
      return AccessViolation, 0;
    }
    var cbOffsetToTarget := GetDisplacement(source.value, hook.value);
    outcome, actual := BuildCallgate(mem, t, source.value, gate.value, cbCallgate);
    if outcome != Ok {
      return;
    }
    WriteJmp(mem, source.value, cbOffsetToTarget);
    Patch(mem, source.value + SIZEOF_JMP32, seq(actual - SIZEOF_JMP32, _ => INT3));
  }

  // ----- what memory holds afterwards

  /** n bytes of the callgate and as many of the procedure do not overlap. */
  predicate Disjoint(source: nat, gate: nat, n: nat) {
    source + n <= gate || gate + n <= source
  }

  /** The memory after a successful installation, piece by piece. */
  predicate Layout(m: seq<byte>, m': seq<byte>, source: nat, gate: nat, hook: nat, n: nat) {
    && |m'| == |m| && SIZEOF_JMP32 <= n && source + n <= |m| && gate + n + SIZEOF_JMP32 <= |m|
    && Same(m, source, source + n, m', gate - source)
    && m'[gate + n..gate + n + SIZEOF_JMP32] == JmpSequence(GetDisplacement(gate + n, source + n))
    && m'[source..source + SIZEOF_JMP32] == JmpSequence(GetDisplacement(source, hook))
    && (forall a | source + SIZEOF_JMP32 <= a < source + n :: m'[a] == 0xCC)
    && (forall a | 0 <= a < |m| && !(source <= a < source + n) && !(gate <= a < gate + n + SIZEOF_JMP32) :: m'[a] == m[a])
  }

  lemma UntouchedSlice(m: seq<byte>, m': seq<byte>, p: nat, n: nat)
    requires |m| == |m'| && p + n <= |m| && forall a | p <= a < p + n :: m'[a] == m[a]
    ensures m'[p..p + n] == m[p..p + n]
  {
  }

  /** The callgate after it was built. */
  lemma CallgateIs(m: seq<byte>, t: Tables, source: nat, gate: nat, cbCallgate: nat) returns (count: nat)
    requires SIZEOF_JMP32 < cbCallgate < WORD && CallgateBuilt(m, t, source, gate, cbCallgate).outcome == Ok
    requires var n := CallgateBuilt(m, t, source, gate, cbCallgate).actual;
             Disjoint(source, gate, n + SIZEOF_JMP32) && MovesFreely(m, t, source, n)
    ensures var r := CallgateBuilt(m, t, source, gate, cbCallgate);
            var m', n := r.memory, r.actual;
            && n <= Wrap32(cbCallgate - SIZEOF_JMP64)
            && SIZEOF_JMP32 <= n && source + n <= |m| && gate + n + SIZEOF_JMP32 <= |m|
            && FirstBoundary(m, t, source, SIZEOF_JMP32, n, count)
            && m' == Overwritten(Copied(m, gate, source, n), gate + n, JmpSequence(GetDisplacement(gate + n, source + n)))
  {
    hide Relocated, FirstBoundary, Copied, Overwritten, JmpSequence;
    count := WholeInstructionsAreCopied(m, t, source, gate, Wrap32(cbCallgate - SIZEOF_JMP64), SIZEOF_JMP32, 0);
  }

  lemma LayoutIs(m: seq<byte>, source: nat, gate: nat, hook: nat, n: nat)
    requires SIZEOF_JMP32 <= n && source + n <= |m| && gate + n + SIZEOF_JMP32 <= |m|
    requires source + n <= gate || gate + n + SIZEOF_JMP32 <= source
    ensures var m1 := Overwritten(Copied(m, gate, source, n), gate + n, JmpSequence(GetDisplacement(gate + n, source + n)));
            Layout(m, SourcePatched(m1, source, hook, n), source, gate, hook, n)
  {
    hide Overwritten, JmpSequence, GetDisplacement, Copied, Same;
    var back, there := JmpSequence(GetDisplacement(gate + n, source + n)), JmpSequence(GetDisplacement(source, hook));
    var int3 := seq(n - SIZEOF_JMP32, _ => INT3);
    var m0 := Copied(m, gate, source, n);
    var m1 := Overwritten(m0, gate + n, back);
    var m2 := Overwritten(m1, source, there);
    var m3 := Overwritten(m2, source + SIZEOF_JMP32, int3);
    CopiedBytes(m, gate, source, n);
    OverwrittenBytes(m0, gate + n, back);
    OverwrittenBytes(m1, source, there);
    OverwrittenBytes(m2, source + SIZEOF_JMP32, int3);
    UntouchedSlice(m2, m3, source, SIZEOF_JMP32);
    UntouchedSlice(m1, m3, gate + n, SIZEOF_JMP32);
    UntouchedSlice(m0, m3, gate, n);
    SlicesAreSame(m, source, n, m3, gate);
    forall a | source + SIZEOF_JMP32 <= a < source + n ensures m3[a] == INT3 {
      assert m3[a] == m3[source + SIZEOF_JMP32..source + n][a - source - SIZEOF_JMP32];
    }
  }

  lemma CopiedBytes(m: seq<byte>, to: nat, from: nat, n: nat)
    requires to + n <= |m| && from + n <= |m|
    ensures var r := Copied(m, to, from, n);
            r[to..to + n] == m[from..from + n] && forall k | 0 <= k < |m| && !(to <= k < to + n) :: r[k] == m[k]
  {
  }

  lemma SlicesAreSame(a: seq<byte>, p: nat, n: nat, b: seq<byte>, q: nat)
    requires p + n <= |a| && q + n <= |b| && b[q..q + n] == a[p..p + n]
    ensures Same(a, p, p + n, b, q - p)
  {
    forall k | p <= k < p + n ensures Has(b, k + (q - p), a[k]) {
      assert b[q..q + n][k - p] == a[p..p + n][k - p];
    }
  }

  /** No relative instruction begins within the bytes that the jump to the hook takes and ends within those that are moved. */
  ghost predicate MovesFreely(m: seq<byte>, t: Tables, source: nat, n: nat) {
    NoneRelative(m, t, source, SIZEOF_JMP32, source + n)
  }

  /** A hook is installed, without relative instructions, and what is written lies apart from the procedure. */
  ghost predicate Installs(m: seq<byte>, t: Tables, sourceProc: nat, callgate: nat, cbCallgate: nat, hookProc: nat) {
    var r := Installed(m, t, sourceProc, callgate, cbCallgate, hookProc);
    && |m| < WORD && cbCallgate < WORD && r.outcome == Ok
    && Disjoint(FinalTarget(m, sourceProc).value, FinalTarget(m, callgate).value, r.actual + SIZEOF_JMP32)
    && MovesFreely(m, t, FinalTarget(m, sourceProc).value, r.actual)
  }

  /** After a successful installation: which instructions were moved, and what lies where. */
  lemma InstalledIs(m: seq<byte>, t: Tables, sourceProc: nat, callgate: nat, cbCallgate: nat, hookProc: nat)
    returns (count: nat)
    requires Installs(m, t, sourceProc, callgate, cbCallgate, hookProc)
    ensures var r := Installed(m, t, sourceProc, callgate, cbCallgate, hookProc);
            var source, gate := FinalTarget(m, sourceProc).value, FinalTarget(m, callgate).value;
            var hook := FinalTarget(m, hookProc).value;
            && FirstBoundary(m, t, source, SIZEOF_JMP32, r.actual, count)
            && Layout(m, r.memory, source, gate, hook, r.actual) && hook < |m|
  {
    hide CallgateBuilt, SourcePatched, Layout, After, FinalTarget, Overwritten, Copied, JmpSequence;
    var source, gate := FinalTarget(m, sourceProc).value, FinalTarget(m, callgate).value;
    var hook := FinalTarget(m, hookProc).value;
    count := CallgateIs(m, t, source, gate, cbCallgate);
    LayoutIs(m, source, gate, hook, Hooked(m, t, source, gate, cbCallgate, hook).actual);
    TargetIsInside(m, hookProc);
  }

  /**
   Installing succeeds if there are instructions up to the first boundary that makes room for a jump, none of them
   relative, which fit the callgate; and if the callgate lies in memory.
   */
  lemma InstallingSucceeds(
    m: seq<byte>, t: Tables, sourceProc: nat, callgate: nat, cbCallgate: nat, hookProc: nat, n: nat, count: nat)
    requires FinalTarget(m, sourceProc).Some? && FinalTarget(m, callgate).Some? && FinalTarget(m, hookProc).Some?
    requires 15 < cbCallgate < WORD && n <= cbCallgate - 15 && FinalTarget(m, callgate).value + cbCallgate <= |m|
    requires FirstBoundary(m, t, FinalTarget(m, sourceProc).value, 5, n, count)
    requires Disjoint(FinalTarget(m, sourceProc).value, FinalTarget(m, callgate).value, n + 5)
    ensures var r := Installed(m, t, sourceProc, callgate, cbCallgate, hookProc); r.outcome == Ok && r.actual == n
  {
    hide FinalTarget, FirstBoundary, Relocated, Overwritten, JmpSequence, GetDisplacement;
    BoundaryIsReached(m, t, FinalTarget(m, sourceProc).value, FinalTarget(m, callgate).value, cbCallgate - 15, 5, 0, n, count);
  }

  // ----- callgates that are too small

  /** What is written to the callgate. */
  function Code(m: seq<byte>, source: nat, gate: nat, n: nat): (code: seq<byte>)
    requires source + n <= |m|
    ensures |code| == n + SIZEOF_JMP32
  {
    m[source..source + n] + JmpSequence(GetDisplacement(gate + n, source + n))
  }

  /**
   The room is computed as if a jump took 15 bytes, and wraps around for a callgate of less. Such a callgate
   is accepted, and overrun exactly when the moved bytes leave less than the 5 bytes of the jump back; what
   lies behind its end is then overwritten with the rest of the code.
   */
  lemma SmallCallgateIsOverrun(m: seq<byte>, t: Tables, sourceProc: nat, callgate: nat, cbCallgate: nat, hookProc: nat)
    requires Installs(m, t, sourceProc, callgate, cbCallgate, hookProc)
    ensures var r := Installed(m, t, sourceProc, callgate, cbCallgate, hookProc);
            var source, gate := FinalTarget(m, sourceProc).value, FinalTarget(m, callgate).value;
            var n := r.actual;
            && cbCallgate != SIZEOF_JMP64 && source + n <= |m| && gate + n + SIZEOF_JMP32 <= |m|
            && (n + SIZEOF_JMP32 > cbCallgate <==> cbCallgate < SIZEOF_JMP64 && n > cbCallgate - SIZEOF_JMP32)
            && r.memory[gate..gate + n + SIZEOF_JMP32] == Code(m, source, gate, n)
            && (n + SIZEOF_JMP32 > cbCallgate ==>
                  r.memory[gate + cbCallgate..gate + n + SIZEOF_JMP32] == Code(m, source, gate, n)[cbCallgate..])
  {
    hide SourcePatched, FinalTarget, Overwritten, Copied, JmpSequence, GetDisplacement, Relocated, FirstBoundary, NoneRelative, Same;
    var r := Installed(m, t, sourceProc, callgate, cbCallgate, hookProc);
    var source, gate, n := FinalTarget(m, sourceProc).value, FinalTarget(m, callgate).value, r.actual;
    var count := CallgateIs(m, t, source, gate, cbCallgate);
    count := InstalledIs(m, t, sourceProc, callgate, cbCallgate, hookProc);
    CodeStands(m, r.memory, source, gate, FinalTarget(m, hookProc).value, n);
    if n + SIZEOF_JMP32 > cbCallgate {
      assert r.memory[gate + cbCallgate..gate + n + SIZEOF_JMP32] == r.memory[gate..gate + n + SIZEOF_JMP32][cbCallgate..];
    }
  }

  lemma CodeStands(m: seq<byte>, m': seq<byte>, source: nat, gate: nat, hook: nat, n: nat)
    requires Layout(m, m', source, gate, hook, n)
    ensures m'[gate..gate + n] == m[source..source + n]
    ensures m'[gate..gate + n + SIZEOF_JMP32] == Code(m, source, gate, n)
  {
    hide JmpSequence, GetDisplacement;
    var d := gate - source;
    forall k | source <= k < source + n ensures m'[k + d] == m[k] {
      assert Has(m', k + d, m[k]);
    }
    assert m'[gate..gate + n] == m[source..source + n];
    assert m'[gate..gate + n + SIZEOF_JMP32] == m'[gate..gate + n] + m'[gate + n..gate + n + SIZEOF_JMP32];
  }

  /** An input: an instruction of five bytes, and a callgate of six to nine. */
  lemma SampleIsOverrun(m: seq<byte>, t: Tables, source: nat, gate: nat, cbCallgate: nat, hook: nat)
    requires Decode(m, t, source) == Instruction(source + 5, None) && SIZEOF_JMP32 < cbCallgate < 2 * SIZEOF_JMP32
    requires |m| < WORD && gate + 5 + SIZEOF_JMP64 <= |m| && source + 5 <= |m| && Disjoint(source, gate, 5 + SIZEOF_JMP32)
    requires FinalTarget(m, source) == Some(source) && FinalTarget(m, gate) == Some(gate) && FinalTarget(m, hook) == Some(hook)
    ensures var r := Installed(m, t, source, gate, cbCallgate, hook);
            && r.outcome == Ok && r.actual == 5
            && r.memory[gate + cbCallgate..gate + 10] == Code(m, source, gate, 5)[cbCallgate..]
  {
    hide FinalTarget, Overwritten, Copied, JmpSequence, GetDisplacement, Decode, NoneRelative;
    assert CopyOne(m, t, source, gate, Wrap32(cbCallgate - SIZEOF_JMP64)) == Result(Ok, 5, Copied(m, gate, source, 5));
    NothingBelow(m, t, source + 5, 0, source + 5);
    NoneRelativeFrom(m, t, source, source + 5, 5, source + 5);
    assert MovesFreely(m, t, source, 5);
    assert Installs(m, t, source, gate, cbCallgate, hook);
    SmallCallgateIsOverrun(m, t, source, gate, cbCallgate, hook);
  }

  // ----- final targets lie in memory

  lemma TargetIsInside(m: seq<byte>, p: nat)
    requires FinalTarget(m, p).Some?
    ensures FinalTarget(m, p).value < |m|
  {
    ChaseIsInside(m, p, |m|);
  }

  lemma {:induction false} ChaseIsInside(m: seq<byte>, p: nat, n: nat)
    requires Chase(m, p, n).Some?
    ensures Chase(m, p, n).value < |m|
    decreases n
  {
    if NextHop(m, p).To? {
      ChaseIsInside(m, NextHop(m, p).address, n - 1);
    }
  }
}
