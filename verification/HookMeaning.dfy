/**
 What hooking does to a program. The processor decodes instructions in its own way; the relocator's
 way matters only through where it cuts the procedure.
 */
module HookMeaning {
  import opened Bytes
  import opened Hook
  import opened Jumps
  import opened Processor
  import opened Relocation
  import opened X86
  import opened X86Reference

  /**
   In the new memory the callgate executes, from every state, k instructions within the n bytes that moved,
   comes to its jump back, and is then in the place and the state in which the original is in the old memory
   after k instructions.
   */
  ghost predicate DoesTheSame<S(!new)>(
    cpu: Cpu<S>, m: seq<byte>, m': seq<byte>, source: nat, gate: nat, n: nat, k: nat)
  {
    forall s: S ::
      && Passes(cpu, m', gate, n, s, k)
      && Run(cpu, m', Machine(gate, s), k + 1) == Run(cpu, m, Machine(source, s), k)
  }

  ghost predicate PreservesMeaning<S(!new)>(
    cpu: Cpu<S>, m: seq<byte>, m': seq<byte>, source: nat, gate: nat, n: nat)
  {
    exists k: nat :: DoesTheSame(cpu, m, m', source, gate, n, k)
  }

  /** Up to b bytes on, the callgate does what the original does. */
  ghost predicate InStep<S>(cpu: Cpu<S>, m: seq<byte>, m': seq<byte>, source: nat, gate: nat, b: nat, s: S)
    requires Covers(cpu, m, source, b)
  {
    var k := Count(cpu, m, source, b);
    match Run(cpu, m, Machine(source, s), k)
    case None => false
    case Some(x) => x.pc == source + b && Run(cpu, m', Machine(gate, s), k) == Some(Machine(gate + b, x.state))
  }

  /** A processor that knows the jump follows one that was built. */
  lemma BuiltJumpIsRun<S(!new)>(cpu: Cpu<S>, m: seq<byte>, p: nat, target: nat, s: S)
    requires SelfDelimiting(cpu) && KnowsJmp(cpu) && p + SIZEOF_JMP32 <= |m| < WORD && target < WORD
    requires m[p..p + SIZEOF_JMP32] == JmpSequence(GetDisplacement(p, target))
    ensures Step(cpu, m, Machine(p, s)) == Some(Machine(target, s))
  {
    hide GetDisplacement, LittleEndian, SelfDelimiting;
    var b := m[p..p + SIZEOF_JMP32];
    assert b[0] == JMP32;
    JumpLeadsToTarget(m, p, target);
    assert Word(m, p + 1) == Word(b, 1);
    assert m[p] == b[0];
    assert b[0..SIZEOF_JMP32] == b && b[0..] == b;
    assert Extent(cpu, b, 0) == Some(SIZEOF_JMP32);
    ExtentMoves(cpu, b, 0, m, p, SIZEOF_JMP32);
    assert cpu.run(b, p, s) == Machine(Wrap32(p + Signed32(Word(b, 1)) + 5), s);
  }

  /** Whole instructions keep their meaning. */
  lemma WholeCodeDoesTheSame<S(!new)>(
    cpu: Cpu<S>, m: seq<byte>, m': seq<byte>, source: nat, gate: nat, hook: nat, n: nat)
    requires |m| < WORD && SelfDelimiting(cpu) && KnowsJmp(cpu) && Layout(m, m', source, gate, hook, n)
    requires StraightFrom(cpu, m, source, n) && Covers(cpu, m, source, n)
    ensures DoesTheSame(cpu, m, m', source, gate, n, Count(cpu, m, source, n))
  {
    hide SelfDelimiting, KnowsJmp, StraightFrom, Covers, Count, Run, Step, JmpSequence, GetDisplacement, Same;
    var k := Count(cpu, m, source, n);
    CodeStands(m, m', source, gate, hook, n);
    forall s: S
      ensures Passes(cpu, m', gate, n, s, k)
      ensures Run(cpu, m', Machine(gate, s), k + 1) == Run(cpu, m, Machine(source, s), k)
    {
      CopyArrives(cpu, m, source, m', gate, n, s);
      var y := Run(cpu, m, Machine(source, s), k).value.state;
      RunGoesOn(cpu, m', Machine(gate, s), k, Machine(gate + n, y));
      BuiltJumpIsRun(cpu, m', gate + n, source + n, y);
    }
  }

  /** Whether or not the code is cut between two instructions, what lies before the cut keeps its meaning. */
  lemma KeepsStep<S(!new)>(
    cpu: Cpu<S>, m: seq<byte>, m': seq<byte>, source: nat, gate: nat, hook: nat, n: nat, s: S)
    requires SelfDelimiting(cpu) && Layout(m, m', source, gate, hook, n) && StraightFrom(cpu, m, source, n)
    ensures InStep(cpu, m, m', source, gate, Whole(cpu, m, source, n), s)
  {
    hide SelfDelimiting, StraightFrom, Covers, Count, Run, Step, JmpSequence, GetDisplacement, Same;
    var b := Whole(cpu, m, source, n);
    CodeStands(m, m', source, gate, hook, n);
    CutInstruction(cpu, m, source, n);
    SliceOfSlice(m, source, m', gate, n, b);
    CopyKeepsStep(cpu, m, source, m', gate, b, s);
  }

  /** A callgate with a cut instruction that leaves the moved bytes comes to its jump back from no state. */
  lemma CutNeverPasses<S(!new)>(
    cpu: Cpu<S>, m: seq<byte>, m': seq<byte>, source: nat, gate: nat, hook: nat, n: nat, s: S, k: nat)
    requires SelfDelimiting(cpu) && Layout(m, m', source, gate, hook, n) && StraightFrom(cpu, m, source, n)
    requires !Covers(cpu, m, source, n) && Leaves(cpu, m', gate, n, Whole(cpu, m, source, n))
    ensures !Passes(cpu, m', gate, n, s, k)
  {
    hide SelfDelimiting, StraightFrom, Covers, Count, Run, Step, JmpSequence, GetDisplacement, Same, Leaves, Passes;
    var b := Whole(cpu, m, source, n);
    CodeStands(m, m', source, gate, hook, n);
    CutInstruction(cpu, m, source, n);
    SliceOfSlice(m, source, m', gate, n, b);
    CopyArrives(cpu, m, source, m', gate, b, s);
    var j := Count(cpu, m, source, b);
    LeavingNeverPasses(cpu, m', gate, n, b, s, j, Run(cpu, m, Machine(source, s), j).value.state, k);
  }

  /**
   What the callgate meets at the cut takes in at least a byte of the jump back, so that it leaves the moved
   bytes if it falls through.
   */
  lemma FallingCutLeaves<S(!new)>(
    cpu: Cpu<S>, m: seq<byte>, m': seq<byte>, source: nat, gate: nat, hook: nat, n: nat)
    requires SelfDelimiting(cpu) && Layout(m, m', source, gate, hook, n) && StraightFrom(cpu, m, source, n)
    requires !Covers(cpu, m, source, n)
    ensures var at := gate + Whole(cpu, m, source, n);
            match Extent(cpu, m', at)
            case None => Leaves(cpu, m', gate, n, Whole(cpu, m, source, n))
            case Some(e) =>
              && at + e > gate + n
              && (FallsThrough(cpu, m'[at..at + e]) ==> Leaves(cpu, m', gate, n, Whole(cpu, m, source, n)))
  {
    hide SelfDelimiting, StraightFrom, Covers, Extent, FallsThrough, JmpSequence, GetDisplacement, Same, Leaves;
    var b := Whole(cpu, m, source, n);
    CodeStands(m, m', source, gate, hook, n);
    CutReachesBehind(cpu, m, source, m', gate, n);
    match Extent(cpu, m', gate + b)
    case None => FallingLeaves(cpu, m', gate, n, b);
    case Some(e) =>
      if FallsThrough(cpu, m'[gate + b..gate + b + e]) { FallingLeaves(cpu, m', gate, n, b); }
  }

  /**
   The bytes of the cut instruction are in the callgate what they were exactly when those that were left behind
   are the ones that a jump back begins with.
   */
  lemma CutMakesAnother(m: seq<byte>, m': seq<byte>, source: nat, gate: nat, hook: nat, n: nat, b: nat, e: nat)
    requires Layout(m, m', source, gate, hook, n) && b < n < b + e <= n + SIZEOF_JMP32 && source + b + e <= |m|
    ensures var jump := JmpSequence(GetDisplacement(gate + n, source + n));
            m'[gate + b..gate + b + e] == m[source + b..source + b + e]
            <==> m[source + n..source + b + e] == jump[..b + e - n]
    ensures m[source + n] != JMP32 ==> m'[gate + b..gate + b + e] != m[source + b..source + b + e]
  {
    hide GetDisplacement, LittleEndian, Same;
    var jump, left := JmpSequence(GetDisplacement(gate + n, source + n)), b + e - n;
    CodeStands(m, m', source, gate, hook, n);
    var before, after := m[source + b..source + b + e], m'[gate + b..gate + b + e];
    assert before == m[source + b..source + n] + m[source + n..source + b + e];
    assert after == m'[gate..gate + n][b..] + m'[gate + n..gate + n + SIZEOF_JMP32][..left];
    assert m[source + b..source + n] == m[source..source + n][b..];
    SameTail(m[source + b..source + n], jump[..left], m[source + n..source + b + e]);
    assert m[source + n] == m[source + n..source + b + e][0] && jump[..left][0] == JMP32;
  }

  lemma SameTail(a: seq<byte>, x: seq<byte>, y: seq<byte>)
    ensures a + x == a + y <==> x == y
  {
    assert (a + x)[|a|..] == x && (a + y)[|a|..] == y;
  }

  /**
   Hooking preserves the meaning of straight code if the relocator has cut it between two instructions of the
   processor. If it has cut one in two, the callgate does what the original does up to that one, and there meets
   another, made of the bytes that moved and the jump back. Unless that one leads back to the moved bytes, the
   jump back is never come to and meaning is lost. In either case running the procedure enters the hook
   with the state unchanged, the bytes that moved reach to the first boundary of the relocator that makes room
   for a jump, and no other byte has changed.
   */
  lemma HookingPreservesMeaning<S(!new)>(
    m: seq<byte>, t: Tables, sourceProc: nat, callgate: nat, cbCallgate: nat, hookProc: nat, cpu: Cpu<S>, anyState: S)
    returns (count: nat)
    requires Installs(m, t, sourceProc, callgate, cbCallgate, hookProc) && SelfDelimiting(cpu) && KnowsJmp(cpu)
    requires StraightFrom(cpu, m, FinalTarget(m, sourceProc).value,
                          Installed(m, t, sourceProc, callgate, cbCallgate, hookProc).actual)
    ensures var r := Installed(m, t, sourceProc, callgate, cbCallgate, hookProc);
            var m', n := r.memory, r.actual;
            var source, gate := FinalTarget(m, sourceProc).value, FinalTarget(m, callgate).value;
            var hook := FinalTarget(m, hookProc).value;
            && (Covers(cpu, m, source, n) ==> PreservesMeaning(cpu, m, m', source, gate, n))
            && (Leaves(cpu, m', gate, n, Whole(cpu, m, source, n)) ==>
                  (PreservesMeaning(cpu, m, m', source, gate, n) <==> Covers(cpu, m, source, n)))
            && (forall s: S :: InStep(cpu, m, m', source, gate, Whole(cpu, m, source, n), s))
            && (forall s: S :: Step(cpu, m', Machine(source, s)) == Some(Machine(hook, s)))
            && FirstBoundary(m, t, source, SIZEOF_JMP32, n, count) && Layout(m, m', source, gate, hook, n)
  {
    hide Hooked, SelfDelimiting, KnowsJmp, StraightFrom, Covers, Layout, FirstBoundary, FinalTarget, Step, JmpSequence, GetDisplacement, Passes, InStep, Leaves, Whole, NoneRelative;
    count := InstalledIs(m, t, sourceProc, callgate, cbCallgate, hookProc);
    var r := Installed(m, t, sourceProc, callgate, cbCallgate, hookProc);
    var source, gate := FinalTarget(m, sourceProc).value, FinalTarget(m, callgate).value;
    var hook, n := FinalTarget(m, hookProc).value, r.actual;
    if Covers(cpu, m, source, n) {
      WholeCodeDoesTheSame(cpu, m, r.memory, source, gate, hook, n);
    } else if PreservesMeaning(cpu, m, r.memory, source, gate, n) && Leaves(cpu, r.memory, gate, n, Whole(cpu, m, source, n)) {
      var k: nat :| DoesTheSame(cpu, m, r.memory, source, gate, n, k);
      CutNeverPasses(cpu, m, r.memory, source, gate, hook, n, anyState, k);
    }
    forall s: S ensures Step(cpu, r.memory, Machine(source, s)) == Some(Machine(hook, s)) {
      SourceEntersHook(cpu, m, r.memory, source, gate, hook, n, s);
    }
    forall s: S ensures InStep(cpu, m, r.memory, source, gate, Whole(cpu, m, source, n), s) {
      KeepsStep(cpu, m, r.memory, source, gate, hook, n, s);
    }
  }

  lemma SourceEntersHook<S(!new)>(
    cpu: Cpu<S>, m: seq<byte>, m': seq<byte>, source: nat, gate: nat, hook: nat, n: nat, s: S)
    requires |m| < WORD && hook < WORD && SelfDelimiting(cpu) && KnowsJmp(cpu) && Layout(m, m', source, gate, hook, n)
    ensures Step(cpu, m', Machine(source, s)) == Some(Machine(hook, s))
  {
    hide SelfDelimiting, KnowsJmp, Step, Same, JmpSequence, GetDisplacement;
    BuiltJumpIsRun(cpu, m', source, hook, s);
  }

  // ----- when the relocator cuts in the right place

  /** The relocator and the processor agree on the lengths of the instructions that are copied. */
  predicate Agree<S>(cpu: Cpu<S>, m: seq<byte>, t: Tables, p: nat, count: nat)
    decreases count
  {
    count == 0 ||
    match Decode(m, t, p)
    case Instruction(end, _) => Extent(cpu, m, p) == Some(end - p) && Agree(cpu, m, t, end, count - 1)
    case _ => false
  }

  lemma {:induction false} AgreementCovers<S>(cpu: Cpu<S>, m: seq<byte>, t: Tables, p: nat, count: nat)
    requires After(m, t, p, count).Some? && Agree(cpu, m, t, p, count)
    ensures Covers(cpu, m, p, After(m, t, p, count).value - p)
    decreases count
  {
    hide Decode, Extent;
    if count > 0 {
      AgreementCovers(cpu, m, t, Decode(m, t, p).end, count - 1);
    }
  }

  /**
   The processor reads the copied instructions as the reference does, and the records that are looked up for
   them keep to the rules.
   */
  predicate RightTables<S>(cpu: Cpu<S>, m: seq<byte>, t: Tables, f: Formats, p: nat, count: nat)
    decreases count
  {
    count == 0 ||
    match Decode(m, t, p)
    case Instruction(end, _) =>
      && RowFitsAt(m, t, f, p) && Extent(cpu, m, p).Some?
      && ReferenceEnd(m, f, p, NO_PREFIX) == Some(p + Extent(cpu, m, p).value)
      && RightTables(cpu, m, t, f, end, count - 1)
    case _ => false
  }

  /** None of the copied instructions is miscounted. */
  predicate NoneMiscounted(m: seq<byte>, t: Tables, f: Formats, p: nat, count: nat)
    decreases count
  {
    count == 0 ||
    match Decode(m, t, p)
    case Instruction(end, _) => !Miscounts(m, f, p, NO_PREFIX) && NoneMiscounted(m, t, f, end, count - 1)
    case _ => false
  }

  /** With right tables, agreement fails exactly when an instruction is miscounted. */
  lemma {:induction false} AgreementIffNoneMiscounted<S>(
    cpu: Cpu<S>, m: seq<byte>, t: Tables, f: Formats, p: nat, count: nat)
    requires Groups(f) && RightTables(cpu, m, t, f, p, count)
    ensures Agree(cpu, m, t, p, count) <==> NoneMiscounted(m, t, f, p, count)
    decreases count
  {
    hide Extent, DecodeAt, ReferenceEnd, Miscounts, RowFitsAt, Groups;
    if count > 0 {
      ReferenceAgrees(m, t, f, p, NO_PREFIX);
      AgreementIffNoneMiscounted(cpu, m, t, f, Decode(m, t, p).end, count - 1);
    }
  }

  /** Right tables, and no instruction miscounted, make the cut right. */
  lemma RightTablesCover<S>(cpu: Cpu<S>, m: seq<byte>, t: Tables, f: Formats, source: nat, n: nat, count: nat)
    requires FirstBoundary(m, t, source, SIZEOF_JMP32, n, count)
    requires Groups(f) && RightTables(cpu, m, t, f, source, count) && NoneMiscounted(m, t, f, source, count)
    ensures Covers(cpu, m, source, n)
  {
    hide Covers, After, RightTables, NoneMiscounted, Groups;
    AgreementIffNoneMiscounted(cpu, m, t, f, source, count);
    AgreementCovers(cpu, m, t, source, count);
  }

  /** Hooking preserves meaning when the tables are right and no instruction is miscounted. */
  lemma RightTablesPreserveMeaning<S(!new)>(
    m: seq<byte>, t: Tables, sourceProc: nat, callgate: nat, cbCallgate: nat, hookProc: nat, f: Formats, cpu: Cpu<S>, anyState: S)
    requires Installs(m, t, sourceProc, callgate, cbCallgate, hookProc) && SelfDelimiting(cpu) && KnowsJmp(cpu)
    requires StraightFrom(cpu, m, FinalTarget(m, sourceProc).value,
                          Installed(m, t, sourceProc, callgate, cbCallgate, hookProc).actual)
    requires Groups(f) && forall count: nat | FirstBoundary(m, t, FinalTarget(m, sourceProc).value, SIZEOF_JMP32,
                                   Installed(m, t, sourceProc, callgate, cbCallgate, hookProc).actual, count) ::
               && RightTables(cpu, m, t, f, FinalTarget(m, sourceProc).value, count)
               && NoneMiscounted(m, t, f, FinalTarget(m, sourceProc).value, count)
    ensures var r := Installed(m, t, sourceProc, callgate, cbCallgate, hookProc);
            PreservesMeaning(cpu, m, r.memory, FinalTarget(m, sourceProc).value, FinalTarget(m, callgate).value, r.actual)
  {
    hide Hooked, SelfDelimiting, KnowsJmp, StraightFrom, Covers, Layout, FirstBoundary, FinalTarget, Step, PreservesMeaning, RightTables, NoneMiscounted, Groups;
    var count := HookingPreservesMeaning(m, t, sourceProc, callgate, cbCallgate, hookProc, cpu, anyState);
    RightTablesCover(cpu, m, t, f, FinalTarget(m, sourceProc).value,
                     Installed(m, t, sourceProc, callgate, cbCallgate, hookProc).actual, count);
  }
}
