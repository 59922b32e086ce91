/** Two pieces of code that the relocator cuts in the wrong place, and what hooking makes of them. */
module HookCuts {
  import opened Bytes
  import opened Hook
  import opened HookMeaning
  import opened Jumps
  import opened Processor
  import opened Relocation
  import opened X86
  import opened X86Reference

  predicate BytesAt(m: seq<byte>, p: nat, bytes: seq<byte>) {
    p + |bytes| <= |m| && m[p..p + |bytes|] == bytes
  }

  lemma CopyOneIs(m: seq<byte>, t: Tables, base: nat, gate: nat, room: nat, n: nat)
    requires Decode(m, t, base) == Instruction(base + n, None) && 0 < n <= room && base + n <= |m| && gate + n <= |m|
    ensures CopyOne(m, t, base, gate, room) == Result(Ok, n, Copied(m, gate, base, n))
  {
    hide DecodeAt;
  }

  lemma StillThere(m: seq<byte>, p: nat, bytes: seq<byte>, to: nat, from: nat, n: nat)
    requires BytesAt(m, p, bytes) && to + n <= |m| && from + n <= |m| && (p + |bytes| <= to || to + n <= p)
    ensures BytesAt(Copied(m, to, from, n), p, bytes)
  {
    OverwrittenBytes(m, to, m[from..from + n]);
    UntouchedSlice(m, Copied(m, to, from, n), p, |bytes|);
  }

  /** A callgate of sufficient size, apart from the procedure; nothing involved is itself a jump. */
  predicate Ready(m: seq<byte>, source: nat, gate: nat, cbCallgate: nat, hook: nat) {
    && |m| < WORD && SIZEOF_JMP32 + SIZEOF_JMP64 <= cbCallgate < WORD && gate + cbCallgate <= |m|
    && Disjoint(source, gate, cbCallgate)
    && FinalTarget(m, source) == Some(source) && FinalTarget(m, gate) == Some(gate) && FinalTarget(m, hook) == Some(hook)
  }

  lemma FiveBytesAreMoved(m: seq<byte>, t: Tables, source: nat, gate: nat, cbCallgate: nat, hook: nat)
    requires Ready(m, source, gate, cbCallgate, hook)
    requires var r := Relocated(m, t, source, gate, cbCallgate - SIZEOF_JMP64, SIZEOF_JMP32, 0);
             r.outcome == Ok && r.actual == 5
    ensures var r := Installed(m, t, source, gate, cbCallgate, hook); r.outcome == Ok && r.actual == 5
  {
    hide Relocated, FinalTarget, JmpSequence;
  }

  /** An instruction of four bytes whose displacement is counted twice, so that five are copied. */
  lemma TwiceCountedIsCut(m: seq<byte>, t: Tables, source: nat, gate: nat, room: nat)
    requires BytesAt(m, source, [0x8B, 0x44, 0x35, 0x08, 0x8B, 0xC1]) && t.one(0x8B) == OpInfo(1, true, false, false, false)
    requires 5 <= room && gate + room <= |m|
    ensures Decode(m, t, source) == Instruction(source + 5, None)
    ensures forall f: Formats | f.one(0x8B) == Format(true, []) ::
              ReferenceEnd(m, f, source, NO_PREFIX) == Some(source + 4) && Miscounts(m, f, source, NO_PREFIX)
    ensures var r := Relocated(m, t, source, gate, room, SIZEOF_JMP32, 0); r.outcome == Ok && r.actual == 5
  {
    var s := m[source..source + 6];
    assert m[source] == s[0] && m[source + 1] == s[1] && m[source + 2] == s[2];
    assert Decode(m, t, source) == Instruction(source + 5, None);
    CopyOneIs(m, t, source, gate, room, 5);
  }

  /** A repeat prefix has a row of its own in the tables, and counts as an instruction. */
  lemma PrefixIsCut(m: seq<byte>, t: Tables, source: nat, gate: nat, room: nat)
    requires BytesAt(m, source, [0x8B, 0xFF, 0x8B, 0xF0, 0xF3, 0xA5])
    requires t.one(0x8B) == OpInfo(1, true, false, false, false) && t.one(0xF3) == OpInfo(1, false, false, false, false)
    requires 5 <= room && gate + room <= |m| && (source + 6 <= gate || gate + room <= source)
    ensures var r := Relocated(m, t, source, gate, room, SIZEOF_JMP32, 0); r.outcome == Ok && r.actual == 5
  {
    hide Relocated, Decode, Copied, BytesAt, CopyOne;
    var bytes := [0x8B, 0xFF, 0x8B, 0xF0, 0xF3, 0xA5];
    FirstThree(m, t, source);
    CopyOneIs(m, t, source, gate, room, 2);
    var m1 := Copied(m, gate, source, 2);
    StillThere(m, source, bytes, gate, source, 2);
    FirstThree(m1, t, source);
    CopyOneIs(m1, t, source + 2, gate + 2, room - 2, 2);
    var m2 := Copied(m1, gate + 2, source + 2, 2);
    StillThere(m1, source, bytes, gate + 2, source + 2, 2);
    FirstThree(m2, t, source);
    CopyOneIs(m2, t, source + 4, gate + 4, room - 4, 1);
    LastStep(m2, t, source + 4, gate + 4, room - 4, 1, 4);
    NextStep(m1, t, source + 2, gate + 2, room - 2, Result(Ok, 2, m2), 2);
    NextStep(m, t, source, gate, room, Result(Ok, 2, m1), 0);
  }

  lemma FirstThree(m: seq<byte>, t: Tables, p: nat)
    requires BytesAt(m, p, [0x8B, 0xFF, 0x8B, 0xF0, 0xF3, 0xA5])
    requires t.one(0x8B) == OpInfo(1, true, false, false, false) && t.one(0xF3) == OpInfo(1, false, false, false, false)
    ensures p + 6 <= |m| && Decode(m, t, p) == Instruction(p + 2, None)
    ensures Decode(m, t, p + 2) == Instruction(p + 4, None) && Decode(m, t, p + 4) == Instruction(p + 5, None)
  {
    var s := m[p..p + 6];
    assert m[p] == s[0] && m[p + 1] == s[1] && m[p + 2] == s[2] && m[p + 3] == s[3] && m[p + 4] == s[4];
  }

  lemma LastStep(m: seq<byte>, t: Tables, base: nat, gate: nat, room: nat, n: nat, copied: nat)
    requires room > 0 && CopyOne(m, t, base, gate, room).outcome == Ok && CopyOne(m, t, base, gate, room).actual == n
    requires copied + n >= SIZEOF_JMP32
    ensures var r := Relocated(m, t, base, gate, room, SIZEOF_JMP32, copied); r.outcome == Ok && r.actual == copied + n
  {
    hide CopyOne;
  }

  lemma NextStep(m: seq<byte>, t: Tables, base: nat, gate: nat, room: nat, one: Result, copied: nat)
    requires room > 0 && CopyOne(m, t, base, gate, room) == one && one.outcome == Ok
    requires copied + one.actual < SIZEOF_JMP32
    ensures one.actual <= room
    ensures Relocated(m, t, base, gate, room, SIZEOF_JMP32, copied)
         == Relocated(one.memory, t, base + one.actual, gate + one.actual, room - one.actual, SIZEOF_JMP32, copied + one.actual)
  {
    hide CopyOne, Decode, Copied;
  }

  // ----- what the processor has to know of the instructions

  /** The bytes are one instruction, which falls through and does the same at every address. */
  ghost predicate Plain<S(!new)>(cpu: Cpu<S>, bytes: seq<byte>) {
    |bytes| > 0 && cpu.length(bytes) == Some(|bytes|) && FallsThrough(cpu, bytes) && IgnoresPlace(cpu, bytes)
  }

  /** A jump behind a repeat prefix is the jump, and takes a byte more. */
  ghost predicate KnowsPrefixedJmp<S(!new)>(cpu: Cpu<S>) {
    forall b: seq<byte> | |b| == 1 + SIZEOF_JMP32 && b[0] == 0xF3 && b[1] == JMP32 ::
      && cpu.length(b) == Some(1 + SIZEOF_JMP32)
      && forall pc: nat, s: S :: cpu.run(b, pc, s) == Machine(Wrap32(pc + Signed32(Word(b, 2)) + 6), s)
  }

  lemma PlainStep<S(!new)>(cpu: Cpu<S>, m: seq<byte>, p: nat, bytes: seq<byte>, s: S)
    requires SelfDelimiting(cpu) && Plain(cpu, bytes) && BytesAt(m, p, bytes)
    ensures Extent(cpu, m, p) == Some(|bytes|)
    ensures Step(cpu, m, Machine(p, s)) == Some(Machine(p + |bytes|, cpu.run(bytes, p, s).state))
  {
    ExtentIs(cpu, m, p, bytes);
    assert cpu.run(bytes, p, s).pc == p + |bytes|;
  }

  lemma ExtentIs<S(!new)>(cpu: Cpu<S>, m: seq<byte>, p: nat, bytes: seq<byte>)
    requires SelfDelimiting(cpu) && |bytes| > 0 && cpu.length(bytes) == Some(|bytes|) && BytesAt(m, p, bytes)
    ensures Extent(cpu, m, p) == Some(|bytes|)
  {
    assert bytes[0..] == bytes && bytes[0..|bytes|] == bytes;
    assert Extent(cpu, bytes, 0) == Some(|bytes|);
    ExtentMoves(cpu, bytes, 0, m, p, |bytes|);
  }

  lemma PlainIsStraight<S(!new)>(cpu: Cpu<S>, m: seq<byte>, p: nat, bytes: seq<byte>, n: nat)
    requires SelfDelimiting(cpu) && Plain(cpu, bytes) && BytesAt(m, p, bytes)
    requires |bytes| < n ==> StraightFrom(cpu, m, p + |bytes|, n - |bytes|)
    ensures StraightFrom(cpu, m, p, n)
  {
    ExtentIs(cpu, m, p, bytes);
  }

  lemma Part(m: seq<byte>, p: nat, bytes: seq<byte>, i: nat, j: nat)
    requires BytesAt(m, p, bytes) && i <= j <= |bytes|
    ensures BytesAt(m, p + i, bytes[i..j])
  {
    var s := m[p..p + |bytes|];
    assert forall k | i <= k < j :: s[k] == m[p + k];
    assert s[i..j] == m[p + i..p + j];
  }

  // ----- a displacement counted twice

  const LOAD: seq<byte> := [0x8B, 0x44, 0x35, 0x08] // mov eax,[ebp+esi+8]
  const FROM_ECX: seq<byte> := [0x8B, 0xC1]         // mov eax,ecx
  const TO_EBP: seq<byte> := [0x8B, 0xE9]           // mov ebp,ecx
  const CUT_INSIDE: seq<byte> := [0x8B, 0x44, 0x35, 0x08, 0x8B, 0xC1]

  /**
   mov eax,[ebp+esi+8]; mov eax,ecx. The relocator takes the first instruction for one of five bytes and cuts
   the second in two. With the jump back, its first byte makes another instruction: where the original does
   mov eax,ecx, the callgate does mov ebp,ecx, and then goes on inside of its jump back.
   */
  lemma CutInsideInstruction<S(!new)>(
    m: seq<byte>, t: Tables, source: nat, gate: nat, cbCallgate: nat, hook: nat, cpu: Cpu<S>, anyState: S)
    requires BytesAt(m, source, CUT_INSIDE) && t.one(0x8B) == OpInfo(1, true, false, false, false)
    requires Ready(m, source, gate, cbCallgate, hook) && SelfDelimiting(cpu) && KnowsJmp(cpu)
    requires Plain(cpu, LOAD) && Plain(cpu, FROM_ECX) && Plain(cpu, TO_EBP)
    ensures var r := Installed(m, t, source, gate, cbCallgate, hook);
            && r.outcome == Ok && r.actual == 5 && BytesAt(r.memory, gate, LOAD) && BytesAt(r.memory, gate + 4, TO_EBP)
            && !PreservesMeaning(cpu, m, r.memory, source, gate, 5)
            && forall s: S ::
                 var y := cpu.run(LOAD, source, s).state;
                 && Run(cpu, m, Machine(source, s), 2) == Some(Machine(source + 6, cpu.run(FROM_ECX, source + 4, y).state))
                 && Run(cpu, r.memory, Machine(gate, s), 2) == Some(Machine(gate + 6, cpu.run(TO_EBP, gate + 4, y).state))
  {
    hide Installed, SelfDelimiting, KnowsJmp, StraightFrom, Covers, Whole, Layout, FinalTarget, PreservesMeaning, Relocated, BytesAt, Step, FirstBoundary, InStep, FallsThrough, IgnoresPlace, NoneRelative, Extent, Plain, JmpSequence;
    var m' := Installed(m, t, source, gate, cbCallgate, hook).memory;
    TwiceCountedIsCut(m, t, source, gate, cbCallgate - SIZEOF_JMP64);
    FiveBytesAreMoved(m, t, source, gate, cbCallgate, hook);
    NothingBelow(m, t, source + 5, 0, source + 5);
    NoneRelativeFrom(m, t, source, source + 5, 5, source + 5);
    LoadIsStraight(cpu, m, source);
    var count := HookingPreservesMeaning(m, t, source, gate, cbCallgate, hook, cpu, anyState);
    CutCallgateIs(m, m', source, gate, hook);
    LoadIsCut(cpu, m, m', source, gate);
    forall s: S
      ensures var y := cpu.run(LOAD, source, s).state;
              && Run(cpu, m, Machine(source, s), 2) == Some(Machine(source + 6, cpu.run(FROM_ECX, source + 4, y).state))
              && Run(cpu, m', Machine(gate, s), 2) == Some(Machine(gate + 6, cpu.run(TO_EBP, gate + 4, y).state))
    {
      TwoSteps(cpu, m, m', source, gate, s);
    }
  }

  lemma LoadIsStraight<S(!new)>(cpu: Cpu<S>, m: seq<byte>, source: nat)
    requires BytesAt(m, source, CUT_INSIDE) && SelfDelimiting(cpu) && Plain(cpu, LOAD) && Plain(cpu, FROM_ECX)
    ensures BytesAt(m, source, LOAD) && BytesAt(m, source + 4, FROM_ECX)
    ensures StraightFrom(cpu, m, source, 5) && Whole(cpu, m, source, 5) == 4
  {
    hide SelfDelimiting, BytesAt, Extent, FallsThrough, IgnoresPlace, StraightFrom, Plain;
    Part(m, source, CUT_INSIDE, 0, 4);
    Part(m, source, CUT_INSIDE, 4, 6);
    assert CUT_INSIDE[0..4] == LOAD && CUT_INSIDE[4..6] == FROM_ECX;
    LengthIs(cpu, LOAD);
    LengthIs(cpu, FROM_ECX);
    PlainIsStraight(cpu, m, source + 4, FROM_ECX, 1);
    PlainIsStraight(cpu, m, source, LOAD, 5);
    ExtentIs(cpu, m, source, LOAD);
    ExtentIs(cpu, m, source + 4, FROM_ECX);
    assert Whole(cpu, m, source + 4, 1) == 0;
  }

  lemma LengthIs<S(!new)>(cpu: Cpu<S>, bytes: seq<byte>)
    requires Plain(cpu, bytes)
    ensures |bytes| > 0 && cpu.length(bytes) == Some(|bytes|)
  {
  }

  /** The callgate of five moved bytes that end in a cut instruction. */
  lemma CutCallgateIs(m: seq<byte>, m': seq<byte>, source: nat, gate: nat, hook: nat)
    requires Layout(m, m', source, gate, hook, 5) && BytesAt(m, source, CUT_INSIDE)
    ensures BytesAt(m', gate, LOAD) && BytesAt(m', gate + 4, TO_EBP)
  {
    hide GetDisplacement, LittleEndian, Same, Layout;
    CodeStands(m, m', source, gate, hook, 5);
    CallgateFits(m, m', source, gate, hook, 5);
    var code, moved := Code(m, source, gate, 5), m[source..source + 5];
    assert moved == m[source..source + 6][..5] == CUT_INSIDE[..5];
    assert BytesAt(m', gate, code);
    Part(m', gate, code, 0, 4);
    Part(m', gate, code, 4, 6);
    assert code[0..4] == moved[..4] == LOAD;
    assert code[4] == moved[4] && code[5] == JMP32;
  }

  lemma CallgateFits(m: seq<byte>, m': seq<byte>, source: nat, gate: nat, hook: nat, n: nat)
    requires Layout(m, m', source, gate, hook, n)
    ensures |m'| == |m| && source + n <= |m| && gate + n + SIZEOF_JMP32 <= |m'|
  {
  }

  /** The cut instruction of the callgate falls through, and leaves the moved bytes. */
  lemma LoadIsCut<S(!new)>(cpu: Cpu<S>, m: seq<byte>, m': seq<byte>, source: nat, gate: nat)
    requires SelfDelimiting(cpu) && Plain(cpu, TO_EBP) && BytesAt(m', gate + 4, TO_EBP)
    ensures Leaves(cpu, m', gate, 5, 4)
  {
    hide SelfDelimiting, Extent;
    ExtentIs(cpu, m', gate + 4, TO_EBP);
    FallingLeaves(cpu, m', gate, 5, 4);
  }

  lemma TwoSteps<S(!new)>(cpu: Cpu<S>, m: seq<byte>, m': seq<byte>, source: nat, gate: nat, s: S)
    requires SelfDelimiting(cpu) && Plain(cpu, LOAD) && Plain(cpu, FROM_ECX) && Plain(cpu, TO_EBP)
    requires BytesAt(m, source, LOAD) && BytesAt(m, source + 4, FROM_ECX)
    requires BytesAt(m', gate, LOAD) && BytesAt(m', gate + 4, TO_EBP)
    ensures var y := cpu.run(LOAD, source, s).state;
            && Run(cpu, m, Machine(source, s), 2) == Some(Machine(source + 6, cpu.run(FROM_ECX, source + 4, y).state))
            && Run(cpu, m', Machine(gate, s), 2) == Some(Machine(gate + 6, cpu.run(TO_EBP, gate + 4, y).state))
  {
    hide SelfDelimiting, BytesAt, Step, FallsThrough;
    var y := cpu.run(LOAD, source, s).state;
    assert cpu.run(LOAD, gate, s).state == y;
    PlainStep(cpu, m, source, LOAD, s);
    PlainStep(cpu, m, source + 4, FROM_ECX, y);
    PlainStep(cpu, m', gate, LOAD, s);
    PlainStep(cpu, m', gate + 4, TO_EBP, y);
    OneMore(cpu, m, Machine(source, s), Machine(source + 4, y));
    OneMore(cpu, m', Machine(gate, s), Machine(gate + 4, y));
  }

  lemma OneMore<S>(cpu: Cpu<S>, m: seq<byte>, x: Machine<S>, y: Machine<S>)
    requires Step(cpu, m, x) == Some(y)
    ensures Run(cpu, m, x, 1) == Some(y) && Run(cpu, m, x, 2) == Step(cpu, m, y)
  {
    hide Step;
    assert Run(cpu, m, y, 0) == Some(y);
    RunGoesOn(cpu, m, x, 1, y);
  }

  // ----- a prefix taken for an instruction

  const TWICE_EDI: seq<byte> := [0x8B, 0xFF] // mov edi,edi
  const TO_ESI: seq<byte> := [0x8B, 0xF0]    // mov esi,eax
  const REP_MOVSD: seq<byte> := [0xF3, 0xA5]
  const MOVSD: seq<byte> := [0xA5]
  const CUT_PREFIX: seq<byte> := [0x8B, 0xFF, 0x8B, 0xF0, 0xF3, 0xA5]

  /**
   mov edi,edi; mov esi,eax; rep movsd. The relocator cuts between the prefix and its instruction. In the
   callgate the prefix stands before the jump back, which it does not change, and the jump leads behind the
   prefix: the original repeats movsd, and the callgate arrives in the same place having done it once.
   */
  lemma CutBehindPrefix<S(!new)>(
    m: seq<byte>, t: Tables, source: nat, gate: nat, cbCallgate: nat, hook: nat, cpu: Cpu<S>, anyState: S)
    requires BytesAt(m, source, CUT_PREFIX)
    requires t.one(0x8B) == OpInfo(1, true, false, false, false) && t.one(0xF3) == OpInfo(1, false, false, false, false)
    requires Ready(m, source, gate, cbCallgate, hook) && SelfDelimiting(cpu) && KnowsJmp(cpu) && KnowsPrefixedJmp(cpu)
    requires Plain(cpu, TWICE_EDI) && Plain(cpu, TO_ESI) && Plain(cpu, REP_MOVSD) && Plain(cpu, MOVSD)
    ensures var r := Installed(m, t, source, gate, cbCallgate, hook);
            && r.outcome == Ok && r.actual == 5 && !PreservesMeaning(cpu, m, r.memory, source, gate, 5)
            && forall s: S ::
                 var y := cpu.run(TO_ESI, source + 2, cpu.run(TWICE_EDI, source, s).state).state;
                 && Run(cpu, m, Machine(source, s), 3) == Some(Machine(source + 6, cpu.run(REP_MOVSD, source + 4, y).state))
                 && Run(cpu, r.memory, Machine(gate, s), 4) == Some(Machine(source + 6, cpu.run(MOVSD, source + 5, y).state))
  {
    hide Installed, SelfDelimiting, KnowsJmp, KnowsPrefixedJmp, StraightFrom, Covers, Whole, Layout, FinalTarget, PreservesMeaning, Relocated, BytesAt, Step, FirstBoundary, InStep, FallsThrough, IgnoresPlace, NoneRelative, Extent, Plain, JmpSequence, Run, Leaves;
    var m' := Installed(m, t, source, gate, cbCallgate, hook).memory;
    PrefixIsCut(m, t, source, gate, cbCallgate - SIZEOF_JMP64);
    FiveBytesAreMoved(m, t, source, gate, cbCallgate, hook);
    FirstThree(m, t, source);
    NothingBelow(m, t, source + 5, 0, source + 5);
    NoneRelativeFrom(m, t, source + 4, source + 5, 1, source + 5);
    NoneRelativeFrom(m, t, source + 2, source + 4, 3, source + 5);
    NoneRelativeFrom(m, t, source, source + 2, 5, source + 5);
    CopyIsStraightUpTo(cpu, m, source);
    var count := HookingPreservesMeaning(m, t, source, gate, cbCallgate, hook, cpu, anyState);
    PrefixedCallgateIs(m, m', source, gate, hook);
    PrefixLeaves(cpu, m', source, gate);
    forall s: S
      ensures var y := cpu.run(TO_ESI, source + 2, cpu.run(TWICE_EDI, source, s).state).state;
              && Run(cpu, m, Machine(source, s), 3) == Some(Machine(source + 6, cpu.run(REP_MOVSD, source + 4, y).state))
              && Run(cpu, m', Machine(gate, s), 4) == Some(Machine(source + 6, cpu.run(MOVSD, source + 5, y).state))
    {
      OriginalRepeats(cpu, m, source, s);
      CallgateDoesOnce(cpu, m', source, gate, s);
    }
  }

  /** Where the three instructions stand. */
  lemma PrefixParts(m: seq<byte>, p: nat)
    requires BytesAt(m, p, CUT_PREFIX)
    ensures BytesAt(m, p, TWICE_EDI) && BytesAt(m, p + 2, TO_ESI) && BytesAt(m, p + 4, REP_MOVSD) && BytesAt(m, p + 5, MOVSD)
  {
    Part(m, p, CUT_PREFIX, 0, 2);
    Part(m, p, CUT_PREFIX, 2, 4);
    Part(m, p, CUT_PREFIX, 4, 6);
    Part(m, p, CUT_PREFIX, 5, 6);
  }

  lemma CopyIsStraightUpTo<S(!new)>(cpu: Cpu<S>, m: seq<byte>, source: nat)
    requires BytesAt(m, source, CUT_PREFIX) && SelfDelimiting(cpu)
    requires Plain(cpu, TWICE_EDI) && Plain(cpu, TO_ESI) && Plain(cpu, REP_MOVSD)
    ensures StraightFrom(cpu, m, source, 5) && Whole(cpu, m, source, 5) == 4
  {
    hide SelfDelimiting, BytesAt, Extent, FallsThrough, IgnoresPlace, StraightFrom, Plain;
    PrefixParts(m, source);
    LengthIs(cpu, TWICE_EDI);
    LengthIs(cpu, TO_ESI);
    LengthIs(cpu, REP_MOVSD);
    PlainIsStraight(cpu, m, source + 4, REP_MOVSD, 1);
    PlainIsStraight(cpu, m, source + 2, TO_ESI, 3);
    PlainIsStraight(cpu, m, source, TWICE_EDI, 5);
    ExtentIs(cpu, m, source, TWICE_EDI);
    ExtentIs(cpu, m, source + 2, TO_ESI);
    ExtentIs(cpu, m, source + 4, REP_MOVSD);
    assert Whole(cpu, m, source + 4, 1) == 0;
    assert Whole(cpu, m, source + 2, 3) == 2;
  }

  /** The prefix and the jump of the callgate, one instruction of six bytes that leads to the fifth of the source. */
  predicate PrefixedJmpAt(m': seq<byte>, source: nat, gate: nat) {
    && gate + 10 <= |m'| < WORD && source + 5 < WORD && m'[gate + 4] == 0xF3
    && m'[gate + 5..gate + 10] == JmpSequence(GetDisplacement(gate + 5, source + 5))
  }

  lemma PrefixedCallgateIs(m: seq<byte>, m': seq<byte>, source: nat, gate: nat, hook: nat)
    requires Layout(m, m', source, gate, hook, 5) && BytesAt(m, source, CUT_PREFIX) && |m| < WORD
    requires source + 10 <= gate || gate + 10 <= source
    ensures BytesAt(m', gate, TWICE_EDI) && BytesAt(m', gate + 2, TO_ESI) && PrefixedJmpAt(m', source, gate)
    ensures BytesAt(m', source + 5, MOVSD)
  {
    hide GetDisplacement, JmpSequence, Same;
    CodeStands(m, m', source, gate, hook, 5);
    var moved := m[source..source + 5];
    assert moved == m[source..source + 6][..5] == CUT_PREFIX[..5];
    assert BytesAt(m', gate, moved);
    Part(m', gate, moved, 0, 2);
    Part(m', gate, moved, 2, 4);
    assert moved[0..2] == TWICE_EDI && moved[2..4] == TO_ESI;
    assert m'[gate + 4] == m'[gate..gate + 5][4];
    assert m'[source + 5] == m[source + 5] == m[source..source + 6][5];
  }

  lemma PrefixedJmpIsRun<S(!new)>(cpu: Cpu<S>, m': seq<byte>, source: nat, gate: nat, s: S)
    requires SelfDelimiting(cpu) && KnowsPrefixedJmp(cpu) && PrefixedJmpAt(m', source, gate)
    ensures Step(cpu, m', Machine(gate + 4, s)) == Some(Machine(source + 5, s))
  {
    hide GetDisplacement, LittleEndian, SelfDelimiting, Extent;
    var jump := JmpSequence(GetDisplacement(gate + 5, source + 5));
    var b := m'[gate + 4..gate + 10];
    assert b == [0xF3] + jump by {
      assert b == [m'[gate + 4]] + m'[gate + 5..gate + 10];
    }
    assert b[1] == jump[0] == JMP32;
    ExtentIs(cpu, m', gate + 4, b);
    JumpLeadsToTarget(m', gate + 5, source + 5);
    assert m'[gate + 5] == b[1];
    assert Word(m', gate + 6) == Word(b, 2);
    assert cpu.run(b, gate + 4, s) == Machine(Wrap32(gate + 4 + Signed32(Word(b, 2)) + 6), s);
  }

  lemma PrefixLeaves<S(!new)>(cpu: Cpu<S>, m': seq<byte>, source: nat, gate: nat)
    requires SelfDelimiting(cpu) && KnowsPrefixedJmp(cpu) && PrefixedJmpAt(m', source, gate)
    requires source + 10 <= gate || gate + 10 <= source
    ensures Leaves(cpu, m', gate, 5, 4)
  {
    hide SelfDelimiting, KnowsPrefixedJmp, PrefixedJmpAt, Step;
    forall s: S ensures StepLeaves(cpu, m', gate, 5, 4, s) {
      PrefixedJmpIsRun(cpu, m', source, gate, s);
    }
  }

  lemma OriginalRepeats<S(!new)>(cpu: Cpu<S>, m: seq<byte>, source: nat, s: S)
    requires SelfDelimiting(cpu) && Plain(cpu, TWICE_EDI) && Plain(cpu, TO_ESI) && Plain(cpu, REP_MOVSD)
    requires BytesAt(m, source, CUT_PREFIX)
    ensures var y := cpu.run(TO_ESI, source + 2, cpu.run(TWICE_EDI, source, s).state).state;
            Run(cpu, m, Machine(source, s), 3) == Some(Machine(source + 6, cpu.run(REP_MOVSD, source + 4, y).state))
  {
    hide SelfDelimiting, BytesAt, Step, Plain;
    PrefixParts(m, source);
    var x := cpu.run(TWICE_EDI, source, s).state;
    var y := cpu.run(TO_ESI, source + 2, x).state;
    PlainStep(cpu, m, source, TWICE_EDI, s);
    PlainStep(cpu, m, source + 2, TO_ESI, x);
    PlainStep(cpu, m, source + 4, REP_MOVSD, y);
    OneMore(cpu, m, Machine(source, s), Machine(source + 2, x));
    RunGoesOn(cpu, m, Machine(source, s), 2, Machine(source + 4, y));
  }

  lemma CallgateDoesOnce<S(!new)>(cpu: Cpu<S>, m': seq<byte>, source: nat, gate: nat, s: S)
    requires SelfDelimiting(cpu) && Plain(cpu, TWICE_EDI) && Plain(cpu, TO_ESI) && Plain(cpu, MOVSD)
    requires KnowsPrefixedJmp(cpu) && PrefixedJmpAt(m', source, gate)
    requires BytesAt(m', gate, TWICE_EDI) && BytesAt(m', gate + 2, TO_ESI) && BytesAt(m', source + 5, MOVSD)
    ensures var y := cpu.run(TO_ESI, source + 2, cpu.run(TWICE_EDI, source, s).state).state;
            Run(cpu, m', Machine(gate, s), 4) == Some(Machine(source + 6, cpu.run(MOVSD, source + 5, y).state))
  {
    hide SelfDelimiting, BytesAt, Step, KnowsPrefixedJmp, PrefixedJmpAt;
    var x := cpu.run(TWICE_EDI, source, s).state;
    var y := cpu.run(TO_ESI, source + 2, x).state;
    assert x == cpu.run(TWICE_EDI, gate, s).state && y == cpu.run(TO_ESI, gate + 2, x).state;
    PlainStep(cpu, m', gate, TWICE_EDI, s);
    PlainStep(cpu, m', gate + 2, TO_ESI, x);
    PrefixedJmpIsRun(cpu, m', source, gate, y);
    PlainStep(cpu, m', source + 5, MOVSD, y);
    OneMore(cpu, m', Machine(gate, s), Machine(gate + 2, x));
    RunGoesOn(cpu, m', Machine(gate, s), 2, Machine(gate + 4, y));
    RunGoesOn(cpu, m', Machine(gate, s), 3, Machine(source + 5, y));
  }
}
