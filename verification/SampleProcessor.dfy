/** A processor that knows the instructions of the two cuts, and what hooking them does to its registers. */
module SampleProcessor {
  import opened Bytes
  import opened Hook
  import opened HookCuts
  import opened HookMeaning
  import opened Jumps
  import opened Processor
  import opened Relocation
  import opened X86

  /** The registers that matter, and how many double words were moved. */
  datatype Registers = Registers(eax: int, ecx: int, ebp: int, esi: int, moved: int)

  function Length(b: seq<byte>): Option<nat> {
    if |b| >= 5 && b[0] == JMP32 then Some(5)
    else if |b| >= 6 && b[0] == 0xF3 && b[1] == JMP32 then Some(6)
    else if |b| >= 2 && b[0] == 0xF3 && b[1] == 0xA5 then Some(2)
    else if |b| >= 1 && b[0] == 0xA5 then Some(1)
    else if |b| >= 4 && b[0] == 0x8B && b[1] == 0x44 then Some(4)
    else if |b| >= 2 && b[0] == 0x8B && b[1] != 0x44 then Some(2)
    else None
  }

  /** What an instruction does to the registers; a load has the sum of its operands for its result. */
  function Effect(b: seq<byte>, s: Registers): Registers {
    if b == LOAD then s.(eax := s.ebp + s.esi + 8)
    else if b == FROM_ECX then s.(eax := s.ecx)
    else if b == TO_EBP then s.(ebp := s.ecx)
    else if b == TO_ESI then s.(esi := s.eax)
    else if b == REP_MOVSD then s.(moved := s.moved + s.ecx, ecx := 0)
    else if b == MOVSD then s.(moved := s.moved + 1)
    else s
  }

  function Execute(b: seq<byte>, pc: nat, s: Registers): Machine<Registers> {
    if |b| == 5 && b[0] == JMP32 then Machine(Wrap32(pc + Signed32(Word(b, 1)) + 5), s)
    else if |b| == 6 && b[0] == 0xF3 && b[1] == JMP32 then Machine(Wrap32(pc + Signed32(Word(b, 2)) + 6), s)
    else Machine(pc + |b|, Effect(b, s))
  }

  const CPU: Cpu<Registers> := Cpu(Length, Execute)

  lemma LengthIsDelimited(a: seq<byte>, b: seq<byte>)
    ensures Delimited(CPU, a, b)
  {
    match Length(a)
    case None =>
    case Some(n) =>
      if n <= |a| && n <= |b| && a[..n] == b[..n] {
        assert a[0] == a[..n][0] == b[..n][0] == b[0];
        if n > 1 { assert a[1] == a[..n][1] == b[..n][1] == b[1]; }
      }
  }

  lemma CpuIsFit()
    ensures SelfDelimiting(CPU) && KnowsJmp(CPU) && KnowsPrefixedJmp(CPU)
  {
    hide Word;
    forall a, b ensures Delimited(CPU, a, b) { LengthIsDelimited(a, b); }
  }

  lemma CpuKnows(bytes: seq<byte>)
    requires bytes in {LOAD, FROM_ECX, TO_EBP, TWICE_EDI, TO_ESI, REP_MOVSD, MOVSD}
    ensures Plain(CPU, bytes)
    ensures forall pc: nat, s: Registers :: CPU.run(bytes, pc, s) == Machine(pc + |bytes|, Effect(bytes, s))
  {
  }

  const TABLES := Tables(b => OpInfo(1, b == 0x8B, false, false, false), b => OpInfo(1, false, false, false, false))

  /** The code of a procedure at 0, a callgate of 20 bytes at 20, and a hook at 60, all else zeros. */
  function Memory(code: seq<byte>): (m: seq<byte>)
    requires |code| == 6
    ensures |m| == 64
  {
    code + seq(58, _ => 0)
  }

  lemma MemoryIsReady(code: seq<byte>)
    requires |code| == 6 && code[0] == 0x8B
    ensures Ready(Memory(code), 0, 20, 20, 60) && BytesAt(Memory(code), 0, code)
  {
    var m := Memory(code);
    StaysPut(m, 0);
    StaysPut(m, 20);
    StaysPut(m, 60);
    assert m[0..6] == code;
  }

  lemma StaysPut(m: seq<byte>, p: nat)
    requires p < |m| && (m[p] == 0x8B || m[p] == 0)
    ensures FinalTarget(m, p) == Some(p)
  {
  }

  /** Hooked, mov eax,ecx writes to ebp instead: the states differ unless ebp was equal to ecx already. */
  lemma SampleIsCutInside(s: Registers)
    ensures var m := Memory(CUT_INSIDE);
            var r := Installed(m, TABLES, 0, 20, 20, 60);
            var x, y := Run(CPU, m, Machine(0, s), 2), Run(CPU, r.memory, Machine(20, s), 2);
            && r.outcome == Ok && !PreservesMeaning(CPU, m, r.memory, 0, 20, 5)
            && x.Some? && y.Some? && x.value.state.eax == s.ecx && x.value.state.ebp == s.ebp
            && y.value.state.eax == s.ebp + s.esi + 8 && y.value.state.ebp == s.ecx
            && (s.ebp != s.ecx ==> x.value.state != y.value.state)
  {
    hide Installed, PreservesMeaning, Run, Plain, SelfDelimiting, KnowsJmp, Ready, BytesAt, Execute, Length;
    var m := Memory(CUT_INSIDE);
    CpuIsFit();
    CpuKnows(LOAD);
    CpuKnows(FROM_ECX);
    CpuKnows(TO_EBP);
    MemoryIsReady(CUT_INSIDE);
    CutInsideInstruction(m, TABLES, 0, 20, 20, 60, CPU, s);
  }

  /** Hooked, rep movsd moves one double word, instead of as many as ecx says. */
  lemma SampleIsCutBehindPrefix(s: Registers)
    ensures var m := Memory(CUT_PREFIX);
            var r := Installed(m, TABLES, 0, 20, 20, 60);
            var x, y := Run(CPU, m, Machine(0, s), 3), Run(CPU, r.memory, Machine(20, s), 4);
            && r.outcome == Ok && !PreservesMeaning(CPU, m, r.memory, 0, 20, 5)
            && x.Some? && y.Some? && x.value.pc == 6 == y.value.pc
            && x.value.state.moved == s.moved + s.ecx && y.value.state.moved == s.moved + 1
  {
    hide Installed, PreservesMeaning, Run, Plain, SelfDelimiting, KnowsJmp, KnowsPrefixedJmp, Ready, BytesAt, Execute, Length;
    var m := Memory(CUT_PREFIX);
    CpuIsFit();
    CpuKnows(TWICE_EDI);
    CpuKnows(TO_ESI);
    CpuKnows(REP_MOVSD);
    CpuKnows(MOVSD);
    MemoryIsReady(CUT_PREFIX);
    CutBehindPrefix(m, TABLES, 0, 20, 20, 60, CPU, s);
  }
}
