/**
 A reference for the lengths of instructions. It knows what operands an opcode has, and how wide those are, and
 has nothing to do with the records of the relocator; what such records have to be is stated of them.
 */
module X86Reference {
  import opened Bytes
  import opened X86

  /** What may follow the opcode and the addressing bytes. ImmFull is as wide as operands are, ImmAddress as addresses. */
  datatype Operand = Imm8 | Imm16 | ImmFull | ImmAddress

  function Width(o: Operand, pre: Prefixes): nat {
    match o
    case Imm8 => 1
    case Imm16 => 2
    case ImmFull => if pre.operand then 2 else 4
    case ImmAddress => if pre.address then 2 else 4
  }

  function Total(operands: seq<Operand>, pre: Prefixes): nat {
    if operands == [] then 0 else Width(operands[0], pre) + Total(operands[1..], pre)
  }

  datatype Format = Format(modRM: bool, operands: seq<Operand>)

  /** The formats of the opcodes of one byte, and of those behind 0F. */
  datatype Formats = Formats(one: byte -> Format, two: byte -> Format) {
    function Of(behind0F: bool, opcode: byte): Format { if behind0F then two(opcode) else one(opcode) }
  }

  /** In the groups F6 and F7 only TEST has an immediate; the far pointers of FF are in memory. */
  predicate Groups(f: Formats) {
    forall behind0F: bool, opcode: byte | opcode in {0xF6, 0xF7, 0xFF} :: f.Of(behind0F, opcode) == Format(true, [])
  }

  function OperandsOf(f: Formats, behind0F: bool, opcode: byte, modRM: byte): seq<Operand> {
    if !behind0F && opcode == 0xF6 && modRM / 8 % 8 == 0 then [Imm8]
    else if !behind0F && opcode == 0xF7 && modRM / 8 % 8 == 0 then [ImmFull]
    else f.Of(behind0F, opcode).operands
  }

  predicate HasSIB(pre: Prefixes, modRM: byte) { !pre.address && modRM < 0xC0 && modRM % 8 == 4 }

  /** The end of the instruction with its opcode at p; None when it is cut off by the end of memory. */
  function EndOf(code: seq<byte>, p: nat, behind0F: bool, f: Formats, pre: Prefixes): Option<nat>
    requires p < |code|
  {
    var format := f.Of(behind0F, code[p]);
    if !format.modRM then Some(p + 1 + Total(format.operands, pre))
    else if p + 1 >= |code| then None
    else
      var modRM := code[p + 1];
      var operands := Total(OperandsOf(f, behind0F, code[p], modRM), pre);
      if !HasSIB(pre, modRM) then Some(p + 2 + DisplacementSize(pre, modRM, 0) + operands)
      else if p + 2 >= |code| then None
      else Some(p + 3 + DisplacementSize(pre, modRM, code[p + 2]) + operands)
  }

  /** The end of the instruction at p, behind the prefixes 66 and 67. */
  function ReferenceEnd(code: seq<byte>, f: Formats, p: nat, pre: Prefixes): Option<nat>
    decreases |code| - p
  {
    if p >= |code| then None
    else if code[p] == 0x66 then ReferenceEnd(code, f, p + 1, Prefixes(true, pre.address))
    else if code[p] == 0x67 then ReferenceEnd(code, f, p + 1, Prefixes(pre.operand, true))
    else if code[p] == 0x0F then
      if p + 1 >= |code| then None else EndOf(code, p + 1, true, f, pre)
    else EndOf(code, p, false, f, pre)
  }

  // ----- the records

  const NARROW := Prefixes(true, true)

  /**
   The rules for a record: its size is that of the opcode and its operands when everything has 16 bits, and it
   says whether an immediate or an address may be wider.
   */
  predicate RowFits(info: OpInfo, format: Format) {
    && info.size == 1 + Total(format.operands, NARROW) && info.modRM == format.modRM
    && (info.extend32 <==> ImmFull in format.operands) && (info.isAddress <==> ImmAddress in format.operands)
    && multiset(format.operands)[ImmFull] <= 1 && multiset(format.operands)[ImmAddress] <= 1
  }

  lemma {:induction false} TotalIs(operands: seq<Operand>, pre: Prefixes)
    ensures Total(operands, pre) == Total(operands, NARROW)
            + (if pre.operand then 0 else 2 * multiset(operands)[ImmFull])
            + (if pre.address then 0 else 2 * multiset(operands)[ImmAddress])
  {
    if operands != [] {
      TotalIs(operands[1..], pre);
      assert operands == [operands[0]] + operands[1..];
    }
  }

  /** A record that keeps to the rules measures opcode and operands rightly, behind all prefixes. */
  lemma RowMeasures(info: OpInfo, format: Format, pre: Prefixes)
    requires RowFits(info, format)
    ensures SizeOfOpCode(info, pre) == 1 + Total(format.operands, pre)
  {
    TotalIs(format.operands, pre);
    assert forall o :: o in format.operands <==> multiset(format.operands)[o] > 0;
  }

  // ----- the relocator against the reference

  /** The opcode at p is followed by a SIB byte of base 5, in a mode other than 0. */
  predicate TwiceCounted(code: seq<byte>, p: nat, pre: Prefixes) {
    p + 2 < |code| && HasSIB(pre, code[p + 1]) && code[p + 2] % 8 == 5 && code[p + 1] >= 0x40
  }

  /** Opcodes behind 0F that are taken for TEST, and far pointers in memory that are taken for immediates. */
  predicate Misadjusted(code: seq<byte>, p: nat, behind0F: bool, pre: Prefixes) {
    && p + 1 < |code| && (HasSIB(pre, code[p + 1]) ==> p + 2 < |code|)
    && ((behind0F && code[p] in {0xF6, 0xF7} && code[p + 1] / 8 % 8 == 0)
        || (code[p] == 0xFF && code[p + 1] / 8 % 8 in {3, 5}))
  }

  predicate MiscountedAt(code: seq<byte>, f: Formats, p: nat, behind0F: bool, pre: Prefixes)
    requires p < |code|
  {
    f.Of(behind0F, code[p]).modRM && (TwiceCounted(code, p, pre) || Misadjusted(code, p, behind0F, pre))
  }

  predicate Miscounts(code: seq<byte>, f: Formats, p: nat, pre: Prefixes)
    decreases |code| - p
  {
    p < |code| &&
    if code[p] == 0x66 then Miscounts(code, f, p + 1, Prefixes(true, pre.address))
    else if code[p] == 0x67 then Miscounts(code, f, p + 1, Prefixes(pre.operand, true))
    else if code[p] == 0x0F then p + 1 < |code| && MiscountedAt(code, f, p + 1, true, pre)
    else MiscountedAt(code, f, p, false, pre)
  }

  /** The record that is looked up for the instruction at p keeps to the rules. */
  predicate RowFitsAt(code: seq<byte>, t: Tables, f: Formats, p: nat)
    decreases |code| - p
  {
    if p >= |code| then true
    else if code[p] == 0x66 || code[p] == 0x67 then RowFitsAt(code, t, f, p + 1)
    else if code[p] == 0x0F then p + 1 < |code| ==> RowFits(t.two(code[p + 1]), f.two(code[p + 1]))
    else RowFits(t.one(code[p]), f.one(code[p]))
  }

  function EndIn(r: Instruction): Option<nat> { if r.Instruction? then Some(r.end) else None }

  lemma AdjustedMeasures(info: OpInfo, f: Formats, behind0F: bool, opcode: byte, modRM: byte, pre: Prefixes)
    requires Groups(f) && RowFits(info, f.Of(behind0F, opcode))
    ensures var size := SizeOfOpCode(Adjusted(info, opcode, modRM), pre);
            var right := 1 + Total(OperandsOf(f, behind0F, opcode, modRM), pre);
            if (behind0F && opcode in {0xF6, 0xF7} && modRM / 8 % 8 == 0) || (opcode == 0xFF && modRM / 8 % 8 in {3, 5})
            then size > right else size == right
  {
    PartsOfByte(modRM);
    RowMeasures(info, f.Of(behind0F, opcode), pre);
    if opcode in {0xF6, 0xF7, 0xFF} {
      assert f.Of(behind0F, opcode) == Format(true, []);
      assert [Imm8][1..] == [] && [ImmFull][1..] == [];
    }
  }

  lemma OperandsAgree(code: seq<byte>, p: nat, info: OpInfo, f: Formats, behind0F: bool, pre: Prefixes)
    requires p < |code| && Groups(f) && RowFits(info, f.Of(behind0F, code[p]))
    ensures EndIn(Operands(code, p, info, pre)) == EndOf(code, p, behind0F, f, pre)
            <==> !MiscountedAt(code, f, p, behind0F, pre)
  {
    hide Adjusted, SizeOfOpCode, Total, OperandsOf;
    if !info.modRM {
      RowMeasures(info, f.Of(behind0F, code[p]), pre);
    } else if p + 1 < |code| {
      var modRM, sib := code[p + 1], if p + 2 < |code| then code[p + 2] else 0;
      AdjustedMeasures(info, f, behind0F, code[p], modRM, pre);
      AddressingIs(pre, modRM, sib);
    }
  }

  /** The addressing bytes are counted exactly twice, or rightly. */
  lemma AddressingIs(pre: Prefixes, modRM: byte, sib: byte)
    ensures IsEncodedSIB(pre, modRM) <==> HasSIB(pre, modRM)
    ensures !HasSIB(pre, modRM) ==> SizeOfModRM(pre, modRM) == DisplacementSize(pre, modRM, 0)
    ensures HasSIB(pre, modRM) ==>
              var size := SizeOfModRM(pre, modRM) + SizeOfSIB(modRM, sib);
              size == (if sib % 8 == 5 && modRM >= 0x40 then 2 else 1) * DisplacementSize(pre, modRM, sib)
              && (modRM >= 0x40 ==> DisplacementSize(pre, modRM, sib) > 0)
  {
    PartsOfByte(modRM);
    PartsOfByte(sib);
  }

  /**
   With records that keep to the rules, the relocator finds the end of an instruction exactly when it does not
   count a displacement twice, and does not take for an immediate what is none.
   */
  lemma {:induction false} ReferenceAgrees(code: seq<byte>, t: Tables, f: Formats, p: nat, pre: Prefixes)
    requires Groups(f) && RowFitsAt(code, t, f, p) && !DecodeAt(code, t, p, pre).Return?
    ensures EndIn(DecodeAt(code, t, p, pre)) == ReferenceEnd(code, f, p, pre) <==> !Miscounts(code, f, p, pre)
    decreases |code| - p
  {
    hide Operands, EndOf, RowFits, MiscountedAt, Groups;
    if p < |code| {
      if code[p] == 0x66 {
        ReferenceAgrees(code, t, f, p + 1, Prefixes(true, pre.address));
      } else if code[p] == 0x67 {
        ReferenceAgrees(code, t, f, p + 1, Prefixes(pre.operand, true));
      } else if code[p] == 0x0F {
        if p + 1 < |code| { OperandsAgree(code, p + 1, t.two(code[p + 1]), f, true, pre); }
      } else {
        OperandsAgree(code, p, t.one(code[p]), f, false, pre);
      }
    }
  }

  /** Copying stops at the five instructions that return. */
  lemma {:induction false} ReturnsAre(code: seq<byte>, t: Tables, p: nat, pre: Prefixes)
    requires p < |code| && code[p] != 0x66 && code[p] != 0x67
    ensures DecodeAt(code, t, p, pre).Return? <==> code[p] in {0xC2, 0xC3, 0xCA, 0xCB, 0xCF}
  {
    hide Operands;
  }

  /** An opcode without a record is taken for an instruction of one byte, whatever follows it. */
  lemma UnknownIsOneByte(code: seq<byte>, t: Tables, p: nat, pre: Prefixes)
    requires p < |code| && code[p] !in {0x66, 0x67, 0x0F, 0xC2, 0xC3, 0xCA, 0xCB, 0xCF} && t.one(code[p]).size == 0
    ensures DecodeAt(code, t, p, pre) == Instruction(p + 1, None)
  {
  }

  // ----- the instructions with immediates, by example

  predicate StartsWith(code: seq<byte>, bytes: seq<byte>) { |bytes| <= |code| && code[..|bytes|] == bytes }

  /** mov eax,imm and push imm: 32 bits, or 16 behind 66. */
  lemma ImmediateSizes(code: seq<byte>, t: Tables)
    requires t.one(0xB8) == OpInfo(3, false, true, false, false) && t.one(0x68) == OpInfo(3, false, true, false, false)
    ensures StartsWith(code, [0xB8]) || StartsWith(code, [0x68]) ==> Decode(code, t, 0) == Instruction(5, None)
    ensures StartsWith(code, [0x66, 0xB8]) || StartsWith(code, [0x66, 0x68]) ==> Decode(code, t, 0) == Instruction(4, None)
  {
    FirstBytes(code);
    Behind66(code, t);
  }

  lemma Behind66(code: seq<byte>, t: Tables)
    ensures |code| > 0 && code[0] == 0x66 ==> Decode(code, t, 0) == DecodeAt(code, t, 1, Prefixes(true, false))
  {
  }

  lemma FirstBytes(code: seq<byte>)
    ensures forall a: byte :: StartsWith(code, [a]) ==> code[0] == a
    ensures forall a: byte, b: byte :: StartsWith(code, [a, b]) ==> code[0] == a && code[1] == b
    ensures forall a: byte, b: byte, c: byte :: StartsWith(code, [a, b, c]) ==> code[0] == a && code[1] == b && code[2] == c
  {
    if |code| >= 1 { assert code[0] == code[..1][0]; }
    if |code| >= 2 { assert code[0] == code[..2][0] && code[1] == code[..2][1]; }
    if |code| >= 3 { assert code[0] == code[..3][0] && code[1] == code[..3][1] && code[2] == code[..3][2]; }
  }

  /** TEST with a register: one byte of immediate for F6, and an operand's width for F7. */
  lemma TestSizes(code: seq<byte>, t: Tables)
    requires t.one(0xF6) == OpInfo(1, true, false, false, false) && t.one(0xF7) == OpInfo(1, true, false, false, false)
    ensures StartsWith(code, [0xF6, 0xC0]) ==> Decode(code, t, 0) == Instruction(3, None)
    ensures StartsWith(code, [0xF7, 0xC0]) ==> Decode(code, t, 0) == Instruction(6, None)
    ensures StartsWith(code, [0x66, 0xF6, 0xC0]) ==> Decode(code, t, 0) == Instruction(4, None)
    ensures StartsWith(code, [0x66, 0xF7, 0xC0]) ==> Decode(code, t, 0) == Instruction(5, None)
    ensures StartsWith(code, [0xF6, 0xD0]) || StartsWith(code, [0xF7, 0xD0]) ==> Decode(code, t, 0) == Instruction(2, None)
  {
    FirstBytes(code);
    Behind66(code, t);
  }

  /** call and jcc: a relative operand of 32 bits, or of 16 behind 66. jcc short: one of 8. */
  lemma RelativeSizes(code: seq<byte>, t: Tables)
    requires t.one(0xE8) == OpInfo(3, false, true, false, true) && t.two(0x84) == OpInfo(3, false, true, false, true)
    requires t.one(0x74) == OpInfo(2, false, false, false, true)
    ensures StartsWith(code, [0xE8]) ==> Decode(code, t, 0) == Instruction(5, Some(4))
    ensures StartsWith(code, [0x66, 0xE8]) ==> Decode(code, t, 0) == Instruction(4, Some(2))
    ensures StartsWith(code, [0x0F, 0x84]) ==> Decode(code, t, 0) == Instruction(6, Some(4))
    ensures StartsWith(code, [0x74]) || StartsWith(code, [0x66, 0x74]) ==>
              Decode(code, t, 0) == Instruction(if code[0] == 0x66 then 3 else 2, Some(1))
  {
    FirstBytes(code);
    Behind66(code, t);
  }

  /**
   call and jmp through a far pointer in memory: four bytes too many, or two behind 66, and a displacement that
   is none.
   */
  lemma FarSizes(code: seq<byte>, t: Tables)
    requires t.one(0xFF) == OpInfo(1, true, false, false, false)
    ensures StartsWith(code, [0xFF, 0x18]) || StartsWith(code, [0xFF, 0x28]) ==> Decode(code, t, 0) == Instruction(6, Some(4))
    ensures StartsWith(code, [0x66, 0xFF, 0x18]) || StartsWith(code, [0x66, 0xFF, 0x28]) ==>
              Decode(code, t, 0) == Instruction(5, Some(2))
    ensures StartsWith(code, [0xFF, 0x20]) ==> Decode(code, t, 0) == Instruction(2, Some(0))
    ensures StartsWith(code, [0xFF, 0x10]) ==> Decode(code, t, 0) == Instruction(2, None)
  {
    FirstBytes(code);
    Behind66(code, t);
  }
}
