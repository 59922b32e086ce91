/** As much of the decoding of an instruction as it takes to know where the instruction ends. */
module X86 {
  import opened Bytes

  type size3 = x: int | 0 <= x < 8

  /** The record of an opcode. Its size leaves out addressing bytes, and 32-bit operands count as 16. */
  datatype OpInfo = OpInfo(size: size3, modRM: bool, extend32: bool, isAddress: bool, isRelative: bool)

  /** The records of the opcodes of one byte, and of those behind 0F. */
  datatype Tables = Tables(one: byte -> OpInfo, two: byte -> OpInfo) {
    function Info(behind0F: bool, opcode: byte): OpInfo { if behind0F then two(opcode) else one(opcode) }
  }

  /** Prefixes seen so far: 66 for the operand size, 67 for the address size. */
  datatype Prefixes = Prefixes(operand: bool, address: bool)

  const NO_PREFIX := Prefixes(false, false)

  const OPERAND_SIZE: byte := 0x66
  const ADDRESS_SIZE: byte := 0x67
  const TWO_BYTE: byte := 0x0F

  predicate IsReturn(b: byte) { b == 0xC2 || b == 0xC3 || b == 0xCA || b == 0xCB || b == 0xCF }

  // The three parts of a ModRM byte; those of a SIB byte lie in the same places.
  function Mod(b: byte): nat { b / 64 }
  function Reg(b: byte): nat { b / 8 % 8 }
  function RM(b: byte): nat { b % 8 }

  lemma PartsOfByte(b: byte)
    ensures b == 64 * Mod(b) + 8 * Reg(b) + RM(b) && Mod(b) < 4 && Reg(b) < 8 && RM(b) < 8
  {
  }

  predicate IsEncodedSIB(pre: Prefixes, modRM: byte) { !pre.address && Mod(modRM) != 3 && RM(modRM) == 4 }

  function SizeOfModRM(pre: Prefixes, modRM: byte): nat {
    match Mod(modRM)
    case 0 => if pre.address then (if RM(modRM) == 6 then 2 else 0) else if RM(modRM) == 5 then 4 else 0
    case 1 => 1
    case 2 => if pre.address then 2 else 4
    case _ => 0
  }

  function SizeOfSIB(modRM: byte, sib: byte): nat {
    if RM(sib) != 5 then 0
    else match Mod(modRM)
      case 0 => 4
      case 1 => 1
      case 2 => 4
      case _ => 0
  }

  function SizeOfOpCode(info: OpInfo, pre: Prefixes): nat {
    info.size
    + (if info.isAddress && !pre.address then 2 else 0)
    + (if info.extend32 && !pre.operand then 2 else 0)
  }

  /** The size of a displacement, from the ModRM and SIB bytes together, as the processor reads them. */
  function DisplacementSize(pre: Prefixes, modRM: byte, sib: byte): nat {
    if Mod(modRM) == 3 then 0
    else if Mod(modRM) == 1 then 1
    else if Mod(modRM) == 2 then if pre.address then 2 else 4
    else if pre.address then if RM(modRM) == 6 then 2 else 0
    else if RM(modRM) == 5 || (RM(modRM) == 4 && RM(sib) == 5) then 4
    else 0
  }

  /**
   The two bytes are measured one by one. The sum is right except where both account for the same
   displacement: with a SIB byte of base 5, unless the mode is 0.
   */
  lemma AddressingSize(pre: Prefixes, modRM: byte, sib: byte)
    ensures SizeOfModRM(pre, modRM) + (if IsEncodedSIB(pre, modRM) then SizeOfSIB(modRM, sib) else 0)
            == DisplacementSize(pre, modRM, sib)
            <==> !(IsEncodedSIB(pre, modRM) && RM(sib) == 5 && Mod(modRM) != 0)
  {
  }

  /** The instructions whose size depends on the ModRM byte. The sum is kept in three bits. */
  function Adjusted(info: OpInfo, opcode: byte, modRM: byte): OpInfo {
    if opcode == 0xF6 && Reg(modRM) == 0 then info.(size := (info.size + 1) % 8)
    else if opcode == 0xF7 && Reg(modRM) == 0 then info.(size := (info.size + 2) % 8, extend32 := true)
    else if opcode == 0xFF && (Reg(modRM) == 3 || Reg(modRM) == 5) then
      info.(size := 3, extend32 := true, isRelative := true)
    else if opcode == 0xFF && Reg(modRM) == 4 then info.(isRelative := true)
    else info
  }

  /**
   Where an instruction ends, and the width of the displacement that it ends in if it is relative; a return,
   at which copying stops; or a read outside memory.
   */
  datatype Instruction = Instruction(end: nat, relative: Option<byte>) | Return | Fault

  /** The width is what is left of the size behind one byte of opcode, kept in eight bits. */
  function Field(info: OpInfo, pre: Prefixes): Option<byte> {
    if info.isRelative then Some(Wrap8(SizeOfOpCode(info, pre) - 1)) else None
  }

  predicate FieldInside(r: Instruction, p: nat) {
    r.Instruction? ==> p < r.end && (r.relative.Some? && r.relative.value < 255 ==> p + r.relative.value < r.end)
  }

  /** An opcode without a size is taken for one byte; none of these is relative. */
  function Operands(code: seq<byte>, p: nat, info: OpInfo, pre: Prefixes): (r: Instruction)
    requires p < |code|
    ensures !r.Return? && FieldInside(r, p)
  {
    if info.size == 0 then Instruction(p + 1, None)
    else if !info.modRM then Instruction(p + SizeOfOpCode(info, pre), Field(info, pre))
    else if p + 1 >= |code| then Fault
    else
      var modRM := code[p + 1];
      var adjusted := Adjusted(info, code[p], modRM);
      var size := SizeOfModRM(pre, modRM) + SizeOfOpCode(adjusted, pre);
      if !IsEncodedSIB(pre, modRM) then Instruction(p + 1 + size, Field(adjusted, pre))
      else if p + 2 >= |code| then Fault
      else Instruction(p + 2 + SizeOfSIB(modRM, code[p + 2]) + size, Field(adjusted, pre))
  }

  function DecodeAt(code: seq<byte>, t: Tables, p: nat, pre: Prefixes): (r: Instruction)
    ensures FieldInside(r, p)
    decreases |code| - p
  {
    if p >= |code| then Fault
    else if code[p] == OPERAND_SIZE then DecodeAt(code, t, p + 1, pre.(operand := true))
    else if code[p] == ADDRESS_SIZE then DecodeAt(code, t, p + 1, pre.(address := true))
    else if code[p] == TWO_BYTE then
      if p + 1 >= |code| then Fault else Operands(code, p + 1, t.Info(true, code[p + 1]), pre)
    else if IsReturn(code[p]) then Return
    else Operands(code, p, t.Info(false, code[p]), pre)
  }

  /** The instruction that begins at p. */
  function Decode(code: seq<byte>, t: Tables, p: nat): (r: Instruction)
    ensures FieldInside(r, p)
  {
    DecodeAt(code, t, p, NO_PREFIX)
  }

  /** The sums kept in three bits never wrap around. */
  predicate NoWrap(t: Tables) {
    forall behind0F: bool :: t.Info(behind0F, 0xF6).size < 7 && t.Info(behind0F, 0xF7).size < 6
  }

  /**
   How many bytes behind an instruction its decoding may look at. A size that wraps around to zero
   leaves the ModRM byte outside the instruction.
   */
  function Lookahead(t: Tables): nat { if NoWrap(t) then 0 else 1 }

  predicate Has(b: seq<byte>, i: int, value: byte) { 0 <= i < |b| && b[i] == value }

  /** The bytes of a from p up to end stand in b as well, d places further on. */
  predicate Same(a: seq<byte>, p: nat, end: nat, b: seq<byte>, d: int) {
    forall k {:trigger a[k]} | p <= k < end && k < |a| :: Has(b, k + d, a[k])
  }

  function Moved(r: Instruction, d: int): Instruction
    requires r.Instruction? ==> 0 <= r.end + d
  {
    if r.Instruction? then r.(end := r.end + d) else r
  }

  lemma OperandsMove(a: seq<byte>, p: nat, b: seq<byte>, d: int, t: Tables, behind0F: bool, pre: Prefixes)
    requires p < |a| && 0 <= p + d < |b| && a[p] == b[p + d]
    requires var info := t.Info(behind0F, a[p]);
             var r := Operands(a, p, info, pre); r.Instruction? && Same(a, p, r.end + Lookahead(t), b, d)
    ensures var info := t.Info(behind0F, a[p]);
            Operands(b, p + d, info, pre) == Moved(Operands(a, p, info, pre), d)
  {
    var info := t.Info(behind0F, a[p]);
    if info.size != 0 && info.modRM {
      assert a[p + 1] == b[p + 1 + d];
      if IsEncodedSIB(pre, a[p + 1]) {
        assert a[p + 2] == b[p + 2 + d];
      }
    }
  }

  /** How long an instruction is depends on its own bytes and the lookahead only, not on its place. */
  lemma {:induction false} DecodingMoves(a: seq<byte>, p: nat, b: seq<byte>, d: int, t: Tables, pre: Prefixes)
    requires var r := DecodeAt(a, t, p, pre); r.Instruction? && Same(a, p, r.end + Lookahead(t), b, d)
    ensures 0 <= p + d && DecodeAt(b, t, p + d, pre) == Moved(DecodeAt(a, t, p, pre), d)
    decreases |a| - p
  {
    hide Operands, NoWrap, Lookahead;
    assert a[p] == b[p + d];
    if a[p] == OPERAND_SIZE {
      DecodingMoves(a, p + 1, b, d, t, pre.(operand := true));
    } else if a[p] == ADDRESS_SIZE {
      DecodingMoves(a, p + 1, b, d, t, pre.(address := true));
    } else if a[p] == TWO_BYTE {
      assert a[p + 1] == b[p + 1 + d];
      OperandsMove(a, p + 1, b, d, t, true, pre);
    } else {
      OperandsMove(a, p, b, d, t, false, pre);
    }
  }

  /** The examples of the source: an address has 32 bits, or 16 behind an address-size prefix. */
  lemma DocumentedSizes(t: Tables, a: byte, b: byte, c: byte, d: byte, more: seq<byte>)
    requires t.one(0xA1) == OpInfo(3, false, false, true, false)
    ensures Decode([0xA1, a, b, c, d] + more, t, 0) == Instruction(5, None)
    ensures Decode([0x67, 0xA1, a, b] + more, t, 0) == Instruction(4, None)
  {
    assert ([0xA1, a, b, c, d] + more)[0] == 0xA1;
    var prefixed := [0x67, 0xA1, a, b] + more;
    assert prefixed[0] == 0x67 && prefixed[1] == 0xA1;
    assert DecodeAt(prefixed, t, 1, Prefixes(false, true)) == Instruction(4, None);
  }
}
