/** Rewriting the displacement in which a relative instruction ends. */
module Displacements {
  import opened Bytes
  import opened Jumps

  /**
   The packed record of a displacement: its width, the address it counts from, and its value. In memory
   the value comes last, behind the width and the address.
   */
  datatype Displacement = Displacement(size: byte, base: nat, value: nat)

  const VALUE_AT := 5

  predicate HasWidth(size: byte) { size == 1 || size == 2 || size == 4 || size == 6 }

  /** The value at p. It is not sign-extended; the selector of a far pointer plays no part. */
  function ValueAt(m: seq<byte>, p: nat, size: byte): nat
    requires HasWidth(size) && p + size <= |m|
  {
    if size == 1 then m[p] else if size == 2 then Short(m, p) else Word(m, p)
  }

  /**
   The displacement of so many bytes at pbData. What lies there is taken for a whole record, of which the
   value is read. None: a read outside memory.
   */
  function Extracted(m: seq<byte>, pbData: int, cbData: byte): (d: Option<Displacement>)
    ensures d.Some? ==> d.value.size == cbData
  {
    var p, base := pbData + VALUE_AT, Wrap32(pbData + cbData);
    if !HasWidth(cbData) then Some(Displacement(cbData, base, 0))
    else if 0 <= p && p + cbData <= |m| then Some(Displacement(cbData, base, ValueAt(m, p, cbData)))
    else None
  }

  function TargetOf(d: Displacement): nat { Wrap32(d.base + d.value) }

  /** The distance that a displacement of a width can have; for 32 bits the lower bound is the upper one too. */
  predicate Reaches(size: byte, distance: int) {
    if size == 1 then -0x80 <= distance <= 0x7F
    else if size == 2 then -0x8000 <= distance <= 0x7FFF
    else if size == 4 then -0x8000_0000 <= distance <= -0x8000_0000
    else size == 6
  }

  function Distance(d: Displacement, pbBase: nat): int { Signed32(Wrap32(TargetOf(d) - pbBase)) }

  /** The displacement from a new base, if it is wide enough for that. */
  function Recalculated(d: Displacement, pbBase: nat): (r: Option<Displacement>)
    ensures r.Some? ==> r.value.size == d.size && HasWidth(d.size) && r.value.base == pbBase
  {
    var distance := Distance(d, pbBase);
    if !Reaches(d.size, distance) then None
    else Some(Displacement(d.size, pbBase, if d.size == 1 then Wrap8(distance) else if d.size == 2 then Wrap16(distance) else Wrap32(distance)))
  }

  /** As many bytes as the displacement has, from the start of its record. */
  function Image(d: Displacement): (s: seq<byte>)
    requires HasWidth(d.size)
    ensures |s| == d.size
  {
    ([d.size] + LittleEndian(d.base) + LittleEndian(d.value))[..d.size]
  }

  /**
   A distance is in reach of 8 or 16 bits if these can hold it, and of 48 in any case; but only one is in reach of
   32 bits.
   */
  lemma ReachesIff(distance: int)
    requires -0x8000_0000 <= distance < 0x8000_0000
    ensures Reaches(1, distance) <==> -128 <= distance <= 127
    ensures Reaches(2, distance) <==> -32768 <= distance <= 32767
    ensures Reaches(4, distance) <==> distance == -0x8000_0000
    ensures Reaches(6, distance)
  {
  }

  /** The lowest byte of a value comes first. */
  lemma ValuesAre(m: seq<byte>, p: nat)
    requires p + 6 <= |m|
    ensures ValueAt(m, p, 1) == m[p] && ValueAt(m, p, 2) == m[p] as int + 0x100 * m[p + 1] as int
    ensures ValueAt(m, p, 4) == ValueAt(m, p, 6) ==
              m[p] as int + 0x100 * m[p + 1] as int + 0x1_0000 * m[p + 2] as int + 0x100_0000 * m[p + 3] as int
  {
  }

  /** The value that is recalculated leads from the new base to the target. */
  lemma RecalculatedLeads(d: Displacement, pbBase: nat)
    requires d.size in {1, 2, 4, 6} && Recalculated(d, pbBase).Some?
    ensures var v := Recalculated(d, pbBase).value.value;
            Distance(d, pbBase) == (if d.size == 1 then Signed8(v % 256) else if d.size == 2 then Signed16(v) else Signed32(v))
  {
    hide TargetOf;
    Narrowed(Distance(d, pbBase));
    SignedAre(Wrap32(TargetOf(d) - pbBase), 0);
  }

  lemma Narrowed(x: int)
    ensures -0x80 <= x < 0x80 ==> Wrap8(x) == (if x < 0 then x + 0x100 else x)
    ensures -0x8000 <= x < 0x8000 ==> Wrap16(x) == (if x < 0 then x + 0x1_0000 else x)
    ensures -0x8000_0000 <= x < 0x8000_0000 ==> Wrap32(x) == (if x < 0 then x + 0x1_0000_0000 else x)
  {
  }

  // ----- what is wrong with it

  /** Where an instruction that ends at an address goes by the displacement, of 8 or 32 bits, in which it ends. */
  function Destination(m: seq<byte>, end: nat, size: byte): nat
    requires (size == 1 || size == 4) && size <= end <= |m|
  {
    Wrap32(end + if size == 1 then Signed8(m[end - 1]) else Signed32(Word(m, end - 4)))
  }

  /** What is written in place of a displacement is its width and its own address. */
  lemma ImageIs(d: Displacement)
    requires HasWidth(d.size)
    ensures d.size == 1 ==> Image(d) == [1]
    ensures d.size == 4 ==> |Image(d)| == 4 && Word(Image(d), 0) == 4 + 0x100 * (d.base % 0x100_0000)
  {
    if d.size == 4 {
      var b := d.base;
      assert Image(d) == [4, b % 256, b / 0x100 % 256, b / 0x1_0000 % 256];
      LowThree(b);
    }
  }

  lemma LowThree(b: nat)
    ensures b % 0x100_0000 == b % 256 + 0x100 * (b / 0x100 % 256) + 0x1_0000 * (b / 0x1_0000 % 256)
  {
    assert b == b % 256 + 256 * (b / 0x100);
    assert b / 0x100 == b / 0x100 % 256 + 256 * (b / 0x1_0000);
    assert b / 0x1_0000 == b / 0x1_0000 % 256 + 256 * (b / 0x100_0000);
    assert b == b % 0x100_0000 + 0x100_0000 * (b / 0x100_0000);
  }
}
