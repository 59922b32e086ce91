/** Copying whole instructions from a procedure to its callgate. */
module Relocation {
  import opened Bytes
  import opened Displacements
  import opened Jumps
  import opened X86

  /** Success, or the reason why copying stopped. */
  datatype Outcome = Ok | GeneralFailure | NotEnoughMemory | InsufficientBuffer | AccessViolation

  /** Memory after n bytes were copied. */
  function Copied(m: seq<byte>, to: nat, from: nat, n: nat): (r: seq<byte>)
    requires to + n <= |m| && from + n <= |m|
    ensures |r| == |m|
  {
    Overwritten(m, to, m[from..from + n])
  }

  /** The outcome of copying, the bytes copied on success, and the memory it leaves. */
  datatype Result = Result(outcome: Outcome, actual: nat, memory: seq<byte>)

  /** The displacement of an instruction, which is sought from one byte before its opcode on. */
  function DisplacementAt(m: seq<byte>, end: nat, width: byte): (d: Option<Displacement>)
    ensures d.Some? ==> d.value.size == width
  {
    Extracted(m, end - width - 2, width)
  }

  /** Copy n bytes, and rewrite the displacement in which they end. */
  function CopyWith(m: seq<byte>, d: Displacement, base: nat, gate: nat, n: nat): (r: Result)
    requires gate + n <= |m| && base + n <= |m| && 0 < n && (d.size < 255 ==> d.size < n)
    ensures |r.memory| == |m| && (r.outcome != Ok ==> r.actual == 0) && (r.outcome == Ok ==> r.actual == n)
  {
    match Recalculated(d, gate + n)
    case None => Result(InsufficientBuffer, 0, Copied(m, gate, base, n))
    case Some(d') => Result(Ok, n, Overwritten(Copied(m, gate, base, n), gate + n - d.size, Image(d')))
  }

  /** Copy the instruction at base. */
  function CopyOne(m: seq<byte>, t: Tables, base: nat, gate: nat, room: nat): (r: Result)
    ensures |r.memory| == |m|
    ensures r.outcome != Ok ==> r.actual == 0
    ensures r.outcome == Ok ==>
              var i := Decode(m, t, base);
              && i.Instruction? && i.end == base + r.actual && 0 < r.actual <= room
              && base + r.actual <= |m| && gate + r.actual <= |m|
              && (i.relative == None ==> r.memory == Copied(m, gate, base, r.actual))
  {
    match Decode(m, t, base)
    case Fault => Result(AccessViolation, 0, m)
    case Return => Result(NotEnoughMemory, 0, m)
    case Instruction(end, relative) =>
      var n := end - base;
      if relative.Some? && DisplacementAt(m, end, relative.value) == None then Result(AccessViolation, 0, m)
      else if n > room then Result(InsufficientBuffer, 0, m)
      else if end > |m| || gate + n > |m| then Result(AccessViolation, 0, m)
      else if relative == None then Result(Ok, n, Copied(m, gate, base, n))
      else CopyWith(m, DisplacementAt(m, end, relative.value).value, base, gate, n)
  }

  /** Copy from base to the callgate, with so much room left in it and so many bytes copied before. */
  function Relocated(m: seq<byte>, t: Tables, base: nat, gate: nat, room: nat, minimum: nat, copied: nat): (r: Result)
    ensures |r.memory| == |m|
    ensures r.outcome == Ok ==>
              minimum <= r.actual && copied < r.actual <= copied + room && base + r.actual - copied <= |m|
    decreases room
  {
    if room == 0 then Result(GeneralFailure, 0, m)
    else
      var one := CopyOne(m, t, base, gate, room);
      var n := one.actual;
      if one.outcome != Ok then one
      else if copied + n >= minimum then one.(actual := copied + n)
      else Relocated(one.memory, t, base + n, gate + n, room - n, minimum, copied + n)
  }

  method Patch(mem: array<byte>, p: nat, bytes: seq<byte>)
    requires p + |bytes| <= mem.Length
    modifies mem
    ensures mem[..] == Overwritten(old(mem[..]), p, bytes)
  {
    for i := 0 to |bytes|
      invariant forall k | 0 <= k < i :: mem[p + k] == bytes[k]
      invariant forall k | 0 <= k < mem.Length && !(p <= k < p + i) :: mem[k] == old(mem[k])
    {
      mem[p + i] := bytes[i];
    }
    OverwrittenIs(old(mem[..]), mem[..], p, bytes);
  }

  method CopyMemory(mem: array<byte>, to: nat, from: nat, n: nat)
    requires to + n <= mem.Length && from + n <= mem.Length
    modifies mem
    ensures mem[..] == Copied(old(mem[..]), to, from, n)
  {
    Patch(mem, to, mem[from..from + n]);
  }

  /** The part of the decoder behind the prefixes: advance the stream from the opcode to the end. */
  method Advance(mem: array<byte>, t: Tables, opcode: nat, behind0F: bool, pre: Prefixes)
    returns (r: Instruction)
    requires opcode < mem.Length
    ensures r == Operands(mem[..], opcode, t.Info(behind0F, mem[opcode]), pre)
  {
    var info := t.Info(behind0F, mem[opcode]);
    var pbStream := opcode;
    if info.size == 0 {
      return Instruction(pbStream + 1, None);
    }
    if info.modRM {
      pbStream := pbStream + 1;
      if pbStream >= mem.Length { return Fault; }
      var modRM := mem[pbStream];
      info := Adjusted(info, mem[pbStream - 1], modRM);
      if IsEncodedSIB(pre, modRM) {
        pbStream := pbStream + 1;
        if pbStream >= mem.Length { return Fault; }
        pbStream := pbStream + SizeOfSIB(modRM, mem[pbStream]);
      }
      pbStream := pbStream + SizeOfModRM(pre, modRM);
    }
    pbStream := pbStream + SizeOfOpCode(info, pre);
    r := Instruction(pbStream, Field(info, pre));
  }

  /** Behind the prefixes: one opcode byte, or two. */
  method DecodeOpCode(mem: array<byte>, t: Tables, opcode: nat, pre: Prefixes) returns (r: Instruction)
    requires opcode < mem.Length && mem[opcode] != OPERAND_SIZE && mem[opcode] != ADDRESS_SIZE
    ensures r == DecodeAt(mem[..], t, opcode, pre)
  {
    if mem[opcode] == TWO_BYTE {
      if opcode + 1 >= mem.Length {
        return Fault;
      }
      r := Advance(mem, t, opcode + 1, true, pre);
    } else {
      if IsReturn(mem[opcode]) {
        return Return;
      }
      r := Advance(mem, t, opcode, false, pre);
    }
  }

  /** Rewrite the displacement at the end of a copied instruction. */
  method FixDisplacement(mem: array<byte>, disp: Displacement, pbCallgate: nat) returns (ok: bool)
    requires pbCallgate <= mem.Length && (HasWidth(disp.size) ==> disp.size <= pbCallgate)
    modifies mem
    ensures ok == Recalculated(disp, pbCallgate).Some?
    ensures mem[..] == if ok then Overwritten(old(mem[..]), pbCallgate - disp.size, Image(Recalculated(disp, pbCallgate).value))
                       else old(mem[..])
  {
    hide Image;
    var fixed := Recalculated(disp, pbCallgate);
    if fixed == None {
      return false;
    }
    Patch(mem, pbCallgate - disp.size, Image(fixed.value));
    ok := true;
  }

  /** Copy the bytes from the base up to the stream, if there is an instruction and it fits. */
  method CopyInstruction(mem: array<byte>, ghost t: Tables, pbBase: nat, decoded: Instruction, gate: nat, room: nat)
    returns (outcome: Outcome, cbCopy: nat)
    requires decoded == Decode(mem[..], t, pbBase)
    modifies mem
    ensures Result(outcome, cbCopy, mem[..]) == CopyOne(old(mem[..]), t, pbBase, gate, room)
  {
    hide DecodeAt, Decode, Copied, Image, Recalculated, Extracted;
    cbCopy := 0;
    match decoded
    case Fault => outcome := AccessViolation;
    case Return => outcome := NotEnoughMemory;
    case Instruction(pbStream, relative) =>
      var n := pbStream - pbBase;
      var disp := None;
      if relative.Some? {
        disp := DisplacementAt(mem[..], pbStream, relative.value);
        if disp == None {
          return AccessViolation, 0;
        }
      }
      if n > room {
        outcome := InsufficientBuffer;
      } else if pbStream > mem.Length || gate + n > mem.Length {
        outcome := AccessViolation;
      } else {
        CopyMemory(mem, gate, pbBase, n);
        if disp.Some? {
          var ok := FixDisplacement(mem, disp.value, gate + n);
          if !ok {
            return InsufficientBuffer, 0;
          }
        }
        outcome, cbCopy := Ok, n;
      }
  }

  method RelocateInstructionStream(mem: array<byte>, t: Tables, stream: nat, callgate: nat, cbCallgate: nat, cbMinimum: nat)
    returns (outcome: Outcome, actual: nat)
    modifies mem
    ensures Result(outcome, actual, mem[..]) == Relocated(old(mem[..]), t, stream, callgate, cbCallgate, cbMinimum, 0)
  {
    hide Operands, Copied, CopyOne;
    ghost var r := Relocated(mem[..], t, stream, callgate, cbCallgate, cbMinimum, 0);
    var pbStream: nat, pbBase: nat, gate: nat, room: nat, copied: nat := stream, stream, callgate, cbCallgate, 0;
    var pre := NO_PREFIX;
    while room > 0
      invariant pbBase <= pbStream
      invariant Relocated(mem[..], t, pbBase, gate, room, cbMinimum, copied) == r
      invariant DecodeAt(mem[..], t, pbStream, pre) == Decode(mem[..], t, pbBase)
      decreases room, mem.Length - pbStream
    {
      if pbStream < mem.Length && mem[pbStream] == OPERAND_SIZE {
        pre := pre.(operand := true);
        pbStream := pbStream + 1;
        continue;
      } else if pbStream < mem.Length && mem[pbStream] == ADDRESS_SIZE {
        pre := pre.(address := true);
        pbStream := pbStream + 1;
        continue;
      }
      var decoded := Fault;
      if pbStream < mem.Length {
        decoded := DecodeOpCode(mem, t, pbStream, pre);
      }
      var cbCopy;
      outcome, cbCopy := CopyInstruction(mem, t, pbBase, decoded, gate, room);
      if outcome != Ok {
        return outcome, 0;
      }
      gate := gate + cbCopy;
      room := room - cbCopy;
      pre := NO_PREFIX;
      copied := copied + cbCopy;
      pbBase := pbBase + cbCopy;
      pbStream := pbBase;
      if copied >= cbMinimum {
        return Ok, copied;
      }
    }
    outcome, actual := GeneralFailure, 0;
  }

  // ----- what copying achieves

  /** The position k instructions on from p, if they all can be copied. */
  function After(m: seq<byte>, t: Tables, p: nat, k: nat): (r: Option<nat>)
    ensures r.Some? ==> p + k <= r.value
    decreases k
  {
    if k == 0 then Some(p)
    else match Decode(m, t, p)
      case Instruction(end, relative) => if relative.Some? || end > |m| then None else After(m, t, end, k - 1)
      case _ => None
  }

  /** n is the first instruction boundary behind base that is at least the minimum. */
  predicate FirstBoundary(m: seq<byte>, t: Tables, base: nat, minimum: int, n: nat, count: nat) {
    && count > 0 && After(m, t, base, count) == Some(base + n) && n >= minimum
    && forall j | 0 < j < count :: After(m, t, base, j).Some? && After(m, t, base, j).value < base + minimum
  }

  /** Nothing that is copied or looked at lies where the copy of n bytes goes. */
  predicate Apart(t: Tables, base: nat, gate: nat, n: nat) {
    base + n + Lookahead(t) <= gate || gate + n <= base
  }

  /** A relative instruction at p that ends before a limit. */
  predicate RelativeAt(m: seq<byte>, t: Tables, p: nat, limit: nat) {
    var i := Decode(m, t, p);
    i.Instruction? && i.relative.Some? && i.end <= limit
  }

  /** Between base and the minimum no instruction that ends before the limit is relative. */
  ghost predicate NoneRelative(m: seq<byte>, t: Tables, base: nat, minimum: int, limit: nat) {
    forall j: nat :: match After(m, t, base, j)
                     case Some(p) => p < base + minimum && p <= limit ==> !RelativeAt(m, t, p, limit)
                     case None => true
  }

  lemma {:induction false} AfterAgrees(a: seq<byte>, b: seq<byte>, t: Tables, p: nat, k: nat)
    requires var r := After(a, t, p, k); r.Some? && |a| == |b| && Same(a, p, r.value + Lookahead(t), b, 0)
    ensures After(b, t, p, k) == After(a, t, p, k)
    decreases k
  {
    if k > 0 {
      var end := Decode(a, t, p).end;
      assert After(a, t, end, k - 1).value >= end;
      DecodingMoves(a, p, b, 0, t, NO_PREFIX);
      AfterAgrees(a, b, t, end, k - 1);
    }
  }

  lemma OneInstruction(m: seq<byte>, t: Tables, base: nat, end: nat, minimum: int)
    requires Decode(m, t, base) == Instruction(end, None) && end <= |m| && base < end && end - base >= minimum
    ensures FirstBoundary(m, t, base, minimum, end - base, 1)
  {
    assert After(m, t, end, 0) == Some(end);
  }

  lemma BoundaryGrows(m: seq<byte>, t: Tables, base: nat, end: nat, minimum: nat, n: nat, count: nat)
    requires Decode(m, t, base) == Instruction(end, None) && end <= |m| && base < end < base + minimum
    requires FirstBoundary(m, t, end, minimum - (end - base), n, count)
    ensures FirstBoundary(m, t, base, minimum, n + (end - base), count + 1)
  {
    forall j | 0 < j < count + 1
      ensures After(m, t, base, j).Some? && After(m, t, base, j).value < base + minimum
    {
      assert After(m, t, base, j) == After(m, t, end, j - 1);
    }
  }

  lemma {:induction false} AfterGrows(m: seq<byte>, t: Tables, p: nat, j: nat, k: nat)
    requires j <= k && After(m, t, p, k).Some?
    ensures After(m, t, p, j).Some? && After(m, t, p, j).value <= After(m, t, p, k).value
    decreases k
  {
    if j > 0 {
      AfterGrows(m, t, Decode(m, t, p).end, j - 1, k - 1);
    }
  }

  lemma BoundaryAgrees(a: seq<byte>, b: seq<byte>, t: Tables, base: nat, minimum: int, n: nat, count: nat)
    requires FirstBoundary(a, t, base, minimum, n, count) 
    requires |a| == |b| && Same(a, base, base + n + Lookahead(t), b, 0)
    ensures FirstBoundary(b, t, base, minimum, n, count)
  {
    AfterAgrees(a, b, t, base, count);
    forall j | 0 < j < count
      ensures After(b, t, base, j) == After(a, t, base, j)
    {
      AfterGrows(a, t, base, j, count);
      AfterAgrees(a, b, t, base, j);
    }
  }

  lemma CopyMissesSource(m: seq<byte>, t: Tables, base: nat, gate: nat, n: nat, all: nat)
    requires Apart(t, base, gate, all) && n <= all && base + n <= |m| && gate + n <= |m|
    ensures Same(Copied(m, gate, base, n), base, base + all + Lookahead(t), m, 0)
  {
  }

  /** Copying an instruction makes no later one relative. */
  lemma NoneRelativeBehind(m: seq<byte>, m': seq<byte>, t: Tables, base: nat, end: nat, minimum: nat, limit: nat)
    requires NoneRelative(m, t, base, minimum, limit) && Decode(m, t, base) == Instruction(end, None) && end <= |m|
    requires base < end && |m'| == |m| && Same(m', base, limit + Lookahead(t), m, 0)
    ensures NoneRelative(m', t, end, minimum - (end - base), limit)
  {
    hide Decode, After, RelativeAt;
    forall j: nat | After(m', t, end, j).Some?
      ensures var p := After(m', t, end, j).value;
              p < base + minimum && p <= limit ==> !RelativeAt(m', t, p, limit)
    {
      if After(m', t, end, j).value <= limit { BoundaryMoves(m, m', t, base, end, j, limit); }
    }
  }

  lemma BoundaryMoves(m: seq<byte>, m': seq<byte>, t: Tables, base: nat, end: nat, j: nat, limit: nat)
    requires Decode(m, t, base) == Instruction(end, None) && end <= |m| && base < end
    requires |m'| == |m| && Same(m', base, limit + Lookahead(t), m, 0)
    requires After(m', t, end, j).Some? && After(m', t, end, j).value <= limit
    ensures var p := After(m', t, end, j).value;
            After(m, t, base, j + 1) == Some(p) && (RelativeAt(m', t, p, limit) ==> RelativeAt(m, t, p, limit))
  {
    hide Decode;
    var p := After(m', t, end, j).value;
    AfterAgrees(m', m, t, end, j);
    if RelativeAt(m', t, p, limit) { StillRelative(m', m, t, p, limit); }
  }

  lemma StillRelative(a: seq<byte>, b: seq<byte>, t: Tables, p: nat, limit: nat)
    requires RelativeAt(a, t, p, limit) && Same(a, p, limit + Lookahead(t), b, 0)
    ensures RelativeAt(b, t, p, limit)
  {
    hide DecodeAt;
    DecodingMoves(a, p, b, 0, t, NO_PREFIX);
  }

  lemma FirstIsNotRelative(m: seq<byte>, t: Tables, base: nat, minimum: nat, limit: nat)
    requires NoneRelative(m, t, base, minimum, limit) && minimum > 0 && base <= limit
    ensures !RelativeAt(m, t, base, limit)
  {
    assert After(m, t, base, 0) == Some(base);
  }

  lemma NothingBelow(m: seq<byte>, t: Tables, base: nat, minimum: int, limit: nat)
    requires minimum <= 0
    ensures NoneRelative(m, t, base, minimum, limit)
  {
  }

  lemma NoneRelativeFrom(m: seq<byte>, t: Tables, base: nat, end: nat, minimum: int, limit: nat)
    requires Decode(m, t, base) == Instruction(end, None) && base < end
    requires NoneRelative(m, t, end, minimum - (end - base), limit)
    ensures NoneRelative(m, t, base, minimum, limit)
  {
    hide Decode;
    forall j: nat | After(m, t, base, j).Some?
      ensures var p := After(m, t, base, j).value;
              p < base + minimum && p <= limit ==> !RelativeAt(m, t, p, limit)
    {
      if j > 0 { assert After(m, t, base, j) == After(m, t, end, j - 1); }
    }
  }

  lemma CopiedTwice(m: seq<byte>, t: Tables, base: nat, gate: nat, n: nat, n': nat)
    requires Apart(t, base, gate, n + n') && base + n + n' <= |m| && gate + n + n' <= |m|
    ensures Copied(Copied(m, gate, base, n), gate + n, base + n, n') == Copied(m, gate, base, n + n')
  {
    hide Overwritten;
    OverwrittenBytes(m, gate, m[base..base + n]);
    assert Copied(m, gate, base, n)[base + n..base + n + n'] == m[base + n..base + n + n'];
    OverwrittenTwice(m, gate, m[base..base + n], m[base + n..base + n + n']);
    assert m[base..base + n] + m[base + n..base + n + n'] == m[base..base + (n + n')];
  }

  /**
   A successful copy takes whole instructions, the fewest that reach the minimum; they fit the
   callgate, arrive there unchanged, and nothing else in memory is written.
   */
  lemma {:induction false} WholeInstructionsAreCopied(
    m: seq<byte>, t: Tables, base: nat, gate: nat, room: nat, minimum: nat, copied: nat) returns (count: nat)
    requires copied < minimum && Relocated(m, t, base, gate, room, minimum, copied).outcome == Ok
    requires var n := Relocated(m, t, base, gate, room, minimum, copied).actual - copied;
             Apart(t, base, gate, n) && NoneRelative(m, t, base, minimum - copied, base + n)
    ensures var r := Relocated(m, t, base, gate, room, minimum, copied);
            var n := r.actual - copied;
            && 0 < n <= room && base + n <= |m| && gate + n <= |m|
            && FirstBoundary(m, t, base, minimum - copied, n, count)
            && r.memory == Copied(m, gate, base, n)
    decreases room
  {
    hide DecodeAt, Decode, Copied, FirstBoundary, After, CopyOne, NoneRelative;
    var one, all := CopyOne(m, t, base, gate, room), Relocated(m, t, base, gate, room, minimum, copied).actual - copied;
    FirstIsNotRelative(m, t, base, minimum - copied, base + all);
    var m', n, end := one.memory, one.actual, base + one.actual;
    if copied + n >= minimum {
      count := 1;
      OneInstruction(m, t, base, end, minimum - copied);
    } else {
      CopyMissesSource(m, t, base, gate, n, all);
      NoneRelativeBehind(m, m', t, base, end, minimum - copied, base + all);
      count := WholeInstructionsAreCopied(m', t, end, gate + n, room - n, minimum, copied + n);
      BoundaryAgrees(m', m, t, end, minimum - copied - n, all - n, count);
      BoundaryGrows(m, t, base, end, minimum - copied, all - n, count);
      CopiedTwice(m, t, base, gate, n, all - n);
      count := count + 1;
    }
  }

  lemma BoundaryShrinks(m: seq<byte>, t: Tables, base: nat, end: nat, minimum: int, n: nat, count: nat)
    requires FirstBoundary(m, t, base, minimum, n, count) && count > 1
    requires Decode(m, t, base) == Instruction(end, None) && base < end <= |m|
    ensures end < base + minimum && end - base < n && FirstBoundary(m, t, end, minimum - (end - base), n - (end - base), count - 1)
  {
    hide Decode;
    assert After(m, t, base, 1) == After(m, t, end, 0) == Some(end);
    assert After(m, t, base, count) == After(m, t, end, count - 1);
    forall j | 0 < j < count - 1
      ensures After(m, t, end, j).Some? && After(m, t, end, j).value < base + minimum
    {
      assert After(m, t, base, j + 1) == After(m, t, end, j);
    }
  }

  /** An instruction at a boundary that is not relative and fits is copied. */
  lemma FirstIsCopied(m: seq<byte>, t: Tables, base: nat, gate: nat, room: nat, minimum: int, n: nat, count: nat)
    requires FirstBoundary(m, t, base, minimum, n, count) && n <= room && gate + n <= |m| && minimum > 0
    ensures var i := Decode(m, t, base);
            && i.Instruction? && i.relative == None && base < i.end <= base + n && base + n <= |m|
            && CopyOne(m, t, base, gate, room) == Result(Ok, i.end - base, Copied(m, gate, base, i.end - base))
            && (count == 1 ==> i.end == base + n)
  {
    hide Decode;
    AfterGrows(m, t, base, 1, count);
    var end := Decode(m, t, base).end;
    assert After(m, t, base, 1) == After(m, t, end, 0) == Some(end);
    AfterIsInside(m, t, base, count);
  }

  lemma {:induction false} AfterIsInside(m: seq<byte>, t: Tables, p: nat, k: nat)
    requires After(m, t, p, k).Some? && k > 0
    ensures After(m, t, p, k).value <= |m|
    decreases k
  {
    hide Decode;
    if k > 1 { AfterIsInside(m, t, Decode(m, t, p).end, k - 1); }
  }

  /** If the instructions up to the first sufficient boundary are not relative and fit, copying succeeds with them. */
  lemma {:induction false} BoundaryIsReached(
    m: seq<byte>, t: Tables, base: nat, gate: nat, room: nat, minimum: nat, copied: nat, n: nat, count: nat)
    requires copied < minimum && FirstBoundary(m, t, base, minimum - copied, n, count)
    requires Apart(t, base, gate, n) && n <= room && gate + n <= |m|
    ensures var r := Relocated(m, t, base, gate, room, minimum, copied); r.outcome == Ok && r.actual == copied + n
    decreases count
  {
    hide DecodeAt, Decode, Copied, FirstBoundary, After, CopyOne;
    FirstIsCopied(m, t, base, gate, room, minimum - copied, n, count);
    var one := CopyOne(m, t, base, gate, room);
    var m', k, end := one.memory, one.actual, base + one.actual;
    if count == 1 {
      BoundaryIsEnough(m, t, base, minimum - copied, n, count);
    } else {
      BoundaryCounts(m, t, base, minimum - copied, n, count);
      BoundaryShrinks(m, t, base, end, minimum - copied, n, count);
      CopyMissesSource(m, t, base, gate, k, n);
      SameBothWays(m', m, base, base + n + Lookahead(t));
      BoundaryAgrees(m, m', t, end, minimum - copied - k, n - k, count - 1);
      BoundaryIsReached(m', t, end, gate + k, room - k, minimum, copied + k, n - k, count - 1);
    }
  }

  lemma BoundaryIsEnough(m: seq<byte>, t: Tables, base: nat, minimum: int, n: nat, count: nat)
    requires FirstBoundary(m, t, base, minimum, n, count)
    ensures n >= minimum
  {
  }

  lemma BoundaryCounts(m: seq<byte>, t: Tables, base: nat, minimum: int, n: nat, count: nat)
    requires FirstBoundary(m, t, base, minimum, n, count)
    ensures count > 0
  {
  }

  lemma SameBothWays(a: seq<byte>, b: seq<byte>, p: nat, end: nat)
    requires |a| == |b| && Same(a, p, end, b, 0)
    ensures Same(b, p, end, a, 0)
  {
    forall k | p <= k < end && k < |b| ensures Has(a, k, b[k]) {
      assert Has(b, k, a[k]);
    }
  }

  // ----- what becomes of relative instructions

  /** An instruction of a width has a displacement that can be read, and fits the callgate and memory. */
  predicate CanMove(m: seq<byte>, end: nat, base: nat, gate: nat, room: nat, width: byte) {
    && 2 <= end && width <= end <= |m| && end + 3 <= |m| && base < end && end - base <= room && gate + (end - base) <= |m|
  }

  /** The distance that is computed for a displacement, from what stands three bytes behind it. */
  function Guess(m: seq<byte>, end: nat, to: nat, width: byte): int
    requires HasWidth(width) && width <= end && end + 3 <= |m|
  {
    Signed32(Wrap32(end - 2 + ValueAt(m, end + 3 - width, width) - to))
  }

  /** What is written in place of a displacement: its width, its own address, and a byte of the distance if it is wide. */
  function Rewritten(width: byte, to: nat, distance: int): (s: seq<byte>)
    requires HasWidth(width)
    ensures |s| == width
  {
    ([width] + LittleEndian(to) + [Wrap8(distance)])[..width]
  }

  /**
   A relative instruction of any width that the source knows is moved exactly when the computed distance is in
   reach, and nothing of its displacement is left then. One of 32 bits is in reach for a single distance, one of
   48 always.
   */
  lemma RelativeIsRewritten(m: seq<byte>, t: Tables, base: nat, gate: nat, room: nat, width: byte)
    requires |m| < WORD && Decode(m, t, base).Instruction? && Decode(m, t, base).relative == Some(width)
    requires HasWidth(width) && CanMove(m, Decode(m, t, base).end, base, gate, room, width)
    ensures var end := Decode(m, t, base).end;
            var n, to := end - base, gate + (end - base);
            && width < n
            && CopyOne(m, t, base, gate, room) ==
               if Reaches(width, Guess(m, end, to, width))
               then Result(Ok, n, Overwritten(Copied(m, gate, base, n), to - width, Rewritten(width, to, Guess(m, end, to, width))))
               else Result(InsufficientBuffer, 0, Copied(m, gate, base, n))
  {
    hide Decode, CopyOne, Copied, Overwritten, DisplacementAt, Extracted, Guess, LittleEndian;
    var end := Decode(m, t, base).end;
    var to := gate + (end - base);
    DistanceIs(m, end, to, width);
    CopyOneRelative(m, t, base, gate, room, width);
    var d := DisplacementAt(m, end, width).value;
    if Reaches(width, Distance(d, to)) {
      RewrittenImage(Recalculated(d, to).value, Distance(d, to));
    }
  }

  lemma RewrittenImage(d: Displacement, distance: int)
    requires HasWidth(d.size) && (d.size == 6 ==> d.value == Wrap32(distance))
    ensures Image(d) == Rewritten(d.size, d.base, distance)
  {
    LowByte(distance);
  }

  lemma LowByte(x: int)
    ensures Wrap32(x) % 256 == Wrap8(x)
  {
    assert x == x / 0x1_0000_0000 * 0x100_0000 * 256 + Wrap32(x);
  }

  /** Relative instructions of other widths are refused; an indirect jump is one. */
  lemma OtherWidthsAreRefused(m: seq<byte>, t: Tables, base: nat, gate: nat, room: nat, width: byte)
    requires Decode(m, t, base).Instruction? && Decode(m, t, base).relative == Some(width) && !HasWidth(width)
    requires var end := Decode(m, t, base).end; end <= |m| && end - base <= room && gate + (end - base) <= |m|
    ensures CopyOne(m, t, base, gate, room).outcome == InsufficientBuffer
  {
    hide Decode;
  }

  /**
   An instruction with an 8-bit displacement is moved exactly when a distance that has nothing to do with
   it is small. Its displacement then becomes 1, so that it leads where it did before only by chance.
   */
  lemma ShortRelativeIsMisled(m: seq<byte>, t: Tables, base: nat, gate: nat, room: nat)
    requires |m| < WORD && Decode(m, t, base).Instruction? && Decode(m, t, base).relative == Some(1)
    requires CanMove(m, Decode(m, t, base).end, base, gate, room, 1)
    ensures var end, r := Decode(m, t, base).end, CopyOne(m, t, base, gate, room);
            var to := gate + (end - base);
            if -0x80 <= Guess(m, end, to, 1) <= 0x7F
            then r.outcome == Ok && Destination(r.memory, to, 1) == Wrap32(to + 1)
            else r.outcome == InsufficientBuffer
  {
    hide Decode;
    var end := Decode(m, t, base).end;
    var to := gate + (end - base);
    var d := DisplacementAt(m, end, 1).value;
    DistanceIs(m, end, to, 1);
    if Recalculated(d, to).Some? {
      ImageIs(Recalculated(d, to).value);
    }
  }

  /** An input: je +8; nop; nop; nop, with the callgate 16 bytes further on. The copy leads to the wrong place. */
  lemma SampleJumpIsMisled(m: seq<byte>, t: Tables, base: nat, room: nat)
    requires base + 18 <= |m| < WORD && m[base..base + 5] == [0x74, 8, 0x90, 0x90, 0x90] && room >= 2
    requires t.one(0x74) == OpInfo(2, false, false, false, true)
    ensures var r := CopyOne(m, t, base, base + 16, room);
            r.outcome == Ok && Destination(m, base + 2, 1) == Wrap32(base + 10) && Destination(r.memory, base + 18, 1) == Wrap32(base + 19)
  {
    var s := m[base..base + 5];
    assert m[base] == s[0] && m[base + 1] == s[1] && m[base + 4] == s[4];
    assert Decode(m, t, base) == Instruction(base + 2, Some(1));
    assert Guess(m, base + 2, base + 18, 1) == 126;
    ShortRelativeIsMisled(m, t, base, base + 16, room);
  }

  lemma DistanceIs(m: seq<byte>, end: nat, to: nat, width: byte)
    requires |m| < WORD && HasWidth(width) && 2 <= end && width <= end && end + 3 <= |m|
    ensures DisplacementAt(m, end, width).Some?
    ensures Distance(DisplacementAt(m, end, width).value, to) == Guess(m, end, to, width)
  {
    var d := DisplacementAt(m, end, width).value;
    WrapTwice(d.base + d.value, to);
  }

  lemma WrapTwice(a: int, b: int)
    ensures Wrap32(Wrap32(a) - b) == Wrap32(a - b)
  {
  }

  /**
   An instruction with a 32-bit displacement, such as a call, is moved only for a single one of all the
   distances. Its displacement is then lost too.
   */
  lemma NearRelativeIsRefused(m: seq<byte>, t: Tables, base: nat, gate: nat, room: nat)
    requires |m| < WORD && Decode(m, t, base).Instruction? && Decode(m, t, base).relative == Some(4)
    requires CanMove(m, Decode(m, t, base).end, base, gate, room, 4)
    ensures var end, r := Decode(m, t, base).end, CopyOne(m, t, base, gate, room);
            var to := gate + (end - base);
            if Guess(m, end, to, 4) == -0x8000_0000
            then r.outcome == Ok && Destination(r.memory, to, 4) == Wrap32(to + Signed32(4 + 0x100 * (to % 0x100_0000)))
            else r.outcome == InsufficientBuffer
  {
    hide Decode, CopyOne, CopyWith, Word, DisplacementAt, Extracted;
    var end := Decode(m, t, base).end;
    var to := gate + (end - base);
    DistanceIs(m, end, to, 4);
    CopyOneRelative(m, t, base, gate, room, 4);
    RewrittenIs(m, DisplacementAt(m, end, 4).value, base, gate, end - base);
  }

  lemma ImageIsRead(m: seq<byte>, p: nat, image: seq<byte>)
    requires |image| == 4 && p + 4 <= |m|
    ensures Word(Overwritten(m, p, image), p) == Word(image, 0)
  {
  }

  lemma CopyOneRelative(m: seq<byte>, t: Tables, base: nat, gate: nat, room: nat, width: byte)
    requires Decode(m, t, base).Instruction? && Decode(m, t, base).relative == Some(width)
    requires CanMove(m, Decode(m, t, base).end, base, gate, room, width)
    requires DisplacementAt(m, Decode(m, t, base).end, width).Some?
    ensures var end := Decode(m, t, base).end;
            CopyOne(m, t, base, gate, room) == CopyWith(m, DisplacementAt(m, end, width).value, base, gate, end - base)
  {
    hide Decode, CopyWith, DisplacementAt;
  }

  lemma RewrittenIs(m: seq<byte>, d: Displacement, base: nat, gate: nat, n: nat)
    requires gate + n <= |m| && base + n <= |m| && 4 < n && d.size == 4
    ensures match Recalculated(d, gate + n)
            case None => CopyWith(m, d, base, gate, n).outcome == InsufficientBuffer
            case Some(d') =>
              var r := CopyWith(m, d, base, gate, n);
              r.outcome == Ok && Word(r.memory, gate + n - 4) == 4 + 0x100 * ((gate + n) % 0x100_0000)
  {
    hide Recalculated, Copied, Image;
    match Recalculated(d, gate + n)
    case None =>
    case Some(d') =>
      ImageIs(d');
      ImageIsRead(Copied(m, gate, base, n), gate + n - 4, Image(d'));
  }
}
