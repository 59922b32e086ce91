/**
 A stream in memory. Its size and its storage are kept apart: storage is allocated late, with slack,
 and given back with hysteresis, so it may be shorter or longer than the stream.
 */
module MemoryStream {
  import opened Bytes

  /** Wild: bytes outside of the caller's buffer, or of the storage, were overwritten. */
  datatype Status = Ok | InvalidFunction | OutOfMemory | NoPointer | Wild

  datatype Origin = Set | Current | End | Other

  /** The storage, the size and the position, and how many bytes reallocations have copied. */
  datatype State = State(data: seq<byte>, size: nat, pos: nat, moved: nat) {
    /** Every number fits the 32 bits it is kept in. */
    predicate Fits() { |data| < WORD && size < WORD && pos < WORD }
  }

  const EMPTY := State([], 0, 0, 0)
  const FIRST_SIZE := 0x1000

  function Zeros(n: nat): (s: seq<byte>)
    ensures |s| == n && forall k | 0 <= k < n :: s[k] == 0
  {
    seq(n, _ => 0)
  }

  /** The size of the next storage when a larger one is needed; a debug build has no slack. */
  function Grown(capacity: nat, wanted: nat, debug: bool): (n: nat)
    ensures wanted <= n && (wanted < 0x1_0000_0000 ==> n < 0x1_0000_0000)
  {
    if debug then wanted
    else Max(wanted, Max(Min(Wrap32(2 * capacity), Wrap32(capacity + capacity / 4 + 0x10_0000)), FIRST_SIZE))
  }

  /** Storage moved to a new block of n bytes, which is filled with zeros first. */
  function Reallocated(s: State, n: nat): State {
    var kept := Min(|s.data|, n);
    s.(data := s.data[..kept] + Zeros(n - kept), moved := s.moved + kept)
  }

  function Ensured(s: State, n: nat, debug: bool): (r: State)
    ensures r.size == s.size && r.pos == s.pos && n <= |r.data|
    ensures s.Fits() && n < 0x1_0000_0000 ==> r.Fits()
  {
    if n > |s.data| then Reallocated(s, Grown(|s.data|, n, debug))
    else if n > |s.data| / 4 then s
    else Reallocated(s, n)
  }

  function Resized(s: State, n: nat, debug: bool): (Status, State) {
    if n >= WORD then (OutOfMemory, s)
    else
      var s' := s.(size := n);
      (Ok, if n < |s.data| then Ensured(s', n, debug) else s')
  }

  /** The start of a seek; None when the origin is not a known one. */
  function Start(s: State, origin: Origin): Option<nat> {
    match origin
    case Set => Some(0)
    case Current => Some(s.pos)
    case End => Some(s.size)
    case Other => None
  }

  /** A position is computed as an unsigned number of 64 bits, in which there is none before the start. */
  function Target(start: nat, move: int): nat { (start + move) % 0x1_0000_0000_0000_0000 }

  function Sought(s: State, move: int, origin: Origin, debug: bool): (Status, State) {
    match Start(s, origin)
    case None => (InvalidFunction, s)
    case Some(start) =>
      var target := Target(start, move);
      if target <= s.size then (Ok, s.(pos := target))
      else
        var (status, s') := Resized(s, target, debug);
        (status, if status == Ok then s'.(pos := target) else s')
  }

  /** Bytes written where there is storage for them. */
  function Stored(s: State, bytes: seq<byte>): State
    requires s.pos + |bytes| <= |s.data|
  {
    var end := s.pos + |bytes|;
    s.(data := Overwritten(s.data, s.pos, bytes), pos := end, size := Max(s.size, end))
  }

  function Written(s: State, bytes: seq<byte>, debug: bool): (Status, State) {
    var end := s.pos + |bytes|;
    if end >= WORD then (InvalidFunction, s)
    else (Ok, Stored(if end > |s.data| then Ensured(s, end, debug) else s, bytes))
  }

  /** The bytes up to the end of the stream; those without storage are zeros. */
  function Readable(data: seq<byte>, pos: nat, end: nat): (bytes: seq<byte>)
    requires pos <= Min(end, |data|) || end <= |data|
    ensures |bytes| == Max(0, end - pos)
  {
    var stored := Min(end, |data|);
    (if pos < stored then data[pos..stored] else []) + Zeros(end - stored)
  }

  /** Status, the bytes that reach the caller's buffer, the count that is reported, and the state. */
  datatype Reading = Reading(status: Status, bytes: seq<byte>, count: nat, after: State)

  function ReadFrom(s: State, cb: nat): Reading {
    var end := Min(if s.pos + cb >= WORD then WORD - 1 else s.pos + cb, s.size);
    var stored := Min(end, |s.data|);
    if stored < end && stored < s.pos then Reading(Wild, [], 0, s)
    else
      Reading(Ok, Readable(s.data, s.pos, end), Wrap32(end - s.pos), s.(pos := end))
  }

  function MemoryInfo(s: State, debug: bool): State {
    Ensured(s, Max(|s.data|, s.size), debug)
  }

  // ----- storage that is not granted

  /**
   What comes of ensuring a buffer size when no new block is granted. The allocator then returns the old
   block, which is taken for the new one: the refusal is noticed only when there was no block before.
   */
  datatype Refusal = Harmless(state: State) | Noticed | Mistaken(claimed: nat)

  function Refused(s: State, n: nat, debug: bool): (r: Refusal)
    ensures r.Noticed? <==> n > |s.data| == 0
    ensures r.Mistaken? <==> n > |s.data| > 0
    ensures r.Harmless? ==> r.state.data <= s.data && r.state == s.(data := r.state.data)
    ensures r.Mistaken? ==> r.claimed > |s.data|
  {
    if n > |s.data| then
      if s.data == [] then Noticed else Mistaken(Grown(|s.data|, n, debug))
    else if n > |s.data| / 4 then Harmless(s)
    else Harmless(s.(data := s.data[..n]))
  }

  /** An input: one byte of storage, and a second one that is not granted but counted. */
  lemma RefusalIsMistaken()
    ensures Refused(State([7], 1, 1, 0), 2, true) == Mistaken(2)
  {
  }

  /** A stream is never enlarged by resizing it, so a refusal does no harm there. */
  function ResizedAnyway(s: State, n: nat, debug: bool): (Status, State) {
    if n >= WORD then (OutOfMemory, s)
    else
      var s' := s.(size := n);
      (Ok, if n < |s.data| then Refused(s', n, debug).state else s')
  }

  function SoughtAnyway(s: State, move: int, origin: Origin, debug: bool): (Status, State) {
    match Start(s, origin)
    case None => (InvalidFunction, s)
    case Some(start) =>
      var target := Target(start, move);
      if target <= s.size then (Ok, s.(pos := target))
      else
        var (status, s') := ResizedAnyway(s, target, debug);
        (status, if status == Ok then s'.(pos := target) else s')
  }

  /** Without a block being granted, a stream shows the same sizes and positions, and bytes or zeros for bytes. */
  lemma ResizingNeedsNoBlock(s: State, n: nat, debug: bool)
    requires s.Fits()
    ensures var (hr, s1), (hr', s2) := Resized(s, n, debug), ResizedAnyway(s, n, debug);
            hr == hr' && s1.size == s2.size && s1.pos == s2.pos && s1.data == s2.data
  {
  }

  lemma SeekingNeedsNoBlock(s: State, move: int, origin: Origin, debug: bool)
    requires s.Fits()
    ensures var (hr, s1), (hr', s2) := Sought(s, move, origin, debug), SoughtAnyway(s, move, origin, debug);
            hr == hr' && s1.size == s2.size && s1.pos == s2.pos && s1.data == s2.data
  {
    hide Resized, ResizedAnyway, Target;
    if origin != Other {
      ResizingNeedsNoBlock(s, Target(Start(s, origin).value, move), debug);
    }
  }

  // ----- the stream itself

  method CopyMemory(dst: array<byte>, to: nat, src: array<byte>, from: nat, n: nat)
    requires dst != src && to + n <= dst.Length && from + n <= src.Length
    modifies dst
    ensures dst[..] == Overwritten(old(dst[..]), to, src[from..from + n])
  {
    ghost var bytes := src[from..from + n];
    for i := 0 to n
      invariant forall k | 0 <= k < i :: dst[to + k] == bytes[k]
      invariant forall k | 0 <= k < dst.Length && !(to <= k < to + i) :: dst[k] == old(dst[k])
    {
      dst[to + i] := src[from + i];
    }
    OverwrittenIs(old(dst[..]), dst[..], to, bytes);
  }

  method ZeroMemory(dst: array<byte>, to: nat, n: nat)
    requires to + n <= dst.Length
    modifies dst
    ensures dst[..] == Overwritten(old(dst[..]), to, Zeros(n))
  {
    ghost var zeros := Zeros(n);
    for i := 0 to n
      invariant forall k | 0 <= k < i :: dst[to + k] == zeros[k]
      invariant forall k | 0 <= k < dst.Length && !(to <= k < to + i) :: dst[k] == old(dst[k])
    {
      dst[to + i] := 0;
    }
    OverwrittenIs(old(dst[..]), dst[..], to, zeros);
  }

  method FillBuffer(pv: array<byte>, data: array<byte>, size: nat, pos: nat, end: nat)
    requires pv != data && size <= data.Length
    requires end - pos <= pv.Length && (pos <= Min(end, size) || end <= size)
    modifies pv
    ensures var bytes := Readable(data[..size], pos, end); pv[..] == bytes + old(pv[..])[|bytes|..]
  {
    hide Overwritten, Zeros;
    var stored := Min(end, size);
    if stored > pos {
      CopyMemory(pv, 0, data, pos, stored - pos);
      assert data[pos..pos + (stored - pos)] == data[..size][pos..stored];
    }
    if end > stored {
      ZeroMemory(pv, stored - pos, end - stored);
    }
    PartsAre(old(pv[..]), data[..size], pos, end);
  }

  /** The allocator. No block is one of length 0. When it cannot grant a block, it returns the one it was given. */
  method MemReallocate(pv: array<byte>, cbSizeOld: nat, cbSizeNew: nat, granted: bool) returns (pRet: array<byte>)
    requires cbSizeOld <= pv.Length && (cbSizeOld == 0 <==> pv.Length == 0)
    ensures granted || cbSizeNew == 0 ==>
              fresh(pRet) && pRet[..] == Reallocated(State(pv[..cbSizeOld], 0, 0, 0), cbSizeNew).data
    ensures !granted && cbSizeNew > 0 ==> pRet == pv
  {
    if cbSizeNew > 0 && !granted {
      return pv;
    }
    pRet := new byte[cbSizeNew](_ => 0);
    var kept := Min(cbSizeOld, cbSizeNew);
    CopyMemory(pRet, 0, pv, 0, kept);
    MovedIs(pv[..cbSizeOld], pRet[..], kept);
  }

  class Stream {
    var pbData: array<byte> // of length 0 when there is no storage
    var cbData: nat
    var cbSize: nat
    var iPosCur: nat
    ghost var moved: nat
    const debug: bool

    ghost predicate Valid()
      reads this, pbData
    {
      cbData <= pbData.Length && (cbData == 0 <==> pbData.Length == 0) && Value().Fits()
    }

    ghost function Value(): State
      requires cbData <= pbData.Length
      reads this, pbData
    {
      State(pbData[..cbData], cbSize, iPosCur, moved)
    }

    constructor (debug: bool)
      ensures Valid() && Value() == EMPTY && this.debug == debug && fresh(pbData)
    {
      this.debug := debug;
      pbData := new byte[0];
      cbData, cbSize, iPosCur, moved := 0, 0, 0, 0;
    }

    /** Only a stream without storage notices that it is not granted any. */
    method Reallocate(n: nat, granted: bool) returns (hr: Status)
      requires Valid() && n < WORD
      modifies this
      ensures cbSize == old(cbSize) && iPosCur == old(iPosCur)
      ensures granted || n == 0 ==> hr == Ok && Valid() && fresh(pbData) && Value() == Reallocated(old(Value()), n)
      ensures !granted && n > 0 ==> pbData == old(pbData) && moved == old(moved)
      ensures !granted && n > 0 && old(cbData) == 0 ==> hr == OutOfMemory && cbData == 0
      ensures !granted && n > 0 && old(cbData) > 0 ==> hr == Ok && cbData == n
    {
      var pbNew := MemReallocate(pbData, cbData, n, granted);
      if pbNew.Length == 0 && n > 0 {
        return OutOfMemory;
      }
      moved := moved + if pbNew == pbData then 0 else Min(cbData, n);
      pbData, cbData := pbNew, n;
      hr := Ok;
    }

    method EnsureBufferSize(cbNewSize: nat, granted: bool) returns (hr: Status)
      requires Valid() && cbNewSize < WORD
      modifies this
      ensures cbSize == old(cbSize) && iPosCur == old(iPosCur) && (pbData == old(pbData) || fresh(pbData))
      ensures granted ==> hr == Ok && Valid() && Value() == Ensured(old(Value()), cbNewSize, debug)
      ensures !granted ==>
                match Refused(old(Value()), cbNewSize, debug)
                case Harmless(s) => hr == Ok && Valid() && Value() == s
                case Noticed => hr == OutOfMemory && pbData == old(pbData) && Valid() && Value() == old(Value())
                case Mistaken(claimed) => hr == Ok && pbData == old(pbData) && cbData == claimed
    {
      var size := cbNewSize;
      if size > cbData {
        if !debug {
          var cb := Min(Wrap32(2 * cbData), Wrap32(cbData + cbData / 4 + 0x10_0000));
          cb := Max(cb, FIRST_SIZE);
          size := Max(size, cb);
        }
      } else if size > cbData / 4 {
        return Ok;
      }
      ghost var was := pbData[..cbData];
      hr := Reallocate(size, granted);
      assert !granted && 0 < size <= |was| ==> pbData[..cbData] == was[..size];
    }

    method ResizeTo(newSize: nat, granted: bool) returns (hr: Status)
      requires Valid()
      modifies this
      ensures Valid() && (pbData == old(pbData) || fresh(pbData))
      ensures (hr, Value()) == if granted then Resized(old(Value()), newSize, debug) else ResizedAnyway(old(Value()), newSize, debug)
    {
      if newSize >= WORD {
        return OutOfMemory;
      }
      cbSize := newSize;
      hr := Ok;
      if cbSize < cbData {
        hr := EnsureBufferSize(cbSize, granted);
      }
    }

    /** Writing into storage that was taken for granted leaves the block if that is too short. */
    method Write(pv: array<byte>, cb: nat, granted: bool) returns (hr: Status, written: nat)
      requires Valid() && pv != pbData && cb == pv.Length < WORD
      modifies this, pbData
      ensures written == cb && (pbData == old(pbData) || fresh(pbData))
      ensures granted || old(iPosCur) + cb >= WORD || old(iPosCur) + cb <= old(cbData) ==>
                Valid() && (hr, Value()) == Written(old(Value()), old(pv[..]), debug)
      ensures !granted && old(cbData) < old(iPosCur) + cb < WORD ==>
                pbData == old(pbData)
                && (if old(cbData) == 0 then hr == OutOfMemory && Valid() && Value() == old(Value())
                    else hr == if old(iPosCur) + cb <= pbData.Length then Ok else Wild)
    {
      hide Stored, Ensured;
      written := cb;
      var iPosNew := Wrap32(iPosCur + cb);
      if iPosNew < cb {
        return InvalidFunction, written;
      }
      hr := Ok;
      if iPosNew > cbData {
        hr := EnsureBufferSize(iPosNew, granted);
        if hr != Ok {
          return;
        }
        if iPosNew > pbData.Length {
          return Wild, written;
        }
      }
      Store(pv, cb);
    }

    method Store(pv: array<byte>, cb: nat)
      requires pv != pbData && cb == pv.Length && iPosCur + cb <= pbData.Length
      modifies this, pbData
      ensures pbData == old(pbData) && cbData == old(cbData)
      ensures old(Valid()) && old(iPosCur) + cb <= cbData ==> Valid() && Value() == Stored(old(Value()), old(pv[..]))
    {
      hide Overwritten;
      assert pv[0..cb] == pv[..];
      ghost var was, n := pbData[..], cbData;
      CopyMemory(pbData, iPosCur, pv, 0, cb);
      if n <= |was| && iPosCur + cb <= n { OverwrittenPrefix(was, n, iPosCur, pv[..]); }
      iPosCur := iPosCur + cb;
      if iPosCur > cbSize {
        cbSize := iPosCur;
      }
    }

    method Seek(move: int, origin: Origin, granted: bool) returns (hr: Status)
      requires Valid()
      modifies this
      ensures Valid() && (pbData == old(pbData) || fresh(pbData))
      ensures (hr, Value()) == if granted then Sought(old(Value()), move, origin, debug) else SoughtAnyway(old(Value()), move, origin, debug)
    {
      var iPosStart: nat;
      match origin {
        case Set => iPosStart := 0;
        case Current => iPosStart := iPosCur;
        case End => iPosStart := cbSize;
        case Other => return InvalidFunction;
      }
      var iPosNew := Target(iPosStart, move);
      if iPosNew > cbSize {
        hr := ResizeTo(iPosNew, granted);
        if hr != Ok {
          return;
        }
      }
      iPosCur := iPosNew;
      hr := Ok;
    }

    method Read(pv: array<byte>, cb: nat) returns (hr: Status, cbRead: nat)
      requires Valid() && pv != pbData && cb == pv.Length < WORD
      modifies this, pv
      ensures Valid() && pbData == old(pbData)
      ensures var r := ReadFrom(old(Value()), cb);
              && hr == r.status && cbRead == r.count && Value() == r.after
              && |r.bytes| <= cb && pv[..] == r.bytes + old(pv[..])[|r.bytes|..]
    {
      var iPosNew := Wrap32(iPosCur + cb);
      if iPosNew < cb {
        iPosNew := WORD - 1;
      }
      iPosNew := Min(iPosNew, cbSize);
      var stored := Min(iPosNew, cbData);
      if stored < iPosNew && stored < iPosCur {
        return Wild, 0;
      }
      FillBuffer(pv, pbData, cbData, iPosCur, iPosNew);
      cbRead := Wrap32(iPosNew - iPosCur);
      iPosCur := iPosNew;
      hr := Ok;
    }

    method SetSize(newSize: nat, granted: bool) returns (hr: Status)
      requires Valid()
      modifies this
      ensures Valid() && (pbData == old(pbData) || fresh(pbData))
      ensures (hr, Value()) == if granted then Resized(old(Value()), newSize, debug) else ResizedAnyway(old(Value()), newSize, debug)
    {
      hr := ResizeTo(newSize, granted);
    }

    /** Two null pointers are refused; storage that is mistaken for granted is handed out. */
    method GetMemoryInfo(wantsAddress: bool, wantsSize: bool, granted: bool)
      returns (hr: Status, address: Option<array<byte>>, size: Option<nat>)
      requires Valid()
      modifies this
      ensures cbSize == old(cbSize) && iPosCur == old(iPosCur)
      ensures !wantsAddress && !wantsSize ==> hr == NoPointer && Valid() && Value() == old(Value())
      ensures wantsAddress || wantsSize ==>
                && (hr == OutOfMemory <==> !granted && old(cbSize) > old(cbData) == 0)
                && (hr != OutOfMemory ==> hr == Ok)
                && (granted ==> Valid() && Value() == MemoryInfo(old(Value()), debug))
                && ((!granted && old(cbSize) <= old(cbData)) || hr == OutOfMemory ==> Valid() && Value() == old(Value()))
                && (!granted && old(cbSize) > old(cbData) > 0 ==> pbData == old(pbData) && cbData > old(cbData))
      ensures address == if hr == Ok && wantsAddress then Some(pbData) else None
      ensures size == if hr == Ok && wantsSize then Some(cbSize) else None
    {
      address, size := None, None;
      if !wantsAddress && !wantsSize {
        return NoPointer, None, None;
      }
      hr := EnsureBufferSize(Max(cbData, cbSize), granted);
      if hr != Ok {
        return;
      }
      if wantsAddress { address := Some(pbData); }
      if wantsSize { size := Some(cbSize); }
    }
  }

  lemma OverwrittenPrefix(s: seq<byte>, n: nat, at: nat, bytes: seq<byte>)
    requires at + |bytes| <= n <= |s|
    ensures Overwritten(s, at, bytes)[..n] == Overwritten(s[..n], at, bytes)
  {
  }

  lemma MovedIs(from: seq<byte>, to: seq<byte>, kept: nat)
    requires kept <= |from| && kept <= |to|
    requires to == Overwritten(Zeros(|to|), 0, from[..kept])
    ensures to == from[..kept] + Zeros(|to| - kept)
  {
  }

  lemma PartsAre(was: seq<byte>, data: seq<byte>, pos: nat, end: nat)
    requires end - pos <= |was| && (pos <= Min(end, |data|) || end <= |data|)
    ensures var stored, bytes := Min(end, |data|), Readable(data, pos, end);
            var first := if pos < stored then Overwritten(was, 0, data[pos..stored]) else was;
            bytes + was[|bytes|..] == if stored < end then Overwritten(first, stored - pos, Zeros(end - stored)) else first
  {
    hide Overwritten;
    var stored := Min(end, |data|);
    var a, z := if pos < stored then data[pos..stored] else [], Zeros(end - stored);
    OverwrittenAtStart(was, a + z);
    OverwrittenAtStart(was, a);
    if stored < end {
      OverwrittenTwice(was, 0, a, z);
      assert [] + was == was;
    } else {
      assert a + z == a;
    }
  }

  lemma OverwrittenAtStart(was: seq<byte>, bytes: seq<byte>)
    requires |bytes| <= |was|
    ensures Overwritten(was, 0, bytes) == bytes + was[|bytes|..]
  {
  }
}
