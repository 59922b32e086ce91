/** The memory stream behaves like a plain file: a sequence of bytes and a position. */
module StreamIsFile {
  import opened Bytes
  import opened MemoryStream

  /**
   A plain file that remembers what was written to each position last, also behind its end. A byte that
   comes into being when the file is extended is zero or what was last written there.
   */
  datatype File = File(bytes: seq<byte>, pos: nat, last: seq<byte>)

  datatype Op = Write(bytes: seq<byte>) | Seek(move: int, origin: Origin) | SetSize(size: nat) | Read(cb: nat) | Info

  /** What the caller of an operation sees: its status, bytes it obtains, and a count or position. */
  datatype Seen = Seen(status: Status, bytes: seq<byte>, count: nat)

  // ----- the plain file

  function Limit(f: File, cb: nat): nat { Min(f.pos + cb, |f.bytes|) }

  /** What was written to a position last; zero where nothing ever was. */
  function LastAt(last: seq<byte>, k: nat): byte { if k < |last| then last[k] else 0 }

  /** A write is remembered. */
  function Noted(last: seq<byte>, pos: nat, bytes: seq<byte>): (r: seq<byte>)
    ensures |r| == Max(|last|, pos + |bytes|)
    ensures forall k | 0 <= k < |r| :: r[k] == if pos <= k < pos + |bytes| then bytes[k - pos] else LastAt(last, k)
  {
    Overwritten(last + Zeros(Max(|last|, pos + |bytes|) - |last|), pos, bytes)
  }

  /** A file of another size, still at the same position. */
  predicate Extended(f: File, size: nat, f': File) {
    && |f'.bytes| == size && f'.pos == f.pos && f'.last == f.last
    && (forall k | 0 <= k < size && k < |f.bytes| :: f'.bytes[k] == f.bytes[k])
    && (forall k | |f.bytes| <= k < size :: f'.bytes[k] == 0 || f'.bytes[k] == LastAt(f.last, k))
  }

  predicate Overwrites(f: File, bytes: seq<byte>, f': File) {
    var end := f.pos + |bytes|;
    && |f'.bytes| == Max(|f.bytes|, end) && f'.pos == end && f'.last == Noted(f.last, f.pos, bytes)
    && f'.bytes[f.pos..end] == bytes
    && (forall k | 0 <= k < |f.bytes| && !(f.pos <= k < end) :: f'.bytes[k] == f.bytes[k])
    && (forall k | |f.bytes| <= k < f.pos :: f'.bytes[k] == 0 || f'.bytes[k] == LastAt(f.last, k))
  }

  /** How a plain file responds to an operation. A count of a failed write is that of the request. */
  predicate Allows(f: File, op: Op, seen: Seen, f': File) {
    match op
    case Write(bytes) =>
      if f.pos + |bytes| >= WORD then seen == Seen(InvalidFunction, [], |bytes|) && f' == f
      else seen == Seen(Ok, [], |bytes|) && Overwrites(f, bytes, f')
    case SetSize(size) =>
      if size >= WORD then seen == Seen(OutOfMemory, [], 0) && f' == f
      else seen == Seen(Ok, [], 0) && Extended(f, size, f')
    case Seek(move, origin) =>
      if origin == Other then seen == Seen(InvalidFunction, [], 0) && f' == f
      else
        var start := match origin case Set => 0 case Current => f.pos case End => |f.bytes| case Other => 0;
        var target := Target(start, move);
        if target >= WORD then seen == Seen(OutOfMemory, [], 0) && f' == f
        else seen == Seen(Ok, [], target) && Extended(f.(pos := target), Max(|f.bytes|, target), f')
    case Read(cb) =>
      && f.pos <= |f.bytes|
      && seen == Seen(Ok, f.bytes[f.pos..Limit(f, cb)], Limit(f, cb) - f.pos)
      && f' == f.(pos := Limit(f, cb))
    case Info => seen == Seen(Ok, f.bytes, |f.bytes|) && f' == f
  }

  /** The plain file can show all this in turn. */
  ghost predicate Shows(f: File, ops: seq<Op>, seen: seq<Seen>)
    decreases |ops|
  {
    if ops == [] then seen == []
    else seen != [] && exists f' :: Allows(f, ops[0], seen[0], f') && Shows(f', ops[1..], seen[1..])
  }

  // ----- the stream

  function Apply(s: State, op: Op, debug: bool): (Seen, State) {
    match op
    case Write(bytes) => var (hr, s') := Written(s, bytes, debug); (Seen(hr, [], |bytes|), s')
    case SetSize(size) => var (hr, s') := Resized(s, size, debug); (Seen(hr, [], 0), s')
    case Seek(move, origin) =>
      var (hr, s') := Sought(s, move, origin, debug);
      (Seen(hr, [], if hr == Ok then s'.pos else 0), s')
    case Read(cb) => var r := ReadFrom(s, cb); (Seen(r.status, r.bytes, r.count), r.after)
    case Info => var s' := MemoryInfo(s, debug); (Seen(Ok, s'.data[..s'.size], s'.size), s')
  }

  function Run(s: State, ops: seq<Op>, debug: bool): (seq<Seen>, State)
    decreases |ops|
  {
    if ops == [] then ([], s)
    else
      var (seen, s') := Apply(s, ops[0], debug);
      var (more, last) := Run(s', ops[1..], debug);
      ([seen] + more, last)
  }

  /** Reading starts inside the stream and inside its storage. */
  predicate Readable(s: State) { s.pos <= s.size && s.pos <= |s.data| }

  predicate Careful(s: State, ops: seq<Op>, debug: bool)
    decreases |ops|
  {
    ops == [] || ((ops[0].Read? ==> Readable(s)) && Careful(Apply(s, ops[0], debug).1, ops[1..], debug))
  }

  // ----- the file that a stream stands for

  function ByteAt(s: State, k: nat): byte { if k < |s.data| then s.data[k] else 0 }

  function Contents(s: State): (bytes: seq<byte>)
    ensures |bytes| == s.size && forall k | 0 <= k < s.size :: bytes[k] == ByteAt(s, k)
  {
    seq(s.size, k requires 0 <= k => ByteAt(s, k))
  }

  function FileOf(s: State, last: seq<byte>): File { File(Contents(s), s.pos, last) }

  /** Storage holds nothing but zeros and what was written there last. */
  ghost predicate Clean(s: State, last: seq<byte>) {
    s.Fits() && forall k: nat :: ByteAt(s, k) == 0 || ByteAt(s, k) == LastAt(last, k)
  }

  /** Moving storage changes no byte, except for bytes beyond the end that it may turn to zeros. */
  lemma EnsuredBytes(s: State, n: nat, debug: bool, last: seq<byte>)
    requires Clean(s, last) && n < WORD
    ensures var s' := Ensured(s, n, debug);
            && Clean(s', last)
            && (forall k: nat | k < n || |s.data| <= k :: ByteAt(s', k) == ByteAt(s, k))
            && (forall k: nat :: ByteAt(s', k) == ByteAt(s, k) || ByteAt(s', k) == 0)
  {
    hide Grown;
  }

  lemma ResizedFile(s: State, n: nat, debug: bool, last: seq<byte>)
    requires Clean(s, last) && n < WORD
    ensures var (hr, s') := Resized(s, n, debug);
            && hr == Ok && s'.size == n && s'.pos == s.pos && Clean(s', last)
            && Extended(FileOf(s, last), n, FileOf(s', last))
  {
    hide Grown, Ensured;
    EnsuredBytes(s.(size := n), n, debug, last);
    assert forall k: nat :: ByteAt(s.(size := n), k) == ByteAt(s, k);
  }

  lemma StoredFile(s: State, s0: State, bytes: seq<byte>, last: seq<byte>)
    requires Clean(s0, last) && s.Fits() && s0.size == s.size && s0.pos == s.pos
    requires forall k: nat | k < s.pos + |bytes| || |s.data| <= k || k < s.size :: ByteAt(s0, k) == ByteAt(s, k)
    requires s.pos + |bytes| <= |s0.data| && s.pos + |bytes| < WORD
    ensures var s' := Stored(s0, bytes);
            var last' := Noted(last, s.pos, bytes);
            Clean(s', last') && Overwrites(FileOf(s, last), bytes, FileOf(s', last'))
  {
    hide Overwritten;
    var s', last' := Stored(s0, bytes), Noted(last, s.pos, bytes);
    StoredBytes(s0, bytes);
    forall k: nat ensures ByteAt(s', k) == 0 || ByteAt(s', k) == LastAt(last', k) {
      if !(s.pos <= k < s.pos + |bytes|) {
        assert ByteAt(s', k) == ByteAt(s0, k) && LastAt(last', k) == LastAt(last, k);
      }
    }
    assert Contents(s')[s.pos..s.pos + |bytes|] == bytes;
  }

  lemma StoredBytes(s: State, bytes: seq<byte>)
    requires s.pos + |bytes| <= |s.data|
    ensures var s' := Stored(s, bytes);
            && (forall k: nat | !(s.pos <= k < s.pos + |bytes|) :: ByteAt(s', k) == ByteAt(s, k))
            && (forall k: nat | s.pos <= k < s.pos + |bytes| :: ByteAt(s', k) == bytes[k - s.pos])
  {
  }

  lemma WriteIsAllowed(s: State, bytes: seq<byte>, debug: bool, last: seq<byte>) returns (last': seq<byte>)
    requires Clean(s, last)
    ensures var (seen, s') := Apply(s, Write(bytes), debug);
            Clean(s', last') && Allows(FileOf(s, last), Write(bytes), seen, FileOf(s', last'))
  {
    hide Overwrites, Contents, Stored, Ensured, ByteAt;
    var end := s.pos + |bytes|;
    last' := last;
    if end < WORD {
      last' := Noted(last, s.pos, bytes);
      var s0 := s;
      if end > |s.data| {
        s0 := Ensured(s, end, debug);
        EnsuredBytes(s, end, debug, last);
      }
      StoredFile(s, s0, bytes, last);
    }
  }

  lemma SeekIsAllowed(s: State, move: int, origin: Origin, debug: bool, last: seq<byte>)
    requires Clean(s, last)
    ensures var (seen, s') := Apply(s, Seek(move, origin), debug);
            Clean(s', last) && Allows(FileOf(s, last), Seek(move, origin), seen, FileOf(s', last))
  {
    hide Resized, ByteAt;
    if origin != Other {
      var target := Target(Start(s, origin).value, move);
      if s.size < target < WORD {
        ResizedFile(s, target, debug, last);
        SameContents(Resized(s, target, debug).1, target);
      } else if target >= WORD {
        ResizeFails(s, target, debug);
      } else {
        SameContents(s, target);
      }
    }
  }

  lemma ResizeFails(s: State, n: nat, debug: bool)
    requires n >= WORD
    ensures Resized(s, n, debug) == (OutOfMemory, s)
  {
  }

  lemma SameContents(s: State, pos: nat)
    ensures Contents(s.(pos := pos)) == Contents(s) && forall k: nat :: ByteAt(s.(pos := pos), k) == ByteAt(s, k)
  {
  }

  lemma ReadIsAllowed(s: State, cb: nat, debug: bool, last: seq<byte>)
    requires Clean(s, last) && Readable(s)
    ensures var (seen, s') := Apply(s, Read(cb), debug);
            Clean(s', last) && Allows(FileOf(s, last), Read(cb), seen, FileOf(s', last))
  {
    var f := FileOf(s, last);
    var end := Limit(f, cb);
    SameContents(s, end);
    assert MemoryStream.Readable(s.data, s.pos, end) == f.bytes[s.pos..end];
  }

  lemma InfoIsAllowed(s: State, debug: bool, last: seq<byte>)
    requires Clean(s, last)
    ensures var (seen, s') := Apply(s, Info, debug);
            Clean(s', last) && Allows(FileOf(s, last), Info, seen, FileOf(s', last))
  {
    hide Ensured;
    var n := Max(|s.data|, s.size);
    EnsuredBytes(s, n, debug, last);
    var s' := Ensured(s, n, debug);
    assert Contents(s') == Contents(s) == s'.data[..s.size];
  }

  /** Every operation of a stream is one that the file it stands for allows. */
  lemma StepIsAllowed(s: State, op: Op, debug: bool, last: seq<byte>) returns (last': seq<byte>)
    requires Clean(s, last) && (op.Read? ==> Readable(s))
    ensures var (seen, s') := Apply(s, op, debug);
            Clean(s', last') && Allows(FileOf(s, last), op, seen, FileOf(s', last'))
  {
    hide Written, Sought, ReadFrom, MemoryInfo;
    last' := last;
    match op
    case Write(bytes) => last' := WriteIsAllowed(s, bytes, debug, last);
    case Seek(move, origin) => SeekIsAllowed(s, move, origin, debug, last);
    case SetSize(size) => if size < WORD { ResizedFile(s, size, debug, last); }
    case Read(cb) => ReadIsAllowed(s, cb, debug, last);
    case Info => InfoIsAllowed(s, debug, last);
  }

  lemma {:induction false} RunIsShown(s: State, ops: seq<Op>, debug: bool, last: seq<byte>)
    requires Clean(s, last) && Careful(s, ops, debug)
    ensures Shows(FileOf(s, last), ops, Run(s, ops, debug).0)
    decreases |ops|
  {
    hide Apply, Allows, FileOf, Clean;
    if ops != [] {
      var (seen, s') := Apply(s, ops[0], debug);
      var last' := StepIsAllowed(s, ops[0], debug, last);
      RunIsShown(s', ops[1..], debug, last');
      var more := Run(s', ops[1..], debug).0;
      assert ([seen] + more)[1..] == more;
    }
  }

  /**
   The stream is a file. Whatever is done to a new stream, its callers see what a plain file would
   have shown them, as long as every read starts inside the stream and inside its storage.
   */
  lemma StreamRefinesFile(ops: seq<Op>, debug: bool)
    requires Careful(EMPTY, ops, debug)
    ensures Shows(File([], 0, []), ops, Run(EMPTY, ops, debug).0)
  {
    RunIsShown(EMPTY, ops, debug, []);
    assert FileOf(EMPTY, []) == File([], 0, []);
  }

  /** The condition on reads is exact: any other read overruns the caller's buffer or miscounts. */
  lemma ReadableIsExact(s: State, cb: nat)
    requires s.Fits()
    ensures var r := ReadFrom(s, cb);
            (r.status == Ok && r.count == |r.bytes|) <==> Readable(s)
  {
  }

  /**
   Seeking fails for want of memory exactly when the target lies before the start or beyond what 32 bits
   can address; a position before the start is not refused as one.
   */
  lemma SeekFailsOutside(s: State, move: int, origin: Origin, debug: bool)
    requires s.Fits() && origin != Other && -0x8000_0000_0000_0000 <= move < 0x8000_0000_0000_0000
    ensures var goal := Start(s, origin).value + move;
            Sought(s, move, origin, debug).0 == OutOfMemory <==> goal < 0 || goal >= WORD
    ensures var goal := Start(s, origin).value + move;
            if goal < 0 || goal >= WORD then Sought(s, move, origin, debug) == (OutOfMemory, s)
            else Sought(s, move, origin, debug).0 == Ok && Sought(s, move, origin, debug).1.pos == goal
  {
    hide Ensured;
    var start := Start(s, origin).value;
    TargetIs(start, move);
    if start + move < 0 { ResizeFails(s, Target(start, move), debug); }
  }

  lemma TargetIs(start: nat, move: int)
    requires start < WORD && -0x8000_0000_0000_0000 <= move < 0x8000_0000_0000_0000
    ensures Target(start, move) == if start + move < 0 then start + move + 0x1_0000_0000_0000_0000 else start + move
  {
  }

  /** Reading from behind the end goes back to it, and reports a count that wrapped around. */
  lemma ReadBehindEndMiscounts(s: State, cb: nat)
    requires s.Fits() && s.pos > s.size
    ensures var r := ReadFrom(s, cb);
            if |s.data| < s.size then r.status == Wild && r.after == s
            else r == Reading(Ok, [], 0x1_0000_0000 - (s.pos - s.size), s.(pos := s.size))
  {
  }

  /** Seeking ahead allocates nothing, so reading there is out of bounds. */
  lemma ReadAfterSeekIsWild()
    ensures var (_, s) := Sought(EMPTY, 1, Set, false); ReadFrom(s, 0).status == Wild
  {
  }

  /** A stream that is cut short and extended again shows what was cut off. */
  lemma CutBytesReappear()
    ensures var ops := [Write([7, 8]), SetSize(1), SetSize(2), Info];
            Run(EMPTY, ops, true).0[3] == Seen(Ok, [7, 8], 2)
  {
    var s1 := Apply(EMPTY, Write([7, 8]), true).1;
    assert s1 == State([7, 8], 2, 2, 0);
    assert Apply(s1, SetSize(1), true).1 == State([7, 8], 1, 2, 0);
    assert Apply(State([7, 8], 1, 2, 0), SetSize(2), true).1 == s1;
    assert Apply(s1, Info, true).0 == Seen(Ok, [7, 8], 2);
    var ops := [Write([7, 8]), SetSize(1), SetSize(2), Info];
    assert ops[1..] == [SetSize(1), SetSize(2), Info] && ops[1..][1..] == [SetSize(2), Info] && ops[1..][1..][1..] == [Info];
  }
}
