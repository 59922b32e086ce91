/**
 Splitting a message into its encoded bodies and the text between them, and turning both into
 attachments.
 */
module MessageSplit {
  import opened Bytes
  import opened EncodeInfo
  import opened Header
  import opened HeaderBounds
  import opened TagSearch

  const CRLFCRLF: seq<byte> := [13, 10, 13, 10]

  /** Where a body begins, and where the line of its trailer ends; the latter may be missing. */
  datatype Found = Found(begin: nat, tail: Option<nat>)

  function FindBegin(buf: seq<byte>): Option<nat> {
    match Find(buf, YBEGIN2, true)
    case Some(p) => Some(p)
    case None => Find(buf, YBEGIN, true)
  }

  function FindTail(buf: seq<byte>): (r: Option<nat>)
    ensures r.Some? ==> 0 < r.value <= |buf|
  {
    match Find(buf, YEND, true)
    case None => None
    case Some(p) => Some(match NextLine(buf, p) case Some(q) => q case None => |buf|)
  }

  /** The next body of a buffer. */
  function FindBody(buf: seq<byte>): (r: Option<Found>)
    ensures r.Some? ==> r.value.begin <= |buf|
    ensures r.Some? && r.value.tail.Some? ==> r.value.begin < r.value.tail.value <= |buf|
  {
    match FindBegin(buf)
    case None => None
    case Some(begin) =>
      match FindTail(buf[begin..])
      case None => Some(Found(begin, None))
      case Some(t) => Some(Found(begin, Some(begin + t)))
  }

  method DecoderFindEncodedBody(buf: seq<byte>) returns (r: Option<Found>)
    ensures r == FindBody(buf)
  {
    var pbBegin := FindTag(buf, YBEGIN2, true);
    if pbBegin == None {
      pbBegin := FindTag(buf, YBEGIN, true);
    }
    if pbBegin == None {
      return None;
    }
    var begin := pbBegin.value;
    var pbEnd := FindTag(buf[begin..], YEND, true);
    if pbEnd == None {
      return Some(Found(begin, None));
    }
    var line := FindTag(buf[begin..][pbEnd.value..], CRLF, false);
    var tail := if line == None then |buf| else begin + pbEnd.value + line.value + |CRLF|;
    r := Some(Found(begin, Some(tail)));
  }

  // ----- the scan

  /** A body whose header was understood. Positions in its info count from its beginning. */
  datatype Body = Body(begin: nat, end: nat, info: Info)

  /**
   The bodies of a message. Faulted: a body has no trailer, so that its header is parsed up to a null pointer,
   through all of memory, and the scan would go on at that pointer; the exception becomes a failure.
   Overran: a header was parsed beyond the end of its body.
   */
  datatype Scan = Scanned(bodies: seq<Body>) | Faulted | Overran {
    function After(b: Body): Scan { if Scanned? then Scanned([b] + bodies) else this }
  }

  function ScanFrom(buf: seq<byte>, line: nat): Scan
    requires line <= |buf|
    decreases |buf| - line
  {
    if line == |buf| then Scanned([])
    else match FindBody(buf[line..])
      case None => Scanned([])
      case Some(Found(_, None)) => Faulted
      case Some(Found(b, Some(t))) =>
        var begin, tail := line + b, line + t;
        match Initialized(buf[begin..tail])
        case (Ok, info) => ScanFrom(buf, tail).After(Body(begin, tail, info))
        case (Failed(_), _) => ScanFrom(buf, tail)
        case (Overrun, _) => Overran
  }

  function Prepend(bodies: seq<Body>, r: Scan): Scan {
    if r.Scanned? then Scanned(bodies + r.bodies) else r
  }

  method ScanBodies(buf: seq<byte>, start: nat) returns (r: Scan)
    requires start <= |buf|
    ensures r == ScanFrom(buf, start)
  {
    hide FindBody, Initialized;
    var pbLine, bodies := start, [];
    while pbLine < |buf|
      invariant pbLine <= |buf|
      invariant ScanFrom(buf, start) == Prepend(bodies, ScanFrom(buf, pbLine))
      decreases |buf| - pbLine
    {
      var found := DecoderFindEncodedBody(buf[pbLine..]);
      if found == None {
        break;
      }
      if found.value.tail == None {
        return Faulted;
      }
      var pbBody, pbTail := pbLine + found.value.begin, pbLine + found.value.tail.value;
      var pRecord := new Record();
      var status := DecoderInitialize(buf[pbBody..pbTail], pRecord);
      match status {
        case Overrun => return Overran;
        case Failed(_) =>
        case Ok =>
          PrependOne(bodies, Body(pbBody, pbTail, pRecord.info), ScanFrom(buf, pbTail));
          bodies := bodies + [Body(pbBody, pbTail, pRecord.info)];
      }
      pbLine := pbTail;
    }
    r := Scanned(bodies);
  }

  lemma PrependOne(bodies: seq<Body>, b: Body, r: Scan)
    ensures Prepend(bodies, r.After(b)) == Prepend(bodies + [b], r)
  {
    if r.Scanned? { assert bodies + ([b] + r.bodies) == (bodies + [b]) + r.bodies; }
  }

  /** The bodies lie behind one another, from a position on. */
  predicate InOrder(bodies: seq<Body>, from: nat, to: nat) {
    if bodies == [] then from <= to
    else from <= bodies[0].begin < bodies[0].end && InOrder(bodies[1..], bodies[0].end, to)
  }

  lemma {:induction false} InOrderFrom(bodies: seq<Body>, from: nat, later: nat, to: nat)
    requires from <= later && InOrder(bodies, later, to)
    ensures InOrder(bodies, from, to)
  {
  }

  /** Bodies are found in order, do not overlap, and are exactly the ones that can be parsed. */
  lemma {:induction false} ScanIsOrdered(buf: seq<byte>, line: nat)
    requires line <= |buf| && ScanFrom(buf, line).Scanned?
    ensures InOrder(ScanFrom(buf, line).bodies, line, |buf|)
    ensures forall b | b in ScanFrom(buf, line).bodies ::
              b.begin < b.end <= |buf| && Initialized(buf[b.begin..b.end]) == (Ok, b.info)
    decreases |buf| - line
  {
    hide FindBody, Initialized;
    if line < |buf| && FindBody(buf[line..]).Some? {
      var found := FindBody(buf[line..]).value;
      var begin, tail := line + found.begin, line + found.tail.value;
      ScanIsOrdered(buf, tail);
      if Initialized(buf[begin..tail]).0 != Ok {
        InOrderFrom(ScanFrom(buf, tail).bodies, line, tail, |buf|);
      }
    }
  }

  // ----- when the scan succeeds

  /** A line of the message starts with a tag. */
  predicate LineWith(buf: seq<byte>, tag: seq<byte>, p: nat) {
    OccursAt(buf, tag, p) && LineStart(buf, p)
  }

  predicate BeginLine(buf: seq<byte>, p: nat) { LineWith(buf, YBEGIN2, p) || LineWith(buf, YBEGIN, p) }

  /** Every =ybegin line from a position on is followed by a =yend line. */
  ghost predicate Paired(buf: seq<byte>, from: nat) {
    forall p: nat | from <= p && BeginLine(buf, p) :: exists q: nat :: p <= q && LineWith(buf, YEND, q)
  }

  lemma SameLines(buf: seq<byte>, from: nat, tag: seq<byte>, p: nat)
    requires from <= |buf| && LineStart(buf, from) && |tag| > 0
    ensures LineWith(buf[from..], tag, p) <==> LineWith(buf, tag, from + p)
  {
    if from + p + |tag| <= |buf| {
      assert buf[from..][p..p + |tag|] == buf[from + p..from + p + |tag|];
      if p == 1 && from > 0 { assert buf[from - 1] == LF; }
    }
  }

  /** What is found in the rest of a message, from the start of a line on. */
  lemma FoundLine(buf: seq<byte>, from: nat, tag: seq<byte>)
    requires from <= |buf| && LineStart(buf, from) && |tag| > 0 && LF !in tag
    ensures match Find(buf[from..], tag, true)
            case Some(p) => LineWith(buf, tag, from + p)
            case None => forall q: nat | from <= q :: !LineWith(buf, tag, q)
  {
    LineSearchExact(buf[from..], tag);
    var r := Find(buf[from..], tag, true);
    if r.Some? {
      SameLines(buf, from, tag, r.value);
    } else {
      forall q: nat | from <= q ensures !LineWith(buf, tag, q) {
        SameLines(buf, from, tag, q - from);
      }
    }
  }

  lemma BeginIsFound(buf: seq<byte>, from: nat)
    requires from <= |buf| && LineStart(buf, from)
    ensures match FindBegin(buf[from..])
            case Some(p) => BeginLine(buf, from + p)
            case None => forall q: nat | from <= q :: !BeginLine(buf, q)
  {
    FoundLine(buf, from, YBEGIN2);
    FoundLine(buf, from, YBEGIN);
  }

  /** A line break that was found is one. */
  lemma NextLineStarts(buf: seq<byte>, p: nat)
    requires p <= |buf| && NextLine(buf, p).Some?
    ensures LineStart(buf, NextLine(buf, p).value)
  {
    PlainSearchExact(buf[p..], CRLF);
    var d := Find(buf[p..], CRLF, false).value;
    assert buf[p + d] == buf[p..][d..d + 2][0] && buf[p + d + 1] == buf[p..][d..d + 2][1];
  }

  /** The tail of a body starts a line, unless it is the end of the message. */
  lemma TailIsFound(buf: seq<byte>, begin: nat)
    requires begin <= |buf| && LineStart(buf, begin)
    ensures match FindTail(buf[begin..])
            case Some(t) => begin + t < |buf| ==> LineStart(buf, begin + t) && buf[begin..][t - 1] == LF
            case None => forall q: nat | begin <= q :: !LineWith(buf, YEND, q)
  {
    FoundLine(buf, begin, YEND);
    var r := Find(buf[begin..], YEND, true);
    if r.Some? && NextLine(buf[begin..], r.value).Some? {
      NextLineStarts(buf[begin..], r.value);
      var t := NextLine(buf[begin..], r.value).value;
      assert t >= 2 && buf[begin..][t - 1] == buf[begin + t - 1] && buf[begin..][t - 2] == buf[begin + t - 2];
    }
  }

  /** A body that starts with the keyword and ends in a line break is parsed without leaving it. */
  lemma BodyIsInside(buf: seq<byte>, begin: nat, tail: nat)
    requires begin < tail <= |buf| && BeginLine(buf, begin) && EndsInBreak(buf)
    requires tail < |buf| ==> buf[tail - 1] == LF
    requires begin + |YBEGIN2| <= tail
    ensures Initialized(buf[begin..tail]).0 != Overrun
  {
    var body := buf[begin..tail];
    assert body[..|RAW_YBEGIN|] == RAW_YBEGIN by {
      var tag := if LineWith(buf, YBEGIN2, begin) then YBEGIN2 else YBEGIN;
      assert body[..|RAW_YBEGIN|] == buf[begin..begin + |tag|][..|RAW_YBEGIN|] == tag[..|RAW_YBEGIN|];
    }
    assert body == RAW_YBEGIN + body[|RAW_YBEGIN|..];
    LineTagAtStart(RAW_YBEGIN, body[|RAW_YBEGIN|..]);
    ParsesInside(body);
  }

  lemma BodyIsLong(buf: seq<byte>, begin: nat)
    requires begin <= |buf| && BeginLine(buf, begin) && FindTail(buf[begin..]).Some?
    ensures FindTail(buf[begin..]).value >= |YBEGIN2|
  {
    var text := buf[begin..];
    LineSearchExact(text, YEND);
    var e := Find(text, YEND, true).value;
    var tag := if LineWith(buf, YBEGIN2, begin) then YBEGIN2 else YBEGIN;
    assert text[..|tag|] == buf[begin..begin + |tag|] == tag;
    assert text[e] == text[e..e + |YEND|][0] && text[e + 2] == text[e..e + |YEND|][2];
    assert text[1] == text[..|tag|][1] && text[2] == text[..|tag|][2];
  }

  /** A paired body has a tail. */
  lemma PairedHasTail(buf: seq<byte>, line: nat)
    requires line < |buf| && LineStart(buf, line) && Paired(buf, line) && FindBody(buf[line..]).Some?
    ensures FindBody(buf[line..]).value.tail.Some?
  {
    hide Find, NextLine, FindTail, FindBegin, BeginLine, LineWith;
    var b := FindBegin(buf[line..]).value;
    var begin := line + b;
    assert buf[line..][b..] == buf[begin..];
    BeginIsFound(buf, line);
    BeginStartsLine(buf, begin);
    TailIsFound(buf, begin);
    var q: nat :| begin <= q && LineWith(buf, YEND, q);
  }

  /** One turn of the scan: a body that is followed by a trailer. */
  lemma FoundBody(buf: seq<byte>, line: nat)
    requires line < |buf| && LineStart(buf, line) && EndsInBreak(buf)
    requires FindBody(buf[line..]).Some? && FindBody(buf[line..]).value.tail.Some?
    ensures var found := FindBody(buf[line..]).value;
            && BeginLine(buf, line + found.begin) && LineStart(buf, line + found.begin)
            && found.begin + |YBEGIN2| <= found.tail.value
            && Initialized(buf[line + found.begin..line + found.tail.value]).0 != Overrun
            && (line + found.tail.value < |buf| ==>
                  LineStart(buf, line + found.tail.value) && buf[line + found.tail.value - 1] == LF)
  {
    hide Find, NextLine, Initialized, FindTail, FindBegin, BeginLine, LineWith;
    var b := FindBegin(buf[line..]).value;
    var begin := line + b;
    assert buf[line..][b..] == buf[begin..];
    BeginIsFound(buf, line);
    BeginStartsLine(buf, begin);
    TailIsFound(buf, begin);
    var t := FindTail(buf[begin..]).value;
    BodyIsLong(buf, begin);
    BodyIsInside(buf, begin, begin + t);
  }

  lemma BeginStartsLine(buf: seq<byte>, p: nat)
    requires BeginLine(buf, p)
    ensures p <= |buf| && LineStart(buf, p)
  {
  }

  /**
   If every =ybegin line is followed by a =yend line, and the message ends in a line break, the scan
   ends, reads no null pointer and parses no header past the end of its body.
   */
  lemma {:induction false} PairedIsScanned(buf: seq<byte>, line: nat)
    requires line <= |buf| && LineStart(buf, line) && Paired(buf, line) && EndsInBreak(buf)
    ensures ScanFrom(buf, line).Scanned?
    decreases |buf| - line
  {
    hide FindBody, Initialized, Paired;
    if line < |buf| && FindBody(buf[line..]).Some? {
      PairedHasTail(buf, line);
      FoundBody(buf, line);
      var tail := line + FindBody(buf[line..]).value.tail.value;
      if tail < |buf| {
        PairedLater(buf, line, tail);
        PairedIsScanned(buf, tail);
      }
    }
  }

  lemma PairedLater(buf: seq<byte>, from: nat, later: nat)
    requires Paired(buf, from) && from <= later
    ensures Paired(buf, later)
  {
  }

  /** Without any =yend line the scan faults exactly when there is a =ybegin line. */
  lemma UnpairedFaults(buf: seq<byte>, line: nat)
    requires line < |buf| && LineStart(buf, line)
    requires forall q: nat | line <= q :: !LineWith(buf, YEND, q)
    ensures ScanFrom(buf, line) == if exists p: nat :: line <= p && BeginLine(buf, p) then Faulted else Scanned([])
  {
    hide Find, NextLine, Initialized, BeginLine, LineWith;
    BeginIsFound(buf, line);
    var b := FindBegin(buf[line..]);
    if b.Some? {
      BeginStartsLine(buf, line + b.value);
      assert buf[line..][b.value..] == buf[line + b.value..];
      FoundLine(buf, line + b.value, YEND);
      assert ScanFrom(buf, line) == Faulted;
      var p := line + b.value;
      assert line <= p && BeginLine(buf, p);
    }
  }
}
