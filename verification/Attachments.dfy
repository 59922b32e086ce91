/** Turning a message into attachments: one for every body, and one for every text between bodies. */
module Attachments {
  import opened Bytes
  import opened Decoder
  import opened EncodeInfo
  import opened Header
  import opened MessageSplit
  import Numbers
  import opened TagSearch

  const MIN_CAPACITY := 0x1_0000

  /** What is attached for a body: the decoded bytes, or, failing that, the body as it stands. */
  datatype Content = Data(bytes: seq<byte>) | Raw(bytes: seq<byte>)

  function Slice(buf: seq<byte>, b: Body): seq<byte>
    requires b.begin <= b.end <= |buf|
  {
    buf[b.begin..b.end]
  }

  predicate BodyOf(buf: seq<byte>, b: Body) {
    b.begin < b.end <= |buf| && (b.info.dataStart.Some? ==> b.info.dataStart.value <= b.end - b.begin)
  }

  /** None: the data starts at a null pointer, or the decoding loops left the body. */
  function ContentOf(buf: seq<byte>, b: Body): Option<Content>
    requires BodyOf(buf, b)
  {
    match b.info.dataStart
    case None => None
    case Some(start) =>
      var encoded, size := Slice(buf, b)[start..], b.info.PartSize();
      if size / 2 > |encoded| then Some(Raw(Slice(buf, b)))
      else
        var (status, _, out) := Processed(encoded, b.info, Max(size, MIN_CAPACITY));
        match status
        case Ok => Some(Data(out))
        case Failed(_) => Some(Raw(Slice(buf, b)))
        case Overrun => None
  }

  method DecodeInto(encoded: seq<byte>, info: Info, capacity: nat) returns (status: Status, bytes: seq<byte>)
    ensures var (s, _, out) := Processed(encoded, info, capacity); status == s && (s == Ok ==> bytes == out)
  {
    hide Processed;
    var pbMsg := new byte[capacity];
    var pei := new Record();
    pei.info := info;
    status := DecoderProcessBuffer(encoded, pei, pbMsg);
    if status != Ok {
      return status, [];
    }
    SizeIsActual(encoded, info, capacity);
    bytes := pbMsg[..pei.info.sizeActual];
  }

  method DecodeBody(buf: seq<byte>, b: Body) returns (r: Option<Content>)
    requires BodyOf(buf, b)
    ensures r == ContentOf(buf, b)
  {
    hide Processed;
    if b.info.dataStart == None {
      return None;
    }
    var encoded := buf[b.begin..b.end][b.info.dataStart.value..];
    var cbEncoded := b.info.PartSize();
    if cbEncoded / 2 > |encoded| {
      return Some(Raw(buf[b.begin..b.end]));
    }
    cbEncoded := Max(cbEncoded, MIN_CAPACITY);
    var status, bytes := DecodeInto(encoded, b.info, cbEncoded);
    match status {
      case Ok => return Some(Data(bytes));
      case Failed(_) => return Some(Raw(buf[b.begin..b.end]));
      case Overrun => return None;
    }
  }

  lemma SizeIsActual(buf: seq<byte>, info: Info, capacity: nat)
    requires Processed(buf, info, capacity).0 == Ok
    ensures Processed(buf, info, capacity).1.sizeActual == |Processed(buf, info, capacity).2|
  {
  }

  // ----- the parts

  datatype Part = TextPart(from: nat, to: nat) | BodyPart(body: Body, content: Content) {
    function Begin(): nat { if TextPart? then from else body.begin }
    function End(): nat { if TextPart? then to else body.end }
  }

  /** The text behind the last body, if there was one and there is any. */
  function TextUpTo(text: Option<nat>, to: nat): seq<Part> {
    if text.Some? && text.value < to then [TextPart(text.value, to)] else []
  }

  predicate BodiesOf(buf: seq<byte>, bodies: seq<Body>) { forall b | b in bodies :: BodyOf(buf, b) }

  /** The parts for some bodies, and for the text from the end of the body before them on. */
  function Attached(buf: seq<byte>, bodies: seq<Body>, text: Option<nat>): Option<seq<Part>>
    requires BodiesOf(buf, bodies)
    decreases |bodies|
  {
    if bodies == [] then Some(TextUpTo(text, |buf|))
    else
      match (ContentOf(buf, bodies[0]), Attached(buf, bodies[1..], Some(bodies[0].end)))
      case (Some(content), Some(more)) =>
        Some(TextUpTo(text, bodies[0].begin) + ([BodyPart(bodies[0], content)] + more))
      case _ => None
  }

  function Behind(parts: seq<Part>, r: Option<seq<Part>>): Option<seq<Part>> {
    if r.Some? then Some(parts + r.value) else None
  }

  method AttachBodies(buf: seq<byte>, bodies: seq<Body>) returns (r: Option<seq<Part>>)
    requires BodiesOf(buf, bodies)
    ensures r == Attached(buf, bodies, None)
  {
    hide ContentOf, BodyOf;
    var parts: seq<Part>, pbText: Option<nat> := [], None;
    assert bodies[0..] == bodies;
    NothingBefore(Attached(buf, bodies, None));
    for i := 0 to |bodies|
      invariant Attached(buf, bodies, None) == Behind(parts, Attached(buf, bodies[i..], pbText))
    {
      var b := bodies[i];
      assert bodies[i..][0] == b && bodies[i..][1..] == bodies[i + 1..];
      ghost var more := Attached(buf, bodies[i + 1..], Some(b.end));
      ghost var was := parts;
      if pbText.Some? && pbText.value < b.begin {
        parts := parts + [TextPart(pbText.value, b.begin)];
      }
      assert parts == was + TextUpTo(pbText, b.begin);
      var content := DecodeBody(buf, b);
      if content == None {
        return None;
      }
      if more.Some? { TwoBefore(was, TextUpTo(pbText, b.begin), BodyPart(b, content.value), more); }
      parts := parts + [BodyPart(b, content.value)];
      pbText := Some(b.end);
    }
    assert bodies[|bodies|..] == [];
    ghost var was := parts;
    if pbText.Some? && pbText.value < |buf| {
      parts := parts + [TextPart(pbText.value, |buf|)];
    }
    assert parts == was + TextUpTo(pbText, |buf|);
    r := Some(parts);
  }

  lemma NothingBefore(r: Option<seq<Part>>)
    ensures Behind([], r) == r
  {
    if r.Some? { assert [] + r.value == r.value; }
  }

  lemma TwoBefore(parts: seq<Part>, text: seq<Part>, part: Part, more: Option<seq<Part>>)
    requires more.Some?
    ensures parts + (text + ([part] + more.value)) == (parts + text + [part]) + more.value
  {
  }

  // ----- the whole message

  datatype Loaded = NoHeaders | HeadersOnly | NotEncoded | Crashed | Loaded(parts: seq<Part>)

  function Load(buf: seq<byte>): Loaded {
    match Find(buf, CRLFCRLF, false)
    case None => NoHeaders
    case Some(p) =>
      var line := p + |CRLFCRLF|;
      if line >= |buf| then HeadersOnly
      else match ScanFrom(buf, line)
        case Scanned(bodies) =>
          if bodies == [] then NotEncoded
          else
            ScannedBodies(buf, line);
            (match Attached(buf, bodies, None) case Some(parts) => Loaded.Loaded(parts) case None => Crashed)
        case _ => Crashed
  }

  method LoadEncodedStream(buf: seq<byte>) returns (r: Loaded)
    ensures r == Load(buf)
  {
    hide ScanFrom, Attached, Find;
    var headers := FindTag(buf, CRLFCRLF, false);
    if headers == None {
      return NoHeaders;
    }
    var pbLine := headers.value + |CRLFCRLF|;
    if pbLine >= |buf| {
      return HeadersOnly;
    }
    var scan := ScanBodies(buf, pbLine);
    if !scan.Scanned? {
      return Crashed;
    }
    if scan.bodies == [] {
      return NotEncoded;
    }
    ScannedBodies(buf, pbLine);
    var parts := AttachBodies(buf, scan.bodies);
    if parts == None {
      return Crashed;
    }
    r := Loaded.Loaded(parts.value);
  }

  lemma ScannedBodies(buf: seq<byte>, line: nat)
    requires line <= |buf| && ScanFrom(buf, line).Scanned?
    ensures BodiesOf(buf, ScanFrom(buf, line).bodies)
  {
    hide ScanFrom, Initialized, InOrder;
    ScanIsOrdered(buf, line);
    forall b | b in ScanFrom(buf, line).bodies ensures BodyOf(buf, b) {
      DataIsInside(buf[b.begin..b.end]);
    }
  }

  /** A stage of the parser stops for a reason, or goes on with data inside the buffer. */
  predicate DataInside(buf: seq<byte>, r: Step<Info>) {
    match r
    case Next(info) => info.dataStart.Some? ==> info.dataStart.value <= |buf|
    case Stop(status, _) => status != Ok
  }

  lemma RangeInside(buf: seq<byte>, line: nat, cb: nat, info: Info)
    requires Covers(buf, line, cb)
    ensures var r := Range(buf, line, cb, info); r.Stop? ==> r.status != Ok
  {
    hide Seek, Numbers.ReadDec;
  }

  lemma PartLineInside(buf: seq<byte>, line: nat, cb: nat, info: Info)
    requires Covers(buf, line, cb)
    ensures DataInside(buf, PartLine(buf, line, cb, info))
  {
    hide Range, Find, NextLine;
    RangeInside(buf, line, cb, info);
  }

  lemma AfterNameInside(buf: seq<byte>, n: Named)
    requires Covers(buf, n.at, n.cb)
    ensures DataInside(buf, AfterName(buf, n))
  {
    hide PartLine, NextLine;
    match NextLine(buf, n.at)
    case None =>
    case Some(line) => if n.cb - (line - n.at) != 0 { PartLineInside(buf, line, n.cb - (line - n.at), n.info); }
  }

  lemma NameOnInside(buf: seq<byte>, c: Cursor, info: Info)
    requires Covers(buf, c.line, c.cb)
    ensures DataInside(buf, NameOn(buf, c, info))
  {
    hide AfterName, Seek, FindName, WithName;
    var p := Required(Seek(buf, c.line, |buf| - c.line, RAW_NAME), info);
    if p.Next? {
      var n := NameValue(buf, p.value, c.cb - (p.value - c.line), info);
      if n.Next? { AfterNameInside(buf, n.value); }
    }
  }

  lemma StopsForAReason(buf: seq<byte>, c: Cursor)
    requires Covers(buf, c.line, c.cb)
    ensures var r := BeforeName(buf, c); r.Stop? ==> r.status != Ok
  {
    hide Seek, SeekAll, Numbers.ReadDec, Numbers.ReadHex, WordEnd;
  }

  lemma ParsedInside(buf: seq<byte>)
    ensures DataInside(buf, Parsed(buf))
  {
    hide Find, BeforeName, NameOn;
    if Signature(buf).Next? {
      var c := Signature(buf).value;
      StopsForAReason(buf, c);
      if BeforeName(buf, c).Next? { NameOnInside(buf, c, BeforeName(buf, c).value); }
    }
  }

  /** The data of a parsed body starts inside of it. */
  lemma DataIsInside(buf: seq<byte>)
    ensures var (status, info) := Initialized(buf);
            status == Ok && info.dataStart.Some? ==> info.dataStart.value <= |buf|
  {
    hide Parsed;
    ParsedInside(buf);
  }
}
