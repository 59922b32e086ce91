/** A mail with any number of encoded bodies, and text between them. */
module MessageChain {
  import opened Attachments
  import opened Bytes
  import opened Conservation
  import opened EncodeInfo
  import opened HeaderRoundTrip
  import opened MessageRoundTrip
  import opened MessageSplit
  import opened TagSearch
  import Encoder
  import Header
  import TrailerLine

  function Size(m: Message): nat { |Printed(m.head) + Encoded(m)| }

  /** From a position on, the next header line is that of the first message, and so on to the last. */
  predicate Chained(buf: seq<byte>, line: nat, ms: seq<Message>)
    requires line <= |buf|
    decreases |ms|
  {
    if ms == [] then FindBody(buf[line..]) == None
    else
      var g := FindBegin(buf[line..]);
      && g.Some? && line + g.value + Size(ms[0]) <= |buf| && buf[line + g.value..] == MessageText(ms[0])
      && Readable(ms[0]) && Honest(ms[0]) && Chained(buf, line + g.value + Size(ms[0]), ms[1..])
  }

  function DataOf(ms: seq<Message>): seq<Content> {
    if ms == [] then [] else [Data(Meant(ms[0]))] + DataOf(ms[1..])
  }

  /** What was attached for the bodies, in order. */
  function ContentsIn(parts: seq<Part>): seq<Content> {
    if parts == [] then []
    else (if parts[0].BodyPart? then [parts[0].content] else []) + ContentsIn(parts[1..])
  }

  /** The next body is found behind whatever text precedes it. */
  lemma NextBodyIsFound(buf: seq<byte>, line: nat, m: Message)
    requires line <= |buf| && Sound(m) && FindBegin(buf[line..]).Some?
    requires var g := FindBegin(buf[line..]).value; line + g <= |buf| && buf[line + g..] == MessageText(m)
    ensures var g := FindBegin(buf[line..]).value; FindBody(buf[line..]) == Some(Found(g, Some(g + Size(m))))
  {
    hide FindBegin, FindTail, MessageText, Sound, Printed, Encoded;
    var g := FindBegin(buf[line..]).value;
    assert buf[line..][g..] == MessageText(m);
    TailIsBehind(m);
  }

  lemma TailIsBehind(m: Message)
    requires Sound(m)
    ensures FindTail(MessageText(m)) == Some(Size(m))
  {
    hide Find, Sound, MessageText, Printed, Encoded, Header.NextLine, Encoder.Body;
    var line, at := TrailerLine.Line(m.trailer), |Printed(m.head)| + |Encoder.Body(m.units, Params(m))|;
    TrailerIsFirst(m);
    TrailerUnbroken(m.trailer);
    LineBreakIsFound(MessageText(m), at, line, m.after);
    EncodedLength(m);
  }

  lemma SizeIsPositive(m: Message)
    ensures Size(m) > 0
  {
    EncodedLength(m);
  }

  /** The bodies that stand for a chain of messages. */
  predicate StandFor(buf: seq<byte>, bodies: seq<Body>, ms: seq<Message>) {
    && |bodies| == |ms|
    && forall i | 0 <= i < |ms| :: BodyOf(buf, bodies[i]) && ContentOf(buf, bodies[i]) == Some(Data(Meant(ms[i])))
  }

  lemma ScanStep(buf: seq<byte>, line: nat, g: nat, n: nat, info: Info)
    requires line < |buf| && FindBody(buf[line..]) == Some(Found(g, Some(g + n)))
    requires 0 < n && line + g + n <= |buf| && Header.Initialized(buf[line + g..line + g + n]) == (Ok, info)
    ensures ScanFrom(buf, line) == ScanFrom(buf, line + g + n).After(Body(line + g, line + g + n, info))
  {
    hide FindBody, Header.Initialized;
  }

  /** One turn of the scan: the next message is accepted, and its data will be attached. */
  lemma NextIsScanned(buf: seq<byte>, line: nat, m: Message) returns (b: Body)
    requires line <= |buf| && Readable(m) && Honest(m) && FindBegin(buf[line..]).Some?
    requires var g := FindBegin(buf[line..]).value; line + g + Size(m) <= |buf| && buf[line + g..] == MessageText(m)
    ensures b.end == line + FindBegin(buf[line..]).value + Size(m)
    ensures ScanFrom(buf, line) == ScanFrom(buf, b.end).After(b)
    ensures BodyOf(buf, b) && ContentOf(buf, b) == Some(Data(Meant(m)))
  {
    hide *;
    var g := FindBegin(buf[line..]).value;
    ReadableIsSound(m);
    SizeIsPositive(m);
    NextBodyIsFound(buf, line, m);
    BodyIsAttached(buf, line + g, m);
    SizeIs(m);
    ScanStep(buf, line, g, Size(m), Read(m));
    b := Body(line + g, line + g + Size(m), Read(m));
  }

  lemma OneMore(buf: seq<byte>, b: Body, bodies: seq<Body>, ms: seq<Message>)
    requires ms != [] && StandFor(buf, bodies, ms[1..]) && BodyOf(buf, b) && ContentOf(buf, b) == Some(Data(Meant(ms[0])))
    ensures StandFor(buf, [b] + bodies, ms)
  {
    hide BodyOf, ContentOf, Meant;
  }

  lemma {:induction false} ChainIsScanned(buf: seq<byte>, line: nat, ms: seq<Message>) returns (bodies: seq<Body>)
    requires line <= |buf| && Chained(buf, line, ms)
    ensures ScanFrom(buf, line) == Scanned(bodies) && StandFor(buf, bodies, ms)
    decreases |ms|
  {
    hide FindBody, FindBegin, Readable, Honest, Size, ScanFrom, BodyOf, ContentOf, Meant, MessageText, StandFor;
    if ms == [] {
      bodies := [];
      NothingFound(buf, line);
      NoBodies(buf);
    } else {
      var b := NextIsScanned(buf, line, ms[0]);
      var more := ChainIsScanned(buf, b.end, ms[1..]);
      OneMore(buf, b, more, ms);
      bodies := [b] + more;
    }
  }

  lemma NoBodies(buf: seq<byte>)
    ensures StandFor(buf, [], [])
  {
  }

  lemma SizeIs(m: Message)
    ensures Size(m) == |Printed(m.head) + Encoded(m)|
  {
  }

  lemma ReadableIsSound(m: Message)
    requires Readable(m)
    ensures Sound(m)
  {
  }

  lemma {:induction false} AllAreAttached(buf: seq<byte>, bodies: seq<Body>, ms: seq<Message>, text: Option<nat>)
    requires StandFor(buf, bodies, ms) && BodiesOf(buf, bodies)
    ensures Attached(buf, bodies, text).Some? && ContentsIn(Attached(buf, bodies, text).value) == DataOf(ms)
    decreases |bodies|
  {
    hide ContentOf, BodyOf, Meant;
    if bodies == [] {
      assert ContentsIn(TextUpTo(text, |buf|)) == [] by { TextHasNoContent(text, |buf|, []); }
    } else {
      AllAreAttached(buf, bodies[1..], ms[1..], Some(bodies[0].end));
      var more := Attached(buf, bodies[1..], Some(bodies[0].end)).value;
      var parts := [BodyPart(bodies[0], Data(Meant(ms[0])))] + more;
      assert parts[1..] == more;
      TextHasNoContent(text, bodies[0].begin, parts);
    }
  }

  lemma TextHasNoContent(text: Option<nat>, to: nat, parts: seq<Part>)
    ensures ContentsIn(TextUpTo(text, to) + parts) == ContentsIn(parts)
    ensures ContentsIn(TextUpTo(text, to)) == []
  {
    var t := TextUpTo(text, to);
    if t == [] {
      assert t + parts == parts;
    } else {
      assert (t + parts)[1..] == parts && t[1..] == [];
    }
  }

  /**
   A mail with any number of encoded bodies, with any text between them and behind them, is loaded as
   attachments that hold exactly the data of these bodies, in their order; and all attachments
   together, in their encoded form, are the mail from its first body to its end.
   */
  lemma EncodedMessagesAreAttached(headers: seq<byte>, text: seq<byte>, ms: seq<Message>)
    requires Heads(headers) && ms != [] && text != []
    requires Chained(headers + CRLFCRLF + text, |headers| + |CRLFCRLF|, ms)
    ensures var buf := headers + CRLFCRLF + text;
            var r := Load(buf);
            && r.Loaded? && ContentsIn(r.parts) == DataOf(ms)
            && BodiesIn(r.parts) != [] && BodiesIn(r.parts)[0].begin <= |buf|
            && Sources(buf, r.parts) == buf[BodiesIn(r.parts)[0].begin..]
  {
    hide Heads, Chained, ScanFrom, Attached, Find, Meant, BodyOf, DataOf, ContentsIn, Sources, BodiesIn;
    var buf, line := headers + CRLFCRLF + text, |headers| + |CRLFCRLF|;
    HeadersEnd(headers, text);
    var bodies := ChainIsScanned(buf, line, ms);
    ScannedBodies(buf, line);
    AllAreAttached(buf, bodies, ms, None);
    MessageIsConserved(buf, line);
  }
}
