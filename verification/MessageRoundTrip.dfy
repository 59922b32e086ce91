/** A message with one encoded body, from its text to its attachment. */
module MessageRoundTrip {
  import opened Attachments
  import opened Attributes
  import opened Bytes
  import opened EncodeInfo
  import opened HeaderRoundTrip
  import opened MessageSplit
  import opened TagSearch
  import Decoder
  import Encoder
  import Header
  import Serialize
  import TrailerLine

  predicate Unbroken(s: seq<byte>) { forall k | 0 <= k < |s| :: s[k] != CR && s[k] != LF }

  lemma {:induction false} TextUnbroken(items: seq<Item>)
    requires forall it | it in items :: Unbroken(it.raw) && Unbroken(it.value)
    ensures Unbroken(Text(items))
  {
    if items != [] { TextUnbroken(items[1..]); }
  }

  lemma {:induction false} ItemsUnbroken(order: seq<Flag>, s: set<Flag>, info: Info)
    requires forall f | f in order :: Serialize.IsNumeric(f)
    ensures forall it | it in Serialize.Items(order, s, info) :: Unbroken(it.raw) && Unbroken(it.value)
  {
    if order != [] {
      ItemsUnbroken(order[1..], s, info);
      RawUnbroken(order[0], info);
    }
  }

  lemma RawUnbroken(f: Flag, info: Info)
    requires Serialize.IsNumeric(f)
    ensures Unbroken(Serialize.Raw(f)) && Unbroken(Serialize.Print(f, info))
  {
  }

  // ----- where lines start

  /** No line between two positions starts with a tag. */
  ghost predicate NoLine(buf: seq<byte>, tag: seq<byte>, from: nat, to: nat) {
    forall q: nat | from <= q < to :: !LineWith(buf, tag, q)
  }

  /** All the tags sought at the start of a line begin like this. */
  predicate IsKeyword(tag: seq<byte>) { |tag| > 2 && tag[0] == EQUALS && tag[1] == YCHAR && LF !in tag }

  lemma OccurrenceBytes(buf: seq<byte>, tag: seq<byte>, q: nat)
    ensures OccursAt(buf, tag, q) ==> forall k | q <= k < q + |tag| :: buf[k] == tag[k - q]
  {
    if OccursAt(buf, tag, q) {
      forall k | q <= k < q + |tag| ensures buf[k] == tag[k - q] {
        assert buf[q..q + |tag|][k - q] == buf[k];
      }
    }
  }

  /** A line that differs from the tag somewhere, and holds no line break before its end. */
  lemma OtherLine(buf: seq<byte>, from: nat, line: seq<byte>, tag: seq<byte>, d: nat)
    requires from + |line| + 2 <= |buf| && buf[from..from + |line|] == line && Unbroken(line)
    requires d < |line| && d < |tag| && line[d] != tag[d] && buf[from + |line|] == CR
    ensures NoLine(buf, tag, from, from + |line| + 2)
  {
    forall q: nat | from <= q < from + |line| + 2 ensures !LineWith(buf, tag, q) {
      OccurrenceBytes(buf, tag, q);
      if q == from {
        assert buf[q + d] == line[d];
      } else if q <= from + |line| {
        assert buf[q - 1] == line[q - 1 - from];
      }
    }
  }

  lemma {:induction false} BodyHasNoLine(
    pre: seq<byte>, units: seq<Encoder.Unit>, tail: seq<byte>, lineStart: bool, p: Decoder.Params, tag: seq<byte>)
    requires Encoder.SaneEscape(p) && Encoder.Wellformed(units, lineStart, p) && (units == [] || Encoder.EndsLine(units))
    requires (!lineStart ==> pre != [] && pre[|pre| - 1] != LF) && IsKeyword(tag)
    ensures NoLine(pre + Encoder.Body(units, p) + tail, tag, |pre|, |pre| + |Encoder.Body(units, p)|)
    decreases |units|
  {
    if units != [] {
      var u, more := units[0], units[1..];
      var text := Encoder.UnitText(u, p);
      Encoder.SplitUnit(pre, units, tail, p);
      assert Encoder.EndsLine(more);
      BodyHasNoLine(pre + text, more, tail, u == Encoder.Break, p, tag);
      UnitHasNoLine(pre, u, Encoder.Body(more, p), tail, lineStart, p, tag);
    }
  }

  lemma UnitHasNoLine(
    pre: seq<byte>, u: Encoder.Unit, body: seq<byte>, tail: seq<byte>, lineStart: bool, p: Decoder.Params, tag: seq<byte>)
    requires Encoder.SaneEscape(p) && Encoder.Wellformed([u], lineStart, p)
    requires (!lineStart ==> pre != [] && pre[|pre| - 1] != LF) && IsKeyword(tag)
    ensures var text := Encoder.UnitText(u, p); NoLine(pre + text + body + tail, tag, |pre|, |pre| + |text|)
  {
    var text := Encoder.UnitText(u, p);
    var buf := pre + text + body + tail;
    forall q: nat | |pre| <= q < |pre| + |text| ensures !LineWith(buf, tag, q) {
      assert buf[q] == text[q - |pre|];
      OccurrenceBytes(buf, tag, q);
      if q + 1 < |pre| + |text| { assert buf[q + 1] == text[q + 1 - |pre|]; }
    }
  }

  // ----- the message

  /** A message that goes on behind the body with other text. */
  datatype Message = Message(head: Head, units: seq<Encoder.Unit>, trailer: TrailerLine.Fields, after: seq<byte>)

  function Params(m: Message): Decoder.Params { Encoder.Agreed(m.head.info) }

  /** Everything behind the header, up to the end of the trailer's line. */
  function Encoded(m: Message): seq<byte> {
    Encoder.Body(m.units, Params(m)) + (TrailerLine.Line(m.trailer) + CRLF)
  }

  function MessageText(m: Message): seq<byte> { Printed(m.head) + Encoded(m) + m.after }

  function Meant(m: Message): seq<byte> { Encoder.Meaning(m.units, Params(m)) }

  /** The first line of a header, without its line break. */
  function FirstLine(h: Head): seq<byte> {
    Keyword(h) + Text(HeadItems(h)) + (CompText(h) + (Spaced(RAW_NAME) + (Quote(h) + (h.name + Spaces(h.pad) + Quote(h)))))
  }

  function SecondLine(h: Head): seq<byte> {
    RAW_YPART + Text(Serialize.Items(RANGE, h.info.flags, h.info))
  }

  lemma PrintedLines(h: Head)
    ensures Printed(h) == FirstLine(h) + CRLF + (if BeginF in h.info.flags then SecondLine(h) + CRLF else [])
  {
    var name := Spaced(RAW_NAME) + (Quote(h) + (h.name + Spaces(h.pad) + Quote(h)));
    assert Keyword(h) + Text(HeadItems(h)) + (CompText(h) + (name + CRLF + PartText(h)))
        == Keyword(h) + Text(HeadItems(h)) + (CompText(h) + name) + CRLF + PartText(h);
  }

  lemma FirstLineUnbroken(h: Head)
    requires Valid(h)
    ensures Unbroken(FirstLine(h)) && |FirstLine(h)| > 2 && FirstLine(h)[2] == 98
  {
    hide Text, Valid, Unbroken, CompText;
    var name := Spaced(RAW_NAME) + (Quote(h) + (h.name + Spaces(h.pad) + Quote(h)));
    forall f | f in ORDER ensures Serialize.IsNumeric(f) { OrderIsNumbers(f); }
    ItemsUnbroken(ORDER, h.info.flags, h.info);
    TextUnbroken(HeadItems(h));
    WordsUnbroken(h);
    JoinUnbroken(Keyword(h), Text(HeadItems(h)));
    JoinUnbroken(CompText(h), name);
    JoinUnbroken(Keyword(h) + Text(HeadItems(h)), CompText(h) + name);
  }

  lemma WordsUnbroken(h: Head)
    requires Valid(h)
    ensures Unbroken(Keyword(h)) && Unbroken(CompText(h))
    ensures Unbroken(Spaced(RAW_NAME) + (Quote(h) + (h.name + Spaces(h.pad) + Quote(h))))
  {
    forall k | 0 <= k < |h.name| ensures h.name[k] != CR && h.name[k] != LF { assert !Header.EndsName(h.name[k]); }
  }

  lemma JoinUnbroken(a: seq<byte>, b: seq<byte>)
    requires Unbroken(a) && Unbroken(b)
    ensures Unbroken(a + b)
  {
  }

  lemma SecondLineUnbroken(h: Head)
    ensures Unbroken(SecondLine(h)) && |SecondLine(h)| > 2 && SecondLine(h)[2] == 112
  {
    hide Text;
    ItemsUnbroken(RANGE, h.info.flags, h.info);
    TextUnbroken(Serialize.Items(RANGE, h.info.flags, h.info));
  }

  lemma JoinLines(buf: seq<byte>, tag: seq<byte>, a: nat, b: nat, c: nat)
    requires NoLine(buf, tag, a, b) && NoLine(buf, tag, b, c)
    ensures NoLine(buf, tag, a, c)
  {
  }

  /** A printed header has no line that starts with the tag, if its lines differ from it somewhere. */
  lemma PrintedHasNoLine(h: Head, more: seq<byte>, tag: seq<byte>, d: nat)
    requires Valid(h) && IsKeyword(tag) && tag[2] != 112
    requires d < |FirstLine(h)| && d < |tag| && FirstLine(h)[d] != tag[d]
    ensures NoLine(Printed(h) + more, tag, 0, |Printed(h)|)
  {
    hide FirstLine, SecondLine, Printed, Valid;
    var buf, n := Printed(h) + more, |FirstLine(h)|;
    PrintedLines(h);
    FirstLineUnbroken(h);
    assert buf[0..n] == FirstLine(h) && buf[n] == CR;
    OtherLine(buf, 0, FirstLine(h), tag, d);
    if BeginF in h.info.flags {
      SecondLineUnbroken(h);
      var k := |SecondLine(h)|;
      assert buf[n + 2..n + 2 + k] == SecondLine(h) && buf[n + 2 + k] == CR;
      OtherLine(buf, n + 2, SecondLine(h), tag, 2);
      JoinLines(buf, tag, 0, n + 2, n + 2 + k + 2);
    }
  }

  /** The bytes end in a line break. */
  predicate Broken(s: seq<byte>) { |s| >= 2 && s[|s| - 2] == CR && s[|s| - 1] == LF }

  lemma PrintedIsBroken(h: Head)
    ensures Broken(Printed(h))
  {
    hide FirstLine, SecondLine, Printed;
    PrintedLines(h);
  }

  lemma {:induction false} BodyIsBroken(pre: seq<byte>, units: seq<Encoder.Unit>, p: Decoder.Params)
    requires if units == [] then Broken(pre) else Encoder.EndsLine(units)
    ensures Broken(pre + Encoder.Body(units, p))
    decreases |units|
  {
    if units == [] {
      assert pre + [] == pre;
    } else {
      var text, more := Encoder.UnitText(units[0], p), Encoder.Body(units[1..], p);
      assert pre + (text + more) == (pre + text) + more;
      BodyIsBroken(pre + text, units[1..], p);
    }
  }

  // ----- finding the body

  /** The units and the numbers of the body are such that its text means something. */
  predicate Sound(m: Message) {
    && Valid(m.head) && TrailerLine.Fit(m.trailer)
    && Encoder.SaneEscape(Params(m)) && Encoder.Wellformed(m.units, true, Params(m)) && Encoder.EndsLine(m.units)
  }

  lemma TrailerUnbroken(t: TrailerLine.Fields)
    ensures Unbroken(TrailerLine.Line(t))
  {
    hide Text;
    forall it | it in TrailerLine.Items(t) ensures Unbroken(it.raw) && Unbroken(it.value) {}
    TextUnbroken(TrailerLine.Items(t));
  }

  lemma TextIs(a: seq<byte>, b: seq<byte>, c: seq<byte>, d: seq<byte>)
    ensures a + (b + (c + CRLF)) + d == (a + b) + (c + (CRLF + d))
    ensures a + (b + (c + CRLF)) + d == a + b + (c + (CRLF + d))
  {
  }

  /** The trailer is the first line of the message that starts with =yend. */
  lemma TrailerIsFirst(m: Message)
    requires Sound(m)
    ensures var at := |Printed(m.head)| + |Encoder.Body(m.units, Params(m))|;
            && Find(MessageText(m), YEND, true) == Some(at)
            && at <= |MessageText(m)| && MessageText(m)[at..] == TrailerLine.Line(m.trailer) + (CRLF + m.after)
  {
    hide Printed, Encoder.Body, Encoder.Wellformed, TrailerLine.Line, Valid, TrailerLine.Fit, FirstLine;
    var head, body, line := Printed(m.head), Encoder.Body(m.units, Params(m)), TrailerLine.Line(m.trailer);
    var tail := line + (CRLF + m.after);
    var buf, at := MessageText(m), |head| + |body|;
    TextIs(head, body, line, m.after);
    NoTrailerBefore(m, tail);
    PrintedIsBroken(m.head);
    BodyIsBroken(head, m.units, Params(m));
    StandsAfterBreak(head + body, tail);
    Encoder.KeywordLine(m.trailer, CRLF + m.after);
    FirstLineWith(buf, YEND, at);
  }

  lemma NoTrailerBefore(m: Message, tail: seq<byte>)
    requires Sound(m)
    ensures var head, body := Printed(m.head), Encoder.Body(m.units, Params(m));
            NoLine(head + body + tail, YEND, 0, |head| + |body|)
  {
    hide Printed, Encoder.Body, Encoder.Wellformed, Valid, TrailerLine.Fit, FirstLine;
    var head, body := Printed(m.head), Encoder.Body(m.units, Params(m));
    ConcatAssoc(head, body, tail);
    FirstLineUnbroken(m.head);
    PrintedHasNoLine(m.head, body + tail, YEND, 2);
    PrintedIsBroken(m.head);
    BodyHasNoLine(head, m.units, tail, true, Params(m), YEND);
    JoinLines(head + body + tail, YEND, 0, |head|, |head| + |body|);
  }

  lemma StandsAfterBreak(pre: seq<byte>, tail: seq<byte>)
    requires Broken(pre)
    ensures LineStart(pre + tail, |pre|) && (pre + tail)[|pre|..] == tail
  {
  }

  lemma FirstLineWith(buf: seq<byte>, tag: seq<byte>, at: nat)
    requires IsKeyword(tag) && at <= |buf| && NoLine(buf, tag, 0, at) && LineStart(buf, at) && tag <= buf[at..]
    ensures Find(buf, tag, true) == Some(at)
  {
    LineSearchExact(buf, tag);
    assert buf[at..at + |tag|] == buf[at..][..|tag|] == tag;
    assert LineWith(buf, tag, at);
    var r := Find(buf, tag, true);
    if r.Some? && r.value < at { assert LineWith(buf, tag, r.value); }
  }

  /** No later line starts like a header of the newer version, which is sought first. */
  predicate NotPreempted(m: Message) {
    m.head.version == Version1F ==> Find(MessageText(m), YBEGIN2, true) == None
  }

  lemma BeginsWithKeyword(m: Message, tag: seq<byte>)
    requires Valid(m.head) && tag == if m.head.version == Version2F then YBEGIN2 else YBEGIN
    ensures tag <= MessageText(m)
  {
    hide Text, HeadItems, Tail, Encoded, Keyword, Printed;
    var h, rest := m.head, Encoded(m) + m.after;
    PrintedIs(h, rest);
    StartsWithSpace(h, rest);
    var text := Text(HeadItems(h)) + Tail(h, rest);
    assert MessageText(m) == Keyword(h) + text;
    KeywordAndSpace(h, text);
  }

  lemma BeginIsFirst(m: Message)
    requires Valid(m.head) && NotPreempted(m)
    ensures FindBegin(MessageText(m)) == Some(0)
  {
    hide Valid, MessageText, Find;
    var tag := if m.head.version == Version2F then YBEGIN2 else YBEGIN;
    BeginsWithKeyword(m, tag);
    assert MessageText(m) == tag + MessageText(m)[|tag|..];
    LineTagAtStart(tag, MessageText(m)[|tag|..]);
    HeadHasVersion(m.head);
  }

  lemma HeadHasVersion(h: Head)
    requires Valid(h)
    ensures h.version == Version1F || h.version == Version2F
  {
  }

  lemma KeywordAndSpace(h: Head, text: seq<byte>)
    requires Valid(h) && text != [] && text[0] == SPACE
    ensures Keyword(h) + text == (if h.version == Version2F then YBEGIN2 else YBEGIN) + text[1..]
  {
    hide Text;
    assert text == [SPACE] + text[1..];
  }

  /** The body of the message reaches from its start to the end of the trailer's line. */
  lemma BodyIsFound(m: Message)
    requires Sound(m) && NotPreempted(m)
    ensures FindBody(MessageText(m)) == Some(Found(0, Some(|Printed(m.head) + Encoded(m)|)))
  {
    hide Printed, Encoder.Body, Find, Text, Encoded, TrailerLine.Line;
    var line, at := TrailerLine.Line(m.trailer), |Printed(m.head)| + |Encoder.Body(m.units, Params(m))|;
    BeginIsFirst(m);
    TrailerIsFirst(m);
    TrailerUnbroken(m.trailer);
    LineBreakIsFound(MessageText(m), at, line, m.after);
    EncodedLength(m);
    assert MessageText(m)[0..] == MessageText(m);
  }

  lemma EncodedLength(m: Message)
    ensures |Encoded(m)| == |Encoder.Body(m.units, Params(m))| + |TrailerLine.Line(m.trailer)| + 2
  {
  }

  // ----- decoding the body

  /** The record that the parser makes of the header. */
  function Read(m: Message): Info { Expected(m.head, Encoded(m)) }

  lemma SameParams(m: Message)
    requires Valid(m.head)
    ensures Encoder.Agreed(Read(m)) == Params(m)
    ensures Read(m).dataStart == Some(|Printed(m.head)|)
  {
    hide Encoded, Effective, Printed, HeadSpan;
    EffectiveFlags(m.head, Encoded(m));
  }

  lemma {:induction false} MeaningIsShort(units: seq<Encoder.Unit>, p: Decoder.Params)
    ensures |Encoder.Meaning(units, p)| <= |Encoder.Body(units, p)|
  {
    if units != [] { MeaningIsShort(units[1..], p); }
  }

  /** The header is understood if it is near enough to the start and shows no other attributes. */
  predicate Readable(m: Message) {
    && Sound(m) && Silent(m.head, Encoded(m)) && |Printed(m.head) + Encoded(m)| < WORD
    && Lookup(HeadItems(m.head), RAW_LINE).Some? && Lookup(HeadItems(m.head), RAW_SIZE).Some?
    && SizeNeeds(m.head) <= |Printed(m.head) + Encoded(m)|
  }

  /** The last byte of a part does not come before its first. */
  predicate Ranged(h: Head) { BeginF in h.info.flags ==> h.info.begin <= h.info.end }

  /** The number of bytes that the header speaks of: from the first to the last of the part, or all. */
  function StatedSize(h: Head): nat
    requires Ranged(h)
  {
    if BeginF in h.info.flags then h.info.end + 1 - h.info.begin else h.info.size
  }

  /** The size in the header, of the part or of the whole, is that of the data. */
  predicate Honest(m: Message) { Ranged(m.head) && |Meant(m)| == StatedSize(m.head) }

  /** The decoder works out the size that was stated. */
  lemma SizeIsStated(m: Message)
    requires Valid(m.head) && Ranged(m.head)
    ensures Read(m).PartSize() == StatedSize(m.head) < WORD
  {
    hide Encoded, Effective, Printed, HeadSpan;
    EffectiveFlags(m.head, Encoded(m));
  }

  lemma DataIsDecoded(m: Message)
    requires Sound(m) && Honest(m)
    ensures Decoder.Processed(Encoded(m), Read(m), Max(Read(m).PartSize(), MIN_CAPACITY)).0 == Ok
    ensures Decoder.Processed(Encoded(m), Read(m), Max(Read(m).PartSize(), MIN_CAPACITY)).2 == Meant(m)
    ensures Read(m).PartSize() == |Meant(m)| <= |Encoded(m)|
  {
    SizeIsStated(m);
    hide Encoder.Wellformed, Expected, TrailerLine.Line, TrailerLine.Fit, Encoder.Body, Encoder.Meaning, Decoder.Processed, Valid;
    SameParams(m);
    MeaningIsShort(m.units, Params(m));
    EncodedLength(m);
    CrlfCloses();
    Encoder.EncodingIsDecoded(m.units, m.trailer, CRLF, Read(m), Max(Read(m).PartSize(), MIN_CAPACITY));
  }

  lemma CrlfCloses()
    ensures TrailerLine.Closes(CRLF)
  {
  }

  /** A body in the midst of a message, parsed and decoded. */
  lemma BodyIsAttached(buf: seq<byte>, line: nat, m: Message)
    requires line <= |buf| && buf[line..] == MessageText(m) && Readable(m) && Honest(m)
    ensures var n := |Printed(m.head) + Encoded(m)|;
            && line + n <= |buf| && Header.Initialized(buf[line..line + n]) == (Ok, Read(m))
            && BodyOf(buf, Body(line, line + n, Read(m)))
            && ContentOf(buf, Body(line, line + n, Read(m))) == Some(Data(Meant(m)))
  {
    hide Encoder.Wellformed, Expected, Valid, Silent, Encoded, Printed, Decoder.Processed, Meant, Header.Initialized, SizeNeeds;
    var text := Printed(m.head) + Encoded(m);
    assert buf[line..line + |text|] == text;
    EncodedLength(m);
    HeaderIsParsed(m.head, Encoded(m));
    SameParams(m);
    assert text[|Printed(m.head)|..] == Encoded(m);
    DataIsDecoded(m);
  }

  /** What precedes the body: the headers of the message and an empty line. */
  predicate Heads(headers: seq<byte>) { Find(headers + CRLFCRLF, CRLFCRLF, false) == Some(|headers|) }

  lemma HeadersEnd(headers: seq<byte>, more: seq<byte>)
    requires Heads(headers)
    ensures Find(headers + CRLFCRLF + more, CRLFCRLF, false) == Some(|headers|)
  {
    var buf := headers + CRLFCRLF + more;
    assert buf[..|headers| + 4] == headers + CRLFCRLF;
    FindTruncated(buf, CRLFCRLF, |headers| + 4);
  }

  lemma NothingFound(buf: seq<byte>, line: nat)
    requires line <= |buf| && FindBody(buf[line..]) == None
    ensures ScanFrom(buf, line) == Scanned([])
  {
  }

  lemma OneBodyIsScanned(buf: seq<byte>, line: nat, n: nat, info: Info)
    requires line < |buf| && 0 < n && line + n <= |buf|
    requires FindBody(buf[line..]) == Some(Found(0, Some(n)))
    requires Header.Initialized(buf[line..line + n]) == (Ok, info)
    requires FindBody(buf[line + n..]) == None
    ensures ScanFrom(buf, line) == Scanned([Body(line, line + n, info)])
  {
    hide FindBody, Header.Initialized;
    NothingFound(buf, line + n);
    assert [Body(line, line + n, info)] + [] == [Body(line, line + n, info)];
  }

  lemma OneBodyIsAttached(buf: seq<byte>, b: Body, content: Content)
    requires BodyOf(buf, b) && ContentOf(buf, b) == Some(content)
    ensures BodiesOf(buf, [b]) && Attached(buf, [b], None) == Some([BodyPart(b, content)] + TextUpTo(Some(b.end), |buf|))
  {
    hide ContentOf, BodyOf;
    assert [b][1..] == [];
    var parts := [BodyPart(b, content)] + TextUpTo(Some(b.end), |buf|);
    assert [] + parts == parts;
  }

  /**
   From end to end. A message with one encoded body, written by any encoder that keeps to the draft,
   is loaded as one attachment that holds exactly the data, and a text with what follows the body.
   */
  lemma EncodedMessageIsAttached(headers: seq<byte>, m: Message)
    requires Heads(headers) && Readable(m) && Honest(m) && NotPreempted(m) && FindBody(m.after) == None
    ensures var buf := headers + CRLFCRLF + MessageText(m);
            var line := |headers| + |CRLFCRLF|;
            var end := line + |Printed(m.head) + Encoded(m)|;
            Load(buf) == Loaded.Loaded(
              [BodyPart(Body(line, end, Read(m)), Data(Meant(m)))] + TextUpTo(Some(end), |buf|))
  {
    hide MessageText, ScanFrom, Attached, ContentOf, BodyOf, FindBody, Find, Sound, Silent, SizeNeeds, NotPreempted, Header.Initialized, Encoded, Printed, Expected, Encoder.Body, Meant, Honest, Heads;
    var buf := headers + CRLFCRLF + MessageText(m);
    var line, n := |headers| + |CRLFCRLF|, |Printed(m.head) + Encoded(m)|;
    HeadersEnd(headers, MessageText(m));
    assert buf[line..] == MessageText(m);
    BodyIsFound(m);
    BodyIsAttached(buf, line, m);
    EncodedLength(m);
    AfterIs(m);
    assert buf[line + n..] == MessageText(m)[n..] == m.after;
    var b := Body(line, line + n, Read(m));
    OneBodyIsScanned(buf, line, n, Read(m));
    OneBodyIsAttached(buf, b, Data(Meant(m)));
  }

  lemma AfterIs(m: Message)
    ensures var n := |Printed(m.head) + Encoded(m)|; n <= |MessageText(m)| && MessageText(m)[n..] == m.after
  {
  }
}
