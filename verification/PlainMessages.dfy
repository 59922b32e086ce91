/**
 When a message can be read: the conditions of the round trip, from what its parts look like. It
 suffices that the name is a plain word, that the trailer has a part number only if the header has
 one, that the encoded body holds no attribute name by accident, and that it is not too short.
 */
module PlainMessages {
  import opened Attributes
  import opened Bytes
  import opened EncodeInfo
  import opened HeaderRoundTrip
  import opened MessageRoundTrip
  import opened TagSearch
  import Attachments
  import Encoder
  import MessageSplit
  import Numbers
  import Serialize
  import SerializeRoundTrip
  import TrailerLine

  predicate Absent(s: seq<byte>, raw: seq<byte>) { Find(s, Spaced(raw), false) == None }

  /** Text that ends in a line break leaves no attribute name unfinished. */
  lemma EndsClean(s: seq<byte>, raw: seq<byte>)
    requires LF !in raw && raw != [] && (s == [] || s[|s| - 1] == LF)
    ensures EndState(s, Spaced(raw), 0, 0) == 0
  {
    UnfinishedEnd(s, Spaced(raw));
  }

  lemma UnfinishedEnd(s: seq<byte>, tag: seq<byte>)
    requires tag != []
    ensures EndState(s, tag, 0, 0) > 0 ==> s != [] && s[|s| - 1] in tag
  {
    EndStateMatched(s, tag, 0, 0);
    var k := EndState(s, tag, 0, 0);
    if k > 0 { assert s[|s| - 1] == s[|s| - k..][k - 1] == tag[k - 1]; }
  }

  lemma AbsentInBoth(a: seq<byte>, b: seq<byte>, raw: seq<byte>)
    requires raw != [] && Absent(a, raw) && Absent(b, raw) && EndState(a, Spaced(raw), 0, 0) == 0
    ensures Absent(a + b, raw)
  {
    FindConcat(a, b, Spaced(raw));
  }

  lemma AbsentBehindWord(word: seq<byte>, b: seq<byte>, raw: seq<byte>)
    requires raw != [] && SPACE !in word && Absent(b, raw)
    ensures Absent(word + b, raw)
  {
    FirstByteAbsent(word, Spaced(raw));
    AbsentInBoth(word, b, raw);
  }

  lemma AbsentBehindItems(items: seq<Item>, b: seq<byte>, raw: seq<byte>)
    requires AreItems(items) && IsName(raw) && Lookup(items, raw) == None && Absent(b, raw)
    ensures Absent(Text(items) + b, raw)
  {
    FindSpaced(items, b, raw);
  }

  /** The attributes that are optional in a header, other than the CRC. */
  const OPTIONAL: seq<Flag> := [PartF, TotalF, OffsetF, EscapeF, EscOffF]

  /** The encoded bytes do not look like an attribute. */
  predicate Innocent(m: Message, raw: seq<byte>) { Absent(Encoder.Body(m.units, Params(m)), raw) }

  predicate Plain(m: Message) {
    && Sound(m) && IsValue(m.head.name) && m.head.pad == 0
    && (m.trailer.part.Some? ==> PartF in m.head.info.flags)
    && (match m.head.comp case None => Innocent(m, RAW_COMP) case Some(word) => IsValue(word))
    && forall f | f in OPTIONAL && Serialize.IsNumeric(f) && f !in m.head.info.flags :: Innocent(m, Serialize.Raw(f))
  }

  lemma OptionalNames(raw: seq<byte>, f: Flag)
    requires raw == RAW_COMP || (f in OPTIONAL && Serialize.IsNumeric(f) && raw == Serialize.Raw(f))
    ensures IsName(raw) && LF !in raw
    ensures raw != RAW_NAME && raw != RAW_BEGIN && raw != RAW_END && raw != RAW_SIZE && raw != RAW_PCRC32 && raw != RAW_CRC32
    ensures raw == RAW_PART <==> raw != RAW_COMP && f == PartF
  {
    assert OPTIONAL == [PartF, TotalF] + [OffsetF, EscapeF, EscOffF];
    assert RAW_NAME[0] == 110 && RAW_PCRC32[3] == 99 && RAW_SIZE[0] == 115 && RAW_PART[0] == 112;
  }

  lemma NoneOfTrailer(t: TrailerLine.Fields, raw: seq<byte>)
    requires IsName(raw) && raw != RAW_SIZE && raw != RAW_PCRC32 && raw != RAW_CRC32
    requires raw == RAW_PART ==> t.part == None
    ensures AreItems(TrailerLine.Items(t)) && Lookup(TrailerLine.Items(t), raw) == None
  {
    hide Text, ItemText, Numbers.Dec, Numbers.Hex;
    var size := [Item(RAW_SIZE, Numbers.Dec(t.size))];
    var part, partCrc := TrailerLine.Optional(RAW_PART, t.part, false), TrailerLine.Optional(RAW_PCRC32, t.partCrc, true);
    var crc := TrailerLine.Optional(RAW_CRC32, t.crc, true);
    TrailerLine.Surroundings(t, RAW_PART);
    TrailerLine.OptionalItems(RAW_PART, t.part, false, raw);
    TrailerLine.NamesDiffer();
    TrailerLine.OptionalItems(RAW_PCRC32, t.partCrc, true, raw);
    TrailerLine.OptionalItems(RAW_CRC32, t.crc, true, raw);
    assert size[1..] == [];
    TextConcat(size, part, raw);
    TextConcat(size + part, partCrc, raw);
    TextConcat(size + part + partCrc, crc, raw);
  }

  lemma AbsentInTrailer(t: TrailerLine.Fields, raw: seq<byte>)
    requires IsName(raw) && raw != RAW_SIZE && raw != RAW_PCRC32 && raw != RAW_CRC32
    requires raw == RAW_PART ==> t.part == None
    ensures Absent(TrailerLine.Line(t) + CRLF, raw)
  {
    hide Text, Lookup, TrailerLine.Items;
    NoneOfTrailer(t, raw);
    FirstByteAbsent(CRLF, Spaced(raw));
    AbsentBehindItems(TrailerLine.Items(t), CRLF, raw);
    AbsentBehindWord(TrailerLine.RAW_YEND, Text(TrailerLine.Items(t)) + CRLF, raw);
    ConcatAssoc(TrailerLine.RAW_YEND, Text(TrailerLine.Items(t)), CRLF);
  }

  lemma AbsentInPartLine(h: Head, raw: seq<byte>, b: seq<byte>)
    requires IsName(raw) && raw != RAW_BEGIN && raw != RAW_END && Absent(b, raw)
    requires BeginF in h.info.flags <==> EndF in h.info.flags
    ensures Absent(PartText(h) + b, raw)
  {
    hide Text, Lookup, Numbers.Dec;
    if BeginF in h.info.flags {
      var items := Serialize.Items(RANGE, h.info.flags, h.info);
      RangeItems(h.info);
      RangeNames(h.info, raw);
      AbsentBehindWord(CRLF, b, raw);
      AbsentBehindItems(items, CRLF + b, raw);
      AbsentBehindWord(RAW_YPART, Text(items) + (CRLF + b), raw);
      assert RAW_YPART + Text(items) + CRLF + b == RAW_YPART + (Text(items) + (CRLF + b));
    } else {
      assert [] + b == b;
    }
  }

  lemma RangeNames(i: Info, raw: seq<byte>)
    requires IsName(raw) && raw != RAW_BEGIN && raw != RAW_END
    ensures var items := [Item(RAW_BEGIN, Numbers.Dec(i.begin)), Item(RAW_END, Numbers.Dec(i.end))];
            AreItems(items) && Lookup(items, raw) == None
  {
    hide Numbers.Dec;
    SerializeRoundTrip.NamesAreNames(BeginF);
    SerializeRoundTrip.NamesAreNames(EndF);
    var items := [Item(RAW_BEGIN, Numbers.Dec(i.begin)), Item(RAW_END, Numbers.Dec(i.end))];
    var end := [Item(RAW_END, Numbers.Dec(i.end))];
    assert items[1..] == end && end[1..] == [];
    assert Lookup(end, raw) == None;
  }

  lemma OneItem(it: Item)
    ensures Text([it]) == Spaced(it.raw) + it.value
  {
    assert [it][1..] == [];
    assert ItemText(it) + [] == ItemText(it);
  }

  lemma AbsentInComp(h: Head, raw: seq<byte>, b: seq<byte>)
    requires IsName(raw) && (h.comp.Some? ==> raw != RAW_COMP && IsValue(h.comp.value)) && Absent(b, raw)
    ensures Absent(CompText(h) + b, raw)
  {
    match h.comp
    case None => assert [] + b == b;
    case Some(word) =>
      OneItem(Item(RAW_COMP, word));
      AbsentBehindItems([Item(RAW_COMP, word)], b, raw);
  }

  lemma AbsentInName(h: Head, raw: seq<byte>, b: seq<byte>)
    requires IsName(raw) && raw != RAW_NAME && IsValue(h.name) && h.pad == 0 && Absent(b, raw)
    ensures Absent(NameText(h) + b, raw)
  {
    var it := Item(RAW_NAME, Quote(h) + (h.name + Spaces(h.pad) + Quote(h)));
    assert Spaces(h.pad) == [] && h.name + [] == h.name;
    assert IsItem(it);
    OneItem(it);
    AbsentBehindWord(CRLF, b, raw);
    AbsentBehindItems([it], CRLF + b, raw);
    ConcatAssoc(Text([it]), CRLF, b);
  }

  /** Nothing behind the attributes of the header looks like one that the header lacks. */
  lemma AbsentInTail(m: Message, raw: seq<byte>, f: Flag)
    requires Plain(m) && Innocent(m, raw)
    requires (raw == RAW_COMP && m.head.comp == None) || (f in OPTIONAL && Serialize.IsNumeric(f) && raw == Serialize.Raw(f) && f !in m.head.info.flags)
    ensures Absent(Tail(m.head, Encoded(m)), raw)
  {
    hide Encoder.Body, Encoder.Wellformed, TrailerLine.Line, NameText, PartText, IsValue, Find, TrailerLine.Fit;
    var body := Encoder.Body(m.units, Params(m));
    OptionalNames(raw, f);
    AbsentInTrailer(m.trailer, raw);
    BodyEndsClean(m);
    EndsClean(body, raw);
    AbsentInBoth(body, TrailerLine.Line(m.trailer) + CRLF, raw);
    AbsentInPartLine(m.head, raw, Encoded(m));
    AbsentInName(m.head, raw, PartText(m.head) + Encoded(m));
    AbsentInComp(m.head, raw, NameTail(m.head, Encoded(m)));
  }

  lemma BodyEndsClean(m: Message)
    requires Encoder.EndsLine(m.units)
    ensures var body := Encoder.Body(m.units, Params(m)); body == [] || body[|body| - 1] == LF
  {
    if m.units != [] {
      BodyIsBroken([], m.units, Params(m));
      assert [] + Encoder.Body(m.units, Params(m)) == Encoder.Body(m.units, Params(m));
    }
  }

  lemma OtherNumbers(f: Flag, h: Head)
    requires Valid(h) && f in NUMBERS && Serialize.IsNumeric(f) && f !in h.info.flags && f != CrcF
    ensures f in OPTIONAL
  {
    assert OPTIONAL == [PartF, TotalF] + [OffsetF, EscapeF, EscOffF];
  }

  /** No line of the encoded body or the trailer starts like a =ypart line. */
  lemma NoPartLine(m: Message)
    requires Sound(m)
    ensures Find(Encoded(m), YPART, true) == None
  {
    hide Encoder.Body, Encoder.Wellformed, TrailerLine.Fit, TrailerLine.Line, Valid, Find;
    var body, line := Encoder.Body(m.units, Params(m)), TrailerLine.Line(m.trailer);
    assert [] + body + (line + CRLF) == Encoded(m);
    BodyHasNoLine([], m.units, line + CRLF, true, Params(m), YPART);
    TrailerUnbroken(m.trailer);
    TrailerStarts(m.trailer);
    assert Encoded(m)[|body|..|body| + |line|] == line && Encoded(m)[|body| + |line|] == CR;
    OtherLine(Encoded(m), |body|, line, YPART, 2);
    JoinLines(Encoded(m), YPART, 0, |body|, |body| + |line| + 2);
    NoneFound(Encoded(m), YPART);
  }

  lemma TrailerStarts(t: TrailerLine.Fields)
    ensures |TrailerLine.Line(t)| > 2 && TrailerLine.Line(t)[2] == 101
  {
    hide Text;
  }

  lemma FoundIsLine(buf: seq<byte>, tag: seq<byte>)
    requires IsKeyword(tag)
    ensures var r := Find(buf, tag, true); r.Some? ==> r.value < |buf| && MessageSplit.LineWith(buf, tag, r.value)
  {
    LineSearchExact(buf, tag);
  }

  lemma NoneFound(buf: seq<byte>, tag: seq<byte>)
    requires IsKeyword(tag) && NoLine(buf, tag, 0, |buf|)
    ensures Find(buf, tag, true) == None
  {
    FoundIsLine(buf, tag);
  }

  /** A plain message is silent: the parser sees no attribute that was not printed in the header. */
  lemma PlainIsSilent(m: Message)
    requires Plain(m)
    ensures Silent(m.head, Encoded(m))
  {
    hide Tail, Encoded, Encoder.Body, Encoder.Wellformed, TrailerLine.Fit, Find, IsValue;
    forall f | f in NUMBERS && Serialize.IsNumeric(f) && f !in m.head.info.flags && f != CrcF
      ensures Find(Tail(m.head, Encoded(m)), Spaced(Serialize.Raw(f)), false) == None
    {
      OtherNumbers(f, m.head);
      AbsentInTail(m, Serialize.Raw(f), f);
    }
    if m.head.comp == None { AbsentInTail(m, RAW_COMP, PartF); }
    NoPartLine(m);
  }

  /** A plain message at the end of a mail is readable and is not passed over. */
  lemma PlainIsReadable(m: Message)
    requires Plain(m) && |Printed(m.head)| <= |Encoded(m)| && |Printed(m.head) + Encoded(m)| < WORD
    ensures Readable(m)
    ensures m.after == [] ==> NotPreempted(m) && MessageSplit.FindBody(m.after) == None
  {
    hide Printed, Encoded, Encoder.Wellformed, TrailerLine.Fit, Valid, Text, SizeNeeds, MessageSplit.FindBody, Find;
    PlainIsSilent(m);
    ReachIs(m.head, Encoded(m));
    LongBodySuffices(m.head, Encoded(m));
    if m.after == [] {
      NoNewerBody(m);
      NothingInNothing();
    }
  }

  lemma NothingInNothing()
    ensures MessageSplit.FindBody([]) == None
  {
  }

  /** Within a message of the older version no line starts like a header of the newer. */
  lemma NoNewerLine(m: Message)
    requires Sound(m) && m.head.version == Version1F
    ensures NoLine(MessageText(m), YBEGIN2, 0, |Printed(m.head) + Encoded(m)|)
  {
    hide Encoder.Body, Encoder.Wellformed, TrailerLine.Fit, TrailerLine.Line, Printed, FirstLine, Valid;
    var head, body, line := Printed(m.head), Encoder.Body(m.units, Params(m)), TrailerLine.Line(m.trailer);
    var buf, at := MessageText(m), |Printed(m.head)| + |Encoder.Body(m.units, Params(m))|;
    var tail := line + (CRLF + m.after);
    TextIs(head, body, line, m.after);
    ConcatAssoc(head, body, tail);
    OlderKeyword(m.head);
    PrintedHasNoLine(m.head, body + tail, YBEGIN2, 7);
    PrintedIsBroken(m.head);
    BodyHasNoLine(head, m.units, tail, true, Params(m), YBEGIN2);
    TrailerUnbroken(m.trailer);
    TrailerStarts(m.trailer);
    assert buf[at..at + |line|] == line && buf[at + |line|] == CR;
    OtherLine(buf, at, line, YBEGIN2, 2);
    JoinLines(buf, YBEGIN2, 0, |head|, at);
    JoinLines(buf, YBEGIN2, 0, at, at + |line| + 2);
  }

  lemma NoNewerBody(m: Message)
    requires Sound(m) && m.after == []
    ensures NotPreempted(m)
  {
    hide Sound, Printed, Encoded;
    if m.head.version == Version1F {
      NoNewerLine(m);
      assert MessageText(m) == Printed(m.head) + Encoded(m);
      NoneFound(MessageText(m), YBEGIN2);
    }
  }

  lemma OlderKeyword(h: Head)
    requires Valid(h) && h.version == Version1F
    ensures |FirstLine(h)| > 7 && FirstLine(h)[7] == SPACE
  {
    hide Valid;
    var items := HeadItems(h);
    if items != [] { assert Text(items)[0] == SPACE; }
  }

  /** A plain, honest message at the end of a mail is loaded as its data. */
  lemma PlainMessageIsLoaded(headers: seq<byte>, m: Message)
    requires Heads(headers) && Plain(m) && Honest(m) && m.after == []
    requires |Printed(m.head)| <= |Encoded(m)| && |Printed(m.head) + Encoded(m)| < WORD
    ensures var r := Attachments.Load(headers + MessageSplit.CRLFCRLF + MessageText(m));
            r.Loaded? && |r.parts| == 1 && r.parts[0].BodyPart? && r.parts[0].content == Attachments.Data(Meant(m))
  {
    hide Heads, Plain, Honest, Readable, Printed, Encoded, Meant, Attachments.Load, NotPreempted, MessageSplit.FindBody;
    PlainIsReadable(m);
    EncodedMessageIsAttached(headers, m);
    NothingLeft(headers, m);
  }

  lemma NothingLeft(headers: seq<byte>, m: Message)
    requires m.after == []
    ensures |headers + MessageSplit.CRLFCRLF + MessageText(m)|
         == |headers| + |MessageSplit.CRLFCRLF| + |Printed(m.head) + Encoded(m)|
  {
  }
}
