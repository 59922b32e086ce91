/** A body of the older version that is followed by one of the newer version is passed over, and lost. */
module OlderVersion {
  import opened Attachments
  import opened Bytes
  import opened Conservation
  import opened EncodeInfo
  import opened HeaderRoundTrip
  import opened MessageChain
  import opened MessageRoundTrip
  import opened MessageSplit
  import opened PlainMessages
  import opened ScanExact
  import opened TagSearch
  import Encoder
  import TrailerLine

  predicate OlderThenNewer(older: Message, newer: Message) {
    && older.head.version == Version1F && newer.head.version == Version2F
    && older.after == MessageText(newer)
  }

  /** The newer body is the first one found. */
  lemma NewerIsFoundFirst(older: Message, newer: Message)
    requires Sound(older) && Sound(newer) && OlderThenNewer(older, newer)
    ensures FindBegin(MessageText(older)) == Some(Size(older)) && Size(older) <= |MessageText(older)|
    ensures MessageText(older)[Size(older)..] == MessageText(newer) && BeginLine(MessageText(older), 0)
  {
    hide Sound, Printed, Encoded, Find, MessageText;
    var buf, at := MessageText(older), Size(older);
    TextInTwo(older);
    SoundIsValid(older);
    SoundIsValid(newer);
    NoNewerLine(older);
    BeginsWithKeyword(newer, YBEGIN2);
    EndsBroken(older);
    StandsAfterBreak(Printed(older.head) + Encoded(older), older.after);
    FirstLineWith(buf, YBEGIN2, at);
    BeginsWithKeyword(older, YBEGIN);
    assert buf[0..|YBEGIN|] == YBEGIN;
  }

  lemma SoundIsValid(m: Message)
    requires Sound(m)
    ensures Valid(m.head)
  {
  }

  lemma NotTheFirst(buf: seq<byte>, p: nat)
    requires FindBegin(buf) == Some(p) && p > 0 && BeginLine(buf, 0)
    ensures !FindsFirst(buf)
  {
  }

  lemma TextInTwo(m: Message)
    ensures MessageText(m) == Printed(m.head) + Encoded(m) + m.after && |Printed(m.head) + Encoded(m)| == Size(m)
  {
  }

  lemma EndsBroken(m: Message)
    ensures Broken(Printed(m.head) + Encoded(m))
  {
    hide Printed, TrailerLine.Line, Encoder.Body;
  }

  /** The mail is loaded, but all that is attached is the data of the newer body. */
  lemma OlderBodyIsLost(headers: seq<byte>, older: Message, newer: Message)
    requires Heads(headers) && OlderThenNewer(older, newer) && Sound(older)
    requires Readable(newer) && Honest(newer) && FindBody(newer.after) == None
    ensures !FindsFirst(MessageText(older))
    ensures var r := Load(headers + CRLFCRLF + MessageText(older));
            r.Loaded? && ContentsIn(r.parts) == [Data(Meant(newer))]
  {
    hide Heads, Readable, Honest, FindBody, FindBegin, Load, ContentsIn, Meant, Sound, Size, MessageText, Sources, BodiesIn, BeginLine;
    ReadableIsSound(newer);
    NewerIsFoundFirst(older, newer);
    SizeIsPositive(older);
    NotTheFirst(MessageText(older), Size(older));
    var buf, line := headers + CRLFCRLF + MessageText(older), |headers| + |CRLFCRLF|;
    assert buf[line..] == MessageText(older);
    var at := line + Size(older);
    assert buf[at..] == MessageText(newer);
    NewerIsChained(buf, line, Size(older), newer);
    assert MessageText(older) != [];
    EncodedMessagesAreAttached(headers, MessageText(older), [newer]);
    assert [newer][1..] == [] && DataOf([newer]) == [Data(Meant(newer))] + DataOf([]);
  }

  lemma NewerIsChained(buf: seq<byte>, line: nat, g: nat, m: Message)
    requires line + g <= |buf| && FindBegin(buf[line..]) == Some(g) && buf[line + g..] == MessageText(m)
    requires Readable(m) && Honest(m) && FindBody(m.after) == None
    ensures Chained(buf, line, [m])
  {
    hide Readable, Honest, FindBody, FindBegin;
    AfterIs(m);
    assert buf[line + g..][Size(m)..] == buf[line + g + Size(m)..];
    assert [m][1..] == [];
    assert Chained(buf, line + g + Size(m), []);
  }
}
