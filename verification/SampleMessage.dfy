/** A message of any size, of either version, that meets the conditions of the round trip. */
module SampleMessage {
  import opened Attachments
  import opened Attributes
  import opened Bytes
  import opened EncodeInfo
  import opened Header
  import opened HeaderBehindText
  import opened HeaderRoundTrip
  import opened Mails
  import opened MessageRoundTrip
  import opened MessageSplit
  import opened OlderVersion
  import opened PlainMessages
  import opened TagSearch
  import Decoder
  import Encoder
  import MessageChain
  import Numbers
  import ScanExact
  import Serialize
  import TrailerLine

  const LETTER: byte := 107

  /** n times the same byte, and a line break. */
  function Line(n: nat): (units: seq<Encoder.Unit>)
    ensures |units| == n + 1 && units[n] == Encoder.Break
  {
    if n == 0 then [Encoder.Break] else [Encoder.Plain(LETTER)] + Line(n - 1)
  }

  function Sample(version: Flag, n: nat, after: seq<byte>): Message {
    var info := ZERO.(flags := {LineF, SizeF}, line := 128, size := n, escOff := DEFAULT_ESCOFF);
    Message(Head(version, info, [97, 98], 0, false, None), Line(n), TrailerLine.Fields(n, None, None, None), after)
  }

  const PLAIN_PARAMS := Decoder.Params(DEFAULT_OFFSET, DEFAULT_ESCAPE, DEFAULT_ESCOFF)

  lemma {:induction false} LineIs(n: nat, lineStart: bool)
    ensures Encoder.Wellformed(Line(n), lineStart, PLAIN_PARAMS) && Encoder.EndsLine(Line(n))
    ensures |Encoder.Meaning(Line(n), PLAIN_PARAMS)| == n
    ensures |Encoder.Body(Line(n), PLAIN_PARAMS)| == n + 2 && SPACE !in Encoder.Body(Line(n), PLAIN_PARAMS)
  {
    if n > 0 {
      LineIs(n - 1, false);
      assert Line(n)[1..] == Line(n - 1);
    } else {
      assert Line(n)[1..] == [];
    }
  }

  lemma {:induction false} ItemsAreShort(order: seq<Flag>, s: set<Flag>, i: Info)
    requires forall f | f in order :: Serialize.IsNumeric(f) && Serialize.Get(f, i) < WORD
    ensures |Text(Serialize.Items(order, s, i))| <= 18 * |order|
  {
    if order != [] {
      ItemsAreShort(order[1..], s, i);
      ItemIsShort(order[0], i);
    }
  }

  lemma ItemIsShort(f: Flag, i: Info)
    requires Serialize.IsNumeric(f) && Serialize.Get(f, i) < WORD
    ensures |ItemText(Item(Serialize.Raw(f), Serialize.Print(f, i)))| <= 18
  {
    Numbers.WordHasTenDigits(Serialize.Get(f, i));
  }

  lemma SampleIsSound(version: Flag, n: nat, after: seq<byte>)
    requires (version == Version1F || version == Version2F) && 0 < n < WORD
    ensures var m := Sample(version, n, after); Sound(m) && Params(m) == PLAIN_PARAMS && |Meant(m)| == n
  {
    LineIs(n, true);
  }

  lemma SampleIsPlain(version: Flag, n: nat, after: seq<byte>)
    requires (version == Version1F || version == Version2F) && 0 < n < WORD
    ensures Plain(Sample(version, n, after))
  {
    hide Sound, Encoder.Body;
    var m := Sample(version, n, after);
    SampleIsSound(version, n, after);
    LineIs(n, true);
    forall raw: seq<byte> ensures Innocent(m, raw) {
      FirstByteAbsent(Encoder.Body(m.units, Params(m)), Spaced(raw));
    }
  }

  lemma SampleIsHonest(version: Flag, n: nat, after: seq<byte>)
    requires (version == Version1F || version == Version2F) && 0 < n < WORD
    ensures Honest(Sample(version, n, after))
  {
    hide Encoded, Find, HeadSpan, Printed, Sound, Meant;
    SampleIsSound(version, n, after);
  }

  lemma SampleIsLong(version: Flag, n: nat, after: seq<byte>)
    requires (version == Version1F || version == Version2F) && 200 <= n < 0x8000_0000
    ensures var m := Sample(version, n, after);
            |Printed(m.head)| <= |Encoded(m)| && |Printed(m.head) + Encoded(m)| < WORD
  {
    hide Text, Serialize.Items, Encoder.Body, Encoder.Meaning, TrailerLine.Line;
    var m := Sample(version, n, after);
    LineIs(n, true);
    forall f | f in ORDER ensures Serialize.IsNumeric(f) && Serialize.Get(f, m.head.info) < WORD { OrderIsNumbers(f); }
    ItemsAreShort(ORDER, m.head.info.flags, m.head.info);
    TrailerIsShort(n);
  }

  lemma TrailerIsShort(n: nat)
    requires n < WORD
    ensures |TrailerLine.Line(TrailerLine.Fields(n, None, None, None))| <= 21
  {
    Numbers.WordHasTenDigits(n);
    var it := Item(RAW_SIZE, Numbers.Dec(n));
    assert TrailerLine.Items(TrailerLine.Fields(n, None, None, None)) == [it];
    OneItem(it);
  }

  /** The conditions of the round trip are met by messages of every size from 200 bytes on. */
  lemma SampleIsReadable(version: Flag, n: nat, after: seq<byte>)
    requires (version == Version1F || version == Version2F) && 200 <= n < 0x8000_0000
    ensures var m := Sample(version, n, after);
            && Sound(m) && Plain(m) && Honest(m) && Readable(m) && |Meant(m)| == n
            && |Printed(m.head)| <= |Encoded(m)| && |Printed(m.head) + Encoded(m)| < WORD
  {
    hide Sound, Plain, Honest, Readable, Meant, Sample, Printed, Encoded;
    SampleIsSound(version, n, after);
    SampleIsPlain(version, n, after);
    SampleIsHonest(version, n, after);
    SampleIsLong(version, n, after);
    PlainIsReadable(Sample(version, n, after));
  }

  /** Bodies of given sizes, one behind the other. */
  function SamplePieces(version: Flag, sizes: seq<nat>): (ps: seq<Piece>)
    ensures |ps| == |sizes| && forall p | p in ps :: p.head.version == version
  {
    if sizes == [] then []
    else
      var m := Sample(version, sizes[0], []);
      [Piece([], m.head, m.units, m.trailer)] + SamplePieces(version, sizes[1..])
  }

  /** Mails of any number of bodies, with any text behind them that has no equals sign, are orderly. */
  lemma {:induction false} SampleMailIsOrderly(version: Flag, sizes: seq<nat>, end: seq<byte>)
    requires (version == Version1F || version == Version2F) && EQUALS !in end
    requires forall i | 0 <= i < |sizes| :: 200 <= sizes[i] < 0x8000_0000
    ensures Orderly(SamplePieces(version, sizes), end)
    decreases |sizes|
  {
    hide Good, Sample;
    var ps := SamplePieces(version, sizes);
    if sizes != [] {
      SampleMailIsOrderly(version, sizes[1..], end);
      assert ps[1..] == SamplePieces(version, sizes[1..]);
      SampleParts(version, sizes[0], MailText(ps[1..], end));
      SampleIsGood(version, sizes[0], MailText(ps[1..], end));
    }
  }

  lemma SampleParts(version: Flag, n: nat, after: seq<byte>)
    ensures var m := Sample(version, n, []); Sample(version, n, after) == Message(m.head, m.units, m.trailer, after)
  {
  }

  lemma SampleIsGood(version: Flag, n: nat, after: seq<byte>)
    requires (version == Version1F || version == Version2F) && 200 <= n < 0x8000_0000
    ensures Good(Sample(version, n, after))
  {
    hide Plain, Honest, Printed, Encoded, Sample;
    SampleIsReadable(version, n, after);
  }

  /** An input: a body of the older version, and one of the newer behind it. The first one is lost. */
  lemma OlderSampleIsLost(n: nat, k: nat)
    requires 200 <= n < 0x8000_0000 && 200 <= k < 0x8000_0000
    ensures var newer := Sample(Version2F, k, []);
            var older := Sample(Version1F, n, MessageText(newer));
            var r := Load(CRLFCRLF + MessageText(older));
            && !ScanExact.FindsFirst(MessageText(older)) && |Meant(older)| == n
            && r.Loaded? && MessageChain.ContentsIn(r.parts) == [Data(Meant(newer))]
  {
    hide Sound, Plain, Honest, Readable, Meant, MessageText, Load, MessageChain.ContentsIn, FindBody, ScanExact.FindsFirst, Printed, Encoded;
    var newer := Sample(Version2F, k, []);
    var older := Sample(Version1F, n, MessageText(newer));
    SampleIsReadable(Version2F, k, []);
    SampleIsReadable(Version1F, n, MessageText(newer));
    NothingInNothing();
    FoundAtStart(CRLFCRLF, []);
    assert [] + CRLFCRLF == CRLFCRLF == CRLFCRLF + [];
    OlderBodyIsLost([], older, newer);
  }

  /** An input: the header of a sample has no part number, so behind any line without "=" it is not survived. */
  lemma SampleBehindTextOverruns(version: Flag, n: nat, after: seq<byte>, lead: seq<byte>)
    requires (version == Version1F || version == Version2F) && 200 <= n < 0x8000_0000
    requires |lead| >= 2 && lead[|lead| - 2..] == CRLF && EQUALS !in lead
    ensures var m := Sample(version, n, after);
            Initialized(Printed(m.head) + Encoded(m)).0 == Ok
            && Initialized(lead + (Printed(m.head) + Encoded(m))).0 == Overrun
  {
    hide *;
    var h, rest := Sample(version, n, after).head, Encoded(Sample(version, n, after));
    SampleHeadIs(version, n, after);
    var text := Text(HeadItems(h)) + Tail(h, rest);
    var more := (if version == Version2F then [TWO] else []) + text;
    KeywordOpens(h, text);
    PrintedIs(h, rest);
    WholeOpens(h, rest);
    KeywordBehindText(lead, more);
    HeaderIsParsed(h, rest);
    PrintedBehindText(lead, h, rest);
  }

  lemma SampleHeadIs(version: Flag, n: nat, after: seq<byte>)
    requires (version == Version1F || version == Version2F) && 200 <= n < 0x8000_0000
    ensures var h, rest := Sample(version, n, after).head, Encoded(Sample(version, n, after));
            && Valid(h) && Silent(h, rest) && rest != [] && |Printed(h) + rest| < WORD
            && PartF !in h.info.flags && h.version == version
            && Lookup(HeadItems(h), RAW_LINE).Some? && Lookup(HeadItems(h), RAW_SIZE).Some?
            && SizeNeeds(h) <= |Printed(h) + rest|
  {
    hide Plain, Honest, Meant, Encoded, SizeNeeds, Find, Keyword, Text, HeadItems;
    SampleIsReadable(version, n, after);
    SampleIsLong(version, n, after);
  }

  lemma WholeOpens(h: Head, rest: seq<byte>)
    ensures Whole(h, rest) == Keyword(h) + (Text(HeadItems(h)) + Tail(h, rest))
  {
  }

  lemma KeywordOpens(h: Head, text: seq<byte>)
    ensures Keyword(h) + text == RAW_YBEGIN + ((if h.version == Version2F then [TWO] else []) + text)
  {
  }
}
