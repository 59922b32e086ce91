/** Mails put together from encoded bodies and text: when their bodies are found one after the other. */
module Mails {
  import opened Attachments
  import opened Bytes
  import opened EncodeInfo
  import opened HeaderRoundTrip
  import opened MessageChain
  import opened MessageRoundTrip
  import opened MessageSplit
  import opened OlderVersion
  import opened PlainMessages
  import opened TagSearch
  import Conservation
  import Encoder
  import TrailerLine

  /** An encoded body, and the text before it. */
  datatype Piece = Piece(gap: seq<byte>, head: Head, units: seq<Encoder.Unit>, trailer: TrailerLine.Fields)

  function MailText(ps: seq<Piece>, end: seq<byte>): seq<byte>
    decreases |ps|, 0
  {
    if ps == [] then end else ps[0].gap + MessageText(First(ps, end))
  }

  /** The first body as a message, which what follows it belongs to. */
  function First(ps: seq<Piece>, end: seq<byte>): Message
    requires ps != []
    decreases |ps| - 1, 1
  {
    Message(ps[0].head, ps[0].units, ps[0].trailer, MailText(ps[1..], end))
  }

  function MessagesOf(ps: seq<Piece>, end: seq<byte>): seq<Message> {
    if ps == [] then [] else [First(ps, end)] + MessagesOf(ps[1..], end)
  }

  /** Text made of whole lines, without an equals sign. */
  predicate Quiet(text: seq<byte>) { EQUALS !in text && (text == [] || Broken(text)) }

  /** A plain message of honest size whose body is no shorter than its header. */
  predicate Good(m: Message) {
    Plain(m) && Honest(m) && |Printed(m.head)| <= |Encoded(m)| && |Printed(m.head) + Encoded(m)| < WORD
  }

  predicate Older(p: Piece) { p.head.version == Version1F }

  /** Good bodies, quiet text, and no body of the newer version behind one of the older. */
  predicate Orderly(ps: seq<Piece>, end: seq<byte>)
    decreases |ps|
  {
    if ps == [] then EQUALS !in end
    else
      && Quiet(ps[0].gap) && Good(First(ps, end)) && Orderly(ps[1..], end)
      && (Older(ps[0]) ==> forall p | p in ps :: Older(p))
  }

  lemma QuietHasNoLine(text: seq<byte>, tail: seq<byte>, tag: seq<byte>)
    requires EQUALS !in text && IsKeyword(tag)
    ensures NoLine(text + tail, tag, 0, |text|)
  {
    forall q: nat | q < |text| ensures !LineWith(text + tail, tag, q) {
      OccurrenceBytes(text + tail, tag, q);
    }
  }

  /** No line of the last part, and none of the first, is none of the whole. */
  lemma NoLineInBoth(a: seq<byte>, b: seq<byte>, tag: seq<byte>)
    requires (a == [] || Broken(a)) && |tag| > 0
    requires NoLine(a + b, tag, 0, |a|) && NoLine(b, tag, 0, |b|)
    ensures NoLine(a + b, tag, 0, |a + b|)
  {
    StandsBehind(a, b);
    assert (a + b)[|a|..] == b;
    forall q: nat | q < |a + b| ensures !LineWith(a + b, tag, q) {
      if q >= |a| { SameLines(a + b, |a|, tag, q - |a|); }
    }
  }

  lemma StandsBehind(a: seq<byte>, b: seq<byte>)
    requires a == [] || Broken(a)
    ensures LineStart(a + b, |a|)
  {
  }

  /** Bodies of the older version hold no line of the newer one. */
  lemma {:induction false} OlderMailHasNoNewer(ps: seq<Piece>, end: seq<byte>)
    requires Orderly(ps, end) && forall p | p in ps :: Older(p)
    ensures NoLine(MailText(ps, end), YBEGIN2, 0, |MailText(ps, end)|)
    decreases |ps|
  {
    hide *;
    if ps == [] {
      OrderlyEnd(end);
      NoLineInText(end);
    } else {
      MailIs(ps, end);
      OrderlyFrom(ps, end);
      RestIsOlder(ps);
      GoodIsSound(First(ps, end));
      OlderMailHasNoNewer(ps[1..], end);
      OlderPieceHasNoNewer(ps[0].gap, First(ps, end));
    }
  }

  lemma RestIsOlder(ps: seq<Piece>)
    requires ps != [] && forall p | p in ps :: Older(p)
    ensures ps[0].head.version == Version1F && forall p | p in ps[1..] :: Older(p)
  {
    assert Older(ps[0]);
  }

  lemma NoLineInText(text: seq<byte>)
    requires EQUALS !in text
    ensures NoLine(text, YBEGIN2, 0, |text|) && NoLine(text, YBEGIN, 0, |text|)
  {
    hide NoLine;
    QuietHasNoLine(text, [], YBEGIN2);
    QuietHasNoLine(text, [], YBEGIN);
    assert text + [] == text;
  }

  lemma OlderPieceHasNoNewer(gap: seq<byte>, m: Message)
    requires EQUALS !in gap && (gap == [] || Broken(gap))
    requires Sound(m) && m.head.version == Version1F && NoLine(m.after, YBEGIN2, 0, |m.after|)
    ensures NoLine(gap + MessageText(m), YBEGIN2, 0, |gap + MessageText(m)|)
  {
    hide Find, Printed, Encoded, Sound, NoLine, MessageText;
    TextInTwo(m);
    NoNewerLine(m);
    EndsBroken(m);
    NoLineInBoth(Printed(m.head) + Encoded(m), m.after, YBEGIN2);
    QuietHasNoLine(gap, MessageText(m), YBEGIN2);
    NoLineInBoth(gap, MessageText(m), YBEGIN2);
  }

  lemma GoodIsSound(m: Message)
    requires Good(m)
    ensures Sound(m) && Valid(m.head) && Honest(m) && Readable(m)
  {
    hide Printed, Encoded, NotPreempted;
    PlainIsReadable(m);
  }

  /** The first body is the next one that is found. */
  lemma FirstIsFound(ps: seq<Piece>, end: seq<byte>)
    requires ps != [] && Orderly(ps, end)
    ensures FindBegin(MailText(ps, end)) == Some(|ps[0].gap|)
  {
    hide *;
    var m, gap := First(ps, end), ps[0].gap;
    OrderlyFrom(ps, end);
    GoodIsSound(m);
    MailIs(ps, end);
    HeadHasVersion(m.head);
    if m.head.version == Version1F {
      OlderMailHasNoNewer(ps, end);
      FoundBehindText(gap, m, YBEGIN);
      NoneFound(MailText(ps, end), YBEGIN2);
      NewerIsSoughtFirst(MailText(ps, end));
    } else {
      FoundBehindText(gap, m, YBEGIN2);
      NewerIsSoughtFirst(MailText(ps, end));
    }
  }

  lemma NewerIsSoughtFirst(buf: seq<byte>)
    ensures Find(buf, YBEGIN2, true) == None ==> FindBegin(buf) == Find(buf, YBEGIN, true)
    ensures Find(buf, YBEGIN2, true).Some? ==> FindBegin(buf) == Find(buf, YBEGIN2, true)
  {
    hide Find;
  }

  lemma FoundBehindText(gap: seq<byte>, m: Message, tag: seq<byte>)
    requires Valid(m.head) && tag == if m.head.version == Version2F then YBEGIN2 else YBEGIN
    requires EQUALS !in gap && (gap == [] || Broken(gap))
    ensures IsKeyword(YBEGIN2) && Find(gap + MessageText(m), tag, true) == Some(|gap|)
  {
    hide Find, MessageText, Valid, NoLine;
    BeginsWithKeyword(m, tag);
    QuietHasNoLine(gap, MessageText(m), tag);
    StandsBehind(gap, MessageText(m));
    assert (gap + MessageText(m))[|gap|..] == MessageText(m);
    FirstLineWith(gap + MessageText(m), tag, |gap|);
  }

  lemma MailIs(ps: seq<Piece>, end: seq<byte>)
    requires ps != []
    ensures MailText(ps, end) == ps[0].gap + MessageText(First(ps, end))
    ensures First(ps, end).after == MailText(ps[1..], end) && First(ps, end).head == ps[0].head
  {
  }

  lemma NothingInText(end: seq<byte>)
    requires EQUALS !in end
    ensures FindBody(end) == None
  {
    hide NoLine, Find;
    NoLineInText(end);
    NoneFound(end, YBEGIN2);
    NoneFound(end, YBEGIN);
  }

  /** The bodies of an orderly mail are found one after the other. */
  lemma {:induction false} MailIsChained(pre: seq<byte>, ps: seq<Piece>, end: seq<byte>)
    requires Orderly(ps, end)
    ensures Chained(pre + MailText(ps, end), |pre|, MessagesOf(ps, end))
    decreases |ps|
  {
    hide *;
    var buf := pre + MailText(ps, end);
    if ps == [] {
      OrderlyEnd(end);
      assert buf[|pre|..] == end;
      ChainEnds(buf, |pre|, end);
    } else {
      var m := First(ps, end);
      var next := pre + ps[0].gap + (Printed(m.head) + Encoded(m));
      OrderlyFrom(ps, end);
      GoodIsSound(m);
      FirstIsFound(ps, end);
      MailIs(ps, end);
      MailInTwo(pre, ps[0].gap, m);
      MailIsChained(next, ps[1..], end);
      ChainGrows(buf, |pre|, |ps[0].gap|, m, MessagesOf(ps[1..], end));
      MessagesFrom(ps, end);
    }
  }

  lemma MessagesFrom(ps: seq<Piece>, end: seq<byte>)
    requires ps != []
    ensures MessagesOf(ps, end) == [First(ps, end)] + MessagesOf(ps[1..], end)
  {
    hide First;
  }

  lemma MailInTwo(pre: seq<byte>, gap: seq<byte>, m: Message)
    ensures var next, buf := pre + gap + (Printed(m.head) + Encoded(m)), pre + (gap + MessageText(m));
            && buf == next + m.after && |next| == |pre| + |gap| + Size(m)
            && buf[|pre|..] == gap + MessageText(m) && buf[|pre| + |gap|..] == MessageText(m)
  {
    hide Printed, Encoded, MessageText;
    TextInTwo(m);
    assert pre + (gap + MessageText(m)) == (pre + gap) + MessageText(m);
  }

  lemma ChainEnds(buf: seq<byte>, line: nat, end: seq<byte>)
    requires line <= |buf| && FindBody(buf[line..]) == None
    ensures Chained(buf, line, MessagesOf([], end))
  {
  }

  lemma ChainGrows(buf: seq<byte>, line: nat, g: nat, m: Message, ms: seq<Message>)
    requires line + g + Size(m) <= |buf| && FindBegin(buf[line..]) == Some(g) && buf[line + g..] == MessageText(m)
    requires Readable(m) && Honest(m) && Chained(buf, line + g + Size(m), ms)
    ensures Chained(buf, line, [m] + ms)
  {
    hide Readable, Honest, FindBegin, MessageText, Size;
    assert ([m] + ms)[1..] == ms;
  }

  lemma OrderlyEnd(end: seq<byte>)
    requires Orderly([], end)
    ensures MailText([], end) == end && EQUALS !in end && FindBody(end) == None
  {
    NothingInText(end);
  }

  lemma OrderlyFrom(ps: seq<Piece>, end: seq<byte>)
    requires ps != [] && Orderly(ps, end)
    ensures Good(First(ps, end)) && Orderly(ps[1..], end) && EQUALS !in ps[0].gap && (ps[0].gap == [] || Broken(ps[0].gap))
    ensures ps[0].head.version == Version1F ==> forall p | p in ps :: Older(p)
  {
  }

  /** An orderly mail is loaded as the data of its bodies, in their order. */
  lemma MailIsLoaded(headers: seq<byte>, ps: seq<Piece>, end: seq<byte>)
    requires Heads(headers) && ps != [] && Orderly(ps, end)
    ensures var r := Load(headers + CRLFCRLF + MailText(ps, end));
            r.Loaded? && ContentsIn(r.parts) == DataOf(MessagesOf(ps, end))
  {
    hide Heads, Load, Chained, Orderly, Conservation.Sources, Conservation.BodiesIn, MessageText, Size, ContentsIn, DataOf;
    MailIsChained(headers + CRLFCRLF, ps, end);
    MailIs(ps, end);
    TextInTwo(First(ps, end));
    SizeIsPositive(First(ps, end));
    EncodedMessagesAreAttached(headers, MailText(ps, end), MessagesOf(ps, end));
  }
}
