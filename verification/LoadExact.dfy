/**
 When loading a message succeeds, whatever its bodies hold: bodies that are rejected, bodies that
 cannot be decoded, and bodies that can.
 */
module LoadExact {
  import opened Attachments
  import opened Bytes
  import opened Conservation
  import opened Decoder
  import opened DecoderBounds
  import opened EncodeInfo
  import opened Header
  import opened HeaderBounds
  import opened MessageSplit
  import opened ScanExact
  import Numbers
  import opened TagSearch

  /** Text with clean line breaks that ends in one. */
  predicate Tidy(buf: seq<byte>) { CleanBreaks(buf) && EndsInBreak(buf) }

  lemma TidyEnd(buf: seq<byte>)
    requires Tidy(buf)
    ensures |buf| >= 2 && buf[|buf| - 2] == CR && buf[|buf| - 1] == LF
  {
    assert PairAt(buf, |buf| - 1);
  }

  /** The data of a parsed header starts right behind a line break. */
  predicate Begun(buf: seq<byte>, r: Step<Info>) {
    r.Next? ==> r.value.dataStart.Some? && 0 < r.value.dataStart.value <= |buf| && buf[r.value.dataStart.value - 1] == LF
  }

  lemma HitEndsInEquals(buf: seq<byte>, from: nat, len: nat, raw: seq<byte>)
    requires from <= |buf| && raw != [] && raw[|raw| - 1] == EQUALS
    ensures var h := Seek(buf, from, len, raw); h.At? ==> 0 < h.end <= |buf| && buf[h.end - 1] == EQUALS
  {
    var n := Min(len, |buf| - from);
    var part, tag := buf[from..from + n], [SPACE] + raw;
    PlainSearchExact(part, tag);
    var r := Find(part, tag, false);
    if r.Some? {
      assert part[r.value + |tag| - 1] == part[r.value..r.value + |tag|][|tag| - 1] == EQUALS;
    }
  }

  lemma RangeIsFollowed(buf: seq<byte>, line: nat, cb: nat, info: Info)
    requires Tidy(buf) && Covers(buf, line, cb)
    ensures var r := Range(buf, line, cb, info); r.Next? ==> NextLine(buf, r.value.at).Some?
  {
    hide NextLine, Numbers.ReadDec, Seek;
    HitEndsInEquals(buf, line, |buf| - line, RAW_END);
    var r := Range(buf, line, cb, info);
    if r.Next? {
      TidyEnd(buf);
      NextBreakIsFound(buf, r.value.at, |buf| - 2);
    }
  }

  lemma LineBegins(buf: seq<byte>, p: nat)
    requires p <= |buf| && NextLine(buf, p).Some?
    ensures buf[NextLine(buf, p).value - 1] == LF
  {
    NextLineStarts(buf, p);
  }

  lemma PartLineBegun(buf: seq<byte>, line: nat, cb: nat, info: Info)
    requires Tidy(buf) && Covers(buf, line, cb) && 0 < line && buf[line - 1] == LF
    ensures Begun(buf, PartLine(buf, line, cb, info))
  {
    hide Range, Find, NextLine;
    RangeIsFollowed(buf, line, cb, info);
    var r := Range(buf, line, cb, info);
    if r.Next? { LineBegins(buf, r.value.at); }
  }

  lemma AfterNameBegun(buf: seq<byte>, n: Named)
    requires Tidy(buf) && Covers(buf, n.at, n.cb)
    ensures Begun(buf, AfterName(buf, n))
  {
    hide PartLine, NextLine;
    var next := NextLine(buf, n.at);
    if next.Some? && n.cb - (next.value - n.at) != 0 {
      LineBegins(buf, n.at);
      PartLineBegun(buf, next.value, n.cb - (next.value - n.at), n.info);
    }
  }

  lemma NameOnBegun(buf: seq<byte>, c: Cursor, info: Info)
    requires Tidy(buf) && Covers(buf, c.line, c.cb)
    ensures Begun(buf, NameOn(buf, c, info))
  {
    hide AfterName, Seek, FindName, WithName, Begun;
    var p := Required(Seek(buf, c.line, |buf| - c.line, RAW_NAME), info);
    if p.Next? {
      var n := NameValue(buf, p.value, c.cb - (p.value - c.line), info);
      if n.Next? {
        AfterNameBegun(buf, n.value);
      } else {
        NoneBegun(buf, n.status, n.info);
      }
    } else {
      NoneBegun(buf, p.status, p.info);
    }
  }

  lemma NoneBegun(buf: seq<byte>, status: Status, info: Info)
    ensures Begun(buf, Stop(status, info))
  {
  }

  lemma ParsedBegun(buf: seq<byte>)
    requires Tidy(buf)
    ensures Begun(buf, Parsed(buf))
  {
    hide Find, BeforeName, NameOn, Tidy;
    if Signature(buf).Next? {
      var c := Signature(buf).value;
      if BeforeName(buf, c).Next? { NameOnBegun(buf, c, BeforeName(buf, c).value); }
    }
  }

  /** What is attached for a tidy body that was parsed exists, and is bounded by what was encoded. */
  lemma ContentExists(buf: seq<byte>, b: Body)
    requires BodyOf(buf, b) && Tidy(Slice(buf, b)) && Initialized(Slice(buf, b)) == (Ok, b.info)
    ensures ContentOf(buf, b).Some?
    ensures var c := ContentOf(buf, b).value;
            match c case Raw(bytes) => bytes == Slice(buf, b) case Data(bytes) => |bytes| <= b.end - b.begin
  {
    hide Processed, Parsed;
    var text := Slice(buf, b);
    ParsedInside(text);
    ParsedBegun(text);
    assert Parsed(text) == Next(b.info);
    var encoded := text[b.info.dataStart.value..];
    TidyEnd(text);
    DataIsNoLoneLineFeed(text, b.info.dataStart.value);
    DecodingIsBounded(encoded, b.info, Max(b.info.PartSize(), MIN_CAPACITY));
  }

  lemma DataIsNoLoneLineFeed(text: seq<byte>, start: nat)
    requires |text| >= 2 && text[|text| - 2] == CR && text[|text| - 1] == LF
    requires 0 < start <= |text| && text[start - 1] == LF
    ensures !LoneLineFeedLast(text[start..])
  {
    assert start != |text| - 1;
    if start < |text| { assert text[start..][|text| - start - 1] == LF && text[start..][|text| - start - 2] == CR; }
  }

  // ----- the bodies of a message

  lemma BodyIsTidy(buf: seq<byte>, begin: nat, tail: nat)
    requires Tidy(buf) && begin < tail <= |buf| && buf[begin] != LF
    requires tail < |buf| ==> buf[tail - 1] == LF
    ensures Tidy(buf[begin..tail])
  {
    var text := buf[begin..tail];
    TidyEnd(buf);
    assert text[|text| - 1] == buf[tail - 1] == LF;
    forall k | 0 <= k < |text| ensures PairAt(text, k) {
      assert PairAt(buf, begin + k) && text[k] == buf[begin + k];
      if k + 1 < |text| { assert text[k + 1] == buf[begin + k + 1]; }
      if k > 0 { assert text[k - 1] == buf[begin + k - 1]; }
    }
  }

  lemma BeginIsEquals(buf: seq<byte>, p: nat)
    requires BeginLine(buf, p)
    ensures p < |buf| && buf[p] == EQUALS
  {
    var tag := if LineWith(buf, YBEGIN2, p) then YBEGIN2 else YBEGIN;
    assert buf[p] == buf[p..p + |tag|][0];
  }

  lemma {:induction false} BodiesAreTidy(buf: seq<byte>, line: nat)
    requires line <= |buf| && LineStart(buf, line) && Tidy(buf) && ScanFrom(buf, line).Scanned?
    ensures forall b | b in ScanFrom(buf, line).bodies :: b.begin < b.end <= |buf| && Tidy(buf[b.begin..b.end])
    decreases |buf| - line
  {
    hide FindBody, Initialized, BeginLine, CleanBreaks;
    if line < |buf| && FindBody(buf[line..]).Some? {
      var found := FindBody(buf[line..]).value;
      FoundBody(buf, line);
      BeginIsEquals(buf, line + found.begin);
      BodyIsTidy(buf, line + found.begin, line + found.tail.value);
      if line + found.tail.value < |buf| { BodiesAreTidy(buf, line + found.tail.value); }
    }
  }

  lemma {:induction false} AttachedExists(buf: seq<byte>, bodies: seq<Body>, text: Option<nat>)
    requires BodiesOf(buf, bodies) && forall b | b in bodies :: ContentOf(buf, b).Some?
    ensures Attached(buf, bodies, text).Some?
    decreases |bodies|
  {
    hide ContentOf, BodyOf;
    if bodies != [] {
      assert bodies[0] in bodies;
      AttachedExists(buf, bodies[1..], Some(bodies[0].end));
    }
  }

  /** Attaching never fails: every body of a tidy message is attached, decoded or as it stands. */
  lemma BodiesAreAttached(buf: seq<byte>, line: nat)
    requires line <= |buf| && LineStart(buf, line) && Tidy(buf) && ScanFrom(buf, line).Scanned?
    ensures var bodies := ScanFrom(buf, line).bodies; BodiesOf(buf, bodies) && Attached(buf, bodies, None).Some?
  {
    hide ScanFrom, ContentOf, Initialized, CleanBreaks, Attached, InOrder;
    var bodies := ScanFrom(buf, line).bodies;
    ScannedBodies(buf, line);
    ScanIsOrdered(buf, line);
    BodiesAreTidy(buf, line);
    forall b | b in bodies ensures ContentOf(buf, b).Some? {
      ContentExists(buf, b);
    }
    AttachedExists(buf, bodies, None);
  }

  lemma HeadersEndLine(buf: seq<byte>, p: nat)
    requires Find(buf, CRLFCRLF, false) == Some(p)
    ensures p + |CRLFCRLF| <= |buf| && LineStart(buf, p + |CRLFCRLF|)
  {
    PlainSearchExact(buf, CRLFCRLF);
    assert buf[p + 2] == buf[p..p + 4][2] && buf[p + 3] == buf[p..p + 4][3];
  }

  /** The parts are the message from the first accepted body on; rejected bodies are in the texts. */
  predicate Conserves(buf: seq<byte>, line: nat, parts: seq<Part>)
    requires line <= |buf|
  {
    var bodies := BodiesIn(parts);
    && bodies != [] && InOrder(bodies, line, |buf|) && bodies[0].begin <= |buf|
    && ScanFrom(buf, line) == Scanned(bodies) && Sources(buf, parts) == buf[bodies[0].begin..]
    && forall r | r in Rejected(buf, line) && bodies[0].begin <= r.0 ::
         exists k :: 0 <= k < |parts| && parts[k].TextPart? && parts[k].from <= r.0 < r.1 <= parts[k].to
  }

  /**
   Loading is exact. A tidy message with headers and anything behind them fails to load exactly when
   one of its =ybegin lines is not followed by a =yend line. Otherwise it holds no body that can be
   parsed, or is loaded without loss: whatever its bodies hold, its attachments are the message from
   the first accepted body to its end, with the rejected bodies in the texts between.
   */
  lemma LoadingIsExact(buf: seq<byte>)
    requires Tidy(buf) && Find(buf, CRLFCRLF, false).Some?
    requires Find(buf, CRLFCRLF, false).value + |CRLFCRLF| < |buf|
    ensures var line := Find(buf, CRLFCRLF, false).value + |CRLFCRLF|;
            match Load(buf)
            case Crashed => !Paired(buf, line)
            case NotEncoded => Paired(buf, line) && ScanFrom(buf, line) == Scanned([])
            case Loaded(parts) => Paired(buf, line) && Conserves(buf, line, parts)
            case _ => false
  {
    hide ScanFrom, Attached, Paired, Sources, BodiesIn, Rejected, CleanBreaks, InOrder;
    var line := Find(buf, CRLFCRLF, false).value + |CRLFCRLF|;
    HeadersEndLine(buf, line - 4);
    ScannedIffPaired(buf, line);
    if ScanFrom(buf, line).Scanned? {
      BodiesAreAttached(buf, line);
      if ScanFrom(buf, line).bodies != [] { MessageIsConserved(buf, line); }
    }
  }
}
