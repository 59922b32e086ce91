/**
 Parsing a header that does not stand at the start of the buffer. The count of remaining bytes is then
 too large by as much as precedes the keyword, and two of the searches run to that count.
 */
module HeaderBehindText {
  import opened Attributes
  import opened Bytes
  import opened EncodeInfo
  import opened Header
  import opened HeaderBounds
  import opened HeaderRoundTrip
  import opened Numbers
  import opened Serialize
  import opened SerializeRoundTrip
  import opened TagSearch

  // ----- what moves along with the header

  /** The record of a header that stands n bytes further on. */
  function Moved(i: Info, n: nat): Info {
    i.(comp := if CompF in i.flags then i.comp + n else i.comp,
       name := if NameF in i.flags then i.name + n else i.name,
       dataStart := Shift(i.dataStart, n))
  }

  function MovedStep(r: Step<Info>, n: nat): Step<Info> {
    match r
    case Next(i) => Next(Moved(i, n))
    case Stop(s, i) => Stop(s, Moved(i, n))
  }

  function MovedHit(h: Hit, n: nat): Hit { if h.At? then At(h.end + n) else h }

  function MovedCursor(c: Cursor, n: nat): Cursor { Cursor(c.line + n, c.cb + n, c.version) }

  // ----- searches and numbers

  lemma SliceMoved(lead: seq<byte>, b: seq<byte>, p: nat, q: nat)
    requires p <= q <= |b|
    ensures (lead + b)[p + |lead|..q + |lead|] == b[p..q] && (lead + b)[p + |lead|..] == b[p..]
  {
  }

  lemma SeekMoved(lead: seq<byte>, b: seq<byte>, from: nat, len: nat, raw: seq<byte>)
    requires from <= |b|
    ensures Seek(lead + b, from + |lead|, len, raw) == MovedHit(Seek(b, from, len, raw), |lead|)
  {
    SliceMoved(lead, b, from, from + Min(len, |b| - from));
  }

  /** A search that is told to look further than the buffer goes leaves it unless it finds the attribute. */
  lemma SeekBeyond(b: seq<byte>, from: nat, len: nat, raw: seq<byte>)
    requires from <= |b| && len > |b| - from
    ensures Seek(b, from, len, raw) ==
            var h := Seek(b, from, |b| - from, raw);
            if !h.At? && |Spaced(raw)| <= len then Beyond else h
  {
  }

  lemma ReadMoved(lead: seq<byte>, b: seq<byte>, p: nat)
    requires p <= |b|
    ensures ReadDec(lead + b, p + |lead|) == ReadDec(b, p) && ReadHex(lead + b, p + |lead|) == ReadHex(b, p)
  {
    SliceMoved(lead, b, p, Min(|b|, p + DEC_DIGITS));
    SliceMoved(lead, b, p, Min(|b|, p + HEX_DIGITS));
  }

  lemma NextLineMoved(lead: seq<byte>, b: seq<byte>, p: nat)
    requires p <= |b|
    ensures NextLine(lead + b, p + |lead|) == Shift(NextLine(b, p), |lead|)
  {
    SliceMoved(lead, b, p, |b|);
  }

  // ----- the keyword

  lemma KeywordMoved(lead: seq<byte>, b: seq<byte>)
    requires Find(lead + b, RAW_YBEGIN, true) == Some(|lead|)
    ensures |b| >= 7 && b[6] == 110 && Find(b, RAW_YBEGIN, true) == Some(0)
  {
    hide Scan;
    ScanSound(lead + b, RAW_YBEGIN, true, 0, 0);
    SliceMoved(lead, b, 0, 7);
    assert b == RAW_YBEGIN + b[7..] by { assert b[..7] == b[0..7] == (lead + b)[|lead|..|lead| + 7]; }
    LineTagAtStart(RAW_YBEGIN, b[7..]);
  }

  lemma SignatureMoved(lead: seq<byte>, b: seq<byte>)
    requires (EndsInBreak(b) || |b| > 9) && Find(lead + b, RAW_YBEGIN, true) == Some(|lead|)
    ensures Find(b, RAW_YBEGIN, true) == Some(0)
    ensures match Signature(b)
            case Stop(s, i) => Signature(lead + b) == Stop(s, i) && i == ZERO
            case Next(c) => c.cb == |b| - c.line && Signature(lead + b) == Next(MovedCursor(c, |lead|))
  {
    hide Find;
    KeywordMoved(lead, b);
    assert |b| > 7 && (lead + b)[|lead| + 7] == b[7];
    if |b| > 8 { assert (lead + b)[|lead| + 8] == b[8]; }
  }

  // ----- the attributes before the name

  lemma FromLineMoved(lead: seq<byte>, b: seq<byte>, c: Cursor, p: nat)
    requires c.line <= |b| && p <= |b|
    ensures FromLine(lead + b, MovedCursor(c, |lead|), p + |lead|) == FromLine(b, c, p)
  {
    hide Seek, ReadDec, ReadHex;
    ReadMoved(lead, b, p);
    SeekMoved(lead, b, c.line, |b| - p, RAW_SIZE);
    var q := Seek(b, c.line, |b| - p, RAW_SIZE);
    if q.At? { ReadMoved(lead, b, q.end); }
  }

  lemma LineAndSizeMoved(lead: seq<byte>, b: seq<byte>, c: Cursor)
    requires c.line <= |b| && c.cb == |b| - c.line && lead != []
    ensures LineAndSize(lead + b, MovedCursor(c, |lead|)) ==
            if !Seek(b, c.line, c.cb, RAW_LINE).At? && |Spaced(RAW_LINE)| <= c.cb + |lead|
            then Stop(Overrun, ZERO.(flags := {c.version}))
            else LineAndSize(b, c)
  {
    hide Seek, FromLine;
    SeekMoved(lead, b, c.line, c.cb + |lead|, RAW_LINE);
    SeekBeyond(b, c.line, c.cb + |lead|, RAW_LINE);
    LineIsFirst(b, c);
    LineIsFirst(lead + b, MovedCursor(c, |lead|));
    match Seek(b, c.line, c.cb, RAW_LINE)
    case At(p) => FromLineMoved(lead, b, c, p);
    case _ =>
  }

  lemma LineIsFirst(b: seq<byte>, c: Cursor)
    requires c.line <= |b|
    ensures LineAndSize(b, c) == match Seek(b, c.line, c.cb, RAW_LINE)
                                 case At(p) => FromLine(b, c, p)
                                 case Nowhere => Stop(Failed(MissingTag), ZERO.(flags := {c.version}))
                                 case Beyond => Stop(Overrun, ZERO.(flags := {c.version}))
  {
    hide Seek, ReadDec, Wrap16;
  }

  lemma PartMoved(lead: seq<byte>, b: seq<byte>, c: Cursor, i: Info)
    requires c.line <= |b| && c.cb == |b| - c.line && lead != [] && |Spaced(RAW_PART)| <= c.cb
    ensures Part(lead + b, MovedCursor(c, |lead|), Moved(i, |lead|)) ==
            if Seek(b, c.line, c.cb, RAW_PART).At? then MovedStep(Part(b, c, i), |lead|)
            else Stop(Overrun, Moved(i, |lead|))
  {
    hide Find, ReadDec;
    SeekMoved(lead, b, c.line, c.cb + |lead|, RAW_PART);
    SeekBeyond(b, c.line, c.cb + |lead|, RAW_PART);
    var h := Seek(b, c.line, c.cb, RAW_PART);
    if h.At? { ReadMoved(lead, b, h.end); }
  }

  lemma SeekAllMoved(lead: seq<byte>, b: seq<byte>, c: Cursor, raw: seq<byte>)
    requires c.line <= |b|
    ensures SeekAll(lead + b, MovedCursor(c, |lead|), raw) == Shift(SeekAll(b, c, raw), |lead|)
    ensures match SeekAll(b, c, raw)
            case None => true
            case Some(p) => ReadDec(lead + b, p + |lead|) == ReadDec(b, p) && ReadHex(lead + b, p + |lead|) == ReadHex(b, p)
  {
    hide Seek, ReadDec, ReadHex;
    SeekMoved(lead, b, c.line, |b| - c.line, raw);
    if SeekAll(b, c, raw).Some? { ReadMoved(lead, b, SeekAll(b, c, raw).value); }
  }

  lemma TotalMoved(lead: seq<byte>, b: seq<byte>, c: Cursor, i: Info)
    requires c.line <= |b|
    ensures Total(lead + b, MovedCursor(c, |lead|), Moved(i, |lead|)) == MovedStep(Total(b, c, i), |lead|)
  {
    hide SeekAll, ReadDec, ReadHex;
    SeekAllMoved(lead, b, c, RAW_TOTAL);
  }

  lemma CrcMoved(lead: seq<byte>, b: seq<byte>, c: Cursor, i: Info)
    requires c.line <= |b|
    ensures Crc(lead + b, MovedCursor(c, |lead|), Moved(i, |lead|)) == Moved(Crc(b, c, i), |lead|)
  {
    hide SeekAll, ReadDec, ReadHex;
    SeekAllMoved(lead, b, c, RAW_CRC32);
  }

  lemma OffsetMoved(lead: seq<byte>, b: seq<byte>, c: Cursor, i: Info)
    requires c.line <= |b|
    ensures Offset(lead + b, MovedCursor(c, |lead|), Moved(i, |lead|)) == MovedStep(Offset(b, c, i), |lead|)
  {
    hide SeekAll, ReadDec, ReadHex;
    SeekAllMoved(lead, b, c, RAW_OFFSET);
  }

  lemma EscapeMoved(lead: seq<byte>, b: seq<byte>, c: Cursor, i: Info)
    requires c.line <= |b|
    ensures Escape(lead + b, MovedCursor(c, |lead|), Moved(i, |lead|)) == Moved(Escape(b, c, i), |lead|)
  {
    hide SeekAll, ReadDec, ReadHex;
    SeekAllMoved(lead, b, c, RAW_ESCAPE);
  }

  lemma EscOffMoved(lead: seq<byte>, b: seq<byte>, c: Cursor, i: Info)
    requires c.line <= |b|
    ensures EscOff(lead + b, MovedCursor(c, |lead|), Moved(i, |lead|)) == MovedStep(EscOff(b, c, i), |lead|)
  {
    hide SeekAll, ReadDec, ReadHex;
    SeekAllMoved(lead, b, c, RAW_ESCOFF);
  }

  lemma {:induction false} WordEndMoved(lead: seq<byte>, b: seq<byte>, p: nat, limit: nat)
    requires p <= |b|
    ensures WordEnd(lead + b, p + |lead|, limit) == Shift(WordEnd(b, p, limit), |lead|)
    decreases limit
  {
    if limit > 0 && p < |b| { WordEndMoved(lead, b, p + 1, limit - 1); }
  }

  lemma CompressionMoved(lead: seq<byte>, b: seq<byte>, c: Cursor, i: Info)
    requires c.line <= |b|
    ensures Compression(lead + b, MovedCursor(c, |lead|), Moved(i, |lead|)) == MovedStep(Compression(b, c, i), |lead|)
  {
    hide Seek, WordEnd;
    var limit := Min(|b| - c.line, MAX_PATH);
    SeekMoved(lead, b, c.line, limit, RAW_COMP);
    var h := Seek(b, c.line, limit, RAW_COMP);
    if h.At? { WordEndMoved(lead, b, h.end, limit); }
  }

  /** The stages from the part number on. */
  lemma BehindPartMoved(lead: seq<byte>, b: seq<byte>, c: Cursor)
    requires c.line <= |b| && c.cb == |b| - c.line && lead != [] && |Spaced(RAW_PART)| <= c.cb
    requires LineAndSize(b, c).Next?
    requires LineAndSize(lead + b, MovedCursor(c, |lead|)) == LineAndSize(b, c)
    requires Moved(LineAndSize(b, c).value, |lead|) == LineAndSize(b, c).value
    ensures BeforeName(lead + b, MovedCursor(c, |lead|)) ==
            if Seek(b, c.line, c.cb, RAW_PART).At? then MovedStep(BeforeName(b, c), |lead|)
            else Stop(Overrun, LineAndSize(b, c).value)
  {
    hide LineAndSize, Part, Total, Crc, Offset, Escape, EscOff, Compression, Seek, Moved, MovedCursor;
    var i1 := LineAndSize(b, c).value;
    PartMoved(lead, b, c, i1);
    if Seek(b, c.line, c.cb, RAW_PART).At? && Part(b, c, i1).Next? {
      var i2 := Part(b, c, i1).value;
      TotalMoved(lead, b, c, i2);
      if Total(b, c, i2).Next? {
        var i3 := Total(b, c, i2).value;
        CrcMoved(lead, b, c, i3);
        OffsetMoved(lead, b, c, Crc(b, c, i3));
        if Offset(b, c, Crc(b, c, i3)).Next? {
          var i4 := Offset(b, c, Crc(b, c, i3)).value;
          EscapeMoved(lead, b, c, i4);
          EscOffMoved(lead, b, c, Escape(b, c, i4));
          if EscOff(b, c, Escape(b, c, i4)).Next? {
            CompressionMoved(lead, b, c, EscOff(b, c, Escape(b, c, i4)).value);
          }
        }
      }
    }
  }

  // ----- the name

  predicate BreakAt(b: seq<byte>, k: nat) { k < |b| && (b[k] == CR || b[k] == LF) }

  /** Two limits make no difference to a scan that stops before either. */
  predicate Alike(b: seq<byte>, p: nat, k: nat, limit: nat, wider: nat) {
    p <= k && BreakAt(b, k) && limit <= wider && (k - p < limit || limit == wider)
  }

  lemma {:induction false} SkipMoved(lead: seq<byte>, b: seq<byte>, p: nat, k: nat, limit: nat, wider: nat)
    requires Alike(b, p, k, limit, wider)
    ensures SkipSpaces(lead + b, p + |lead|, wider) == Shift(SkipSpaces(b, p, limit), |lead|)
    ensures SkipSpaces(b, p, limit).Some? && SkipSpaces(b, p, limit).value <= k
    decreases k - p
  {
    if limit > 0 && b[p] == SPACE { SkipMoved(lead, b, p + 1, k, limit - 1, wider - 1); }
  }

  lemma {:induction false} NameEndMoved(lead: seq<byte>, b: seq<byte>, p: nat, k: nat, limit: nat, wider: nat)
    requires Alike(b, p, k, limit, wider)
    ensures NameEnd(b, p, limit).Some?
    ensures var (e, stopped) := NameEnd(b, p, limit).value;
            NameEnd(lead + b, p + |lead|, wider) == Some((e + |lead|, stopped))
    decreases k - p
  {
    if limit > 0 && !EndsName(b[p]) { NameEndMoved(lead, b, p + 1, k, limit - 1, wider - 1); }
  }

  lemma {:induction false} TrimMoved(lead: seq<byte>, b: seq<byte>, start: nat, p: int)
    requires start - 1 <= p <= |b|
    ensures Trim(lead + b, start + |lead|, p + |lead|) ==
            match Trim(b, start, p) case None => None case Some(e) => Some(e + |lead|)
    decreases p - start + 1
  {
    if start < p < |b| { TrimMoved(lead, b, start, p - 1); }
  }

  function MovedSpan(s: Option<NameSpan>, n: nat): Option<NameSpan> {
    match s case None => None case Some(v) => Some(NameSpan(v.start + n, v.end + n, v.nuls))
  }

  lemma FindNameMoved(lead: seq<byte>, b: seq<byte>, p: nat, k: nat, remaining: nat, more: nat)
    requires p <= k && BreakAt(b, k) && k - p < remaining <= more
    ensures FindName(lead + b, p + |lead|, more) == MovedSpan(FindName(b, p, remaining), |lead|)
  {
    hide SkipSpaces, NameEnd, Trim, Nuls;
    var limit, wider := Min(remaining, MAX_PATH), Min(more, MAX_PATH);
    SkipMoved(lead, b, p, k, limit, wider);
    var start := SkipSpaces(b, p, limit).value;
    NameEndMoved(lead, b, start, k, limit - (start - p), wider - (start - p));
    var (end, stopped) := NameEnd(b, start, limit - (start - p)).value;
    TrimMoved(lead, b, start, if stopped then end - 1 else end);
    SliceMoved(lead, b, start, end);
  }

  lemma WithNameMoved(i: Info, s: NameSpan, n: nat)
    requires 0 <= s.end
    ensures WithName(Moved(i, n), NameSpan(s.start + n, s.end + n, s.nuls)) == Moved(WithName(i, s), n)
  {
  }

  lemma NameValueMoved(lead: seq<byte>, b: seq<byte>, p: nat, k: nat, cb: nat, i: Info)
    requires 0 < p <= k && BreakAt(b, k) && cb == |b| - p
    ensures NameValue(lead + b, p + |lead|, cb + |lead|, Moved(i, |lead|)) ==
            match NameValue(b, p, cb, i)
            case Stop(s, j) => Stop(s, Moved(j, |lead|))
            case Next(n) => Next(Named(Moved(n.info, |lead|), n.at + |lead|, n.cb + |lead|))
  {
    hide FindName, WithName, Moved;
    var start := if b[p] == DQUOTE then p + 1 else p;
    assert (lead + b)[p + |lead|] == b[p];
    FindNameMoved(lead, b, start, k, |b| - start, |b| - start + |lead|);
    var s := FindName(b, start, |b| - start);
    if s.Some? { WithNameMoved(i, s.value, |lead|); }
  }

  // ----- from the name to the data

  /**
   The outcome behind text is that of the header alone, moved; only the end of the buffer, which the
   count no longer shows, is taken for the start of data.
   */
  predicate Follows(r: Step<Info>, behind: Step<Info>, end: nat, n: nat) {
    || behind == MovedStep(r, n)
    || (r.Stop? && r.status == Failed(NoMoreData) && behind == Next(Moved(r.info.(dataStart := Some(end)), n)))
  }

  lemma RangeMoved(lead: seq<byte>, b: seq<byte>, line: nat, cb: nat, i: Info)
    requires Covers(b, line, cb)
    ensures Range(lead + b, line + |lead|, cb + |lead|, Moved(i, |lead|)) ==
            match Range(b, line, cb, i)
            case Stop(s, j) => Stop(s, Moved(j, |lead|))
            case Next(n) => Next(Named(Moved(n.info, |lead|), n.at + |lead|, n.cb + |lead|))
  {
    hide Seek, ReadDec, ReadHex;
    SeekMoved(lead, b, line, |b| - line, RAW_BEGIN);
    var p := Seek(b, line, |b| - line, RAW_BEGIN);
    if p.At? { ReadMoved(lead, b, p.end); }
    SeekMoved(lead, b, line, |b| - line, RAW_END);
    var q := Seek(b, line, |b| - line, RAW_END);
    if q.At? { ReadMoved(lead, b, q.end); }
  }

  lemma StartedMoved(lead: seq<byte>, b: seq<byte>, line: nat, cb: nat, i: Info)
    requires line <= |b| && (cb == 0 ==> line == |b|) && lead != []
    ensures Follows(Started(i, Some(line), cb), Started(Moved(i, |lead|), Some(line + |lead|), cb + |lead|), |b|, |lead|)
  {
  }

  lemma AfterRangeMoved(lead: seq<byte>, b: seq<byte>, n: Named)
    requires Covers(b, n.at, n.cb) && lead != []
    ensures Follows(AfterRange(b, n), AfterRange(lead + b, Named(Moved(n.info, |lead|), n.at + |lead|, n.cb + |lead|)), |b|, |lead|)
  {
    hide Follows, Started, NextLine;
    NextLineMoved(lead, b, n.at);
    match NextLine(b, n.at)
    case None =>
      assert Moved(n.info.(dataStart := None), |lead|) == Moved(n.info, |lead|).(dataStart := None);
      FollowsItself(AfterRange(b, n), |b|, |lead|);
    case Some(next) =>
      StartedMoved(lead, b, next, n.cb - (next - n.at), n.info);
  }

  lemma FollowsItself(r: Step<Info>, end: nat, n: nat)
    ensures Follows(r, MovedStep(r, n), end, n)
  {
  }

  lemma PartLineMoved(lead: seq<byte>, b: seq<byte>, line: nat, cb: nat, i: Info)
    requires Covers(b, line, cb) && (cb == 0 ==> line == |b|) && lead != []
    ensures Follows(PartLine(b, line, cb, i), PartLine(lead + b, line + |lead|, cb + |lead|, Moved(i, |lead|)), |b|, |lead|)
  {
    hide Follows, Range, AfterRange, Find, Started;
    SliceMoved(lead, b, line, |b|);
    FollowsItself(PartLine(b, line, cb, i), |b|, |lead|);
    match Find(b[line..], YPART, true)
    case None => StartedMoved(lead, b, line, cb, i);
    case Some(d) =>
      RangeMoved(lead, b, line, cb, i);
      if Range(b, line, cb, i).Next? { AfterRangeMoved(lead, b, Range(b, line, cb, i).value); }
  }

  lemma AfterNameMoved(lead: seq<byte>, b: seq<byte>, n: Named)
    requires Covers(b, n.at, n.cb) && lead != []
    ensures Follows(AfterName(b, n), AfterName(lead + b, Named(Moved(n.info, |lead|), n.at + |lead|, n.cb + |lead|)), |b|, |lead|)
  {
    hide PartLine, NextLine;
    NextLineMoved(lead, b, n.at);
    if NextLine(b, n.at).Some? {
      var line := NextLine(b, n.at).value;
      PartLineMoved(lead, b, line, n.cb - (line - n.at), n.info);
      if n.cb == line - n.at {
        NothingBehind(lead + b, line + |lead|, |lead|, Moved(n.info, |lead|));
      }
    }
  }

  lemma NothingBehind(b: seq<byte>, line: nat, cb: nat, i: Info)
    requires line == |b| && cb > 0
    ensures PartLine(b, line, cb, i) == Next(i.(dataStart := Some(line)))
  {
    assert b[line..] == [];
  }

  /** A line ends behind the name, wherever the name is found. */
  ghost predicate NameEnds(b: seq<byte>, from: nat)
    requires from <= |b|
  {
    match Seek(b, from, |b| - from, RAW_NAME)
    case At(p) => exists k :: p <= k && BreakAt(b, k)
    case _ => true
  }

  lemma NameOnMoved(lead: seq<byte>, b: seq<byte>, c: Cursor, i: Info)
    requires c.line <= |b| && c.cb == |b| - c.line && lead != [] && NameEnds(b, c.line)
    ensures Follows(NameOn(b, c, i), NameOn(lead + b, MovedCursor(c, |lead|), Moved(i, |lead|)), |b|, |lead|)
  {
    hide Seek, NameValue, AfterName, Follows, Moved, BreakAt;
    SeekMoved(lead, b, c.line, |b| - c.line, RAW_NAME);
    FollowsItself(NameOn(b, c, i), |b|, |lead|);
    match Seek(b, c.line, |b| - c.line, RAW_NAME)
    case At(p) =>
      var k :| p <= k && BreakAt(b, k);
      NameValueMoved(lead, b, p, k, |b| - p, i);
      var r := NameValue(b, p, |b| - p, i);
      if r.Next? { AfterNameMoved(lead, b, r.value); }
    case _ =>
  }

  // ----- the theorem

  /** Neither attribute that is sought up to the wrong count is missing. */
  predicate HasPart(b: seq<byte>, c: Cursor)
    requires c.line <= |b|
  {
    Seek(b, c.line, |b| - c.line, RAW_PART).At?
  }

  /** No positions are recorded before the name. */
  lemma LineAndSizeStays(b: seq<byte>, c: Cursor, n: nat)
    requires c.line <= |b| && LineAndSize(b, c).Next?
    ensures Moved(LineAndSize(b, c).value, n) == LineAndSize(b, c).value
    ensures c.cb == |b| - c.line ==> Seek(b, c.line, c.cb, RAW_LINE).At? && |Spaced(RAW_LINE)| <= c.cb
  {
    hide Find, ReadDec;
  }

  lemma FieldsMoved(lead: seq<byte>, b: seq<byte>, c: Cursor)
    requires c.line <= |b| && c.cb == |b| - c.line && lead != [] && NameEnds(b, c.line)
    ensures var behind := Fields(lead + b, MovedCursor(c, |lead|));
            match LineAndSize(b, c)
            case Stop(s, i) =>
              behind == (if !Seek(b, c.line, c.cb, RAW_LINE).At? && |Spaced(RAW_LINE)| <= c.cb + |lead|
                         then Stop(Overrun, ZERO.(flags := {c.version})) else Stop(s, i))
            case Next(i) =>
              if HasPart(b, c) then Follows(Fields(b, c), behind, |b|, |lead|) else behind == Stop(Overrun, i)
  {
    hide Seek, LineAndSize, BeforeName, NameOn, Moved, Follows, NameEnds;
    LineAndSizeMoved(lead, b, c);
    LineFirst(b, c);
    LineFirst(lead + b, MovedCursor(c, |lead|));
    if LineAndSize(b, c).Next? {
      LineAndSizeStays(b, c, |lead|);
      BehindPartMoved(lead, b, c);
      if BeforeName(b, c).Next? {
        NameOnMoved(lead, b, c, BeforeName(b, c).value);
      } else {
        FollowsItself(Fields(b, c), |b|, |lead|);
      }
    }
  }

  lemma LineFirst(b: seq<byte>, c: Cursor)
    requires c.line <= |b|
    ensures LineAndSize(b, c).Stop? ==> BeforeName(b, c) == LineAndSize(b, c)
  {
    hide LineAndSize, Part;
  }

  /**
   Text before the keyword is not ignored. A header that is accepted on its own is accepted behind text,
   with its places moved, exactly when it has a part number; without one the search for the part number
   leaves the buffer.
   */
  lemma AcceptedBehindText(lead: seq<byte>, b: seq<byte>)
    requires EndsInBreak(b) && lead != [] && Find(lead + b, RAW_YBEGIN, true) == Some(|lead|)
    requires Parsed(b).Next?
    ensures Initialized(b).0 == Ok && Signature(b).Next? && LineAndSize(b, Signature(b).value).Next?
    ensures Initialized(lead + b) ==
            if HasPart(b, Signature(b).value) then (Ok, Moved(Parsed(b).value, |lead|))
            else (Overrun, LineAndSize(b, Signature(b).value).value)
  {
    hide Seek, Signature, LineAndSize, BeforeName, NameOn, Moved;
    SignatureMoved(lead, b);
    var c := Signature(b).value;
    LineFirst(b, c);
    NameEndsInside(b, c.line);
    FieldsMoved(lead, b, c);
  }

  lemma NameEndsInside(b: seq<byte>, from: nat)
    requires EndsInBreak(b) && from <= |b|
    ensures NameEnds(b, from)
  {
    hide Find;
    HitInside(b, from, |b| - from, RAW_NAME);
    if Seek(b, from, |b| - from, RAW_NAME).At? {
      assert BreakAt(b, |b| - 1);
    }
  }

  // ----- printed headers

  lemma PrintedNameEnds(h: Head, rest: seq<byte>)
    requires Valid(h)
    ensures NameEnds(Whole(h, rest), |Keyword(h)|)
  {
    hide Text, Items, Seek;
    NameIsSought(h, rest);
    var b, text := Whole(h, rest), Quote(h) + (h.name + Spaces(h.pad) + Quote(h));
    var k := NamePlace(h) + |text|;
    assert b[k] == b[NamePlace(h)..][|text|] == CR;
    assert BreakAt(b, k);
  }

  lemma PartIsSeen(h: Head, rest: seq<byte>, c: Cursor)
    requires Valid(h) && Silent(h, rest) && c.line == |Keyword(h)|
    ensures c.line <= |Whole(h, rest)| && (HasPart(Whole(h, rest), c) <==> PartF in h.info.flags)
  {
    hide Seek, Whole, Silent, Valid, Keyword;
    assert c.line <= |Whole(h, rest)| by { NameIsSought(h, rest); }
    FieldOfHeaderIsSeen(h, rest, PartF);
    if PartF !in h.info.flags { NotSeen(Whole(h, rest), c.line, PartF, h.info); }
  }

  /**
   A printed header behind text: the size has to be in reach as before, and then the part number decides
   between the moved record and reading outside the buffer.
   */
  lemma PrintedBehindText(lead: seq<byte>, h: Head, rest: seq<byte>)
    requires Valid(h) && Silent(h, rest) && rest != [] && |Printed(h) + rest| < WORD
    requires lead != [] && Find(lead + (Printed(h) + rest), RAW_YBEGIN, true) == Some(|lead|)
    ensures Lookup(HeadItems(h), RAW_LINE).Some? && Lookup(HeadItems(h), RAW_SIZE).Some?
    ensures Initialized(lead + (Printed(h) + rest)) ==
            if SizeNeeds(h) > |Printed(h) + rest| then (Failed(MissingTag), Restrict(Effective(h, rest), {LineF}))
            else if PartF in h.info.flags then (Ok, Moved(Expected(h, rest), |lead|))
            else (Overrun, Restrict(Effective(h, rest), {LineF, SizeF}))
  {
    hide Signature, LineAndSize, Fields, HasPart, Seek, SizeInReach, SizeNeeds, Expected, Restrict, Moved, Text, Printed, Valid, Silent, NameEnds;
    var b := Whole(h, rest);
    var c := Cursor(|Keyword(h)|, |b| - |Keyword(h)|, h.version);
    PrintedIs(h, rest);
    StartsWithSpace(h, rest);
    SignatureIs(h, rest);
    SignatureMoved(lead, b);
    PrintedNameEnds(h, rest);
    FieldsMoved(lead, b, c);
    PartIsSeen(h, rest, c);
    HeaderIsParsed(h, rest);
    ReachIs(h, rest);
    LineAndSizeOfHeader(h, rest, c);
  }

  lemma LineAndSizeOfHeader(h: Head, rest: seq<byte>, c: Cursor)
    requires Valid(h) && Silent(h, rest)
    requires c.line == |Keyword(h)| <= |Whole(h, rest)| && c.cb == |Whole(h, rest)| - c.line
    ensures LineAndSize(Whole(h, rest), c) ==
            if SizeInReach(Whole(h, rest), c.line) then Next(Restrict(Effective(h, rest), {LineF, SizeF}))
            else Stop(Failed(MissingTag), Restrict(Effective(h, rest), {LineF}))
    ensures Seek(Whole(h, rest), c.line, c.cb, RAW_LINE).At?
  {
    hide Seek, Whole, Silent, Valid, Effective, SizeInReach, Restrict, LineAndSize;
    EffectiveIsAcceptable(h, rest);
    EffectiveIsSeen(h, rest, LineF);
    EffectiveIsSeen(h, rest, SizeF);
    LineAndSizeParsed(Whole(h, rest), c, Effective(h, rest));
  }

  /** Any lines that hold no equals sign may stand before the keyword. */
  lemma KeywordBehindText(lead: seq<byte>, more: seq<byte>)
    requires |lead| >= 2 && lead[|lead| - 2..] == CRLF && EQUALS !in lead
    ensures Find(lead + (RAW_YBEGIN + more), RAW_YBEGIN, true) == Some(|lead|)
  {
    hide Scan;
    var b := lead + (RAW_YBEGIN + more);
    LineSearchExact(b, RAW_YBEGIN);
    assert b[|lead|..|lead| + 7] == RAW_YBEGIN;
    assert b[|lead| - 2] == lead[|lead| - 2..][0] && b[|lead| - 1] == lead[|lead| - 2..][1];
    assert OccursAt(b, RAW_YBEGIN, |lead|) && LineStart(b, |lead|);
    forall p: nat | p < |lead| ensures !OccursAt(b, RAW_YBEGIN, p) {
      if p + 7 <= |b| { assert b[p..p + 7][0] == lead[p]; }
    }
  }
}
