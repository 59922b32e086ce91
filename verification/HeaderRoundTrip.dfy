/** Printing a yEnc header, and the proof that the parser reads it back. */
module HeaderRoundTrip {
  import opened Attributes
  import opened Bytes
  import opened EncodeInfo
  import opened Header
  import opened Numbers
  import opened Serialize
  import opened SerializeRoundTrip
  import opened TagSearch

  /** A header to print: the version, the numeric attributes, the name with its trimmings, and the compression. */
  datatype Head = Head(version: Flag, info: Info, name: seq<byte>, pad: nat, quoted: bool, comp: Option<seq<byte>>)

  const ORDER: seq<Flag> := [PartF, TotalF, LineF, SizeF, CrcF, OffsetF, EscapeF, EscOffF]
  const RANGE: seq<Flag> := [BeginF, EndF]

  predicate Valid(h: Head) {
    var i := h.info;
    && (h.version == Version1F || h.version == Version2F)
    && {LineF, SizeF} <= i.flags
    && i.flags <= {PartF, TotalF, LineF, SizeF, CrcF, OffsetF, EscapeF, EscOffF, BeginF, EndF}
    && (BeginF in i.flags <==> EndF in i.flags)
    && (TotalF in i.flags || BeginF in i.flags ==> PartF in i.flags)
    && LINE_MIN <= i.line <= LINE_MAX && 1 <= i.size <= UINT_MAX
    && (PartF in i.flags ==> 1 <= i.part < USHORT)
    && (TotalF in i.flags ==> 1 <= i.total < USHORT)
    && i.crc < WORD && 1 <= i.escOff
    && (BeginF in i.flags ==> 1 <= i.begin < UINT_MAX && 2 <= i.end <= UINT_MAX)
    && ValidName(h.name) && |h.name| + h.pad < MAX_PATH
    && (h.comp.Some? ==> ValidComp(h.comp.value))
  }

  /** A word that names a compression. */
  predicate ValidComp(word: seq<byte>) {
    |word| < MAX_PATH && SPACE !in word && CR !in word && LF !in word
  }

  /** A name that survives trimming and unquoting. */
  predicate ValidName(name: seq<byte>) {
    && name != [] && name[0] != SPACE && name[|name| - 1] != SPACE
    && forall k | 0 <= k < |name| :: !EndsName(name[k])
  }

  function Spaces(n: nat): (s: seq<byte>)
    ensures |s| == n && forall k | 0 <= k < n :: s[k] == SPACE
  {
    if n == 0 then [] else [SPACE] + Spaces(n - 1)
  }

  function Keyword(h: Head): seq<byte> {
    RAW_YBEGIN + if h.version == Version2F then [TWO] else []
  }

  function Quote(h: Head): seq<byte> { if h.quoted then [DQUOTE] else [] }

  /** " comp=" and its word, between the numeric attributes and the name. */
  function CompText(h: Head): seq<byte> {
    match h.comp case None => [] case Some(word) => Spaced(RAW_COMP) + word
  }

  /** " name=" and everything up to the end of the line. */
  function NameText(h: Head): seq<byte> {
    Spaced(RAW_NAME) + (Quote(h) + (h.name + Spaces(h.pad) + Quote(h))) + CRLF
  }

  const RAW_YPART: seq<byte> := [61, 121, 112, 97, 114, 116] // "=ypart"

  function PartText(h: Head): seq<byte> {
    if BeginF in h.info.flags then RAW_YPART + Text(Items(RANGE, h.info.flags, h.info)) + CRLF else []
  }

  function Printed(h: Head): seq<byte> {
    Keyword(h) + Text(Items(ORDER, h.info.flags, h.info)) + (CompText(h) + (NameText(h) + PartText(h)))
  }

  // ----- searching a printed line

  /** What the parser sees: a lead without spaces, a line of attributes, and more. */
  lemma SeekItem(lead: seq<byte>, items: seq<Item>, tail: seq<byte>, raw: seq<byte>)
    requires AreItems(items) && IsName(raw)
    ensures var buf := lead + (Text(items) + tail);
            var found := Lookup(items, raw);
            Seek(buf, |lead|, |buf| - |lead|, raw) ==
            if found.Some? then At(|lead| + found.value + |Spaced(raw)|)
            else match Find(tail, Spaced(raw), false)
                 case None => Nowhere
                 case Some(p) => At(|lead| + |Text(items)| + p + |Spaced(raw)|)
  {
    var buf := lead + (Text(items) + tail);
    assert buf[|lead|..|lead| + (|buf| - |lead|)] == Text(items) + tail;
    FindSpaced(items, tail, raw);
  }

  function Number(n: nat, hex: bool): seq<byte> { if hex then Hex(n, HEX_DIGITS) else Dec(n) }

  function ReadNumber(buf: seq<byte>, p: nat, hex: bool): nat
    requires p <= |buf|
  {
    if hex then ReadHex(buf, p) else ReadDec(buf, p)
  }

  /** The position after the name of an attribute. */
  function Place(lead: seq<byte>, items: seq<Item>, raw: seq<byte>): nat
    requires Lookup(items, raw).Some?
  {
    |lead| + Lookup(items, raw).value + |Spaced(raw)|
  }

  /** The number behind a found attribute is the one that was printed. */
  lemma NumberAt(lead: seq<byte>, items: seq<Item>, tail: seq<byte>, raw: seq<byte>, n: nat, hex: bool)
    requires Lookup(items, raw).Some? && ValueOf(items, raw) == Number(n, hex)
    requires n < WORD && tail != [] && Digit(tail[0], 10) == None
    ensures var buf, p := lead + (Text(items) + tail), Place(lead, items, raw);
            p <= |buf| && ReadNumber(buf, p, hex) == n
  {
    var more := TextAtLookup(items, tail, raw);
    var buf, p := lead + (Text(items) + tail), Place(lead, items, raw);
    assert buf[p..] == (Text(items) + tail)[p - |lead|..];
    if hex {
      ReadHexPrinted(buf, p, n, more);
    } else {
      ReadDecPrinted(buf, p, n, more);
    }
  }

  // ----- the attributes before the name

  /** The parser, from a position on, sees an attribute exactly when it is to be seen, and its value. */
  predicate Sees(buf: seq<byte>, from: nat, f: Flag, i: Info)
    requires IsNumeric(f) && from <= |buf|
  {
    match Seek(buf, from, |buf| - from, Raw(f))
    case At(p) => f in i.flags && ReadField(buf, f, p) == Get(f, i)
    case Nowhere => f !in i.flags
    case Beyond => false
  }

  function With(s: set<Flag>, i: Info, f: Flag): set<Flag> {
    if f in i.flags then s + {f} else s
  }

  /**
   The search for the size is cut short by what precedes the line length; it still succeeds if the
   whole buffer is long enough.
   */
  predicate SizeInReach(buf: seq<byte>, from: nat)
    requires from <= |buf|
  {
    var p, q := Seek(buf, from, |buf| - from, RAW_LINE), Seek(buf, from, |buf| - from, RAW_SIZE);
    p.At? && q.At? && p.end + q.end <= from + |buf|
  }

  /** A search of fewer bytes finds what the search of all finds, if that ends in time. */
  lemma SoughtWithin(buf: seq<byte>, from: nat, len: nat, raw: seq<byte>)
    requires from + len <= |buf|
    ensures Seek(buf, from, len, raw) ==
            match Seek(buf, from, |buf| - from, raw)
            case At(place) => if place <= from + len then At(place) else Nowhere
            case _ => Nowhere
  {
    hide Scan;
    assert buf[from..from + (|buf| - from)][..len] == buf[from..from + len];
    FindTruncated(buf[from..from + (|buf| - from)], Spaced(raw), len);
  }

  lemma LineAndSizeParsed(buf: seq<byte>, c: Cursor, i: Info)
    requires c.line <= |buf| && c.cb == |buf| - c.line
    requires Sees(buf, c.line, LineF, i) && Sees(buf, c.line, SizeF, i) && {LineF, SizeF} <= i.flags
    requires LINE_MIN <= i.line <= LINE_MAX && 1 <= i.size <= UINT_MAX
    ensures LineAndSize(buf, c) ==
            if SizeInReach(buf, c.line) then Next(Restrict(i, {LineF, SizeF}))
            else Stop(Failed(MissingTag), Restrict(i, {LineF}))
  {
    hide Seek, ReadDec, ReadHex, Restrict, FromLine;
    var p, q := Seek(buf, c.line, c.cb, RAW_LINE).end, Seek(buf, c.line, c.cb, RAW_SIZE).end;
    assert p <= |buf| && q <= |buf|;
    FromLineParsed(buf, c, i, p, q);
    assert LineAndSize(buf, c) == FromLine(buf, c, p);
  }

  lemma FromLineParsed(buf: seq<byte>, c: Cursor, i: Info, p: nat, q: nat)
    requires c.line <= |buf| && p <= |buf| && q <= |buf| && ReadDec(buf, p) == i.line && ReadDec(buf, q) == i.size
    requires c.line <= p && Seek(buf, c.line, |buf| - c.line, RAW_SIZE) == At(q)
    requires LINE_MIN <= i.line <= LINE_MAX && 1 <= i.size <= UINT_MAX
    ensures FromLine(buf, c, p) ==
            if p + q <= c.line + |buf| then Next(Restrict(i, {LineF, SizeF}))
            else Stop(Failed(MissingTag), Restrict(i, {LineF}))
  {
    hide Seek, ReadDec, ReadHex;
    SoughtWithin(buf, c.line, |buf| - p, RAW_SIZE);
    assert {LineF} + {SizeF} == {LineF, SizeF};
  }

  lemma PartParsed(buf: seq<byte>, c: Cursor, i: Info, s: set<Flag>)
    requires c.line <= |buf| && c.cb == |buf| - c.line && Sees(buf, c.line, PartF, i)
    requires PartF in i.flags ==> 1 <= i.part < USHORT
    ensures Part(buf, c, Restrict(i, s)) == Next(Restrict(i, With(s, i, PartF)))
  {
  }

  lemma TotalParsed(buf: seq<byte>, c: Cursor, i: Info, s: set<Flag>)
    requires c.line <= |buf| && Sees(buf, c.line, TotalF, i)
    requires TotalF in i.flags ==> PartF in s && 1 <= i.total < USHORT
    ensures Total(buf, c, Restrict(i, s)) == Next(Restrict(i, With(s, i, TotalF)))
  {
  }

  lemma CrcParsed(buf: seq<byte>, c: Cursor, i: Info, s: set<Flag>)
    requires c.line <= |buf| && Sees(buf, c.line, CrcF, i)
    ensures Crc(buf, c, Restrict(i, s)) == Restrict(i, With(s, i, CrcF))
  {
  }

  lemma OffsetParsed(buf: seq<byte>, c: Cursor, i: Info, s: set<Flag>)
    requires c.line <= |buf| && Sees(buf, c.line, OffsetF, i)
    requires var h := Seek(buf, c.line, |buf| - c.line, RAW_OFFSET);
             h.At? ==> h.end < |buf| && buf[h.end] != STAR
    ensures Offset(buf, c, Restrict(i, s)) == Next(Restrict(i, With(s, i, OffsetF)))
  {
  }

  lemma EscapeParsed(buf: seq<byte>, c: Cursor, i: Info, s: set<Flag>)
    requires c.line <= |buf| && Sees(buf, c.line, EscapeF, i)
    ensures Escape(buf, c, Restrict(i, s)) == Restrict(i, With(s, i, EscapeF))
  {
  }

  lemma EscOffParsed(buf: seq<byte>, c: Cursor, i: Info, s: set<Flag>)
    requires c.line <= |buf| && Sees(buf, c.line, EscOffF, i) && 1 <= i.escOff
    ensures EscOff(buf, c, Restrict(i, s)) == Next(Restrict(i, With(s, i, EscOffF)))
  {
  }

  lemma {:induction false} WordEndsAt(buf: seq<byte>, p: nat, word: seq<byte>, limit: nat)
    requires p + |word| < |buf| && buf[p..p + |word|] == word && buf[p + |word|] == SPACE && |word| < limit
    requires SPACE !in word && CR !in word && LF !in word
    ensures WordEnd(buf, p, limit) == Some(p + |word|)
    decreases |word|
  {
    if word != [] {
      assert buf[p] == buf[p..p + |word|][0] == word[0];
      assert word[0] in word;
      assert buf[p + 1..p + |word|] == buf[p..p + |word|][1..];
      WordEndsAt(buf, p + 1, word[1..], limit - 1);
    }
  }

  /** The word of a compression is read if its name ends within the first MAX_PATH bytes. */
  lemma CompressionRead(buf: seq<byte>, c: Cursor, info: Info, p: nat, word: seq<byte>)
    requires c.line <= |buf| && Seek(buf, c.line, |buf| - c.line, RAW_COMP) == At(p) && ValidComp(word)
    requires p + |word| < |buf| && buf[p..p + |word|] == word && buf[p + |word|] == SPACE
    ensures Compression(buf, c, info) ==
            Next(if p <= c.line + MAX_PATH then info.(flags := info.flags + {CompF}, comp := p, compLen := |word|) else info)
  {
    hide Seek, WordEnd;
    var limit := Min(|buf| - c.line, MAX_PATH);
    SoughtWithin(buf, c.line, limit, RAW_COMP);
    WordEndsAt(buf, p, word, limit);
  }

  lemma CompressionAbsent(buf: seq<byte>, c: Cursor, info: Info)
    requires c.line <= |buf| && Seek(buf, c.line, |buf| - c.line, RAW_COMP) == Nowhere
    ensures Compression(buf, c, info) == Next(info)
  {
    hide Seek;
    SoughtWithin(buf, c.line, Min(|buf| - c.line, MAX_PATH), RAW_COMP);
  }

  const NUMBERS: set<Flag> := {LineF, SizeF, PartF, TotalF, CrcF, OffsetF, EscapeF, EscOffF}

  /** What the attributes before the name have to satisfy to be accepted. */
  predicate Acceptable(i: Info) {
    && {LineF, SizeF} <= i.flags && LINE_MIN <= i.line <= LINE_MAX && 1 <= i.size <= UINT_MAX
    && (PartF in i.flags ==> 1 <= i.part < USHORT)
    && (TotalF in i.flags ==> PartF in i.flags && 1 <= i.total < USHORT)
    && i.crc < WORD && 1 <= i.escOff
  }

  /** The parser, from a position on, sees exactly the attributes of a record. */
  predicate SeesAll(buf: seq<byte>, from: nat, i: Info)
    requires from <= |buf|
  {
    && (forall f | f in NUMBERS && IsNumeric(f) :: Sees(buf, from, f, i))
    && (var h := Seek(buf, from, |buf| - from, RAW_OFFSET); h.At? ==> h.end < |buf| && buf[h.end] != STAR)
  }

  lemma AllFlags(i: Info)
    requires {LineF, SizeF} <= i.flags
    ensures With(With(With(With(With(With({LineF, SizeF}, i, PartF), i, TotalF), i, CrcF), i, OffsetF), i, EscapeF), i, EscOffF)
         == i.flags * NUMBERS
  {
  }

  lemma BeforeNameParsed(buf: seq<byte>, c: Cursor, i: Info)
    requires c.line <= |buf| && c.cb == |buf| - c.line && SeesAll(buf, c.line, i) && Acceptable(i)
    ensures BeforeName(buf, c) ==
            if SizeInReach(buf, c.line) then Compression(buf, c, Restrict(i, i.flags * NUMBERS))
            else Stop(Failed(MissingTag), Restrict(i, {LineF}))
  {
    hide LineAndSize, Part, Total, Crc, Offset, Escape, EscOff, Compression, Restrict, SizeInReach, Seek, Sees;
    LineAndSizeParsed(buf, c, i);
    var s1 := {LineF, SizeF};
    var s2 := With(s1, i, PartF);
    var s3 := With(s2, i, TotalF);
    var s4 := With(s3, i, CrcF);
    var s5 := With(s4, i, OffsetF);
    var s6 := With(s5, i, EscapeF);
    PartParsed(buf, c, i, s1);
    TotalParsed(buf, c, i, s2);
    CrcParsed(buf, c, i, s3);
    OffsetParsed(buf, c, i, s4);
    EscapeParsed(buf, c, i, s5);
    EscOffParsed(buf, c, i, s6);
    AllFlags(i);
  }

  // ----- the name

  lemma {:induction false} NameEndsAt(buf: seq<byte>, p: nat, k: nat, limit: nat)
    requires p + k < |buf| && k < limit && EndsName(buf[p + k])
    requires forall j | p <= j < p + k :: !EndsName(buf[j])
    ensures NameEnd(buf, p, limit) == Some((p + k, true))
    decreases k
  {
    if k > 0 { NameEndsAt(buf, p + 1, k - 1, limit - 1); }
  }

  /** Trailing spaces go; so does a name of one byte. */
  lemma {:induction false} TrimmedTo(buf: seq<byte>, start: nat, n: nat, pad: nat)
    requires n > 0 && start + n + pad < |buf| && buf[start + n - 1] != SPACE
    requires forall j | start + n <= j < start + n + pad :: buf[j] == SPACE
    ensures Trim(buf, start, start + n + pad - 1) == Some(if n >= 2 then start + n else start)
    decreases pad
  {
    if pad > 0 { TrimmedTo(buf, start, n, pad - 1); }
  }

  /** A name of n bytes stands at p, padded with spaces, before a byte that ends names. */
  predicate NameStands(buf: seq<byte>, p: nat, n: nat, pad: nat) {
    && n > 0 && p + n + pad < |buf|
    && buf[p] != SPACE && buf[p + n - 1] != SPACE && EndsName(buf[p + n + pad])
    && (forall j | p <= j < p + n + pad :: !EndsName(buf[j]))
    && (forall j | p + n <= j < p + n + pad :: buf[j] == SPACE)
  }

  lemma NameIsFound(buf: seq<byte>, p: nat, n: nat, pad: nat, remaining: nat)
    requires NameStands(buf, p, n, pad) && n + pad < MAX_PATH && n + pad < remaining
    ensures FindName(buf, p, remaining) ==
            Some(NameSpan(p, if n >= 2 then p + n else p, Nuls(buf[p..p + n + pad])))
  {
    var limit := Min(remaining, MAX_PATH);
    NameEndsAt(buf, p, n + pad, limit);
    TrimmedTo(buf, p, n, pad);
    assert SkipSpaces(buf, p, limit) == Some(p);
  }

  /** A printed name stands where it was printed. */
  lemma PrintedNameStands(buf: seq<byte>, p: nat, name: seq<byte>, pad: nat, more: seq<byte>)
    requires ValidName(name) && p <= |buf| && buf[p..] == name + Spaces(pad) + more && more != [] && EndsName(more[0])
    ensures NameStands(buf, p, |name|, pad) && buf[p..p + |name| + pad] == name + Spaces(pad)
  {
    var text, e := name + Spaces(pad) + more, p + |name| + pad;
    assert buf[p..e] == text[..|name| + pad] == name + Spaces(pad);
    forall j | p <= j <= e ensures buf[j] == text[j - p] {
      assert buf[j] == buf[p..][j - p];
    }
    assert buf[p] == name[0] && buf[p + |name| - 1] == name[|name| - 1];
  }

  /** The span of a printed name: its first byte, and the end of what survives. */
  function Span(start: nat, name: seq<byte>, pad: nat): NameSpan {
    NameSpan(start, if |name| >= 2 then start + |name| else start, Nuls(name + Spaces(pad)))
  }

  lemma NameParsed(buf: seq<byte>, info: Info, p: nat, start: nat, name: seq<byte>, pad: nat, more: seq<byte>)
    requires 0 < p <= start <= |buf| < WORD && ValidName(name) && |name| + pad < MAX_PATH
    requires start == p || (start == p + 1 && buf[p] == DQUOTE)
    requires buf[start..] == name + Spaces(pad) + more && more != [] && EndsName(more[0])
    ensures var span := Span(start, name, pad);
            NameValue(buf, p, |buf| - p, info) == Next(Named(WithName(info, span), span.end, |buf| - span.end))
  {
    hide FindName, NameValue, WithName, Nuls, Spaces, ValidName;
    PrintedNameStands(buf, start, name, pad, more);
    NameIsFound(buf, start, |name|, pad, |buf| - start);
    assert buf[p] == DQUOTE <==> start == p + 1 by { assert !EndsName(buf[start]); }
    assert FindName(buf, start, |buf| - start) == Some(Span(start, name, pad));
    NameValueIs(buf, p, info, Span(start, name, pad));
  }

  lemma NameValueIs(buf: seq<byte>, p: nat, info: Info, span: NameSpan)
    requires 0 < p <= span.start <= span.end <= |buf| < WORD && p < |buf|
    requires span.start == if buf[p] == DQUOTE then p + 1 else p
    requires FindName(buf, span.start, |buf| - span.start) == Some(span)
    ensures NameValue(buf, p, |buf| - p, info) == Next(Named(WithName(info, span), span.end, |buf| - span.end))
  {
    var cb := |buf| - span.start;
    assert NameValue(buf, p, |buf| - p, info) == Spanned(FindName(buf, span.start, cb), cb, info);
    SpannedIs(span, cb, info);
  }

  lemma SpannedIs(span: NameSpan, cb: nat, info: Info)
    requires span.start <= span.end <= span.start + cb
    ensures Spanned(Some(span), cb, info) == Next(Named(WithName(info, span), span.end, cb - (span.end - span.start)))
  {
  }

  /** The next line break is found behind text without carriage returns. */
  lemma LineBreakIsFound(buf: seq<byte>, p: nat, text: seq<byte>, body: seq<byte>)
    requires p <= |buf| && CR !in text && buf[p..] == text + (CRLF + body)
    ensures NextLine(buf, p) == Some(p + |text| + 2) && buf[p + |text| + 2..] == body
  {
    FirstByteAbsent(text, CRLF);
    FoundAtStart(CRLF, body);
    FindConcat(text, CRLF + body, CRLF);
    assert buf[p + |text| + 2..] == buf[p..][|text| + 2..];
  }

  // ----- the =ypart line

  lemma RangeItems(i: Info)
    requires BeginF in i.flags && EndF in i.flags
    ensures Items(RANGE, i.flags, i) == [Item(RAW_BEGIN, Dec(i.begin)), Item(RAW_END, Dec(i.end))]
  {
    assert RANGE == [BeginF] + [EndF];
    assert RANGE[1..] == [EndF];
    assert [EndF][1..] == [];
    assert Items([EndF], i.flags, i) == [Item(RAW_END, Dec(i.end))] + Items([], i.flags, i);
  }

  lemma RangeLine(a: Item, b: Item)
    requires IsItem(a) && IsItem(b) && a.raw != b.raw
    ensures Text([a, b]) == ItemText(a) + ItemText(b)
    ensures Lookup([a, b], a.raw) == Some(0) && Lookup([a, b], b.raw) == Some(|ItemText(a)|)
    ensures ValueOf([a, b], a.raw) == a.value && ValueOf([a, b], b.raw) == b.value
  {
    assert [a, b][1..] == [b] && [b][1..] == [];
    assert Text([b]) == ItemText(b) + Text([]);
  }

  /** An attribute of a line with a lead, sought from the start of the line. */
  lemma LedItemIsSought(buf: seq<byte>, line: nat, lead: seq<byte>, items: seq<Item>, tail: seq<byte>, raw: seq<byte>)
    requires line <= |buf| && SPACE !in lead && AreItems(items) && IsName(raw) && Lookup(items, raw).Some?
    requires buf[line..] == lead + (Text(items) + tail)
    ensures Seek(buf, line, |buf| - line, raw) == At(line + |lead| + Lookup(items, raw).value + |Spaced(raw)|)
  {
    FirstByteAbsent(lead, Spaced(raw));
    FindSpaced(items, tail, raw);
    FindConcat(lead, Text(items) + tail, Spaced(raw));
    assert buf[line..line + (|buf| - line)] == buf[line..];
  }

  /** The text of a printed =ypart line, and where its parts lie. */
  predicate RangeStands(buf: seq<byte>, line: nat, i: Info, rest: seq<byte>) {
    && line <= |buf| < WORD && BeginF in i.flags && EndF in i.flags && rest != []
    && 1 <= i.begin < UINT_MAX && 2 <= i.end <= UINT_MAX
    && buf[line..] == RAW_YPART + (Text(Items(RANGE, i.flags, i)) + (CRLF + rest))
  }

  lemma RangeFields(buf: seq<byte>, line: nat, i: Info, rest: seq<byte>) returns (p: nat, q: nat)
    requires RangeStands(buf, line, i, rest)
    ensures p <= |buf| && Seek(buf, line, |buf| - line, RAW_BEGIN) == At(p) && ReadDec(buf, p) == i.begin
    ensures line < q <= |buf| && Seek(buf, line, |buf| - line, RAW_END) == At(q) && ReadDec(buf, q) == i.end
    ensures buf[q..] == Dec(i.end) + (CRLF + rest)
  {
    p := line + |RAW_YPART| + |Spaced(RAW_BEGIN)|;
    q := p + |Dec(i.begin)| + |Spaced(RAW_END)|;
    RangeSought(buf, line, i, rest, p, q);
    RangeRead(buf, line, i, rest, p, q);
  }

  lemma RangeSought(buf: seq<byte>, line: nat, i: Info, rest: seq<byte>, p: nat, q: nat)
    requires RangeStands(buf, line, i, rest) && p == line + |RAW_YPART| + |Spaced(RAW_BEGIN)|
    requires q == p + |Dec(i.begin)| + |Spaced(RAW_END)|
    ensures Seek(buf, line, |buf| - line, RAW_BEGIN) == At(p)
    ensures Seek(buf, line, |buf| - line, RAW_END) == At(q)
  {
    var items := Items(RANGE, i.flags, i);
    RangeItems(i);
    NamesAreNames(BeginF);
    NamesAreNames(EndF);
    RangeLine(items[0], items[1]);
    LedItemIsSought(buf, line, RAW_YPART, items, CRLF + rest, RAW_BEGIN);
    LedItemIsSought(buf, line, RAW_YPART, items, CRLF + rest, RAW_END);
  }

  lemma RangeRead(buf: seq<byte>, line: nat, i: Info, rest: seq<byte>, p: nat, q: nat)
    requires RangeStands(buf, line, i, rest) && p == line + |RAW_YPART| + |Spaced(RAW_BEGIN)|
    requires q == p + |Dec(i.begin)| + |Spaced(RAW_END)|
    ensures p <= |buf| && ReadDec(buf, p) == i.begin
    ensures line < q <= |buf| && buf[q..] == Dec(i.end) + (CRLF + rest) && ReadDec(buf, q) == i.end
  {
    hide Items, Text, Lookup, ValueOf, Dec, ReadDec;
    var a, b, tail := Item(RAW_BEGIN, Dec(i.begin)), Item(RAW_END, Dec(i.end)), CRLF + rest;
    RangeItems(i);
    NamesAreNames(BeginF);
    NamesAreNames(EndF);
    RangeLine(a, b);
    RangeText(RAW_YPART, Spaced(RAW_BEGIN), a.value, Spaced(RAW_END), b.value, tail);
    assert buf[p..] == buf[line..][p - line..];
    assert buf[q..] == buf[line..][q - line..];
    ReadDecPrinted(buf, p, i.begin, Spaced(RAW_END) + b.value + tail);
    ReadDecPrinted(buf, q, i.end, tail);
  }

  lemma RangeText(a: seq<byte>, b: seq<byte>, c: seq<byte>, d: seq<byte>, e: seq<byte>, f: seq<byte>)
    ensures var text := a + (((b + c) + (d + e)) + f);
            && text[|a| + |b|..] == c + (d + e + f)
            && text[|a| + |b| + |c| + |d|..] == e + f
  {
  }

  function WithRange(info: Info, i: Info): Info {
    info.(flags := info.flags + {BeginF, EndF}, begin := i.begin, end := i.end)
  }

  lemma RangeParsed(buf: seq<byte>, line: nat, i: Info, info: Info, rest: seq<byte>)
    requires RangeStands(buf, line, i, rest) && PartF in info.flags
    ensures PartLine(buf, line, |buf| - line, info) == Next(WithRange(info, i).(dataStart := Some(|buf| - |rest|)))
  {
    hide Seek, ReadDec, Range, AfterRange, Find, Items, Text, Dec;
    var p, q := RangeFields(buf, line, i, rest);
    KeywordStands(buf, line, i, rest);
    LineBreakIsFound(buf, q, Dec(i.end), rest);
    RangeIs(buf, line, i, info, p, q);
    assert |buf[q..]| == |Dec(i.end)| + 2 + |rest|;
    AfterRangeIs(buf, Named(WithRange(info, i), q, |buf| - line), q + |Dec(i.end)| + 2);
  }

  lemma AfterRangeIs(buf: seq<byte>, n: Named, next: nat)
    requires Covers(buf, n.at, n.cb) && NextLine(buf, n.at) == Some(next) && next < |buf|
    ensures AfterRange(buf, n) == Next(n.info.(dataStart := Some(next)))
  {
  }

  lemma KeywordStands(buf: seq<byte>, line: nat, i: Info, rest: seq<byte>)
    requires RangeStands(buf, line, i, rest)
    ensures Find(buf[line..], YPART, true) == Some(0)
  {
    RangeItems(i);
    var text := Text(Items(RANGE, i.flags, i)) + (CRLF + rest);
    assert text[0] == SPACE;
    assert buf[line..] == YPART + text[1..];
    LineTagAtStart(YPART, text[1..]);
  }

  lemma RangeIs(buf: seq<byte>, line: nat, i: Info, info: Info, p: nat, q: nat)
    requires line <= |buf| && p <= |buf| && line < q <= |buf|
    requires 1 <= i.begin < UINT_MAX && 2 <= i.end <= UINT_MAX
    requires Seek(buf, line, |buf| - line, RAW_BEGIN) == At(p) && ReadDec(buf, p) == i.begin
    requires Seek(buf, line, |buf| - line, RAW_END) == At(q) && ReadDec(buf, q) == i.end
    ensures Range(buf, line, |buf| - line, info) == Next(Named(WithRange(info, i), q, |buf| - line))
  {
    assert info.flags + {BeginF} + {EndF} == info.flags + {BeginF, EndF};
  }

  // ----- the whole header

  function HeadItems(h: Head): seq<Item> { Items(ORDER, h.info.flags, h.info) }

  /** Everything behind the attributes of the first line. */
  function Tail(h: Head, rest: seq<byte>): seq<byte> { CompText(h) + NameTail(h, rest) }

  function NameTail(h: Head, rest: seq<byte>): seq<byte> { NameText(h) + (PartText(h) + rest) }

  /** A printed header followed by anything, in the form that the searches are about. */
  function Whole(h: Head, rest: seq<byte>): seq<byte> {
    Keyword(h) + (Text(HeadItems(h)) + Tail(h, rest))
  }

  lemma PrintedIs(h: Head, rest: seq<byte>)
    ensures Printed(h) + rest == Whole(h, rest)
  {
    Reassociate(Keyword(h), Text(HeadItems(h)), CompText(h), NameText(h), PartText(h), rest);
  }

  lemma Reassociate(a: seq<byte>, b: seq<byte>, c: seq<byte>, d: seq<byte>, e: seq<byte>, f: seq<byte>)
    ensures a + b + (c + (d + e)) + f == a + (b + (c + (d + (e + f))))
  {
  }

  /**
   The record that the parser sees. A header without a CRC of its own takes the one that it finds
   behind it, which is that of the trailer.
   */
  function Effective(h: Head, rest: seq<byte>): Info {
    match Find(Tail(h, rest), Spaced(RAW_CRC32), false)
    case None => h.info
    case Some(p) =>
      if CrcF in h.info.flags then h.info
      else h.info.(flags := h.info.flags + {CrcF}, crc := ReadHex(Tail(h, rest), p + |Spaced(RAW_CRC32)|))
  }

  /**
   No attribute that the header lacks turns up behind it, other than a CRC, and without a =ypart line
   of its own no later line starts like one.
   */
  predicate Silent(h: Head, rest: seq<byte>) {
    && (forall f | f in NUMBERS && IsNumeric(f) && f !in h.info.flags && f != CrcF :: Find(Tail(h, rest), Spaced(Raw(f)), false) == None)
    && (h.comp == None ==> Find(Tail(h, rest), Spaced(RAW_COMP), false) == None)
    && (BeginF !in h.info.flags ==> Find(rest, YPART, true) == None)
  }

  lemma OrderIsNumbers(f: Flag)
    ensures f in ORDER <==> f in NUMBERS
    ensures f in NUMBERS ==> IsNumeric(f)
  {
    assert ORDER == [PartF, TotalF, LineF] + [SizeF, CrcF, OffsetF] + [EscapeF, EscOffF];
  }

  lemma FieldIsSeen(lead: seq<byte>, order: seq<Flag>, i: Info, tail: seq<byte>, f: Flag)
    requires (forall g | g in order :: IsNumeric(g)) && f in order
    requires (f in i.flags ==> Get(f, i) < WORD) && tail != [] && Digit(tail[0], 10) == None
    requires f in i.flags || Find(tail, Spaced(Raw(f)), false) == None
    ensures var items := Items(order, i.flags, i);
            var buf := lead + (Text(items) + tail);
            && Sees(buf, |lead|, f, i)
            && (f in i.flags ==>
                  && Lookup(items, Raw(f)).Some? && ValueOf(items, Raw(f)) == Print(f, i)
                  && Seek(buf, |lead|, |buf| - |lead|, Raw(f)) == At(Place(lead, items, Raw(f))))
  {
    hide Items, Text, Seek, Find, Lookup, ValueOf, Dec, Hex;
    var items, raw := Items(order, i.flags, i), Raw(f);
    ItemsLookup(order, i.flags, i, f);
    NamesAreNames(f);
    SeekItem(lead, items, tail, raw);
    if f in i.flags {
      NumberAt(lead, items, tail, raw, Get(f, i), IsHex(f));
    }
  }

  /** Other names are not names of numeric attributes. */
  lemma {:induction false} OtherName(raw: seq<byte>, order: seq<Flag>, s: set<Flag>, info: Info)
    requires |raw| >= 4 && (raw[|raw| - 3], raw[|raw| - 2]) !in {(110, 101), (122, 101), (101, 116), (112, 101), (102, 102), (105, 110), (110, 100), (114, 116), (97, 108), (51, 50)}
    requires forall g | g in order :: IsNumeric(g)
    ensures AreItems(Items(order, s, info)) && Lookup(Items(order, s, info), raw) == None
  {
    if order != [] {
      OtherName(raw, order[1..], s, info);
      NamesAreNames(order[0]);
      PrintIsValue(order[0], info);
    }
  }

  /** A printed offset is never taken for a star. */
  lemma OffsetIsDigits(lead: seq<byte>, items: seq<Item>, tail: seq<byte>, offset: nat)
    requires Lookup(items, RAW_OFFSET).Some? && ValueOf(items, RAW_OFFSET) == Dec(offset)
    ensures var buf, p := lead + (Text(items) + tail), Place(lead, items, RAW_OFFSET);
            p < |buf| && buf[p] != STAR
  {
    var more := TextAtLookup(items, tail, RAW_OFFSET);
    var buf, p := lead + (Text(items) + tail), Place(lead, items, RAW_OFFSET);
    assert buf[p..] == (Text(items) + tail)[p - |lead|..] == Dec(offset) + more;
    assert buf[p] == buf[p..][0] == Dec(offset)[0];
  }

  lemma OtherNameIsSought(lead: seq<byte>, order: seq<Flag>, i: Info, tail: seq<byte>, raw: seq<byte>)
    requires raw == RAW_NAME || raw == RAW_COMP
    requires forall g | g in order :: IsNumeric(g)
    ensures var items := Items(order, i.flags, i);
            var buf := lead + (Text(items) + tail);
            Seek(buf, |lead|, |buf| - |lead|, raw) ==
            match Find(tail, Spaced(raw), false)
            case None => Nowhere
            case Some(p) => At(|lead| + |Text(items)| + p + |Spaced(raw)|)
  {
    hide Items, Text, Seek, Find, Lookup;
    OtherName(raw, order, i.flags, i);
    assert IsName(raw);
    SeekItem(lead, Items(order, i.flags, i), tail, raw);
  }

  lemma FieldOfHeaderIsSeen(h: Head, rest: seq<byte>, f: Flag)
    requires Valid(h) && Silent(h, rest) && f in NUMBERS && IsNumeric(f) && (f == CrcF ==> f in h.info.flags)
    ensures var buf := Whole(h, rest);
            && Sees(buf, |Keyword(h)|, f, h.info)
            && (f in h.info.flags ==>
                  && Lookup(HeadItems(h), Raw(f)).Some? && ValueOf(HeadItems(h), Raw(f)) == Print(f, h.info)
                  && Seek(buf, |Keyword(h)|, |buf| - |Keyword(h)|, Raw(f)) == At(Place(Keyword(h), HeadItems(h), Raw(f))))
  {
    hide Sees, Seek, Text, Items, Lookup, ValueOf, Find, Tail, Keyword, Raw, Print, Get, Valid;
    forall g | g in ORDER ensures IsNumeric(g) { OrderIsNumbers(g); }
    OrderIsNumbers(f);
    TailStarts(h, rest);
    if f in h.info.flags { ValuesFit(h, f); }
    FieldIsSeen(Keyword(h), ORDER, h.info, Tail(h, rest), f);
  }

  /** A CRC behind the header is the one that is seen. */
  lemma CrcBehindIsSeen(h: Head, rest: seq<byte>)
    requires CrcF !in h.info.flags
    ensures Sees(Whole(h, rest), |Keyword(h)|, CrcF, Effective(h, rest))
  {
    hide Text, Items, Find, Tail, Keyword, Lookup, ReadHex, Seek;
    var lead, tail := Keyword(h), Tail(h, rest);
    forall g | g in ORDER ensures IsNumeric(g) { OrderIsNumbers(g); }
    ItemsLookup(ORDER, h.info.flags, h.info, CrcF);
    NamesAreNames(CrcF);
    SeekItem(lead, HeadItems(h), tail, RAW_CRC32);
    var hit := Find(tail, Spaced(RAW_CRC32), false);
    if hit.Some? {
      var p, buf := hit.value + |Spaced(RAW_CRC32)|, Whole(h, rest);
      assert buf[|lead| + |Text(HeadItems(h))| + p..] == tail[p..];
      ReadHexElsewhere(buf, |lead| + |Text(HeadItems(h))| + p, tail, p);
    }
  }

  lemma ReadHexElsewhere(a: seq<byte>, p: nat, b: seq<byte>, q: nat)
    requires p <= |a| && q <= |b| && a[p..] == b[q..]
    ensures ReadHex(a, p) == ReadHex(b, q)
  {
    var n := Min(|a[p..]|, HEX_DIGITS);
    assert a[p..p + n] == a[p..][..n] == b[q..][..n] == b[q..q + n];
  }

  lemma EffectiveIsSeen(h: Head, rest: seq<byte>, f: Flag)
    requires Valid(h) && Silent(h, rest) && f in NUMBERS && IsNumeric(f)
    ensures Sees(Whole(h, rest), |Keyword(h)|, f, Effective(h, rest))
  {
    hide Seek, Text, Items, Find, Tail, Keyword, Whole;
    if f == CrcF && CrcF !in h.info.flags {
      CrcBehindIsSeen(h, rest);
    } else {
      FieldOfHeaderIsSeen(h, rest, f);
    }
  }

  lemma TailStarts(h: Head, rest: seq<byte>)
    ensures Tail(h, rest) != [] && Tail(h, rest)[0] == SPACE
  {
  }

  /** Where the word of the compression starts. */
  function CompPlace(h: Head): nat { |Keyword(h)| + |Text(HeadItems(h))| + |Spaced(RAW_COMP)| }

  /** The compression is recorded if it is near enough to the start of the attributes. */
  function WithComp(h: Head, info: Info): Info {
    match h.comp
    case None => info
    case Some(word) =>
      if CompPlace(h) > |Keyword(h)| + MAX_PATH then info
      else info.(flags := info.flags + {CompF}, comp := CompPlace(h), compLen := |word|)
  }

  lemma CompressionIs(h: Head, rest: seq<byte>, c: Cursor, info: Info)
    requires Valid(h) && Silent(h, rest) && c.line == |Keyword(h)|
    ensures c.line <= |Whole(h, rest)| && Compression(Whole(h, rest), c, info) == Next(WithComp(h, info))
  {
    hide Valid, Silent, Whole, Keyword, CompPlace, Compression, Seek, ValidComp, Find, Tail;
    CompIsSought(h, rest);
    match h.comp
    case None => CompressionAbsent(Whole(h, rest), c, info);
    case Some(word) =>
      CompStands(h, rest, word);
      CompressionRead(Whole(h, rest), c, info, CompPlace(h), word);
  }

  lemma CompIsSought(h: Head, rest: seq<byte>)
    requires Valid(h) && Silent(h, rest)
    ensures |Keyword(h)| <= |Whole(h, rest)| && (h.comp.Some? ==> ValidComp(h.comp.value))
    ensures var buf := Whole(h, rest);
            Seek(buf, |Keyword(h)|, |buf| - |Keyword(h)|, RAW_COMP) == if h.comp == None then Nowhere else At(CompPlace(h))
  {
    hide Text, Find, Lookup, Items, Tail, Keyword, Seek, Silent, Valid;
    CompOfSilent(h, rest);
    forall g | g in ORDER ensures IsNumeric(g) { OrderIsNumbers(g); }
    OtherNameIsSought(Keyword(h), ORDER, h.info, Tail(h, rest), RAW_COMP);
    if h.comp.Some? { CompStands(h, rest, h.comp.value); }
  }

  lemma CompOfSilent(h: Head, rest: seq<byte>)
    requires Valid(h) && Silent(h, rest)
    ensures match h.comp case None => Find(Tail(h, rest), Spaced(RAW_COMP), false) == None case Some(word) => ValidComp(word)
  {
    hide Find, Tail;
  }

  lemma CompStands(h: Head, rest: seq<byte>, word: seq<byte>)
    requires h.comp == Some(word)
    ensures var buf, p := Whole(h, rest), CompPlace(h);
            && Find(Tail(h, rest), Spaced(RAW_COMP), false) == Some(0)
            && p + |word| < |buf| && buf[p..p + |word|] == word && buf[p + |word|] == SPACE
  {
    hide Text, Find, Items, Keyword;
    var lead, more := Keyword(h) + Text(HeadItems(h)), word + NameTail(h, rest);
    assert Tail(h, rest) == Spaced(RAW_COMP) + more;
    FoundAtStart(Spaced(RAW_COMP), more);
    assert Whole(h, rest) == lead + Spaced(RAW_COMP) + (word + NameTail(h, rest));
    assert NameTail(h, rest)[0] == SPACE;
  }

  lemma OffsetIsSeen(h: Head, rest: seq<byte>)
    requires Valid(h) && Silent(h, rest)
    ensures var buf, from := Whole(h, rest), |Keyword(h)|;
            var at := Seek(buf, from, |buf| - from, RAW_OFFSET);
            at.At? ==> at.end < |buf| && buf[at.end] != STAR
  {
    hide Sees, Text, Items, Find, Tail, Keyword, Lookup, ValueOf, Silent, Valid;
    FieldOfHeaderIsSeen(h, rest, OffsetF);
    if OffsetF in h.info.flags {
      OffsetIsDigits(Keyword(h), HeadItems(h), Tail(h, rest), h.info.offset);
    } else {
      NotSeen(Whole(h, rest), |Keyword(h)|, OffsetF, h.info);
    }
  }

  lemma NotSeen(buf: seq<byte>, from: nat, f: Flag, i: Info)
    requires from <= |buf| && IsNumeric(f) && Sees(buf, from, f, i) && f !in i.flags
    ensures !Seek(buf, from, |buf| - from, Raw(f)).At?
  {
  }

  lemma HeaderIsSeen(h: Head, rest: seq<byte>)
    requires Valid(h) && Silent(h, rest)
    ensures SeesAll(Whole(h, rest), |Keyword(h)|, Effective(h, rest))
  {
    hide Sees, Seek, Text, Items, Find, Tail, Keyword, Silent, Valid, Effective;
    forall f | f in NUMBERS && IsNumeric(f) ensures Sees(Whole(h, rest), |Keyword(h)|, f, Effective(h, rest)) {
      EffectiveIsSeen(h, rest, f);
    }
    OffsetIsSeen(h, rest);
  }

  lemma ValuesFit(h: Head, f: Flag)
    requires Valid(h) && f in NUMBERS && IsNumeric(f) && f in h.info.flags
    ensures Get(f, h.info) < WORD
  {
  }

  lemma SignatureIs(h: Head, rest: seq<byte>)
    requires Valid(h)
    ensures Signature(Whole(h, rest)) == Next(Cursor(|Keyword(h)|, |Whole(h, rest)| - |Keyword(h)|, h.version))
  {
    var buf, text := Whole(h, rest), Text(HeadItems(h)) + Tail(h, rest);
    StartsWithSpace(h, rest);
    var more := (if h.version == Version2F then [TWO] else []) + text;
    assert buf == RAW_YBEGIN + more;
    LineTagAtStart(RAW_YBEGIN, more);
    assert buf[7] == more[0];
    if h.version == Version2F { assert buf[8] == text[0]; }
  }

  lemma StartsWithSpace(h: Head, rest: seq<byte>)
    ensures var text := Text(HeadItems(h)) + Tail(h, rest); |text| > 6 && text[0] == SPACE
  {
    assert Tail(h, rest)[0] == SPACE && |Tail(h, rest)| > 6;
    var items := HeadItems(h);
    if items != [] { assert Text(items)[0] == SPACE; }
  }

  // ----- the name within the whole

  function NamePlace(h: Head): nat { |Keyword(h)| + |Text(HeadItems(h))| + |CompText(h)| + |Spaced(RAW_NAME)| }

  /** The span of the name that a printed header yields. */
  function HeadSpan(h: Head): NameSpan { Span(NamePlace(h) + |Quote(h)|, h.name, h.pad) }

  /** What follows the name on its line. */
  function LineRest(h: Head): seq<byte> {
    (if |h.name| >= 2 then [] else h.name) + Spaces(h.pad) + Quote(h)
  }

  lemma NameIsSought(h: Head, rest: seq<byte>)
    requires Valid(h)
    ensures var buf := Whole(h, rest);
            && Seek(buf, |Keyword(h)|, |buf| - |Keyword(h)|, RAW_NAME) == At(NamePlace(h))
            && NamePlace(h) < |buf|
            && buf[NamePlace(h)..] == Quote(h) + (h.name + Spaces(h.pad) + Quote(h)) + (CRLF + (PartText(h) + rest))
  {
    hide Text, Items, Find, Keyword, Seek;
    var text := Quote(h) + (h.name + Spaces(h.pad) + Quote(h));
    var tail := text + (CRLF + (PartText(h) + rest));
    forall g | g in ORDER ensures IsNumeric(g) { OrderIsNumbers(g); }
    assert NameTail(h, rest) == Spaced(RAW_NAME) + tail;
    FoundAtStart(Spaced(RAW_NAME), tail);
    NameBehindComp(h, NameTail(h, rest));
    OtherNameIsSought(Keyword(h), ORDER, h.info, Tail(h, rest), RAW_NAME);
    assert Whole(h, rest) == (Keyword(h) + Text(HeadItems(h)) + CompText(h) + Spaced(RAW_NAME)) + tail;
  }

  /** A compression is not taken for a name. */
  lemma NameBehindComp(h: Head, tail: seq<byte>)
    requires Valid(h)
    ensures Find(CompText(h) + tail, Spaced(RAW_NAME), false) == Shift(Find(tail, Spaced(RAW_NAME), false), |CompText(h)|)
  {
    match h.comp
    case None => assert [] + tail == tail;
    case Some(word) =>
      var begun: seq<byte>, left: seq<byte> := [SPACE, 99], [111, 109, 112, 61] + word;
      assert CompText(h) + tail == begun + (left + tail);
      FirstByteAbsent(left, Spaced(RAW_NAME));
      FindConcat(left, tail, Spaced(RAW_NAME));
      NotBegun();
      FindConcat(begun, left + tail, Spaced(RAW_NAME));
  }

  lemma NotBegun()
    ensures Find([SPACE, 99], Spaced(RAW_NAME), false) == None && EndState([SPACE, 99], Spaced(RAW_NAME), 0, 0) == 0
  {
    var b: seq<byte> := [SPACE, 99];
    assert Scan(b, Spaced(RAW_NAME), false, 2, 0) == None && EndState(b, Spaced(RAW_NAME), 2, 0) == 0;
    assert Scan(b, Spaced(RAW_NAME), false, 1, 1) == None && EndState(b, Spaced(RAW_NAME), 1, 1) == 0;
  }

  lemma NameThere(buf: seq<byte>, p: nat, name: seq<byte>, pad: nat, quote: seq<byte>, after: seq<byte>, info: Info)
    requires 0 < p <= |buf| < WORD && ValidName(name) && |name| + pad < MAX_PATH
    requires (quote == [] || quote == [DQUOTE]) && after != [] && after[0] == CR
    requires buf[p..] == quote + (name + Spaces(pad) + quote) + after
    ensures var span := Span(p + |quote|, name, pad);
            && NameValue(buf, p, |buf| - p, info) == Next(Named(WithName(info, span), span.end, |buf| - span.end))
            && buf[span.end..] == (if |name| >= 2 then [] else name) + Spaces(pad) + quote + after
  {
    hide FindName, NameValue, WithName, Nuls, Spaces, ValidName, NameStands, Covers;
    var start := p + |quote|;
    assert buf[start..] == buf[p..][|quote|..] == name + Spaces(pad) + (quote + after);
    if quote != [] { assert buf[p] == buf[p..][0]; }
    NameParsed(buf, info, p, start, name, pad, quote + after);
    if |name| >= 2 {
      assert buf[start + |name|..] == buf[start..][|name|..] == Spaces(pad) + (quote + after);
    }
  }

  lemma NameInWhole(h: Head, rest: seq<byte>, info: Info)
    requires Valid(h) && |Whole(h, rest)| < WORD
    ensures var buf, span := Whole(h, rest), HeadSpan(h);
            && NamePlace(h) <= |buf| && span.end <= |buf|
            && NameValue(buf, NamePlace(h), |buf| - NamePlace(h), info)
               == Next(Named(WithName(info, span), span.end, |buf| - span.end))
            && buf[span.end..] == LineRest(h) + (CRLF + (PartText(h) + rest))
  {
    hide NameValue, WithName, Nuls, Text;
    NameIsSought(h, rest);
    NameThere(Whole(h, rest), NamePlace(h), h.name, h.pad, Quote(h), CRLF + (PartText(h) + rest), info);
  }

  // ----- the theorem

  /** How many bytes the parser needs in order to find the size. */
  function SizeNeeds(h: Head): nat
    requires Lookup(HeadItems(h), RAW_LINE).Some? && Lookup(HeadItems(h), RAW_SIZE).Some?
  {
    |Keyword(h)| + Lookup(HeadItems(h), RAW_LINE).value + |Spaced(RAW_LINE)|
    + Lookup(HeadItems(h), RAW_SIZE).value + |Spaced(RAW_SIZE)|
  }

  /** The record that describes a printed header. A name of one byte is lost. */
  function Expected(h: Head, rest: seq<byte>): Info {
    var i := Effective(h, rest);
    WithName(WithComp(h, Restrict(i, i.flags)), HeadSpan(h)).(dataStart := Some(|Printed(h)|))
  }

  /** The record before the name is known. */
  function Before(h: Head, rest: seq<byte>): Info {
    var i := Effective(h, rest);
    WithComp(h, Restrict(i, i.flags * NUMBERS))
  }

  /** The name, the line break behind it, and the rest, one after the other. */
  lemma NameOnIs(buf: seq<byte>, c: Cursor, info: Info, p: nat, n: Named, line: nat)
    requires c.line <= |buf| && c.cb == |buf| - c.line && 0 < p <= |buf|
    requires Seek(buf, c.line, |buf| - c.line, RAW_NAME) == At(p)
    requires NameValue(buf, p, |buf| - p, info) == Next(n) && n.at <= |buf| && n.cb == |buf| - n.at
    requires NextLine(buf, n.at) == Some(line) && line < |buf|
    ensures NameOn(buf, c, info) == PartLine(buf, line, |buf| - line, n.info)
  {
    hide PartLine, NameValue, NextLine, Seek;
    assert NameOn(buf, c, info) == AfterName(buf, n);
  }

  lemma RestIsParsed(h: Head, rest: seq<byte>)
    requires Valid(h) && Silent(h, rest) && rest != [] && |Whole(h, rest)| < WORD
    ensures var buf := Whole(h, rest);
            NameOn(buf, Cursor(|Keyword(h)|, |buf| - |Keyword(h)|, h.version), Before(h, rest))
            == Next(Expected(h, rest))
  {
    hide *;
    var buf, span, body := Whole(h, rest), HeadSpan(h), PartText(h) + rest;
    var before := Before(h, rest);
    var line := span.end + |LineRest(h)| + 2;
    NameIsSought(h, rest);
    NameInWhole(h, rest, before);
    LineRestHasNoBreak(h);
    LineBreakIsFound(buf, span.end, LineRest(h), body);
    PrintedIs(h, rest);
    BodyIsParsed(h, buf, line, rest, WithName(before, span));
    NameOnIs(buf, Cursor(|Keyword(h)|, |buf| - |Keyword(h)|, h.version), before, NamePlace(h),
             Named(WithName(before, span), span.end, |buf| - span.end), line);
  }

  lemma EffectiveFlags(h: Head, rest: seq<byte>)
    requires Valid(h)
    ensures var i := Effective(h, rest);
            && i.flags <= NUMBERS + {BeginF, EndF} && (BeginF in i.flags <==> EndF in i.flags)
            && (BeginF in i.flags <==> BeginF in h.info.flags) && (PartF in i.flags <==> PartF in h.info.flags)
            && i == h.info.(flags := i.flags, crc := i.crc) && h.info.flags <= i.flags <= h.info.flags + {CrcF}
            && i.crc < WORD
  {
    hide Scan, Tail;
    var hit := Find(Tail(h, rest), Spaced(RAW_CRC32), false);
    if hit.Some? {
      ReadIsWord(Tail(h, rest), hit.value + |Spaced(RAW_CRC32)|, HEX_DIGITS, 16);
    }
  }

  lemma LineRestHasNoBreak(h: Head)
    requires Valid(h)
    ensures CR !in LineRest(h)
  {
    forall k | 0 <= k < |h.name| ensures h.name[k] != CR { assert !EndsName(h.name[k]); }
  }

  /** The range completes the record. */
  lemma RangeCompletes(h: Head, i: Info, span: NameSpan)
    requires i.flags <= NUMBERS + {BeginF, EndF} && (BeginF in i.flags <==> EndF in i.flags)
    ensures var part := WithName(WithComp(h, Restrict(i, i.flags * NUMBERS)), span);
            && WithName(WithComp(h, Restrict(i, i.flags)), span) == (if BeginF in i.flags then WithRange(part, i) else part)
            && (PartF in i.flags ==> PartF in part.flags)
  {
    hide CompPlace;
    if BeginF in i.flags {
      assert i.flags == i.flags * NUMBERS + {BeginF, EndF};
    } else {
      assert i.flags == i.flags * NUMBERS;
    }
  }

  lemma BodyIsParsed(h: Head, buf: seq<byte>, line: nat, rest: seq<byte>, info: Info)
    requires Valid(h) && Silent(h, rest) && rest != [] && line <= |buf| < WORD
    requires buf[line..] == PartText(h) + rest && |buf| == |Printed(h)| + |rest|
    requires info == WithName(Before(h, rest), HeadSpan(h))
    ensures line < |buf| && PartLine(buf, line, |buf| - line, info) == Next(Expected(h, rest))
  {
    hide Range, AfterRange, Find, Restrict, WithName, Text, Items, HeadSpan, Printed, Effective, Seek;
    var i := h.info;
    EffectiveFlags(h, rest);
    RangeCompletes(h, Effective(h, rest), HeadSpan(h));
    if BeginF in i.flags {
      var text := Text(Items(RANGE, i.flags, i));
      assert RAW_YPART + text + CRLF + rest == RAW_YPART + (text + (CRLF + rest));
      RangeParsed(buf, line, i, info, rest);
    } else {
      assert buf[line..] == rest;
      assert PartLine(buf, line, |buf| - line, info) == Started(info, Some(line), |buf| - line);
    }
  }

  lemma ReachIs(h: Head, rest: seq<byte>)
    requires Valid(h) && Silent(h, rest)
    ensures Lookup(HeadItems(h), RAW_LINE).Some? && Lookup(HeadItems(h), RAW_SIZE).Some?
    ensures SizeInReach(Whole(h, rest), |Keyword(h)|) <==> SizeNeeds(h) <= |Whole(h, rest)|
  {
    hide Sees, Seek, Text, Items, Find, Tail, Keyword, Silent;
    FieldOfHeaderIsSeen(h, rest, LineF);
    FieldOfHeaderIsSeen(h, rest, SizeF);
  }

  lemma EffectiveIsAcceptable(h: Head, rest: seq<byte>)
    requires Valid(h)
    ensures Acceptable(Effective(h, rest))
  {
    hide Effective;
    EffectiveFlags(h, rest);
  }

  /**
   The header round trip. Parsing a printed header returns its fields, its name and the start of the
   data behind it, exactly when the buffer is long enough for the size to be found.
   */
  lemma HeaderIsParsed(h: Head, rest: seq<byte>)
    requires Valid(h) && Silent(h, rest) && rest != [] && |Printed(h) + rest| < WORD
    ensures Lookup(HeadItems(h), RAW_LINE).Some? && Lookup(HeadItems(h), RAW_SIZE).Some?
    ensures Initialized(Printed(h) + rest) ==
            if SizeNeeds(h) <= |Printed(h) + rest| then (Ok, Expected(h, rest))
            else (Failed(MissingTag), Restrict(Effective(h, rest), {LineF}))
  {
    hide Signature, BeforeName, NameOn, Compression, SeesAll, SizeInReach, SizeNeeds, Expected, Restrict, Text, Printed, Tail, Valid, Silent;
    PrintedIs(h, rest);
    EffectiveIsAcceptable(h, rest);
    SignatureIs(h, rest);
    HeaderIsSeen(h, rest);
    ReachIs(h, rest);
    var i, c := Effective(h, rest), Cursor(|Keyword(h)|, |Whole(h, rest)| - |Keyword(h)|, h.version);
    BeforeNameParsed(Whole(h, rest), c, i);
    CompressionIs(h, rest, c, Restrict(i, i.flags * NUMBERS));
    RestIsParsed(h, rest);
  }

  /** The buffer is long enough if what follows the header is no shorter than the header. */
  lemma LongBodySuffices(h: Head, rest: seq<byte>)
    requires Lookup(HeadItems(h), RAW_LINE).Some? && Lookup(HeadItems(h), RAW_SIZE).Some?
    requires |rest| >= |Printed(h)|
    ensures SizeNeeds(h) <= |Printed(h) + rest|
  {
    hide Text, Items, ValueOf, PartText, NameText;
    var a := TextAtLookup(HeadItems(h), [], RAW_LINE);
    var b := TextAtLookup(HeadItems(h), [], RAW_SIZE);
  }
}
