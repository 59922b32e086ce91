/** The tags and values of the wire format, in text and in numbers, and which values the parser refuses. */
module WireFormat {
  import opened Bytes
  import opened EncodeInfo
  import opened Header
  import opened HeaderRoundTrip
  import opened MessageSplit
  import opened Numbers
  import opened TagSearch
  import TrailerLine

  predicate Spells(tag: seq<byte>, text: string) {
    |tag| == |text| && forall k | 0 <= k < |tag| :: tag[k] == text[k] as int
  }

  lemma TagsAreText()
    ensures Spells(RAW_YBEGIN, "=ybegin") && Spells(YBEGIN, "=ybegin ") && Spells(YBEGIN2, "=ybegin2 ")
    ensures Spells(YPART, "=ypart ") && Spells(YEND, "=yend ")
    ensures Spells(RAW_YPART, "=ypart") && Spells(TrailerLine.RAW_YEND, "=yend")
    ensures Spells(CRLF, "\r\n") && Spells(CRLFCRLF, "\r\n\r\n")
  {
  }

  lemma AttributesAreText()
    ensures Spells(RAW_LINE, "line=") && Spells(RAW_SIZE, "size=") && Spells(RAW_NAME, "name=")
    ensures Spells(RAW_PART, "part=") && Spells(RAW_TOTAL, "total=") && Spells(RAW_OFFSET, "offset=")
    ensures Spells(RAW_ESCAPE, "escape=") && Spells(RAW_ESCOFF, "escoff=") && Spells(RAW_COMP, "comp=")
    ensures Spells(RAW_BEGIN, "begin=") && Spells(RAW_END, "end=")
    ensures Spells(RAW_PCRC32, "pcrc32=") && Spells(RAW_CRC32, "crc32=")
  {
  }

  lemma CharactersAreText()
    ensures Spells([SPACE, EQUALS, YCHAR, TWO, STAR, DQUOTE], " =y2*\"") && Spells([CR, LF, NUL], "\r\n\0")
  {
  }

  // ----- values

  lemma Words(buf: seq<byte>, p: nat)
    requires p <= |buf|
    ensures ReadDec(buf, p) < 0x1_0000_0000 && ReadHex(buf, p) < 0x1_0000_0000
  {
    ReadIsWord(buf, p, DEC_DIGITS, 10);
    ReadIsWord(buf, p, HEX_DIGITS, 16);
  }

  /** No more than ten decimal or eight hexadecimal digits are looked at. */
  lemma DigitsAreLimited(a: seq<byte>, p: nat, b: seq<byte>, q: nat)
    requires p + 10 <= |a| && q + 10 <= |b| && a[p..p + 10] == b[q..q + 10]
    ensures ReadDec(a, p) == ReadDec(b, q) && ReadHex(a, p) == ReadHex(b, q)
  {
    assert a[p..p + 8] == a[p..p + 10][..8] == b[q..q + 10][..8] == b[q..q + 8];
  }

  lemma LessHexDigits(a: seq<byte>, p: nat, b: seq<byte>, q: nat)
    requires p + 8 <= |a| && q + 8 <= |b| && a[p..p + 8] == b[q..q + 8]
    ensures ReadHex(a, p) == ReadHex(b, q)
  {
  }

  /** Values are cut to their low bits. */
  lemma Wraps(x: nat)
    ensures Wrap16(x) == x % 0x1_0000 && Wrap8(x) == x % 0x100 && Wrap32(x) == x % 0x1_0000_0000
  {
  }

  /**
   The length of a line is kept in 16 bits, and has to be from 63 to 998; any size but zero is accepted.
   */
  lemma LineIsRanged(buf: seq<byte>, c: Cursor, p: nat, line: nat)
    requires c.line <= |buf| && p <= |buf| && line == Wrap16(ReadDec(buf, p))
    ensures line < 63 || line > 998 ==> FromLine(buf, c, p) == Stop(Failed(InvalidValue), ZERO.(flags := {c.version}))
    ensures 63 <= line <= 998 ==>
              match Seek(buf, c.line, |buf| - p, RAW_SIZE)
              case At(q) =>
                if ReadDec(buf, q) == 0 then FromLine(buf, c, p) == Stop(Failed(InvalidValue), OnlyLine(line))
                else FromLine(buf, c, p) == Next(OnlyLine(line).(flags := {LineF, SizeF}, size := ReadDec(buf, q)))
              case _ => FromLine(buf, c, p).Stop? && FromLine(buf, c, p).info == OnlyLine(line)
  {
    hide ReadDec, Seek, Wrap16;
    if 63 <= line <= 998 { SizeFollows(buf, c, p, line); }
  }

  function OnlyLine(line: nat): Info { ZERO.(flags := {LineF}, line := line) }

  lemma SizeFollows(buf: seq<byte>, c: Cursor, p: nat, line: nat)
    requires c.line <= |buf| && p <= |buf| && 63 <= line <= 998 && Wrap16(ReadDec(buf, p)) == line
    ensures match Seek(buf, c.line, |buf| - p, RAW_SIZE)
            case At(q) =>
              if ReadDec(buf, q) == 0 then FromLine(buf, c, p) == Stop(Failed(InvalidValue), OnlyLine(line))
              else FromLine(buf, c, p) == Next(OnlyLine(line).(flags := {LineF, SizeF}, size := ReadDec(buf, q)))
            case _ => FromLine(buf, c, p).Stop? && FromLine(buf, c, p).info == OnlyLine(line)
  {
    hide ReadDec, Seek, Wrap16;
    match Seek(buf, c.line, |buf| - p, RAW_SIZE)
    case At(q) =>
      Words(buf, q);
      assert {LineF} + {SizeF} == {LineF, SizeF};
    case _ =>
  }

  /** Part and total are kept in 16 bits, and must not be zero then. */
  lemma PartIsRanged(buf: seq<byte>, c: Cursor, info: Info, p: nat)
    requires c.line <= |buf| && Seek(buf, c.line, c.cb, RAW_PART) == At(p)
    ensures p <= |buf| && Part(buf, c, info) ==
            var part := ReadDec(buf, p) % 0x1_0000;
            if part == 0 then Stop(Failed(InvalidValue), info)
            else Next(info.(flags := info.flags + {PartF}, part := part))
  {
    hide ReadDec, Seek;
  }

  lemma TotalIsRanged(buf: seq<byte>, c: Cursor, info: Info, p: nat)
    requires c.line <= |buf| && Seek(buf, c.line, |buf| - c.line, RAW_TOTAL) == At(p)
    ensures p <= |buf| && Total(buf, c, info) ==
            var total := ReadDec(buf, p) % 0x1_0000;
            if PartF !in info.flags then Stop(Failed(MissingTag), info)
            else if total == 0 then Stop(Failed(InvalidValue), info)
            else Next(info.(flags := info.flags + {TotalF}, total := total))
  {
    hide ReadDec, Seek;
  }

  /** An offset is kept in 8 bits; a star stands for 42. */
  lemma OffsetIsRanged(buf: seq<byte>, c: Cursor, info: Info, p: nat)
    requires c.line <= |buf| && Seek(buf, c.line, |buf| - c.line, RAW_OFFSET) == At(p) && p < |buf|
    ensures Offset(buf, c, info) ==
            Next(info.(flags := info.flags + {OffsetF},
                       offset := if buf[p] == '*' as int then 42 else ReadDec(buf, p) % 0x100))
  {
    hide ReadDec, Seek;
  }

  /** So are the escape character and the escape offset, of which the latter must not be zero. */
  lemma EscapesAreRanged(buf: seq<byte>, c: Cursor, info: Info, p: nat, q: nat)
    requires c.line <= |buf| && Seek(buf, c.line, |buf| - c.line, RAW_ESCAPE) == At(p)
    requires Seek(buf, c.line, |buf| - c.line, RAW_ESCOFF) == At(q)
    ensures p <= |buf| && q <= |buf|
    ensures Escape(buf, c, info) == info.(flags := info.flags + {EscapeF}, escape := ReadDec(buf, p) % 0x100)
    ensures EscOff(buf, c, info) ==
            var escOff := ReadDec(buf, q) % 0x100;
            if escOff == 0 then Stop(Failed(InvalidValue), info)
            else Next(info.(flags := info.flags + {EscOffF}, escOff := escOff))
  {
    hide ReadDec, Seek;
  }

  /** A part begins at 1 or later, but not at the largest number, and ends at 2 or later. */
  lemma RangeIsRanged(buf: seq<byte>, line: nat, cb: nat, info: Info, p: nat, q: nat)
    requires Covers(buf, line, cb)
    requires Seek(buf, line, |buf| - line, RAW_BEGIN) == At(p) && Seek(buf, line, |buf| - line, RAW_END) == At(q)
    ensures p <= |buf| && q <= |buf|
    ensures Range(buf, line, cb, info).Next? <==> 1 <= ReadDec(buf, p) < 0xFFFF_FFFF && 2 <= ReadDec(buf, q)
  {
    hide ReadDec, Seek;
    Words(buf, p);
    Words(buf, q);
  }

  // ----- short keywords

  /** What the keyword at the start of a buffer needs behind it. */
  lemma ShortKeywords(more: seq<byte>)
    ensures Signature(RAW_YBEGIN + more) ==
            if more == [] then Stop(Failed(MissingTag), ZERO)
            else if more[0] == ' ' as int then
              if |more| == 1 then Stop(Failed(NoMoreData), ZERO.(flags := {Version1F}))
              else Next(Cursor(7, |more|, Version1F))
            else if |more| >= 2 && more[0] == '2' as int && more[1] == ' ' as int then
              if |more| == 2 then Stop(Failed(NoMoreData), ZERO.(flags := {Version2F}))
              else Next(Cursor(8, |more| - 1, Version2F))
            else Stop(Failed(MissingTag), ZERO)
  {
    hide Find;
    LineTagAtStart(RAW_YBEGIN, more);
  }

  // ----- long names

  /** A name of which 260 bytes do not reach the end is cut, but only behind another byte. */
  lemma LongNameIsCut(buf: seq<byte>, p: nat, remaining: nat)
    requires p + 260 < |buf| && remaining >= 260 && buf[p] != SPACE && buf[p + 260] != SPACE
    requires forall k | p <= k < p + 260 :: !EndsName(buf[k])
    ensures FindName(buf, p, remaining) == Some(NameSpan(p, p + 261, Nuls(buf[p..p + 260])))
  {
    NameGoesOn(buf, p, 260);
  }

  lemma {:induction false} NameGoesOn(buf: seq<byte>, p: nat, limit: nat)
    requires p + limit <= |buf| && forall k | p <= k < p + limit :: !EndsName(buf[k])
    ensures NameEnd(buf, p, limit) == Some((p + limit, false))
    decreases limit
  {
    if limit > 0 { NameGoesOn(buf, p + 1, limit - 1); }
  }
}
