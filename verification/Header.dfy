/**
 Parsing the =ybegin line and the optional =ypart line.

 The parser keeps one position, the end of the buffer, and a separate count of remaining bytes that
 it does not always keep in step with them. Every search and every read past the end of the buffer
 is the outcome Overrun.
 */
module Header {
  import opened Attributes
  import opened Bytes
  import opened EncodeInfo
  import opened Numbers
  import opened TagSearch

  const LINE_MIN := 63
  const LINE_MAX := 998
  const MAX_PATH := 260
  const UINT_MAX := 0xFFFF_FFFF
  const STAR: byte := 42
  const TWO: byte := 50

  /** Either the next value, or how the parser stops and what the record holds then. */
  datatype Step<+T> = Next(value: T) | Stop(status: Status, info: Info) {
    predicate IsFailure() { Stop? }
    function PropagateFailure<U>(): Step<U> requires Stop? { Stop(status, info) }
    function Extract(): T requires Next? { value }
  }

  datatype Hit = At(end: nat) | Nowhere | Beyond

  /** Search len bytes from a position for an attribute; a hit is the position after its name. */
  function Seek(buf: seq<byte>, from: nat, len: nat, raw: seq<byte>): (h: Hit)
    requires from <= |buf|
    ensures h.At? ==> from + |raw| < h.end <= |buf|
    ensures len <= |buf| - from ==> !h.Beyond?
  {
    var tag := Spaced(raw);
    var avail := Min(len, |buf| - from);
    match Find(buf[from..from + avail], tag, false)
    case Some(p) => At(from + p + |tag|)
    case None => if |tag| <= len && avail < len then Beyond else Nowhere
  }

  /** Where the attributes start, the count of remaining bytes, and the version of the keyword. */
  datatype Cursor = Cursor(line: nat, cb: nat, version: Flag)

  /** The keyword that opens the header, and the space behind it. */
  function Signature(buf: seq<byte>): (r: Step<Cursor>)
    ensures r.Next? ==> r.value.line < |buf| <= r.value.line + r.value.cb
  {
    var found := Find(buf, RAW_YBEGIN, true);
    if found == None || |buf| == |RAW_YBEGIN| then Stop(Failed(MissingTag), ZERO)
    else
      var at := found.value + |RAW_YBEGIN|;
      var cb := |buf| - |RAW_YBEGIN|;
      if at == |buf| then Stop(Overrun, ZERO)
      else if buf[at] == SPACE then Opened(at, cb, Version1F)
      else if buf[at] == TWO && cb > 1 then
        if at + 1 == |buf| then Stop(Overrun, ZERO)
        else if buf[at + 1] == SPACE then Opened(at + 1, cb - 1, Version2F)
        else Stop(Failed(MissingTag), ZERO)
      else Stop(Failed(MissingTag), ZERO)
  }

  /** The cursor stays on the space, provided that anything follows it. */
  function Opened(space: nat, cb: nat, version: Flag): Step<Cursor> {
    if cb == 1 then Stop(Failed(NoMoreData), ZERO.(flags := {version})) else Next(Cursor(space, cb, version))
  }

  /** A number that must lie in a range. */
  function Ranged(value: nat, min: nat, max: nat, info: Info): Step<nat> {
    if min <= value <= max then Next(value) else Stop(Failed(InvalidValue), info)
  }

  /** An attribute that must be there; the position after its name. */
  function Required(h: Hit, info: Info): Step<nat> {
    match h
    case At(p) => Next(p)
    case Nowhere => Stop(Failed(MissingTag), info)
    case Beyond => Stop(Overrun, info)
  }

  /** line= and size=, which every header has. The size is sought in a buffer cut short by as much as precedes the line length. */
  function LineAndSize(buf: seq<byte>, c: Cursor): Step<Info>
    requires c.line <= |buf|
  {
    var blank := ZERO.(flags := {c.version});
    var p :- Required(Seek(buf, c.line, c.cb, RAW_LINE), blank);
    FromLine(buf, c, p)
  }

  /** The line length at p, and the size. */
  function FromLine(buf: seq<byte>, c: Cursor, p: nat): Step<Info>
    requires c.line <= |buf| && p <= |buf|
  {
    var line :- Ranged(Wrap16(ReadDec(buf, p)), LINE_MIN, LINE_MAX, ZERO.(flags := {c.version}));
    var info := ZERO.(flags := {LineF}, line := line);
    var q :- Required(Seek(buf, c.line, |buf| - p, RAW_SIZE), info);
    var size :- Ranged(ReadDec(buf, q), 1, UINT_MAX, info);
    Next(info.(flags := info.flags + {SizeF}, size := size))
  }

  function Part(buf: seq<byte>, c: Cursor, info: Info): Step<Info>
    requires c.line <= |buf|
  {
    match Seek(buf, c.line, c.cb, RAW_PART)
    case Beyond => Stop(Overrun, info)
    case Nowhere => Next(info)
    case At(p) =>
      var part :- Ranged(Wrap16(ReadDec(buf, p)), 1, UINT_MAX, info);
      Next(info.(flags := info.flags + {PartF}, part := part))
  }

  /** An optional attribute is sought up to the very end of the buffer, so never beyond it. */
  function SeekAll(buf: seq<byte>, c: Cursor, raw: seq<byte>): (p: Option<nat>)
    requires c.line <= |buf|
    ensures p.Some? ==> p.value <= |buf|
  {
    match Seek(buf, c.line, |buf| - c.line, raw)
    case At(p) => Some(p)
    case _ => None
  }

  /** A total makes sense only in the company of a part. */
  function Total(buf: seq<byte>, c: Cursor, info: Info): Step<Info>
    requires c.line <= |buf|
  {
    match SeekAll(buf, c, RAW_TOTAL)
    case None => Next(info)
    case Some(p) =>
      if PartF !in info.flags then Stop(Failed(MissingTag), info)
      else
        var total :- Ranged(Wrap16(ReadDec(buf, p)), 1, UINT_MAX, info);
        Next(info.(flags := info.flags + {TotalF}, total := total))
  }

  function Crc(buf: seq<byte>, c: Cursor, info: Info): Info
    requires c.line <= |buf|
  {
    match SeekAll(buf, c, RAW_CRC32)
    case None => info
    case Some(p) => info.(flags := info.flags + {CrcF}, crc := ReadHex(buf, p))
  }

  /** The offset may be given as a star, which stands for the default. */
  function Offset(buf: seq<byte>, c: Cursor, info: Info): Step<Info>
    requires c.line <= |buf|
  {
    match SeekAll(buf, c, RAW_OFFSET)
    case None => Next(info)
    case Some(p) =>
      if p == |buf| then Stop(Overrun, info)
      else Next(info.(flags := info.flags + {OffsetF},
                      offset := if buf[p] == STAR then DEFAULT_OFFSET else Wrap8(ReadDec(buf, p))))
  }

  function Escape(buf: seq<byte>, c: Cursor, info: Info): Info
    requires c.line <= |buf|
  {
    match SeekAll(buf, c, RAW_ESCAPE)
    case None => info
    case Some(p) => info.(flags := info.flags + {EscapeF}, escape := Wrap8(ReadDec(buf, p)))
  }

  function EscOff(buf: seq<byte>, c: Cursor, info: Info): Step<Info>
    requires c.line <= |buf|
  {
    match SeekAll(buf, c, RAW_ESCOFF)
    case None => Next(info)
    case Some(p) =>
      var escOff :- Ranged(Wrap8(ReadDec(buf, p)), 1, 255, info);
      Next(info.(flags := info.flags + {EscOffF}, escOff := escOff))
  }

  /** The end of the word at p, at most so many bytes on; None when it runs off the buffer. */
  function WordEnd(buf: seq<byte>, p: nat, limit: nat): Option<nat>
    requires p <= |buf|
    decreases limit
  {
    if limit == 0 then Some(p)
    else if p == |buf| then None
    else if buf[p] == SPACE || buf[p] == CR || buf[p] == LF then Some(p)
    else WordEnd(buf, p + 1, limit - 1)
  }

  function Compression(buf: seq<byte>, c: Cursor, info: Info): Step<Info>
    requires c.line <= |buf|
  {
    var limit := Min(|buf| - c.line, MAX_PATH);
    match Seek(buf, c.line, limit, RAW_COMP)
    case At(p) =>
      (match WordEnd(buf, p, limit)
       case None => Stop(Overrun, info)
       case Some(e) =>
         Next(info.(flags := info.flags + {CompF}, comp := p, compLen := Wrap16(e - p))))
    case _ => Next(info)
  }

  // ----- the name

  /** The first byte that is not a space, at most so many bytes on. */
  function SkipSpaces(buf: seq<byte>, p: nat, limit: nat): Option<nat>
    requires p <= |buf|
    ensures var r := SkipSpaces(buf, p, limit); r.Some? ==> p <= r.value <= |buf| && r.value - p <= limit
    decreases limit
  {
    if limit == 0 then Some(p)
    else if p == |buf| then None
    else if buf[p] != SPACE then Some(p)
    else SkipSpaces(buf, p + 1, limit - 1)
  }

  predicate EndsName(b: byte) { b == CR || b == LF || b == DQUOTE }

  /** The end of the name, at most so many bytes on, and whether a byte that ends names stands there. */
  function NameEnd(buf: seq<byte>, p: nat, limit: nat): Option<(nat, bool)>
    requires p <= |buf|
    ensures var r := NameEnd(buf, p, limit);
            r.Some? ==> p <= r.value.0 <= |buf| && (r.value.1 ==> r.value.0 < |buf| && EndsName(buf[r.value.0]))
    decreases limit
  {
    if limit == 0 then Some((p, false))
    else if p == |buf| then None
    else if EndsName(buf[p]) then Some((p, true))
    else NameEnd(buf, p + 1, limit - 1)
  }

  /** Step back over spaces from p, then past the byte that is none; not further back than start. */
  function Trim(buf: seq<byte>, start: nat, p: int): (r: Option<int>)
    requires start - 1 <= p <= |buf|
    ensures r.Some? ==> start - 1 <= r.value <= |buf|
    decreases p - start + 1
  {
    if p <= start then Some(p)
    else if p == |buf| then None
    else if buf[p] != SPACE then Some(p + 1)
    else Trim(buf, start, p - 1)
  }

  function Nuls(s: seq<byte>): nat {
    if s == [] then 0 else (if s[0] == NUL then 1 else 0) + Nuls(s[1..])
  }

  /** Where the name starts, where its trimmed form ends, and the NULs in the untrimmed one. */
  datatype NameSpan = NameSpan(start: nat, end: int, nuls: nat)

  /** The name at p; at most MAX_PATH of the remaining bytes are looked at. */
  function FindName(buf: seq<byte>, p: nat, remaining: nat): (r: Option<NameSpan>)
    requires p <= |buf|
    ensures r.Some? ==> p <= r.value.start <= |buf| && r.value.start - 1 <= r.value.end <= |buf|
  {
    var limit := Min(remaining, MAX_PATH);
    match SkipSpaces(buf, p, limit)
    case None => None
    case Some(start) =>
      match NameEnd(buf, start, limit - (start - p))
      case None => None
      case Some((end, stopped)) =>
        match Trim(buf, start, if stopped then end - 1 else end)
        case None => None
        case Some(trimmed) => Some(NameSpan(start, trimmed, Nuls(buf[start..end])))
  }

  function WithName(info: Info, span: NameSpan): Info {
    var length := Wrap16(span.end - span.start);
    var unicode := if span.nuls > 1 && length % 2 == 0 then {UnicodeNameF} else {};
    info.(flags := info.flags + {NameF} + unicode, name := span.start, nameLen := length)
  }

  /** The record with the name, the position after it, and the count of remaining bytes there. */
  datatype Named = Named(info: Info, at: nat, cb: nat)

  /** The count never falls short of what really remains. */
  predicate Covers(buf: seq<byte>, at: nat, cb: nat) { at <= |buf| <= at + cb }

  /** The name at p, in quotes or not. */
  function NameValue(buf: seq<byte>, p: nat, cb: nat, info: Info): (r: Step<Named>)
    requires 0 < p && Covers(buf, p, cb)
    ensures r.Next? ==> Covers(buf, r.value.at, r.value.cb)
  {
    if p == |buf| then Stop(Overrun, info)
    else if buf[p] == DQUOTE then Spanned(FindName(buf, p + 1, cb - 1), cb - 1, info)
    else Spanned(FindName(buf, p, cb), cb, info)
  }

  function Spanned(span: Option<NameSpan>, cb: nat, info: Info): (r: Step<Named>)
    requires span.Some? ==> 0 <= span.value.end <= span.value.start + cb
  {
    match span
    case None => Stop(Overrun, info)
    case Some(s) => Next(Named(WithName(info, s), s.end, cb - (s.end - s.start)))
  }

  /** The position after the next line break. */
  function NextLine(buf: seq<byte>, p: nat): (r: Option<nat>)
    requires p <= |buf|
    ensures r.Some? ==> p < r.value <= |buf|
  {
    match Find(buf[p..], CRLF, false)
    case None => None
    case Some(d) => Some(p + d + 2)
  }

  /** begin= and end=, and the position after the latter's name. */
  function Range(buf: seq<byte>, line: nat, cb: nat, info: Info): (r: Step<Named>)
    requires Covers(buf, line, cb)
    ensures r.Next? ==> Covers(buf, r.value.at, r.value.cb)
  {
    var p :- Required(Seek(buf, line, |buf| - line, RAW_BEGIN), info);
    var begin :- Ranged(ReadDec(buf, p), 1, UINT_MAX - 1, info);
    var withBegin := info.(flags := info.flags + {BeginF}, begin := begin);
    var q :- Required(Seek(buf, line, |buf| - line, RAW_END), withBegin);
    var end :- Ranged(ReadDec(buf, q), 2, UINT_MAX, withBegin);
    Next(Named(withBegin.(flags := withBegin.flags + {EndF}, end := end), q, cb))
  }

  /** The data starts behind the range. Without a line break there the start is a null pointer. */
  function AfterRange(buf: seq<byte>, n: Named): Step<Info>
    requires Covers(buf, n.at, n.cb)
  {
    match NextLine(buf, n.at)
    case None => Next(n.info.(dataStart := None))
    case Some(next) => Started(n.info, Some(next), n.cb - (next - n.at))
  }

  /** The =ypart line, which must come next if it comes at all; the start of the data. */
  function PartLine(buf: seq<byte>, line: nat, cb: nat, info: Info): Step<Info>
    requires Covers(buf, line, cb)
  {
    match Find(buf[line..], YPART, true)
    case None => Started(info, Some(line), cb)
    case Some(d) =>
      if PartF !in info.flags then Stop(Failed(MissingTag), info)
      else if d != 0 then Stop(Failed(InvalidTag), info)
      else
        var n :- Range(buf, line, cb, info);
        AfterRange(buf, n)
  }

  function Started(info: Info, line: Option<nat>, cb: nat): Step<Info> {
    if cb == 0 then Stop(Failed(NoMoreData), info) else Next(info.(dataStart := line))
  }

  /** The attributes before the name. */
  function BeforeName(buf: seq<byte>, c: Cursor): Step<Info>
    requires c.line <= |buf|
  {
    var i1 :- LineAndSize(buf, c);
    var i2 :- Part(buf, c, i1);
    var i3 :- Total(buf, c, i2);
    var i4 :- Offset(buf, c, Crc(buf, c, i3));
    var i5 :- EscOff(buf, c, Escape(buf, c, i4));
    Compression(buf, c, i5)
  }

  /** The rest of the header, once the name is known. */
  function AfterName(buf: seq<byte>, n: Named): Step<Info>
    requires Covers(buf, n.at, n.cb)
  {
    match NextLine(buf, n.at)
    case None => Stop(Failed(NoMoreData), n.info)
    case Some(line) =>
      var left := n.cb - (line - n.at);
      if left == 0 then Stop(Failed(NoMoreData), n.info) else PartLine(buf, line, left, n.info)
  }

  /** The name, and the rest of the header. */
  function NameOn(buf: seq<byte>, c: Cursor, info: Info): Step<Info>
    requires Covers(buf, c.line, c.cb)
  {
    var p :- Required(Seek(buf, c.line, |buf| - c.line, RAW_NAME), info);
    var n :- NameValue(buf, p, c.cb - (p - c.line), info);
    AfterName(buf, n)
  }

  /** All attributes, from the first space on. */
  function Fields(buf: seq<byte>, c: Cursor): Step<Info>
    requires Covers(buf, c.line, c.cb)
  {
    var info :- BeforeName(buf, c);
    NameOn(buf, c, info)
  }

  /** Everything up to the data. */
  function Parsed(buf: seq<byte>): Step<Info> {
    var c :- Signature(buf);
    Fields(buf, c)
  }

  function Initialized(buf: seq<byte>): (Status, Info) {
    match Parsed(buf)
    case Next(info) => (Ok, info)
    case Stop(status, info) => (status, info)
  }

  // ----- the parser itself

  /** A stage of the parser has left the record and its verdict as specified. */
  predicate Reached(r: Step<Info>, status: Status, info: Info) {
    match r
    case Next(i) => status == Ok && info == i
    case Stop(s, i) => status == s != Ok && info == i
  }

  method SeekTag(buf: seq<byte>, from: nat, len: nat, raw: seq<byte>) returns (h: Hit)
    requires from <= |buf|
    ensures h == Seek(buf, from, len, raw)
  {
    var avail := Min(len, |buf| - from);
    var p := FindTag(buf[from..from + avail], Spaced(raw), false);
    if p.Some? {
      return At(from + p.value + |Spaced(raw)|);
    }
    h := if |Spaced(raw)| <= len && avail < len then Beyond else Nowhere;
  }

  method Decimal(buf: seq<byte>, p: nat) returns (v: nat)
    requires p <= |buf|
    ensures v == ReadDec(buf, p)
  {
    v := StrToUint(buf[p..Min(|buf|, p + DEC_DIGITS)], 10);
  }

  method ReadSignature(buf: seq<byte>, pei: Record) returns (status: Status, c: Cursor)
    modifies pei
    ensures match Signature(buf)
            case Next(cursor) => status == Ok && c == cursor && pei.info == ZERO.(flags := {c.version})
            case Stop(s, i) => status == s != Ok && pei.info == i
  {
    pei.info := ZERO;
    c := Cursor(0, 0, Version1F);
    var tag := FindTag(buf, RAW_YBEGIN, true);
    if tag == None { return Failed(MissingTag), c; }
    var line := tag.value + |RAW_YBEGIN|;
    var cb := |buf| - |RAW_YBEGIN|;
    if cb > 0 {
      if line == |buf| { return Overrun, c; }
      if SPACE == buf[line] {
        line := line + 1;
        cb := cb - 1;
        pei.info := pei.info.(flags := pei.info.flags + {Version1F});
      } else if TWO == buf[line] {
        line := line + 1;
        cb := cb - 1;
        if cb > 0 {
          if line == |buf| { return Overrun, c; }
          if SPACE == buf[line] {
            line := line + 1;
            cb := cb - 1;
            pei.info := pei.info.(flags := pei.info.flags + {Version2F});
          }
        }
      }
    }
    if pei.info.flags == {} { return Failed(MissingTag), c; }
    if cb == 0 { return Failed(NoMoreData), c; }
    // Back to the space, so that the first attribute has one.
    c := Cursor(line - 1, cb + 1, if Version1F in pei.info.flags then Version1F else Version2F);
    status := Ok;
  }

  method ReadLineAndSize(buf: seq<byte>, c: Cursor, pei: Record) returns (status: Status)
    requires c.line <= |buf| && pei.info == ZERO.(flags := {c.version})
    modifies pei
    ensures Reached(LineAndSize(buf, c), status, pei.info)
  {
    var h := SeekTag(buf, c.line, c.cb, RAW_LINE);
    if h.Beyond? { return Overrun; }
    if h.Nowhere? { return Failed(MissingTag); }
    var line := Decimal(buf, h.end);
    line := Wrap16(line);
    if !(LINE_MIN <= line <= LINE_MAX) { return Failed(InvalidValue); }
    pei.info := pei.info.(flags := {LineF}, line := line);

    h := SeekTag(buf, c.line, |buf| - h.end, RAW_SIZE);
    if h.Beyond? { return Overrun; }
    if h.Nowhere? { return Failed(MissingTag); }
    var size := Decimal(buf, h.end);
    if !(1 <= size <= UINT_MAX) { return Failed(InvalidValue); }
    pei.info := pei.info.(flags := pei.info.flags + {SizeF}, size := size);
    status := Ok;
  }

  method ReadPart(buf: seq<byte>, c: Cursor, pei: Record) returns (status: Status)
    requires c.line <= |buf|
    modifies pei
    ensures Reached(Part(buf, c, old(pei.info)), status, pei.info)
  {
    var h := SeekTag(buf, c.line, c.cb, RAW_PART);
    if h.Beyond? { return Overrun; }
    if h.At? {
      var part := Decimal(buf, h.end);
      part := Wrap16(part);
      if !(1 <= part <= UINT_MAX) { return Failed(InvalidValue); }
      pei.info := pei.info.(flags := pei.info.flags + {PartF}, part := part);
    }
    status := Ok;
  }

  method ReadTotal(buf: seq<byte>, c: Cursor, pei: Record) returns (status: Status)
    requires c.line <= |buf|
    modifies pei
    ensures Reached(Total(buf, c, old(pei.info)), status, pei.info)
  {
    var h := SeekTag(buf, c.line, |buf| - c.line, RAW_TOTAL);
    if h.At? {
      if PartF !in pei.info.flags { return Failed(MissingTag); }
      var total := Decimal(buf, h.end);
      total := Wrap16(total);
      if !(1 <= total <= UINT_MAX) { return Failed(InvalidValue); }
      pei.info := pei.info.(flags := pei.info.flags + {TotalF}, total := total);
    }
    status := Ok;
  }

  method ReadCrc(buf: seq<byte>, c: Cursor, pei: Record)
    requires c.line <= |buf|
    modifies pei
    ensures pei.info == Crc(buf, c, old(pei.info))
  {
    var h := SeekTag(buf, c.line, |buf| - c.line, RAW_CRC32);
    if h.At? {
      var crc := StrToUint(buf[h.end..Min(|buf|, h.end + HEX_DIGITS)], 16);
      pei.info := pei.info.(flags := pei.info.flags + {CrcF}, crc := crc);
    }
  }

  method ReadOffset(buf: seq<byte>, c: Cursor, pei: Record) returns (status: Status)
    requires c.line <= |buf|
    modifies pei
    ensures Reached(Offset(buf, c, old(pei.info)), status, pei.info)
  {
    var h := SeekTag(buf, c.line, |buf| - c.line, RAW_OFFSET);
    if h.At? {
      if h.end == |buf| { return Overrun; }
      var offset: nat := DEFAULT_OFFSET;
      if STAR != buf[h.end] {
        offset := Decimal(buf, h.end);
        offset := Wrap8(offset);
      }
      pei.info := pei.info.(flags := pei.info.flags + {OffsetF}, offset := offset);
    }
    status := Ok;
  }

  method ReadEscape(buf: seq<byte>, c: Cursor, pei: Record)
    requires c.line <= |buf|
    modifies pei
    ensures pei.info == Escape(buf, c, old(pei.info))
  {
    var h := SeekTag(buf, c.line, |buf| - c.line, RAW_ESCAPE);
    if h.At? {
      var escape := Decimal(buf, h.end);
      pei.info := pei.info.(flags := pei.info.flags + {EscapeF}, escape := Wrap8(escape));
    }
  }

  method ReadEscOff(buf: seq<byte>, c: Cursor, pei: Record) returns (status: Status)
    requires c.line <= |buf|
    modifies pei
    ensures Reached(EscOff(buf, c, old(pei.info)), status, pei.info)
  {
    var h := SeekTag(buf, c.line, |buf| - c.line, RAW_ESCOFF);
    if h.At? {
      var escOff := Decimal(buf, h.end);
      escOff := Wrap8(escOff);
      if !(1 <= escOff <= 255) { return Failed(InvalidValue); }
      pei.info := pei.info.(flags := pei.info.flags + {EscOffF}, escOff := escOff);
    }
    status := Ok;
  }

  method ReadCompression(buf: seq<byte>, c: Cursor, pei: Record) returns (status: Status)
    requires c.line <= |buf|
    modifies pei
    ensures Reached(Compression(buf, c, old(pei.info)), status, pei.info)
  {
    var cch := Min(|buf| - c.line, MAX_PATH);
    var h := SeekTag(buf, c.line, cch, RAW_COMP);
    if h.At? {
      var p := h.end;
      ghost var e := WordEnd(buf, p, cch);
      while cch > 0
        invariant p <= |buf| && cch >= 0 && h.end <= p && WordEnd(buf, p, cch) == e
      {
        if p == |buf| { return Overrun; }
        if SPACE == buf[p] || CR == buf[p] || LF == buf[p] { break; }
        p := p + 1;
        cch := cch - 1;
      }
      pei.info := pei.info.(flags := pei.info.flags + {CompF}, comp := h.end, compLen := Wrap16(p - h.end));
    }
    status := Ok;
  }

  /** The loops over the name: leading spaces, the name, trailing spaces. */
  method ScanName(buf: seq<byte>, from: nat, remaining: nat) returns (span: Option<NameSpan>)
    requires from <= |buf|
    ensures span == FindName(buf, from, remaining)
  {
    var cch := Min(remaining, MAX_PATH);
    var p: int := from;
    ghost var s := SkipSpaces(buf, from, cch);
    while cch > 0
      invariant from <= p <= |buf| && cch == Min(remaining, MAX_PATH) - (p - from) >= 0
      invariant SkipSpaces(buf, p, cch) == s
    {
      if p == |buf| { return None; }
      if SPACE != buf[p] { break; }
      p := p + 1;
      cch := cch - 1;
    }
    var start, nuls, stopped := p, 0, false;
    assert Nuls(buf[start..start]) == 0;
    ghost var e := NameEnd(buf, start, cch);
    while cch > 0
      invariant start <= p <= |buf| && cch >= 0
      invariant NameEnd(buf, p, cch) == e && !stopped
      invariant nuls == Nuls(buf[start..p])
    {
      if p == |buf| { return None; }
      if CR == buf[p] || LF == buf[p] || DQUOTE == buf[p] {
        stopped := true;
        break;
      }
      NulsGrow(buf, start, p);
      if NUL == buf[p] { nuls := nuls + 1; }
      p := p + 1;
      cch := cch - 1;
    }
    if stopped { p := p - 1; }
    var trimmed := StepBack(buf, start, p);
    if trimmed == None { return None; }
    span := Some(NameSpan(start, trimmed.value, nuls));
  }

  /** The loop over the spaces behind the name. */
  method StepBack(buf: seq<byte>, start: nat, from: int) returns (trimmed: Option<int>)
    requires start - 1 <= from <= |buf|
    ensures trimmed == Trim(buf, start, from)
  {
    var p := from;
    while p > start
      invariant start - 1 <= p <= |buf| && Trim(buf, start, p) == Trim(buf, start, from)
      decreases p - start
    {
      if p == |buf| { return None; }
      if SPACE != buf[p] {
        p := p + 1;
        return Some(p);
      }
      p := p - 1;
    }
    trimmed := Some(p);
  }

  lemma NulsGrow(buf: seq<byte>, start: nat, p: nat)
    requires start <= p < |buf|
    ensures Nuls([]) == 0 && Nuls(buf[start..p + 1]) == Nuls(buf[start..p]) + (if buf[p] == NUL then 1 else 0)
  {
    SliceGrows(buf, start, p);
    NulsAppend(buf[start..p], buf[p]);
  }

  lemma {:induction false} NulsAppend(s: seq<byte>, b: byte)
    ensures Nuls(s + [b]) == Nuls(s) + (if b == NUL then 1 else 0)
  {
    if s == [] {
      assert s + [b] == [b];
    } else {
      assert (s + [b])[1..] == s[1..] + [b];
      NulsAppend(s[1..], b);
    }
  }

  method FindNextLine(buf: seq<byte>, p: nat) returns (r: Option<nat>)
    requires p <= |buf|
    ensures r == NextLine(buf, p)
  {
    var d := FindTag(buf[p..], CRLF, false);
    r := if d.Some? then Some(p + d.value + 2) else None;
  }

  method ReadName(buf: seq<byte>, from: nat, remaining: nat, pei: Record)
    returns (status: Status, p: nat, cb: nat)
    requires 0 < from && Covers(buf, from, remaining)
    modifies pei
    ensures var r := NameValue(buf, from, remaining, old(pei.info));
            if r.Stop? then status == r.status != Ok && pei.info == r.info
            else status == Ok && Named(pei.info, p, cb) == r.value
  {
    p, cb := from, remaining;
    if p == |buf| { return Overrun, p, cb; }
    if DQUOTE == buf[p] {
      p := p + 1;
      cb := cb - 1;
    }
    var span := ScanName(buf, p, cb);
    if span == None { return Overrun, p, cb; }
    pei.info := WithName(pei.info, span.value);
    p := span.value.end;
    cb := cb - (span.value.end - span.value.start);
    status := Ok;
  }

  method ReadRange(buf: seq<byte>, line: nat, pei: Record) returns (status: Status, p: nat)
    requires line <= |buf|
    modifies pei
    ensures forall cb: nat | Covers(buf, line, cb) ::
              var r := Range(buf, line, cb, old(pei.info));
              if r.Stop? then status == r.status != Ok && pei.info == r.info
              else status == Ok && r.value == Named(pei.info, p, cb)
  {
    var h := SeekTag(buf, line, |buf| - line, RAW_BEGIN);
    if !h.At? { return Failed(MissingTag), 0; }
    var begin := Decimal(buf, h.end);
    if !(1 <= begin <= UINT_MAX - 1) { return Failed(InvalidValue), 0; }
    pei.info := pei.info.(flags := pei.info.flags + {BeginF}, begin := begin);

    h := SeekTag(buf, line, |buf| - line, RAW_END);
    if !h.At? { return Failed(MissingTag), 0; }
    var end := Decimal(buf, h.end);
    if !(2 <= end <= UINT_MAX) { return Failed(InvalidValue), 0; }
    pei.info := pei.info.(flags := pei.info.flags + {EndF}, end := end);
    status, p := Ok, h.end;
  }

  method ReadPartLine(buf: seq<byte>, line: nat, left: nat, pei: Record) returns (status: Status)
    requires Covers(buf, line, left) && left != 0
    modifies pei
    ensures Reached(PartLine(buf, line, left, old(pei.info)), status, pei.info)
  {
    var start, cb := Some(line), left;
    var d := FindTag(buf[line..], YPART, true);
    if d.Some? {
      if PartF !in pei.info.flags { return Failed(MissingTag); }
      if d.value != 0 { return Failed(InvalidTag); }
      ghost var range := Range(buf, line, left, pei.info);
      var p;
      status, p := ReadRange(buf, line, pei);
      assert range == Range(buf, line, left, old(pei.info));
      if status != Ok { return; }
      start := FindNextLine(buf, p);
      if start.Some? { cb := left - (start.value - p); }
    }
    if cb == 0 { return Failed(NoMoreData); }
    pei.info := pei.info.(dataStart := start);
    status := Ok;
  }

  method ReadBeforeName(buf: seq<byte>, c: Cursor, pei: Record) returns (status: Status)
    requires c.line <= |buf| && pei.info == ZERO.(flags := {c.version})
    modifies pei
    ensures Reached(BeforeName(buf, c), status, pei.info)
  {
    status := ReadLineAndSize(buf, c, pei);
    if status != Ok { return; }
    status := ReadPart(buf, c, pei);
    if status != Ok { return; }
    status := ReadTotal(buf, c, pei);
    if status != Ok { return; }
    ReadCrc(buf, c, pei);
    status := ReadOffset(buf, c, pei);
    if status != Ok { return; }
    ReadEscape(buf, c, pei);
    status := ReadEscOff(buf, c, pei);
    if status != Ok { return; }
    status := ReadCompression(buf, c, pei);
  }

  method ReadAfterName(buf: seq<byte>, p: nat, cb: nat, pei: Record) returns (status: Status)
    requires Covers(buf, p, cb)
    modifies pei
    ensures Reached(AfterName(buf, Named(old(pei.info), p, cb)), status, pei.info)
  {
    var line := FindNextLine(buf, p);
    if line == None { return Failed(NoMoreData); }
    var left := cb - (line.value - p);
    if left == 0 { return Failed(NoMoreData); }
    status := ReadPartLine(buf, line.value, left, pei);
  }

  method ReadNameOn(buf: seq<byte>, c: Cursor, pei: Record) returns (status: Status)
    requires Covers(buf, c.line, c.cb)
    modifies pei
    ensures Reached(NameOn(buf, c, old(pei.info)), status, pei.info)
  {
    hide Seek, NameValue, AfterName;
    var h := SeekTag(buf, c.line, |buf| - c.line, RAW_NAME);
    if !h.At? { return Failed(MissingTag); }
    var p, cb := h.end, c.cb - (h.end - c.line);
    status, p, cb := ReadName(buf, p, cb, pei);
    if status != Ok { return; }
    assert NameOn(buf, c, old(pei.info)) == AfterName(buf, Named(pei.info, p, cb));
    status := ReadAfterName(buf, p, cb, pei);
  }

  method DecoderInitialize(buf: seq<byte>, pei: Record) returns (status: Status)
    modifies pei
    ensures (status, pei.info) == Initialized(buf)
  {
    var c;
    status, c := ReadSignature(buf, pei);
    if status != Ok { return; }
    status := ReadBeforeName(buf, c, pei);
    if status != Ok { return; }
    status := ReadNameOn(buf, c, pei);
  }
}
