/** When the header parser stays inside its buffer. */
module HeaderBounds {
  import opened Attributes
  import opened Bytes
  import opened EncodeInfo
  import opened Header
  import opened TagSearch

  /** The buffer ends in a line break, or at least in half of one. */
  predicate EndsInBreak(buf: seq<byte>) {
    |buf| > 0 && (buf[|buf| - 1] == CR || buf[|buf| - 1] == LF)
  }

  predicate Inside<T>(r: Step<T>) { r.Stop? ==> r.status != Overrun }

  lemma {:induction false} WordEndInside(buf: seq<byte>, p: nat, limit: nat)
    requires EndsInBreak(buf) && p < |buf|
    ensures WordEnd(buf, p, limit).Some?
    decreases limit
  {
    if limit > 0 && p + 1 < |buf| { WordEndInside(buf, p + 1, limit - 1); }
  }

  lemma {:induction false} SkipInside(buf: seq<byte>, p: nat, limit: nat)
    requires EndsInBreak(buf) && p < |buf|
    ensures SkipSpaces(buf, p, limit).Some? && SkipSpaces(buf, p, limit).value < |buf|
    decreases limit
  {
    if limit > 0 && p + 1 < |buf| { SkipInside(buf, p + 1, limit - 1); }
  }

  lemma {:induction false} NameEndInside(buf: seq<byte>, p: nat, limit: nat)
    requires EndsInBreak(buf) && p < |buf|
    ensures NameEnd(buf, p, limit).Some? && NameEnd(buf, p, limit).value.0 < |buf|
    decreases limit
  {
    if limit > 0 && p + 1 < |buf| { NameEndInside(buf, p + 1, limit - 1); }
  }

  lemma {:induction false} TrimInside(buf: seq<byte>, start: nat, p: int)
    requires start - 1 <= p < |buf|
    ensures Trim(buf, start, p).Some?
    decreases p - start + 1
  {
    if p > start { TrimInside(buf, start, p - 1); }
  }

  lemma FindNameInside(buf: seq<byte>, p: nat, remaining: nat)
    requires EndsInBreak(buf) && p < |buf|
    ensures FindName(buf, p, remaining).Some?
  {
    var limit := Min(remaining, MAX_PATH);
    SkipInside(buf, p, limit);
    var start := SkipSpaces(buf, p, limit).value;
    NameEndInside(buf, start, limit - (start - p));
    var (end, stopped) := NameEnd(buf, start, limit - (start - p)).value;
    TrimInside(buf, start, if stopped then end - 1 else end);
  }

  /** A tag that ends in a printable byte is never the last thing in the buffer. */
  lemma HitInside(buf: seq<byte>, from: nat, len: nat, raw: seq<byte>)
    requires from <= |buf| && EndsInBreak(buf) && IsName(raw)
    ensures Seek(buf, from, len, raw).At? ==> Seek(buf, from, len, raw).end < |buf|
  {
    var tag := Spaced(raw);
    var avail := Min(len, |buf| - from);
    var text := buf[from..from + avail];
    ScanSound(text, tag, false, 0, 0);
    if Find(text, tag, false).Some? {
      var p := Find(text, tag, false).value;
      assert text[p + |raw|] == text[p..p + |tag|][|raw|] == EQUALS;
    }
  }

  lemma SignatureInside(buf: seq<byte>)
    requires EndsInBreak(buf) && Find(buf, RAW_YBEGIN, true) == Some(0)
    ensures Inside(Signature(buf))
    ensures Signature(buf).Next? ==> Signature(buf).value.cb == |buf| - Signature(buf).value.line
  {
    ScanSound(buf, RAW_YBEGIN, true, 0, 0);
    assert buf[6] == buf[0..7][6] == 110;
  }

  lemma BeforeNameInside(buf: seq<byte>, c: Cursor)
    requires EndsInBreak(buf) && c.line <= |buf| && c.cb == |buf| - c.line
    ensures Inside(BeforeName(buf, c))
  {
    hide LineAndSize, Part, Total, Crc, Offset, Escape, EscOff, Compression;
    LineAndSizeInside(buf, c);
    forall info: Info
      ensures Inside(Part(buf, c, info)) && Inside(Total(buf, c, info)) && Inside(EscOff(buf, c, info))
      ensures Inside(Offset(buf, c, info)) && Inside(Compression(buf, c, info))
    {
      NumbersInside(buf, c, info);
      OffsetInside(buf, c, info);
      CompressionInside(buf, c, info);
    }
  }

  lemma LineAndSizeInside(buf: seq<byte>, c: Cursor)
    requires c.line <= |buf| && c.cb == |buf| - c.line
    ensures Inside(LineAndSize(buf, c))
  {
    hide Find, Numbers.ReadDec;
  }

  lemma NumbersInside(buf: seq<byte>, c: Cursor, info: Info)
    requires c.line <= |buf| && c.cb == |buf| - c.line
    ensures Inside(Part(buf, c, info)) && Inside(Total(buf, c, info)) && Inside(EscOff(buf, c, info))
  {
    hide Find, Numbers.ReadDec;
  }

  lemma OffsetInside(buf: seq<byte>, c: Cursor, info: Info)
    requires EndsInBreak(buf) && c.line <= |buf|
    ensures Inside(Offset(buf, c, info))
  {
    hide Seek, Numbers.ReadDec;
    HitInside(buf, c.line, |buf| - c.line, RAW_OFFSET);
  }

  lemma CompressionInside(buf: seq<byte>, c: Cursor, info: Info)
    requires EndsInBreak(buf) && c.line <= |buf|
    ensures Inside(Compression(buf, c, info))
  {
    hide Seek, WordEnd;
    var limit := Min(|buf| - c.line, MAX_PATH);
    HitInside(buf, c.line, limit, RAW_COMP);
    var h := Seek(buf, c.line, limit, RAW_COMP);
    if h.At? { WordEndInside(buf, h.end, limit); }
  }

  lemma NameOnInside(buf: seq<byte>, c: Cursor, info: Info)
    requires EndsInBreak(buf) && Covers(buf, c.line, c.cb)
    ensures Inside(NameOn(buf, c, info))
  {
    hide Find, FindName, WithName;
    HitInside(buf, c.line, |buf| - c.line, RAW_NAME);
    var h := Seek(buf, c.line, |buf| - c.line, RAW_NAME);
    if h.At? {
      var cb := c.cb - (h.end - c.line);
      if buf[h.end] == DQUOTE {
        QuoteInside(buf, h.end);
        FindNameInside(buf, h.end + 1, cb - 1);
      } else {
        FindNameInside(buf, h.end, cb);
      }
    }
  }

  lemma QuoteInside(buf: seq<byte>, p: nat)
    requires EndsInBreak(buf) && p < |buf| && buf[p] == DQUOTE
    ensures p + 1 < |buf|
  {
  }

  /** A buffer that starts with the keyword and ends in a line break is never left. */
  lemma ParsesInside(buf: seq<byte>)
    requires EndsInBreak(buf) && Find(buf, RAW_YBEGIN, true) == Some(0)
    ensures Initialized(buf).0 != Overrun
  {
    hide BeforeName, NameOn, Find, Signature;
    SignatureInside(buf);
    if Signature(buf).Next? {
      var c := Signature(buf).value;
      BeforeNameInside(buf, c);
      if BeforeName(buf, c).Next? { NameOnInside(buf, c, BeforeName(buf, c).value); }
    }
  }
}
