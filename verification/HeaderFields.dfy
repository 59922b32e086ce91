/** What the record of a printed header says, field by field. */
module HeaderFields {
  import opened Attributes
  import opened Bytes
  import opened EncodeInfo
  import opened Header
  import opened HeaderRoundTrip
  import opened Numbers
  import opened Serialize
  import opened SerializeRoundTrip
  import opened TagSearch

  /** n bytes from p on. */
  predicate StandsAt(buf: seq<byte>, p: nat, n: nat, text: seq<byte>) {
    p + n <= |buf| && buf[p..p + n] == text
  }

  /** The numbers, and which of them are there. Only a CRC may come from what follows the header. */
  predicate NumbersAreKept(i: Info, j: Info) {
    && (forall f | f in NUMBERS + {BeginF, EndF} && f != CrcF :: f in i.flags <==> f in j.flags)
    && (CrcF in j.flags ==> CrcF in i.flags && i.crc == j.crc)
    && ValuesAreKept(i, j)
  }

  predicate ValuesAreKept(i: Info, j: Info) {
    && i.line == j.line && i.size == j.size
    && i.part == (if PartF in j.flags then j.part else 0)
    && i.total == (if TotalF in j.flags then j.total else 0)
    && i.offset == (if OffsetF in j.flags then j.offset else 0)
    && i.escape == (if EscapeF in j.flags then j.escape else 0)
    && i.escOff == (if EscOffF in j.flags then j.escOff else 0)
    && i.begin == (if BeginF in j.flags then j.begin else 0)
    && i.end == (if EndF in j.flags then j.end else 0)
    && i.sizeActual == 0 && i.partCrc == 0
  }

  /**
   The name is recorded with its place and length, without quotes and trailing spaces, and marked as Unicode
   when it holds two or more NULs and its length is even. A name of one byte is taken for none.
   */
  predicate NameIsKept(i: Info, h: Head, buf: seq<byte>) {
    && NameF in i.flags
    && StandsAt(buf, i.name, |h.name|, h.name)
    && i.nameLen == (if |h.name| >= 2 then |h.name| else 0)
    && (UnicodeNameF in i.flags <==> multiset(h.name)[0] >= 2 && i.nameLen % 2 == 0)
  }

  /** The compression is recorded with its place and length if it begins within 260 bytes. */
  predicate CompIsKept(i: Info, h: Head, buf: seq<byte>) {
    && (CompF in i.flags <==> h.comp.Some? && |Text(HeadItems(h))| + 6 <= 260)
    && (CompF in i.flags ==> i.compLen == |h.comp.value| && StandsAt(buf, i.comp, i.compLen, h.comp.value))
  }

  lemma {:induction false} NulsCount(s: seq<byte>)
    ensures Nuls(s) == multiset(s)[0]
  {
    if s != [] {
      NulsCount(s[1..]);
      assert s == [s[0]] + s[1..];
    }
  }

  lemma {:induction false} NulsAppended(a: seq<byte>, n: nat)
    ensures Nuls(a + Spaces(n)) == Nuls(a)
  {
    if a == [] {
      NoNuls(n);
      assert [] + Spaces(n) == Spaces(n);
    } else {
      assert (a + Spaces(n))[1..] == a[1..] + Spaces(n);
      NulsAppended(a[1..], n);
    }
  }

  lemma {:induction false} NoNuls(n: nat)
    ensures Nuls(Spaces(n)) == 0
  {
    if n > 0 {
      assert ([SPACE] + Spaces(n - 1))[1..] == Spaces(n - 1);
      NoNuls(n - 1);
    }
  }

  /** The record that is expected says all this. */
  lemma ExpectedIs(h: Head, rest: seq<byte>)
    requires Valid(h)
    ensures var i, buf := Expected(h, rest), Printed(h) + rest;
            && NumbersAreKept(i, h.info) && NameIsKept(i, h, buf) && CompIsKept(i, h, buf)
            && i.flags <= NUMBERS + {BeginF, EndF, NameF, UnicodeNameF, CompF}
            && i.dataStart == Some(|Printed(h)|)
  {
    hide Expected, NumbersAreKept, NameIsKept, CompIsKept, Valid;
    NumbersAreExpected(h, rest);
    NameIsExpected(h, rest);
    CompIsExpected(h, rest);
  }

  lemma NumbersAreExpected(h: Head, rest: seq<byte>)
    requires Valid(h)
    ensures var i := Expected(h, rest);
            && NumbersAreKept(i, h.info) && i.flags <= NUMBERS + {BeginF, EndF, NameF, UnicodeNameF, CompF}
            && i.dataStart == Some(|Printed(h)|)
  {
    hide Effective, Printed, HeadSpan, CompPlace, NumbersAreKept, Valid;
    EffectiveFlags(h, rest);
    EffectiveCrc(h, rest);
    RestrictKeeps(h, Effective(h, rest), HeadSpan(h), Some(|Printed(h)|));
  }

  lemma EffectiveCrc(h: Head, rest: seq<byte>)
    ensures CrcF in h.info.flags ==> Effective(h, rest) == h.info
  {
    hide Find, Tail;
  }

  lemma RestrictKeeps(h: Head, e: Info, span: NameSpan, start: Option<nat>)
    requires Valid(h) && h.info.flags <= e.flags <= h.info.flags + {CrcF}
    requires e == h.info.(flags := e.flags, crc := e.crc) && (CrcF in h.info.flags ==> e == h.info)
    ensures var i := WithName(WithComp(h, Restrict(e, e.flags)), span).(dataStart := start);
            NumbersAreKept(i, h.info) && i.flags <= NUMBERS + {BeginF, EndF, NameF, UnicodeNameF, CompF}
  {
    hide CompPlace, NumbersAreKept, Restrict, Valid, WithName, WithComp;
    RestrictIs(h, e);
    NameLeavesNumbers(h, Restrict(e, e.flags), span, start);
  }

  lemma RestrictIs(h: Head, e: Info)
    requires Valid(h) && h.info.flags <= e.flags <= h.info.flags + {CrcF}
    requires e == h.info.(flags := e.flags, crc := e.crc) && (CrcF in h.info.flags ==> e == h.info)
    ensures NumbersAreKept(Restrict(e, e.flags), h.info) && Restrict(e, e.flags).flags <= NUMBERS + {BeginF, EndF}
  {
    hide ValidName, ValidComp;
  }

  lemma NameLeavesNumbers(h: Head, r: Info, span: NameSpan, start: Option<nat>)
    requires NumbersAreKept(r, h.info) && r.flags <= NUMBERS + {BeginF, EndF}
    ensures var i := WithName(WithComp(h, r), span).(dataStart := start);
            NumbersAreKept(i, h.info) && i.flags <= NUMBERS + {BeginF, EndF, NameF, UnicodeNameF, CompF}
  {
    hide NumbersAreKept, WithComp, WithName;
    CompLeavesNumbers(h, r);
    SpanLeavesNumbers(WithComp(h, r), h.info, span, start);
  }

  lemma CompLeavesNumbers(h: Head, r: Info)
    requires NumbersAreKept(r, h.info) && r.flags <= NUMBERS + {BeginF, EndF}
    ensures NumbersAreKept(WithComp(h, r), h.info) && WithComp(h, r).flags <= NUMBERS + {BeginF, EndF, CompF}
  {
    hide CompPlace;
  }

  lemma SpanLeavesNumbers(r: Info, j: Info, span: NameSpan, start: Option<nat>)
    requires NumbersAreKept(r, j) && r.flags <= NUMBERS + {BeginF, EndF, CompF}
    ensures var i := WithName(r, span).(dataStart := start);
            NumbersAreKept(i, j) && i.flags <= NUMBERS + {BeginF, EndF, NameF, UnicodeNameF, CompF}
  {
    SpanLeavesValues(r, j, span, start);
    SpanAddsFlags(r, span);
    hide ValuesAreKept, WithName;
  }

  lemma SpanAddsFlags(r: Info, span: NameSpan)
    ensures var i := WithName(r, span); r.flags <= i.flags <= r.flags + {NameF, UnicodeNameF} && i.crc == r.crc
  {
  }

  lemma SpanLeavesValues(r: Info, j: Info, span: NameSpan, start: Option<nat>)
    ensures ValuesAreKept(WithName(r, span).(dataStart := start), j) == ValuesAreKept(r, j)
  {
  }

  lemma NameIsExpected(h: Head, rest: seq<byte>)
    requires Valid(h)
    ensures NameIsKept(Expected(h, rest), h, Printed(h) + rest)
  {
    hide Effective, Printed, Text, HeadItems, Nuls, Keyword, Whole, CompPlace, Restrict;
    PrintedIs(h, rest);
    NameStandsThere(h, rest);
    NulsAppended(h.name, h.pad);
    NulsCount(h.name);
    NoNameYet(h, rest);
  }

  lemma NoNameYet(h: Head, rest: seq<byte>)
    requires Valid(h)
    ensures var i := Effective(h, rest); UnicodeNameF !in WithComp(h, Restrict(i, i.flags)).flags
  {
    hide Effective, CompPlace;
    EffectiveFlags(h, rest);
  }

  lemma CompIsExpected(h: Head, rest: seq<byte>)
    requires Valid(h)
    ensures CompIsKept(Expected(h, rest), h, Printed(h) + rest)
  {
    hide Effective, Printed, Text, HeadItems, HeadSpan, Keyword, Whole, CompIsKept, Valid, Restrict;
    PrintedIs(h, rest);
    NoCompYet(h, rest);
    if h.comp.Some? { CompStands(h, rest, h.comp.value); }
    var i := Effective(h, rest);
    CompIsRecorded(h, Restrict(i, i.flags), HeadSpan(h), Some(|Printed(h)|), Whole(h, rest));
  }

  lemma NoCompYet(h: Head, rest: seq<byte>)
    requires Valid(h)
    ensures var i := Effective(h, rest); CompF !in Restrict(i, i.flags).flags
  {
    hide Effective;
    EffectiveFlags(h, rest);
  }

  lemma CompIsRecorded(h: Head, r: Info, span: NameSpan, start: Option<nat>, buf: seq<byte>)
    requires CompF !in r.flags && (h.comp.Some? ==> StandsAt(buf, CompPlace(h), |h.comp.value|, h.comp.value))
    ensures CompIsKept(WithName(WithComp(h, r), span).(dataStart := start), h, buf)
  {
    hide Text, HeadItems, Keyword;
  }

  lemma NameStandsThere(h: Head, rest: seq<byte>)
    requires Valid(h)
    ensures StandsAt(Whole(h, rest), HeadSpan(h).start, |h.name|, h.name)
  {
    hide Whole, Valid, Text, HeadItems, Keyword, Nuls, NamePlace, Spaces, PartText;
    NameIsSought(h, rest);
    assert h.name + Spaces(h.pad) + Quote(h) == h.name + (Spaces(h.pad) + Quote(h));
    NameBehindQuote(Whole(h, rest), NamePlace(h), Quote(h), h.name, Spaces(h.pad) + Quote(h), CRLF + (PartText(h) + rest));
  }

  lemma NameBehindQuote(buf: seq<byte>, p: nat, quote: seq<byte>, name: seq<byte>, more: seq<byte>, rest: seq<byte>)
    requires p <= |buf| && buf[p..] == quote + (name + more) + rest
    ensures StandsAt(buf, p + |quote|, |name|, name)
  {
    assert buf[p..][|quote|..] == buf[p + |quote|..];
    assert buf[p + |quote|..][..|name|] == buf[p + |quote|..p + |quote| + |name|];
    assert (quote + (name + more) + rest)[|quote|..|quote| + |name|] == name;
  }

  /** What the parser makes of a printed header, without a word about how. */
  lemma HeaderSaysWhatWasPrinted(h: Head, rest: seq<byte>)
    requires Valid(h) && Silent(h, rest) && rest != [] && |Printed(h) + rest| < WORD
    ensures Lookup(HeadItems(h), RAW_LINE).Some? && Lookup(HeadItems(h), RAW_SIZE).Some?
    ensures var (status, i) := Initialized(Printed(h) + rest);
            var buf := Printed(h) + rest;
            if SizeNeeds(h) <= |buf|
            then status == Ok && NumbersAreKept(i, h.info) && NameIsKept(i, h, buf) && CompIsKept(i, h, buf)
                 && i.flags <= NUMBERS + {BeginF, EndF, NameF, UnicodeNameF, CompF}
                 && i.dataStart.Some? && StandsAt(buf, i.dataStart.value, |rest|, rest)
            else status == Failed(MissingTag) && i == ZERO.(flags := {LineF}, line := h.info.line)
  {
    hide Initialized, Expected, Effective, Printed, SizeNeeds, Silent, NumbersAreKept, NameIsKept, CompIsKept;
    HeaderIsParsed(h, rest);
    ExpectedIs(h, rest);
    EffectiveFlags(h, rest);
    assert (Printed(h) + rest)[|Printed(h)|..|Printed(h)| + |rest|] == rest;
  }
}
