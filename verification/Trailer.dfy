/** Printing a =yend line, and reading it back. */
module TrailerLine {
  import opened Attributes
  import opened Bytes
  import opened Decoder
  import opened EncodeInfo
  import opened Numbers
  import opened TagSearch

  datatype Fields = Fields(size: nat, part: Option<nat>, partCrc: Option<nat>, crc: Option<nat>)

  const RAW_YEND: seq<byte> := [61, 121, 101, 110, 100] // "=yend"

  function Optional(raw: seq<byte>, value: Option<nat>, hex: bool): seq<Item> {
    match value
    case None => []
    case Some(v) => [Item(raw, if hex then Hex(v, HEX_DIGITS) else Dec(v))]
  }

  function Items(t: Fields): seq<Item> {
    [Item(RAW_SIZE, Dec(t.size))] + Optional(RAW_PART, t.part, false)
    + Optional(RAW_PCRC32, t.partCrc, true) + Optional(RAW_CRC32, t.crc, true)
  }

  /** "=yend size=N part=N pcrc32=X crc32=X", the last three optional. */
  function Line(t: Fields): seq<byte> {
    RAW_YEND + Text(Items(t))
  }

  predicate Fit(t: Fields) {
    && t.size < WORD
    && (t.part.Some? ==> t.part.value < USHORT)
    && (t.partCrc.Some? ==> t.partCrc.value < WORD)
    && (t.crc.Some? ==> t.crc.value < WORD)
  }

  /** What may follow the line: no further attributes, and no further digits of its last number. */
  predicate Closes(post: seq<byte>) {
    SPACE !in post && (post == [] || Digit(post[0], 10) == None)
  }

  /**
   The name of the part attribute lies within the part of the buffer that is searched. It does not when no CRC
   follows it, and its digits and what follows them are shorter than the name of the size.
   */
  predicate PartIsSeen(t: Fields, post: seq<byte>) {
    t.part.Some? && (t.partCrc.Some? || t.crc.Some? || |Dec(t.part.value)| + |post| >= |Spaced(RAW_SIZE)|)
  }

  /** The record after reading the line. */
  function Recorded(info: Info, t: Fields, post: seq<byte>): Info {
    var part := PartIsSeen(t, post);
    info.(flags := info.flags + (if t.crc.Some? then {CrcF} else {}) + (if t.partCrc.Some? then {PartCrcF} else {})
                   + (if part then {PartF} else {}),
          crc := if t.crc.Some? then t.crc.value else info.crc,
          partCrc := if t.partCrc.Some? then t.partCrc.value else info.partCrc,
          part := if part then t.part.value else info.part)
  }

  lemma RecordedIs(info: Info, t: Fields, post: seq<byte>)
    requires Fit(t)
    ensures Recorded(info, t, post) ==
            WithPart(WithPartCrc(WithCrc(info, t.crc), t.partCrc), if PartIsSeen(t, post) then t.part else None)
  {
  }

  lemma OptionalItems(raw: seq<byte>, value: Option<nat>, hex: bool, other: seq<byte>)
    requires IsName(raw)
    ensures AreItems(Optional(raw, value, hex))
    ensures Lookup(Optional(raw, value, hex), other) == if value.Some? && raw == other then Some(0) else None
  {
  }

  lemma NamesDiffer()
    ensures IsName(RAW_SIZE) && IsName(RAW_PART) && IsName(RAW_PCRC32) && IsName(RAW_CRC32)
    ensures RAW_SIZE != RAW_PART && |RAW_SIZE| == |RAW_PART| < |RAW_CRC32| < |RAW_PCRC32|
  {
    assert RAW_SIZE[0] != RAW_PART[0];
  }

  /** The items around one of them. */
  function Before(t: Fields, raw: seq<byte>): seq<Item> {
    var size := [Item(RAW_SIZE, Dec(t.size))];
    var part := Optional(RAW_PART, t.part, false);
    if raw == RAW_PART then size
    else if raw == RAW_PCRC32 then size + part
    else size + part + Optional(RAW_PCRC32, t.partCrc, true)
  }

  function Behind(t: Fields, raw: seq<byte>): seq<Item> {
    if raw == RAW_PART then Optional(RAW_PCRC32, t.partCrc, true) + Optional(RAW_CRC32, t.crc, true)
    else if raw == RAW_PCRC32 then Optional(RAW_CRC32, t.crc, true)
    else []
  }

  function Field(t: Fields, raw: seq<byte>): Option<nat> {
    if raw == RAW_PART then t.part else if raw == RAW_PCRC32 then t.partCrc else t.crc
  }

  predicate IsField(raw: seq<byte>) { raw == RAW_PART || raw == RAW_PCRC32 || raw == RAW_CRC32 }

  lemma Surroundings(t: Fields, raw: seq<byte>)
    requires IsField(raw)
    ensures Items(t) == Before(t, raw) + (Optional(raw, Field(t, raw), raw != RAW_PART) + Behind(t, raw))
    ensures AreItems(Items(t)) && IsName(raw)
    ensures Lookup(Before(t, raw), raw) == None && Lookup(Behind(t, raw), raw) == None
  {
    hide Text, ItemText, Dec, Hex;
    NamesDiffer();
    var size := [Item(RAW_SIZE, Dec(t.size))];
    var part, partCrc := Optional(RAW_PART, t.part, false), Optional(RAW_PCRC32, t.partCrc, true);
    var crc := Optional(RAW_CRC32, t.crc, true);
    OptionalItems(RAW_PART, t.part, false, raw);
    OptionalItems(RAW_PCRC32, t.partCrc, true, raw);
    OptionalItems(RAW_CRC32, t.crc, true, raw);
    assert Lookup(size, raw) == None;
    TextConcat(size, part, raw);
    TextConcat(size + part, partCrc, raw);
    TextConcat(partCrc, crc, raw);
    if raw == RAW_PART {
      assert Items(t) == size + (part + (partCrc + crc));
    } else if raw == RAW_PCRC32 {
      assert Items(t) == (size + part) + (partCrc + crc);
    } else {
      assert Items(t) == (size + part + partCrc) + (crc + []);
    }
  }

  /** Where the search meets an attribute of the line, in a text that leads up to the line. */
  lemma FieldIsFound(lead: seq<byte>, t: Fields, post: seq<byte>, raw: seq<byte>)
    requires IsField(raw) && SPACE !in lead && SPACE !in post
    ensures Find(lead + Text(Items(t)) + post, Spaced(raw), false) ==
            if Field(t, raw).Some? then Some(|lead| + |Text(Before(t, raw))|) else None
  {
    var a, b, c := Before(t, raw), Optional(raw, Field(t, raw), raw != RAW_PART), Behind(t, raw);
    Surroundings(t, raw);
    TextConcat(b, c, raw);
    TextConcat(a, b + c, raw);
    OptionalItems(raw, Field(t, raw), raw != RAW_PART, raw);
    FirstByteAbsent(lead, Spaced(raw));
    FirstByteAbsent(post, Spaced(raw));
    FindSpaced(Items(t), post, raw);
    assert lead + Text(Items(t)) + post == lead + (Text(Items(t)) + post);
    FindConcat(lead, Text(Items(t)) + post, Spaced(raw));
  }

  lemma SizeIsFound(lead: seq<byte>, t: Fields, post: seq<byte>)
    requires SPACE !in lead
    ensures Find(lead + Text(Items(t)) + post, Spaced(RAW_SIZE), false).Some?
  {
    Surroundings(t, RAW_PART);
    NamesDiffer();
    FirstByteAbsent(lead, Spaced(RAW_SIZE));
    FindSpaced(Items(t), post, RAW_SIZE);
    assert lead + Text(Items(t)) + post == lead + (Text(Items(t)) + post);
    FindConcat(lead, Text(Items(t)) + post, Spaced(RAW_SIZE));
  }

  /** The text behind the name of a present attribute. */
  lemma TextAtField(lead: seq<byte>, t: Fields, post: seq<byte>, raw: seq<byte>) returns (more: seq<byte>)
    requires IsField(raw) && Field(t, raw).Some?
    ensures more == Text(Behind(t, raw)) + post
    ensures var text, q := lead + Text(Items(t)) + post, |lead| + |Text(Before(t, raw))| + |Spaced(raw)|;
            var v := Field(t, raw).value;
            q <= |text| && text[q..] == (if raw == RAW_PART then Dec(v) else Hex(v, HEX_DIGITS)) + more
  {
    hide Lookup, Dec, Hex, Items, Before, Behind, Find;
    var a, b, c := Before(t, raw), Optional(raw, Field(t, raw), raw != RAW_PART), Behind(t, raw);
    Surroundings(t, raw);
    TextConcat(b, c, raw);
    TextConcat(a, b + c, raw);
    more := Text(c) + post;
    assert Text(b) == Spaced(raw) + b[0].value by { assert b[1..] == []; }
    Slice(lead, Text(a), Spaced(raw), b[0].value, Text(c), post);
  }

  lemma Slice(lead: seq<byte>, a: seq<byte>, name: seq<byte>, value: seq<byte>, c: seq<byte>, post: seq<byte>)
    ensures var text := lead + (a + ((name + value) + c)) + post;
            text[|lead| + |a| + |name|..] == value + (c + post)
  {
  }

  /** Reading one attribute of the line through the shortened window. */
  lemma FieldIsRead(pre: seq<byte>, lead: seq<byte>, t: Fields, post: seq<byte>, text: seq<byte>, raw: seq<byte>)
    requires IsField(raw) && SPACE !in lead && Closes(post) && Fit(t)
    requires text == lead + Text(Items(t)) + post && |text| >= |Spaced(RAW_SIZE)|
    ensures TrailerValue(pre + text, |pre|, |pre| + |text| - |Spaced(RAW_SIZE)|, raw,
                         if raw == RAW_PART then 10 else 16)
         == if raw == RAW_PART && !PartIsSeen(t, post) then None else Field(t, raw)
  {
    hide Items, Text, Before, Behind, Lookup, Dec, Hex, Read, PartIsSeen, Find, TrailerValue;
    WindowedValue(pre, text, raw, if raw == RAW_PART then 10 else 16);
    FieldIsFound(lead, t, post, raw);
    if Field(t, raw).Some? {
      if raw == RAW_PART {
        PartFieldIsRead(lead, t, post, text);
      } else {
        var more := TextAtField(lead, t, post, raw);
        ReadHexPrinted(text, |lead| + |Text(Before(t, raw))| + |Spaced(raw)|, Field(t, raw).value, more);
      }
    }
  }

  lemma PartFieldIsRead(lead: seq<byte>, t: Fields, post: seq<byte>, text: seq<byte>)
    requires Closes(post) && Fit(t) && t.part.Some? && text == lead + Text(Items(t)) + post
    ensures var q := |lead| + |Text(Before(t, RAW_PART))| + |Spaced(RAW_PART)|;
            && q <= |text| && (PartIsSeen(t, post) <==> q <= |text| - |Spaced(RAW_SIZE)|)
            && Read(text, q, HEX_DIGITS, 10) == t.part.value
  {
    var more := TextAtField(lead, t, post, RAW_PART);
    var q := |lead| + |Text(Before(t, RAW_PART))| + |Spaced(RAW_PART)|;
    assert |text[q..]| == |Dec(t.part.value)| + |more|;
    BehindPart(t, post);
    ShortPart(t.part.value);
    ReadPrinted(text, q, HEX_DIGITS, t.part.value, more);
  }

  /** What TrailerValue reads, in terms of the text alone. */
  lemma WindowedValue(pre: seq<byte>, text: seq<byte>, raw: seq<byte>, base: nat)
    requires |text| >= |Spaced(RAW_SIZE)|
    ensures var m := |text| - |Spaced(RAW_SIZE)|;
            TrailerValue(pre + text, |pre|, |pre| + m, raw, base) ==
            match Find(text, Spaced(raw), false)
            case None => None
            case Some(p) =>
              if p + |Spaced(raw)| <= m then Some(Read(text, p + |Spaced(raw)|, HEX_DIGITS, base)) else None
  {
    var m := |text| - |Spaced(RAW_SIZE)|;
    FindTruncated(text, Spaced(raw), m);
    assert (pre + text)[|pre|..|pre| + m] == text[..m];
    if Find(text, Spaced(raw), false).Some? {
      var q := Find(text, Spaced(raw), false).value + |Spaced(raw)|;
      var to := Min(|text|, q + HEX_DIGITS);
      assert (pre + text)[|pre| + q..|pre| + to] == text[q..to];
    }
  }

  lemma ShortPart(v: nat)
    requires v < USHORT
    ensures |Dec(v)| <= HEX_DIGITS
  {
    assert Pow(10, 8) == 100_000_000 by {
      assert Pow(10, 2) == 100;
      assert Pow(10, 4) == 10_000;
      assert Pow(10, 6) == 1_000_000;
    }
    DecLength(v, 8);
  }

  lemma BehindPart(t: Fields, post: seq<byte>)
    requires Closes(post)
    ensures var more := Text(Behind(t, RAW_PART)) + post;
            && (more == [] || Digit(more[0], 10) == None)
            && (t.part.Some? ==> (PartIsSeen(t, post) <==> |Dec(t.part.value)| + |more| >= |Spaced(RAW_SIZE)|))
  {
    hide Dec, Hex, Lookup;
    var b, c := Optional(RAW_PCRC32, t.partCrc, true), Optional(RAW_CRC32, t.crc, true);
    TextConcat(b, c, RAW_PART);
  }

  /**
   Reading a printed trailer line, with line breaks before it, recovers every field on it, except
   for a part number that ends too close to the end of the buffer.
   */
  lemma TrailerIsRead(pre: seq<byte>, breaks: seq<byte>, t: Fields, post: seq<byte>, info: Info)
    requires SPACE !in breaks && Closes(post) && Fit(t)
    ensures Trailer(pre + (breaks + Line(t) + post), |pre|, info) == (Ok, Recorded(info, t, post))
  {
    var lead := breaks + RAW_YEND;
    var text := lead + Text(Items(t)) + post;
    assert breaks + Line(t) + post == text;
    SizeIsFound(lead, t, post);
    FieldIsRead(pre, lead, t, post, text, RAW_CRC32);
    FieldIsRead(pre, lead, t, post, text, RAW_PCRC32);
    FieldIsRead(pre, lead, t, post, text, RAW_PART);
    NamesDiffer();
    RecordedIs(info, t, post);
    TrailerOf(pre, text, info, t.crc, t.partCrc, if PartIsSeen(t, post) then t.part else None);
  }

  lemma TrailerOf(pre: seq<byte>, text: seq<byte>, info: Info, crc: Option<nat>, partCrc: Option<nat>, part: Option<nat>)
    requires Find(text, Spaced(RAW_SIZE), false).Some?
    requires var buf, end := pre + text, |pre| + |text| - |Spaced(RAW_SIZE)|;
             && TrailerValue(buf, |pre|, end, RAW_CRC32, 16) == crc
             && TrailerValue(buf, |pre|, end, RAW_PCRC32, 16) == partCrc
             && TrailerValue(buf, |pre|, end, RAW_PART, 10) == part
    ensures Trailer(pre + text, |pre|, info) == (Ok, WithPart(WithPartCrc(WithCrc(info, crc), partCrc), part))
  {
    assert (pre + text)[|pre|..] == text;
  }
}
