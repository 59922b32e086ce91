/** Deserialising undoes serialising, for every subset of the numeric fields, with one exception. */
module SerializeRoundTrip {
  import opened Attributes
  import opened Bytes
  import opened EncodeInfo
  import opened Numbers
  import opened Serialize
  import opened TagSearch

  /** The record that holds the selected fields and nothing else. */
  /** The attributes of a record of which every field is there and selected, in their order. */
  lemma AllItemsAre(info: Info, flags: set<Flag>)
    requires forall f | f in WRITTEN :: f in info.flags && f in flags
    ensures Serialized(info, flags) == Text(
      [Item(RAW_LINE, Dec(info.line)), Item(RAW_SIZE, Dec(info.size)), Item(RAW_OFFSET, Dec(info.offset)),
       Item(RAW_ESCAPE, Dec(info.escape)), Item(RAW_ESCOFF, Dec(info.escOff)), Item(RAW_BEGIN, Dec(info.begin)),
       Item(RAW_END, Dec(info.end)), Item(RAW_PART, Dec(info.part)), Item(RAW_TOTAL, Dec(info.total)),
       Item(RAW_CRC32, Hex(info.crc, 8)), Item(RAW_PCRC32, Hex(info.partCrc, 8))])
  {
    hide Text, Dec, Hex, Items, Raw, Print, IsNumeric;
    AreNumeric();
    ItemsOf(WRITTEN, flags * info.flags, info);
    ElevenItems(Items(WRITTEN, flags * info.flags, info), info);
  }

  lemma AreNumeric()
    ensures forall f | f in WRITTEN :: IsNumeric(f)
  {
  }

  lemma ElevenItems(items: seq<Item>, info: Info)
    requires (forall f | f in WRITTEN :: IsNumeric(f)) && |items| == |WRITTEN|
    requires forall k | 0 <= k < |WRITTEN| :: items[k] == Item(Raw(WRITTEN[k]), Print(WRITTEN[k], info))
    ensures items ==
      [Item(RAW_LINE, Dec(info.line)), Item(RAW_SIZE, Dec(info.size)), Item(RAW_OFFSET, Dec(info.offset)),
       Item(RAW_ESCAPE, Dec(info.escape)), Item(RAW_ESCOFF, Dec(info.escOff)), Item(RAW_BEGIN, Dec(info.begin)),
       Item(RAW_END, Dec(info.end)), Item(RAW_PART, Dec(info.part)), Item(RAW_TOTAL, Dec(info.total)),
       Item(RAW_CRC32, Hex(info.crc, 8)), Item(RAW_PCRC32, Hex(info.partCrc, 8))]
  {
    hide Dec, Hex;
  }

  lemma {:induction false} ItemsOf(order: seq<Flag>, s: set<Flag>, info: Info)
    requires forall f | f in order :: IsNumeric(f) && f in s
    ensures |Items(order, s, info)| == |order|
    ensures forall k | 0 <= k < |order| :: Items(order, s, info)[k] == Item(Raw(order[k]), Print(order[k], info))
  {
    if order != [] {
      ItemsOf(order[1..], s, info);
      assert forall k | 0 < k < |order| :: order[k] == order[1..][k - 1];
    }
  }

  function Restrict(info: Info, s: set<Flag>): Info {
    ZERO.(flags := s,
          line := if LineF in s then info.line else 0,
          size := if SizeF in s then info.size else 0,
          offset := if OffsetF in s then info.offset else 0,
          escape := if EscapeF in s then info.escape else 0,
          escOff := if EscOffF in s then info.escOff else 0,
          begin := if BeginF in s then info.begin else 0,
          end := if EndF in s then info.end else 0,
          part := if PartF in s then info.part else 0,
          total := if TotalF in s then info.total else 0,
          crc := if CrcF in s then info.crc else 0,
          partCrc := if PartCrcF in s then info.partCrc else 0)
  }

  /** The part CRC is written without the whole CRC, but both are asked for. */
  predicate CrcMistaken(info: Info, flags: set<Flag>) {
    CrcF in flags && CrcF !in info.flags && PartCrcF in flags * info.flags
  }

  /** The two letters before the equals sign tell the names apart, except for the two CRCs. */
  function Ending(f: Flag): (byte, byte)
    requires IsNumeric(f)
  {
    match f
    case LineF => (110, 101)
    case SizeF => (122, 101)
    case OffsetF => (101, 116)
    case EscapeF => (112, 101)
    case EscOffF => (102, 102)
    case BeginF => (105, 110)
    case EndF => (110, 100)
    case PartF => (114, 116)
    case TotalF => (97, 108)
    case CrcF => (51, 50)
    case PartCrcF => (51, 50)
  }

  lemma NamesAreNames(f: Flag)
    requires IsNumeric(f)
    ensures IsName(Raw(f))
    ensures |Raw(f)| >= 4 && (Raw(f)[|Raw(f)| - 3], Raw(f)[|Raw(f)| - 2]) == Ending(f)
  {
  }

  lemma SuffixEnding(a: seq<byte>, b: seq<byte>)
    requires |a| >= 4 && |b| >= 4 && (a[|a| - 3], a[|a| - 2]) != (b[|b| - 3], b[|b| - 2])
    ensures !Suffix(a, b)
  {
  }

  lemma SuffixOfItself(a: seq<byte>)
    ensures Suffix(a, a)
  {
    assert a[0..] == a;
  }

  lemma CrcSuffixes()
    ensures Suffix(RAW_CRC32, RAW_PCRC32) && !Suffix(RAW_PCRC32, RAW_CRC32)
  {
    assert RAW_PCRC32[1..] == RAW_CRC32;
  }

  lemma EndingsDiffer(f: Flag, g: Flag)
    requires IsNumeric(f) && IsNumeric(g) && f != g && !(IsHex(f) && IsHex(g))
    ensures !Suffix(Raw(f), Raw(g))
  {
    NamesAreNames(f);
    NamesAreNames(g);
    assert Ending(f) != Ending(g);
    SuffixEnding(Raw(f), Raw(g));
  }

  /** "crc32=" is the only name that ends another one. */
  lemma SuffixTable(f: Flag, g: Flag)
    requires IsNumeric(f) && IsNumeric(g)
    ensures Suffix(Raw(f), Raw(g)) <==> f == g || (f.CrcF? && g.PartCrcF?)
  {
    if f == g {
      SuffixOfItself(Raw(f));
    } else if IsHex(f) && IsHex(g) {
      CrcSuffixes();
    } else {
      EndingsDiffer(f, g);
    }
  }

  lemma PrintIsValue(f: Flag, info: Info)
    requires IsNumeric(f)
    ensures IsValue(Print(f, info))
  {
  }

  lemma NamesTellApart(f: Flag, g: Flag)
    requires IsNumeric(f) && IsNumeric(g)
    ensures Raw(f) == Raw(g) <==> f == g
  {
    hide Raw;
    SuffixTable(f, g);
    SuffixTable(g, f);
    SuffixOfItself(Raw(f));
  }

  lemma {:induction false} ItemsLookup(order: seq<Flag>, s: set<Flag>, info: Info, f: Flag)
    requires IsNumeric(f) && forall g | g in order :: IsNumeric(g)
    ensures var items := Items(order, s, info);
            && AreItems(items)
            && (Lookup(items, Raw(f)).Some? <==> f in s && f in order)
            && (f in s && f in order ==> ValueOf(items, Raw(f)) == Print(f, info))
  {
    hide Raw, Print, ItemText;
    if order != [] {
      var g := order[0];
      ItemsLookup(order[1..], s, info, f);
      NamesAreNames(g);
      PrintIsValue(g, info);
      NamesTellApart(f, g);
      assert f in order <==> f == g || f in order[1..];
    }
  }

  /** The whole CRC is written before the part CRC. */
  predicate CrcFirst(order: seq<Flag>) {
    forall k | 0 <= k < |order| && order[k].PartCrcF? :: CrcF in order[..k]
  }

  lemma CrcFirstInTail(order: seq<Flag>)
    requires order != [] && CrcFirst(order) && !order[0].CrcF?
    ensures CrcFirst(order[1..]) && !order[0].PartCrcF?
  {
    assert order[..0] == [];
    forall k | 0 <= k < |order| - 1 && order[1..][k].PartCrcF? ensures CrcF in order[1..][..k] {
      assert order[..k + 1] == [order[0]] + order[1..][..k];
    }
  }

  lemma {:induction false} ItemsUnshadowed(order: seq<Flag>, s: set<Flag>, info: Info, f: Flag)
    requires IsNumeric(f) && forall g | g in order :: IsNumeric(g)
    requires f.CrcF? && PartCrcF in s ==> f in s && CrcFirst(order)
    ensures Unshadowed(Items(order, s, info), Raw(f))
  {
    if order != [] && !(order[0] == f && f in s) {
      SuffixTable(f, order[0]);
      if f.CrcF? && PartCrcF in s { CrcFirstInTail(order); }
      ItemsUnshadowed(order[1..], s, info, f);
    }
  }

  lemma WrittenOrder(f: Flag)
    requires IsNumeric(f)
    ensures f in WRITTEN && f in SOUGHT && Writable(WRITTEN)
  {
    assert WRITTEN[..10][9] == CrcF;
    assert WRITTEN == [LineF, SizeF, OffsetF, EscapeF, EscOffF, BeginF, EndF, PartF, TotalF, CrcF] + [PartCrcF];
  }

  /** A list of numeric flags with the whole CRC before the part CRC. */
  predicate Writable(order: seq<Flag>) {
    (forall g | g in order :: IsNumeric(g)) && CrcFirst(order)
  }

  lemma FieldIsParsed(order: seq<Flag>, info: Info, s: set<Flag>, f: Flag, i: Info)
    requires Writable(order) && IsNumeric(f) && f in s && f in order && Fits(f, info)
    ensures ParseField(Text(Items(order, s, info)), f, i) == Put(f, i, Get(f, info))
  {
    hide Items, Text, Find, Lookup, ValueOf, Print, ReadField, Put, Get, Raw, Fits;
    var items := Items(order, s, info);
    ItemsLookup(order, s, info, f);
    NamesAreNames(f);
    ItemsUnshadowed(order, s, info, f);
    FindRaw(items, Raw(f));
    var more := TextAtLookup(items, [], Raw(f));
    assert Text(items) + [] == Text(items);
    PrintedIsRead(Text(items), Lookup(items, Raw(f)).value + 1 + |Raw(f)|, f, info, more);
  }

  lemma PrintedIsRead(text: seq<byte>, p: nat, f: Flag, info: Info, more: seq<byte>)
    requires IsNumeric(f) && Fits(f, info) && p <= |text| && text[p..] == Print(f, info) + more
    requires more == [] || more[0] == SPACE
    ensures ReadField(text, f, p) == Get(f, info)
  {
    if IsHex(f) {
      ReadHexPrinted(text, p, Get(f, info), more);
    } else {
      ReadDecPrinted(text, p, Get(f, info), more);
    }
  }

  lemma FieldIsAbsent(order: seq<Flag>, info: Info, s: set<Flag>, f: Flag, i: Info)
    requires Writable(order) && IsNumeric(f) && f !in s && !(f.CrcF? && PartCrcF in s)
    ensures ParseField(Text(Items(order, s, info)), f, i) == i
  {
    hide Items, Text, Find, Lookup, Print, ReadField, Put, Get, Raw;
    ItemsLookup(order, s, info, f);
    NamesAreNames(f);
    ItemsUnshadowed(order, s, info, f);
    FindRaw(Items(order, s, info), Raw(f));
  }

  /** Storing the selected fields of one record into another, one by one. */
  function Merge(order: seq<Flag>, s: set<Flag>, info: Info, into: Info): Info
    requires forall f | f in order :: IsNumeric(f)
  {
    if order == [] then into
    else Merge(order[1..], s, info, if order[0] in s then Put(order[0], into, Get(order[0], info)) else into)
  }

  lemma {:induction false} DeserializedMerges(info: Info, flags: set<Flag>, order: seq<Flag>, into: Info)
    requires forall f | f in order :: IsNumeric(f)
    requires forall f | f in flags * info.flags && IsNumeric(f) :: Fits(f, info)
    requires !CrcMistaken(info, flags)
    ensures Deserialized(Serialized(info, flags), flags, order, into)
         == Merge(order, flags * info.flags, info, into)
  {
    if order != [] {
      var f, s := order[0], flags * info.flags;
      WrittenOrder(f);
      if f in s {
        FieldIsParsed(WRITTEN, info, s, f, into);
      } else if f in flags {
        FieldIsAbsent(WRITTEN, info, s, f, into);
      }
      DeserializedMerges(info, flags, order[1..], if f in s then Put(f, into, Get(f, info)) else into);
    }
  }

  lemma PutRestrict(f: Flag, info: Info, s: set<Flag>)
    requires IsNumeric(f) && Fits(f, info)
    ensures Put(f, Restrict(info, s), Get(f, info)) == Restrict(info, s + {f})
  {
  }

  lemma {:induction false} MergeRestricts(order: seq<Flag>, s: set<Flag>, info: Info, done: set<Flag>)
    requires forall f | f in order :: IsNumeric(f)
    requires forall f | f in s && f in order :: IsNumeric(f) && Fits(f, info)
    ensures Merge(order, s, info, Restrict(info, done)) == Restrict(info, done + set f | f in order && f in s)
  {
    var all := set f | f in order && f in s;
    if order == [] {
      assert done + all == done;
    } else {
      var f, tail := order[0], order[1..];
      var next := if f in s then done + {f} else done;
      if f in s { PutRestrict(f, info, done); }
      MergeRestricts(tail, s, info, next);
      assert order == [f] + tail;
      assert next + (set g | g in tail && g in s) == done + all;
    }
  }

  /**
   Deserialising what was serialised for a subset of the numeric fields gives back exactly those
   fields, if and only if the search for the whole CRC cannot be misled by the name of the part CRC.
   */
  lemma NumericFieldsSurvive(info: Info, flags: set<Flag>)
    requires forall f | f in flags :: IsNumeric(f)
    requires forall f | f in flags * info.flags :: Fits(f, info)
    ensures Deserialized(Serialized(info, flags), flags, SOUGHT, ZERO) == Restrict(info, flags * info.flags)
       <==> !CrcMistaken(info, flags)
  {
    var s := flags * info.flags;
    if CrcMistaken(info, flags) {
      CrcIsMistaken(info, flags);
    } else {
      DeserializedMerges(info, flags, SOUGHT, ZERO);
      assert ZERO == Restrict(info, {});
      MergeRestricts(SOUGHT, s, info, {});
      forall f | f in s ensures f in SOUGHT { WrittenOrder(f); }
      assert {} + (set f | f in SOUGHT && f in s) == s;
    }
  }

  /** With only the part CRC written, the search for "crc32=" ends inside "pcrc32=". */
  lemma CrcIsMistaken(info: Info, flags: set<Flag>)
    requires CrcMistaken(info, flags)
    ensures CrcF in Deserialized(Serialized(info, flags), flags, SOUGHT, ZERO).flags
  {
    var s := flags * info.flags;
    WrittenOrder(PartCrcF);
    WrittenOrder(CrcF);
    ItemsLookup(WRITTEN, s, info, PartCrcF);
    LookupOccurs(Items(WRITTEN, s, info), RAW_PCRC32);
    NameInsideName(Text(Items(WRITTEN, s, info)), Lookup(Items(WRITTEN, s, info), RAW_PCRC32).value + 1);
    FlagIsKept(Text(Items(WRITTEN, s, info)), flags, SOUGHT, ZERO);
  }

  lemma NameInsideName(text: seq<byte>, p: nat)
    requires OccursAt(text, RAW_PCRC32, p)
    ensures Find(text, RAW_CRC32, false).Some?
  {
    var q := p + 1;
    assert text[q..q + 6] == text[p..p + 7][1..] == RAW_CRC32;
    assert text[p] == text[p..p + 7][0] == 112;
    forall k | 1 <= k < 6 && k <= q ensures text[q - k..q] != RAW_CRC32[..k] {
      assert text[q - k..q][k - 1] == 112 && RAW_CRC32[..k][k - 1] == RAW_CRC32[k - 1];
    }
    UnprefixedIsFound(text, RAW_CRC32, q);
  }

  lemma {:induction false} LookupOccurs(items: seq<Item>, raw: seq<byte>)
    requires Lookup(items, raw).Some?
    ensures OccursAt(Text(items), raw, Lookup(items, raw).value + 1)
  {
    var head, tail := ItemText(items[0]), Text(items[1..]);
    if items[0].raw == raw {
      assert (head + tail)[1..1 + |raw|] == raw;
    } else {
      LookupOccurs(items[1..], raw);
      var p := Lookup(items[1..], raw).value + 1;
      assert (head + tail)[|head| + p..|head| + p + |raw|] == tail[p..p + |raw|];
    }
  }

  lemma {:induction false} FlagIsKept(text: seq<byte>, flags: set<Flag>, order: seq<Flag>, into: Info)
    requires forall f | f in order :: IsNumeric(f)
    requires CrcF in flags && Find(text, RAW_CRC32, false).Some?
    ensures CrcF in order || CrcF in into.flags ==> CrcF in Deserialized(text, flags, order, into).flags
  {
    if order != [] {
      var f := order[0];
      FlagIsKept(text, flags, order[1..], if f in flags then ParseField(text, f, into) else into);
    }
  }
}
