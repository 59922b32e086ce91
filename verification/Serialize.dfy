/** The numeric fields of a record as text, and their way back. */
module Serialize {
  import opened Attributes
  import opened Bytes
  import opened EncodeInfo
  import opened Numbers
  import opened TagSearch

  /** The fields in the order they are written, and in the order they are looked for. */
  const WRITTEN: seq<Flag> :=
    [LineF, SizeF, OffsetF, EscapeF, EscOffF, BeginF, EndF, PartF, TotalF, CrcF, PartCrcF]
  const SOUGHT: seq<Flag> :=
    [LineF, SizeF, BeginF, EndF, OffsetF, EscapeF, EscOffF, PartF, TotalF, CrcF, PartCrcF]

  predicate IsNumeric(f: Flag) {
    match f
    case SizeActualF => false
    case NameF => false
    case CompF => false
    case UnicodeNameF => false
    case Version1F => false
    case Version2F => false
    case _ => true
  }

  function Raw(f: Flag): seq<byte>
    requires IsNumeric(f)
  {
    match f
    case LineF => RAW_LINE
    case SizeF => RAW_SIZE
    case OffsetF => RAW_OFFSET
    case EscapeF => RAW_ESCAPE
    case EscOffF => RAW_ESCOFF
    case BeginF => RAW_BEGIN
    case EndF => RAW_END
    case PartF => RAW_PART
    case TotalF => RAW_TOTAL
    case CrcF => RAW_CRC32
    case PartCrcF => RAW_PCRC32
  }

  predicate IsHex(f: Flag) { f.CrcF? || f.PartCrcF? }

  function Get(f: Flag, info: Info): nat
    requires IsNumeric(f)
  {
    match f
    case LineF => info.line
    case SizeF => info.size
    case OffsetF => info.offset
    case EscapeF => info.escape
    case EscOffF => info.escOff
    case BeginF => info.begin
    case EndF => info.end
    case PartF => info.part
    case TotalF => info.total
    case CrcF => info.crc
    case PartCrcF => info.partCrc
  }

  /** Store a parsed number, cut to the width of the field. */
  function Put(f: Flag, info: Info, v: nat): Info
    requires IsNumeric(f)
  {
    var i := info.(flags := info.flags + {f});
    match f
    case LineF => i.(line := Wrap16(v))
    case SizeF => i.(size := v)
    case OffsetF => i.(offset := Wrap8(v))
    case EscapeF => i.(escape := Wrap8(v))
    case EscOffF => i.(escOff := Wrap8(v))
    case BeginF => i.(begin := v)
    case EndF => i.(end := v)
    case PartF => i.(part := Wrap16(v))
    case TotalF => i.(total := Wrap16(v))
    case CrcF => i.(crc := v)
    case PartCrcF => i.(partCrc := v)
  }

  predicate Fits(f: Flag, info: Info)
    requires IsNumeric(f)
  {
    var v := Get(f, info);
    match f
    case LineF => v < USHORT
    case PartF => v < USHORT
    case TotalF => v < USHORT
    case _ => v < WORD
  }

  function Print(f: Flag, info: Info): seq<byte>
    requires IsNumeric(f)
  {
    if IsHex(f) then Hex(Get(f, info), HEX_DIGITS) else Dec(Get(f, info))
  }

  /** The attributes written for the selected fields, in order. */
  function Items(order: seq<Flag>, selected: set<Flag>, info: Info): seq<Item>
    requires forall f | f in order :: IsNumeric(f)
  {
    if order == [] then []
    else
      var rest := Items(order[1..], selected, info);
      if order[0] in selected then [Item(Raw(order[0]), Print(order[0], info))] + rest else rest
  }

  function Serialized(info: Info, flags: set<Flag>): seq<byte> {
    Text(Items(WRITTEN, flags * info.flags, info))
  }

  /** Append the numeric fields to a bounded buffer; false when it is too small. */
  method SerializeEncodeInfo(pei: Record, flags: set<Flag>, capacity: nat) returns (ok: bool, text: seq<byte>)
    ensures ok <==> Serialized(pei.info, flags) == [] || |Serialized(pei.info, flags)| < capacity
    ensures ok ==> text == Serialized(pei.info, flags)
  {
    ok, text := AppendFields(WRITTEN, pei, flags * pei.info.flags, capacity);
  }

  method AppendFields(order: seq<Flag>, pei: Record, selected: set<Flag>, capacity: nat)
    returns (ok: bool, text: seq<byte>)
    requires forall f | f in order :: IsNumeric(f)
    ensures var whole := Text(Items(order, selected, pei.info));
            && (ok <==> whole == [] || |whole| < capacity)
            && (ok ==> text == whole)
  {
    text := [];
    ghost var whole := Text(Items(order, selected, pei.info));
    for i := 0 to |order|
      invariant text == [] || |text| < capacity
      invariant text + Text(Items(order[i..], selected, pei.info)) == whole
    {
      var f := order[i];
      ghost var rest := Text(Items(order[i + 1..], selected, pei.info));
      assert order[i..][1..] == order[i + 1..];
      if f in selected {
        var it := Item(Raw(f), Print(f, pei.info));
        ghost var items := Items(order[i..], selected, pei.info);
        assert items[0] == it && items[1..] == Items(order[i + 1..], selected, pei.info);
        assert whole == (text + ItemText(it)) + rest;
        if |text| + |ItemText(it)| >= capacity {
          return false, text;
        }
        text := text + ItemText(it);
      }
    }
    assert Text(Items(order[|order|..], selected, pei.info)) == [];
    ok := true;
  }

  function ReadField(text: seq<byte>, f: Flag, p: nat): nat
    requires IsNumeric(f) && p <= |text|
  {
    if IsHex(f) then ReadHex(text, p) else ReadDec(text, p)
  }

  function ParseField(text: seq<byte>, f: Flag, info: Info): Info
    requires IsNumeric(f)
  {
    match Find(text, Raw(f), false)
    case None => info
    case Some(p) => Put(f, info, ReadField(text, f, p + |Raw(f)|))
  }

  function Deserialized(text: seq<byte>, flags: set<Flag>, order: seq<Flag>, info: Info): Info
    requires forall f | f in order :: IsNumeric(f)
  {
    if order == [] then info
    else
      var i := if order[0] in flags then ParseField(text, order[0], info) else info;
      Deserialized(text, flags, order[1..], i)
  }

  method DeserializeEncodeInfo(text: seq<byte>, flags: set<Flag>, pei: Record)
    modifies pei
    ensures pei.info == Deserialized(text, flags, SOUGHT, old(pei.info))
  {
    ParseFields(SOUGHT, text, flags, pei);
  }

  method ParseFields(order: seq<Flag>, text: seq<byte>, flags: set<Flag>, pei: Record)
    requires forall f | f in order :: IsNumeric(f)
    modifies pei
    ensures pei.info == Deserialized(text, flags, order, old(pei.info))
  {
    for i := 0 to |order|
      invariant Deserialized(text, flags, order[i..], pei.info) == Deserialized(text, flags, order, old(pei.info))
    {
      var f := order[i];
      assert order[i..][1..] == order[i + 1..];
      if f in flags {
        var tag := FindTag(text, Raw(f), false);
        if tag.Some? {
          var from := tag.value + |Raw(f)|;
          var v;
          if IsHex(f) {
            v := StrToUint(text[from..Min(|text|, from + HEX_DIGITS)], 16);
          } else {
            v := StrToUint(text[from..Min(|text|, from + DEC_DIGITS)], 10);
          }
          pei.info := Put(f, pei.info, v);
        }
      }
    }
  }
}
