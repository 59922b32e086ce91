/** Lines of attributes, such as " line=128 size=500", and what the tag search finds in them. */
module Attributes {
  import opened Bytes
  import opened TagSearch

  datatype Item = Item(raw: seq<byte>, value: seq<byte>)

  /** An attribute name: it ends in its only equals sign and holds no space. */
  predicate IsName(raw: seq<byte>) {
    |raw| > 1 && raw[|raw| - 1] == EQUALS && EQUALS !in raw[..|raw| - 1] && SPACE !in raw
  }

  predicate IsValue(value: seq<byte>) {
    SPACE !in value && EQUALS !in value
  }

  predicate IsItem(it: Item) {
    IsName(it.raw) && IsValue(it.value)
  }

  predicate AreItems(items: seq<Item>) {
    forall it | it in items :: IsItem(it)
  }

  function Spaced(raw: seq<byte>): seq<byte> {
    [SPACE] + raw
  }

  function ItemText(it: Item): seq<byte> {
    [SPACE] + it.raw + it.value
  }

  function Text(items: seq<Item>): seq<byte> {
    if items == [] then [] else ItemText(items[0]) + Text(items[1..])
  }

  /** The place in the text of the first item with a given name. */
  function Lookup(items: seq<Item>, raw: seq<byte>): Option<nat> {
    if items == [] then None
    else if items[0].raw == raw then Some(0)
    else Shift(Lookup(items[1..], raw), |ItemText(items[0])|)
  }

  /** The value of the first item with a given name. */
  function ValueOf(items: seq<Item>, raw: seq<byte>): seq<byte>
    requires Lookup(items, raw).Some?
  {
    if items[0].raw == raw then items[0].value else ValueOf(items[1..], raw)
  }

  /** What stands behind the name of a looked-up item: its value, then a space or the rest. */
  lemma {:induction false} TextAtLookup(items: seq<Item>, rest: seq<byte>, raw: seq<byte>) returns (more: seq<byte>)
    requires Lookup(items, raw).Some?
    ensures var text, q := Text(items) + rest, Lookup(items, raw).value + 1 + |raw|;
            && q <= |Text(items)| && text[q..] == ValueOf(items, raw) + more
            && (more == rest || (more != [] && more[0] == SPACE))
  {
    var head, tail := ItemText(items[0]), Text(items[1..]);
    assert Text(items) + rest == head + (tail + rest);
    if items[0].raw == raw {
      more := tail + rest;
      assert more == rest || more[0] == SPACE;
      assert head[1 + |raw|..] == items[0].value;
    } else {
      more := TextAtLookup(items[1..], rest, raw);
    }
  }

  lemma {:induction false} TextConcat(a: seq<Item>, b: seq<Item>, raw: seq<byte>)
    ensures Text(a + b) == Text(a) + Text(b)
    ensures Lookup(a + b, raw) ==
            if Lookup(a, raw).Some? then Lookup(a, raw) else Shift(Lookup(b, raw), |Text(a)|)
  {
    if a == [] {
      assert a + b == b;
    } else {
      assert (a + b)[1..] == a[1..] + b;
      TextConcat(a[1..], b, raw);
    }
  }

  /** The only equals sign of an item ends its name, and its only space starts it. */
  lemma ItemChars(it: Item, k: nat)
    requires IsItem(it) && k < |ItemText(it)|
    ensures ItemText(it)[k] == EQUALS <==> k == |it.raw|
    ensures ItemText(it)[k] == SPACE <==> k == 0
  {
    if 0 < k <= |it.raw| {
      assert it.raw[k - 1] in it.raw;
      NameChars(it.raw, k - 1);
    } else if |it.raw| < k {
      assert it.value[k - 1 - |it.raw|] in it.value;
    }
  }

  lemma NameChars(raw: seq<byte>, k: nat)
    requires IsName(raw) && k < |raw|
    ensures raw[k] == EQUALS <==> k == |raw| - 1
  {
    if k < |raw| - 1 { assert raw[..|raw| - 1][k] in raw[..|raw| - 1]; }
  }

  /** Where an attribute name occurs in an item, it is a suffix of the item's name. */
  lemma OccurrenceInItem(it: Item, raw: seq<byte>, p: nat)
    requires IsItem(it) && IsName(raw) && OccursAt(ItemText(it), raw, p)
    ensures p + |raw| == 1 + |it.raw| && p > 0 && Suffix(raw, it.raw)
  {
    var text := ItemText(it);
    assert text[p + |raw| - 1] == text[p..p + |raw|][|raw| - 1] == EQUALS;
    ItemChars(it, p + |raw| - 1);
    assert text[p] == text[p..p + |raw|][0] == raw[0];
    ItemChars(it, p);
    assert it.raw[|it.raw| - |raw|..] == text[p..p + |raw|];
  }

  predicate Suffix(a: seq<byte>, b: seq<byte>) {
    |a| <= |b| && b[|b| - |a|..] == a
  }

  // ----- searching for a name with its leading space

  lemma SpacedOccurrence(it: Item, raw: seq<byte>, p: nat)
    requires IsItem(it) && IsName(raw) && OccursAt(ItemText(it), Spaced(raw), p)
    ensures p == 0 && it.raw == raw
  {
    var text, tag := ItemText(it), Spaced(raw);
    assert text[p] == text[p..p + |tag|][0] == SPACE;
    ItemChars(it, p);
    assert text[1..1 + |raw|] == text[p..p + |tag|][1..] == raw;
    OccurrenceInItem(it, raw, 1);
    assert it.raw == text[1..1 + |raw|];
  }

  /** An item never ends inside an unfinished match. */
  lemma NoOpenMatch(it: Item, raw: seq<byte>)
    requires IsItem(it) && IsName(raw)
    ensures EndState(ItemText(it), Spaced(raw), 0, 0) == 0
  {
    var text, tag := ItemText(it), Spaced(raw);
    EndStateMatched(text, tag, 0, 0);
    var k := EndState(text, tag, 0, 0);
    ItemChars(it, |it.raw|);
    forall j | 0 < j < |tag| ensures tag[j] == EQUALS <==> j == |raw| { NameChars(raw, j - 1); }
    if k > 0 {
      ItemChars(it, |text| - k);
      assert false;
    }
  }

  lemma SpacedInItem(it: Item, raw: seq<byte>)
    requires IsItem(it) && IsName(raw)
    ensures Find(ItemText(it), Spaced(raw), false) == if it.raw == raw then Some(0) else None
  {
    var text, tag := ItemText(it), Spaced(raw);
    PlainSearchExact(text, tag);
    if Find(text, tag, false).Some? {
      SpacedOccurrence(it, raw, Find(text, tag, false).value);
    }
    if it.raw == raw {
      assert OccursAt(text, tag, 0);
      UnprefixedIsFound(text, tag, 0);
    }
  }

  /** In a line of attributes, the first one with the name is found; failing that, what follows decides. */
  lemma {:induction false} FindSpaced(items: seq<Item>, rest: seq<byte>, raw: seq<byte>)
    requires AreItems(items) && IsName(raw)
    ensures Find(Text(items) + rest, Spaced(raw), false) ==
            var r := Lookup(items, raw);
            if r.Some? then r else Shift(Find(rest, Spaced(raw), false), |Text(items)|)
  {
    if items == [] {
      assert Text(items) + rest == rest;
    } else {
      SpacedInItem(items[0], raw);
      NoOpenMatch(items[0], raw);
      assert Text(items) + rest == ItemText(items[0]) + (Text(items[1..]) + rest);
      FindConcat(ItemText(items[0]), Text(items[1..]) + rest, Spaced(raw));
      FindSpaced(items[1..], rest, raw);
    }
  }

  // ----- searching for a bare name

  lemma RawInItem(it: Item, raw: seq<byte>)
    requires IsItem(it) && IsName(raw) && (it.raw == raw || !Suffix(raw, it.raw))
    ensures Find(ItemText(it), raw, false) == if it.raw == raw then Some(1) else None
  {
    hide Scan, Find, IsValue, Attempt;
    var text := ItemText(it);
    PlainSearchExact(text, raw);
    if Find(text, raw, false).Some? {
      OccurrenceInItem(it, raw, Find(text, raw, false).value);
    }
    if it.raw == raw {
      assert OccursAt(text, raw, 1);
      assert text[0..1][0] == SPACE && raw[..1][0] in raw;
      UnprefixedIsFound(text, raw, 1);
    }
  }

  /** No item before the first one with the name has a name that merely ends in it. */
  predicate Unshadowed(items: seq<Item>, raw: seq<byte>) {
    items == [] || items[0].raw == raw || (!Suffix(raw, items[0].raw) && Unshadowed(items[1..], raw))
  }

  /** A bare name finds its attribute when no earlier attribute's name ends in it. */
  lemma {:induction false} FindRaw(items: seq<Item>, raw: seq<byte>)
    requires AreItems(items) && IsName(raw) && Unshadowed(items, raw)
    ensures Find(Text(items), raw, false) == Shift(Lookup(items, raw), 1)
  {
    if items != [] {
      RawInItem(items[0], raw);
      FindConcat(ItemText(items[0]), Text(items[1..]), raw);
      if items[0].raw != raw {
        FindRaw(items[1..], raw);
      }
    }
  }
}
