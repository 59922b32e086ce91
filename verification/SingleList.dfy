/** Singly linked lists, which end in a null pointer. */
module SingleList {
  class Entry {
    var Next: Entry?

    constructor ()
      ensures Next == null
    {
      Next := null;
    }
  }

  /** The list from an entry on: its head, then the entries, in this order. */
  ghost predicate Chain(s: seq<Entry>)
    reads s
  {
    && s != []
    && (forall i, j | 0 <= i < j < |s| :: s[i] != s[j])
    && (forall i, j | 0 <= i && j == i + 1 < |s| :: s[i].Next == s[j])
    && s[|s| - 1].Next == null
  }

  method PopEntryList(head: Entry, ghost es: seq<Entry>) returns (first: Entry?)
    requires Chain([head] + es)
    modifies head
    ensures if es == [] then first == null && Chain([head]) else first == es[0] && Chain([head] + es[1..])
  {
    ghost var s := [head] + es;
    first := head.Next;
    if es != [] { assert s[0].Next == s[1]; }
    if |es| > 1 { assert s[1].Next == s[2]; }
    if first != null {
      head.Next := first.Next;
    }
    ghost var t := if es == [] then [head] else [head] + es[1..];
    assert forall k | 1 <= k < |t| :: t[k] == s[k + 1];
    forall i, j | 0 <= i && j == i + 1 < |t| ensures t[i].Next == t[j] {
      if i > 0 { assert s[i + 1].Next == s[j + 1]; }
    }
  }

  method PushEntryList(head: Entry, entry: Entry, ghost es: seq<Entry>)
    requires Chain([head] + es) && entry !in [head] + es
    modifies head, entry
    ensures Chain([head] + [entry] + es)
  {
    ghost var s, t := [head] + es, [head] + [entry] + es;
    if es != [] { assert s[0].Next == s[1]; }
    assert forall k | 2 <= k < |t| :: t[k] == s[k - 1];
    entry.Next := head.Next;
    head.Next := entry;
    forall i, j | 0 <= i && j == i + 1 < |t| ensures t[i].Next == t[j] {
      if i >= 2 { assert s[i - 1].Next == s[j - 1]; }
    }
  }

  /** Walk to the last entry, and hang another one on it. */
  method AppendEntryList(head: Entry, entry: Entry, ghost es: seq<Entry>)
    requires Chain([head] + es) && entry !in [head] + es
    modifies [head] + es, entry
    ensures Chain([head] + es + [entry])
  {
    ghost var s := [head] + es;
    ghost var k := 0;
    var last := head;
    while last.Next != null
      invariant 0 <= k < |s| && last == s[k]
      decreases |s| - k
    {
      assert k < |s| - 1;
      assert s[k].Next == s[k + 1];
      last := last.Next;
      k := k + 1;
    }
    LastIs(s, k);
    entry.Next := null;
    last.Next := entry;
  }

  lemma LastIs(s: seq<Entry>, k: nat)
    requires Chain(s) && k < |s|
    ensures s[k].Next == null <==> k == |s| - 1
  {
    if k < |s| - 1 { assert s[k].Next == s[k + 1]; }
  }
}
