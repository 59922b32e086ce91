/** Circular doubly linked lists: splicing pointers against sequences of entries. */
module CircularList {
  class Entry {
    var Flink: Entry
    var Blink: Entry

    /** A new entry is a ring of its own. */
    constructor ()
      ensures Ring([this])
    {
      Flink, Blink := this, this;
    }
  }

  /** Two entries point at each other. */
  ghost predicate Linked(a: Entry, b: Entry)
    reads a, b
  {
    a.Flink == b && b.Blink == a
  }

  predicate Distinct(s: seq<Entry>) {
    forall i, j | 0 <= i < j < |s| :: s[i] != s[j]
  }

  predicate Apart(s: seq<Entry>, t: seq<Entry>) { forall e | e in s :: e !in t }

  lemma DistinctParts(s: seq<Entry>, t: seq<Entry>)
    ensures Distinct(s + t) <==> Distinct(s) && Distinct(t) && Apart(s, t)
  {
    var all := s + t;
    forall i, j | 0 <= i < j < |all|
      ensures j < |s| ==> all[i] == s[i] && all[j] == s[j]
      ensures i >= |s| ==> all[i] == t[i - |s|] && all[j] == t[j - |s|]
      ensures i < |s| <= j ==> all[i] == s[i] && all[i] in s && all[j] == t[j - |s|] && all[j] in t
    {
    }
    if Distinct(all) {
      forall i, j | 0 <= i < j < |s| ensures s[i] != s[j] { assert all[i] != all[j]; }
      forall i, j | 0 <= i < j < |t| ensures t[i] != t[j] { assert all[|s| + i] != all[|s| + j]; }
      forall e | e in s ensures e !in t {
        var i :| 0 <= i < |s| && s[i] == e;
        forall j | 0 <= j < |t| ensures t[j] != e { assert all[i] != all[|s| + j]; }
      }
    }
  }

  /** The entries lie in a circle, in this order; every forward and backward pointer agree. */
  ghost predicate Ring(s: seq<Entry>)
    reads s
  {
    && s != [] && Distinct(s)
    && (forall i, j | 0 <= i && j == i + 1 < |s| :: Linked(s[i], s[j]))
    && Linked(s[|s| - 1], s[0])
  }

  /** A circle has no beginning. */
  lemma RingRotates(a: seq<Entry>, b: seq<Entry>)
    requires Ring(a + b)
    ensures Ring(b + a)
  {
    if a == [] || b == [] {
      assert b + a == a + b;
    } else {
      var s, t := a + b, b + a;
      DistinctParts(a, b);
      DistinctParts(b, a);
      forall i, j | 0 <= i && j == i + 1 < |t| ensures Linked(t[i], t[j]) {
        if j < |b| {
          assert t[i] == s[|a| + i] && t[j] == s[|a| + j];
        } else if i >= |b| {
          assert t[i] == s[i - |b|] && t[j] == s[j - |b|];
        } else {
          assert t[i] == s[|s| - 1] && t[j] == s[0];
        }
      }
      assert Linked(s[|a| - 1], s[|a|]);
    }
  }

  /** The pointers of a ring tell its entries. */
  lemma {:induction false} RingIsDetermined(s: seq<Entry>, t: seq<Entry>)
    requires Ring(s) && Ring(t) && s[0] == t[0]
    ensures s == t
  {
    var n := if |s| <= |t| then |s| else |t|;
    SamePrefix(s, t, n);
    RingEnd(s, n);
    RingEnd(t, n);
  }

  lemma RingEnd(s: seq<Entry>, k: nat)
    requires Ring(s) && 0 < k <= |s|
    ensures s[k - 1].Flink == s[0] <==> k == |s|
  {
    if k < |s| { assert Linked(s[k - 1], s[k]); }
  }

  lemma {:induction false} SamePrefix(s: seq<Entry>, t: seq<Entry>, n: nat)
    requires Ring(s) && Ring(t) && s[0] == t[0] && n <= |s| && n <= |t|
    ensures forall i | 0 <= i < n :: s[i] == t[i]
  {
    if n > 1 {
      SamePrefix(s, t, n - 1);
      assert Linked(s[n - 2], s[n - 1]) && Linked(t[n - 2], t[n - 1]);
    }
  }

  method InitializeListHead(head: Entry)
    modifies head
    ensures Ring([head])
  {
    head.Flink, head.Blink := head, head;
  }

  method IsListEmpty(head: Entry, ghost es: seq<Entry>) returns (empty: bool)
    requires Ring([head] + es)
    ensures empty <==> es == []
  {
    empty := head.Flink == head;
    if es != [] { assert Linked(([head] + es)[0], ([head] + es)[1]); }
  }

  method InsertTailList(head: Entry, entry: Entry, ghost es: seq<Entry>)
    requires Ring([head] + es) && entry !in [head] + es
    modifies head, head.Blink, entry
    ensures Ring([head] + es + [entry])
  {
    ghost var s := [head] + es;
    var blink := head.Blink;
    entry.Flink := head;
    entry.Blink := blink;
    blink.Flink := entry;
    head.Blink := entry;
    assert blink == s[|s| - 1];
    DistinctParts(s, [entry]);
  }

  method InsertHeadList(head: Entry, entry: Entry, ghost es: seq<Entry>)
    requires Ring([head] + es) && entry !in [head] + es
    modifies head, head.Flink, entry
    ensures Ring([head] + [entry] + es)
  {
    ghost var s, t := [head] + es, [head] + [entry] + es;
    DistinctParts([head], es);
    DistinctParts([entry], es);
    DistinctParts([head], [entry] + es);
    assert t == [head] + ([entry] + es);
    var flink := head.Flink;
    assert flink == if es == [] then head else s[1];
    entry.Flink := flink;
    entry.Blink := head;
    flink.Blink := entry;
    head.Flink := entry;
    forall i, j | 0 <= i && j == i + 1 < |t| ensures Linked(t[i], t[j]) {
      if i >= 2 { assert t[i] == s[i - 1] && t[j] == s[j - 1]; }
    }
  }

  /** Take an entry out of its ring; true when at most one other entry was in it. */
  method RemoveEntryList(entry: Entry, ghost es: seq<Entry>) returns (last: bool)
    requires Ring([entry] + es)
    modifies entry.Flink, entry.Blink
    ensures es != [] ==> Ring(es)
    ensures last <==> |es| <= 1
  {
    ghost var s := [entry] + es;
    DistinctParts([entry], es);
    var flink := entry.Flink;
    var blink := entry.Blink;
    if es != [] { assert Linked(s[0], s[1]); }
    assert blink == s[|s| - 1];
    blink.Flink := flink;
    flink.Blink := blink;
    forall i, j | 0 <= i && j == i + 1 < |es| ensures Linked(es[i], es[j]) {
      assert es[i] == s[i + 1] && es[j] == s[j + 1];
    }
    last := flink == blink;
  }

  method RemoveHeadList(head: Entry, ghost es: seq<Entry>) returns (entry: Entry)
    requires Ring([head] + es)
    modifies head, head.Flink.Flink
    ensures if es == [] then entry == head && Ring([head]) else entry == es[0] && Ring([head] + es[1..])
  {
    ghost var s, t := [head] + es, if es == [] then [head] else [head] + es[1..];
    DistinctParts([head], es);
    if es != [] {
      assert es == [es[0]] + es[1..];
      DistinctParts([es[0]], es[1..]);
      DistinctParts([head], es[1..]);
    }
    entry := head.Flink;
    var flink := entry.Flink;
    if es != [] { assert Linked(s[0], s[1]); }
    if |es| > 1 { assert Linked(s[1], s[2]); }
    head.Flink := flink;
    flink.Blink := head;
    forall i, j | 0 <= i && j == i + 1 < |t| ensures Linked(t[i], t[j]) {
      if i >= 1 { assert t[i] == s[i + 1] && t[j] == s[j + 1]; }
    }
  }

  method RemoveTailList(head: Entry, ghost es: seq<Entry>) returns (entry: Entry)
    requires Ring([head] + es)
    modifies head, head.Blink.Blink
    ensures if es == [] then entry == head && Ring([head])
            else entry == es[|es| - 1] && Ring([head] + es[..|es| - 1])
  {
    ghost var s, t := [head] + es, if es == [] then [head] else [head] + es[..|es| - 1];
    if es != [] {
      assert s == t + [s[|s| - 1]];
      DistinctParts(t, [s[|s| - 1]]);
    }
    entry := head.Blink;
    var blink := entry.Blink;
    assert entry == s[|s| - 1];
    if es != [] { assert Linked(s[|s| - 2], s[|s| - 1]); }
    head.Blink := blink;
    blink.Flink := head;
    forall i, j | 0 <= i && j == i + 1 < |t| ensures Linked(t[i], t[j]) {
      assert t[i] == s[i] && t[j] == s[j];
    }
  }

  /** Splice a whole ring, without a head of its own, in at the end of a list. */
  method AppendTailList(head: Entry, listToAppend: Entry, ghost es: seq<Entry>, ghost ring: seq<Entry>)
    requires Ring([head] + es) && Ring(ring) && ring[0] == listToAppend && Apart([head] + es, ring)
    modifies head, head.Blink, listToAppend, listToAppend.Blink
    ensures Ring([head] + es + ring)
  {
    ghost var s, t := [head] + es, [head] + es + ring;
    DistinctParts(s, ring);
    var listEnd := head.Blink;
    head.Blink.Flink := listToAppend;
    head.Blink := listToAppend.Blink;
    listToAppend.Blink.Flink := head;
    listToAppend.Blink := listEnd;
    assert listEnd == s[|s| - 1];
    forall i, j | 0 <= i && j == i + 1 < |t| ensures Linked(t[i], t[j]) {
      assert s[0] in s && s[|s| - 1] in s && ring[0] in ring && ring[|ring| - 1] in ring;
      if j < |s| {
        assert t[i] == s[i] && t[i] in s && t[j] == s[j] && t[j] in s;
      } else if i >= |s| {
        assert t[i] == ring[i - |s|] && t[i] in ring && t[j] == ring[j - |s|] && t[j] in ring;
      }
    }
  }

  method PrependHeadList(head: Entry, listToPrepend: Entry, ghost es: seq<Entry>, ghost ring: seq<Entry>)
    requires Ring([head] + es) && Ring(ring) && ring[0] == listToPrepend && Apart([head] + es, ring)
    modifies head, head.Flink, listToPrepend, listToPrepend.Blink
    ensures Ring([head] + ring + es)
  {
    ghost var s, t := [head] + es, [head] + ring + es;
    DistinctParts([head], es);
    assert (forall e | e in es :: e in s) && head in s && forall e | e in s :: e !in ring;
    assert Apart([head] + ring, es) && Apart([head], ring);
    DistinctParts([head] + ring, es);
    DistinctParts([head], ring);
    var listEnd := listToPrepend.Blink;
    assert s[|s| - 1] in s && t[|t| - 1] == if es == [] then listEnd else s[|s| - 1];
    if es != [] { assert Linked(s[0], s[1]); }
    listEnd.Flink := head.Flink;
    head.Flink.Blink := listEnd;
    head.Flink := listToPrepend;
    listToPrepend.Blink := head;
    var n := |ring|;
    forall i, j | 0 <= i && j == i + 1 < |t| ensures Linked(t[i], t[j]) {
      assert s[0] in s && ring[0] in ring && ring[n - 1] in ring;
      if es != [] { assert s[1] in s; }
      if 1 <= i && j <= n {
        assert t[i] == ring[i - 1] && t[i] in ring && t[j] == ring[j - 1] && t[j] in ring;
      } else if i > n {
        assert t[i] == s[i - n] && t[i] in s && t[j] == s[j - n] && t[j] in s;
      } else if i == n {
        assert t[j] == s[1];
      }
    }
  }

  /** Empty a list; its entries become a ring without a head. */
  method FlushList(head: Entry, ghost es: seq<Entry>) returns (entry: Entry)
    requires Ring([head] + es)
    modifies head, head.Flink, head.Blink
    ensures Ring([head])
    ensures if es == [] then entry == head else entry == es[0] && Ring(es)
  {
    ghost var s := [head] + es;
    DistinctParts([head], es);
    entry := head.Flink;
    var blink := head.Blink;
    if es != [] { assert Linked(s[0], s[1]); }
    entry.Blink := blink;
    blink.Flink := entry;
    InitializeListHead(head);
    forall i, j | 0 <= i && j == i + 1 < |es| ensures Linked(es[i], es[j]) {
      assert es[i] == s[i + 1] && es[j] == s[j + 1];
    }
  }

  /** Flushing a list and splicing its entries back, at either end, restores it. */
  method FlushAndRestore(head: Entry, ghost es: seq<Entry>, atTail: bool)
    requires Ring([head] + es) && es != []
    modifies head, es
    ensures Ring([head] + es)
  {
    ghost var s := [head] + es;
    assert head == s[0] && head.Blink == s[|s| - 1] && Linked(s[0], s[1]);
    var entry := FlushList(head, es);
    DistinctParts([head], es);
    if atTail {
      AppendTailList(head, entry, [], es);
      assert [head] + [] + es == s;
    } else {
      PrependHeadList(head, entry, [], es);
      assert [head] + es + [] == s;
    }
  }
}
