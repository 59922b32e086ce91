/**
 Joining attachments whose names belong together. Every attachment that is still in the array when
 it is reached leads a group: those from there on whose names contain its own, in any case.
 */
module Combine {
  import opened Bytes

  type Name = seq<byte>

  /** An attachment; one without a name is left alone. */
  datatype Entry = Entry(name: Option<Name>, data: seq<byte>)

  /** A joined attachment, and the size that was set aside for it. */
  datatype Output = Output(name: Name, data: seq<byte>, reserved: nat)

  /** Folding characters takes care of the case, in whatever code page. */
  type Fold = byte -> byte

  function Folded(s: Name, fold: Fold): (r: Name)
    ensures |r| == |s| && forall k | 0 <= k < |s| :: r[k] == fold(s[k])
  {
    seq(|s|, k requires 0 <= k < |s| => fold(s[k]))
  }

  /** part occurs in whole at p, in any case. */
  predicate PartAt(part: Name, whole: Name, p: nat, fold: Fold) {
    p + |part| <= |whole| && Folded(whole[p..p + |part|], fold) == Folded(part, fold)
  }

  predicate Contains(whole: Name, part: Name, fold: Fold) {
    exists p: nat | p <= |whole| :: PartAt(part, whole, p, fold)
  }

  /** A name contains another exactly if it is made of something, the other name in any case, and something. */
  lemma ContainsBetween(x: Name, y: Name, z: Name, part: Name, fold: Fold)
    requires |y| == |part| && forall k | 0 <= k < |y| :: fold(y[k]) == fold(part[k])
    ensures Contains(x + y + z, part, fold)
  {
    assert (x + y + z)[|x|..|x| + |part|] == y;
    assert PartAt(part, x + y + z, |x|, fold);
  }

  lemma ContainedBetween(whole: Name, part: Name, fold: Fold) returns (x: Name, y: Name, z: Name)
    requires Contains(whole, part, fold)
    ensures whole == x + y + z && |y| == |part| && forall k | 0 <= k < |y| :: fold(y[k]) == fold(part[k])
  {
    var p: nat :| p <= |whole| && PartAt(part, whole, p, fold);
    x, y, z := whole[..p], whole[p..p + |part|], whole[p + |part|..];
    forall k | 0 <= k < |y| ensures fold(y[k]) == fold(part[k]) {
      assert Folded(y, fold)[k] == Folded(part, fold)[k];
    }
  }

  lemma ContainsItself(s: Name, fold: Fold)
    ensures Contains(s, s, fold)
  {
    assert s[0..|s|] == s;
    assert PartAt(s, s, 0, fold);
  }

  lemma ContainsTransitive(a: Name, b: Name, c: Name, fold: Fold)
    requires Contains(a, b, fold) && Contains(b, c, fold)
    ensures Contains(a, c, fold)
  {
    var p: nat :| p <= |a| && PartAt(b, a, p, fold);
    var q: nat :| q <= |b| && PartAt(c, b, q, fold);
    forall k | 0 <= k < |c| ensures fold(a[p + q..p + q + |c|][k]) == fold(c[k]) {
      assert Folded(a[p..p + |b|], fold)[q + k] == Folded(b, fold)[q + k];
      assert Folded(b[q..q + |c|], fold)[k] == Folded(c, fold)[k];
    }
    assert PartAt(c, a, p + q, fold);
  }

  /** The array is a sequence of attachments, some of them already removed. */
  type Slots = seq<Option<Entry>>

  predicate Named(slot: Option<Entry>) { slot.Some? && slot.value.name.Some? }

  function NameOf(slot: Option<Entry>): Name
    requires Named(slot)
  {
    slot.value.name.value
  }

  predicate Matches(slot: Option<Entry>, name: Name, fold: Fold) {
    Named(slot) && Contains(NameOf(slot), name, fold)
  }

  // ----- one group

  /** The bytes of a group, from a slot on. */
  function Members(rg: Slots, from: nat, name: Name, fold: Fold): seq<byte>
    requires from <= |rg|
    decreases |rg| - from
  {
    if from == |rg| then []
    else (if Matches(rg[from], name, fold) then rg[from].value.data else []) + Members(rg, from + 1, name, fold)
  }

  /** The size of a group; a summand that does not make the 32-bit sum larger is left out. */
  function SizeOf(rg: Slots, from: nat, name: Name, fold: Fold, sum: nat): nat
    requires from <= |rg|
    decreases |rg| - from
  {
    if from == |rg| then sum
    else if !Matches(rg[from], name, fold) then SizeOf(rg, from + 1, name, fold, sum)
    else
      var next := Wrap32(sum + |rg[from].value.data|);
      SizeOf(rg, from + 1, name, fold, if next > sum then next else sum)
  }

  /** The slots without the group. */
  function Cleared(rg: Slots, from: nat, name: Name, fold: Fold): (r: Slots)
    ensures |r| == |rg|
  {
    seq(|rg|, k requires 0 <= k < |rg| => if from <= k && Matches(rg[k], name, fold) then None else rg[k])
  }

  // ----- all groups

  function Combined(rg: Slots, idx: nat, fold: Fold): (seq<Output>, Slots)
    requires idx <= |rg|
    decreases |rg| - idx
  {
    if idx == |rg| then ([], rg)
    else if !Named(rg[idx]) then Combined(rg, idx + 1, fold)
    else
      var name := NameOf(rg[idx]);
      var output := Output(name, Members(rg, idx, name, fold), SizeOf(rg, idx, name, fold, 0));
      var (more, last) := Combined(Cleared(rg, idx, name, fold), idx + 1, fold);
      ([output] + more, last)
  }

  method QueryName(slot: Option<Entry>, name: Name, fold: Fold) returns (r: bool)
    ensures r == Matches(slot, name, fold)
  {
    if slot == None || slot.value.name == None {
      return false;
    }
    var whole := slot.value.name.value;
    for p := 0 to |whole| + 1
      invariant forall q: nat | q < p :: !PartAt(name, whole, q, fold)
    {
      if PartAt(name, whole, p, fold) {
        return true;
      }
    }
    r := false;
  }

  /** The first pass over a group: add up the sizes. */
  method AddSizes(rg: array<Option<Entry>>, idx: nat, name: Name, fold: Fold) returns (cbTotal: nat)
    requires idx <= rg.Length
    ensures cbTotal == SizeOf(rg[..], idx, name, fold, 0)
  {
    cbTotal := 0;
    for jdx := idx to rg.Length
      invariant SizeOf(rg[..], jdx, name, fold, cbTotal) == SizeOf(rg[..], idx, name, fold, 0)
    {
      var match0 := QueryName(rg[jdx], name, fold);
      if match0 {
        var cbTemp := Wrap32(cbTotal + |rg[jdx].value.data|);
        if cbTemp > cbTotal {
          cbTotal := cbTemp;
        }
      }
    }
  }

  /** The second pass over a group: move the bytes, and empty the slots. */
  method MoveData(rg: array<Option<Entry>>, idx: nat, name: Name, fold: Fold) returns (data: seq<byte>)
    requires idx <= rg.Length
    modifies rg
    ensures data == Members(old(rg[..]), idx, name, fold)
    ensures rg[..] == Cleared(old(rg[..]), idx, name, fold)
  {
    data := [];
    ghost var was := rg[..];
    for jdx := idx to rg.Length
      invariant data + Members(was, jdx, name, fold) == Members(was, idx, name, fold)
      invariant forall k | 0 <= k < idx || jdx <= k < rg.Length :: rg[k] == was[k]
      invariant forall k | idx <= k < jdx :: rg[k] == if Matches(was[k], name, fold) then None else was[k]
    {
      var match0 := QueryName(rg[jdx], name, fold);
      if match0 {
        ConcatAssoc(data, was[jdx].value.data, Members(was, jdx + 1, name, fold));
        data := data + rg[jdx].value.data;
        rg[jdx] := None;
      }
    }
  }

  function Before(outputs: seq<Output>, r: (seq<Output>, Slots)): (seq<Output>, Slots) { (outputs + r.0, r.1) }

  method CombineRelatedAttachments(rg: array<Option<Entry>>, fold: Fold) returns (outputs: seq<Output>)
    modifies rg
    ensures (outputs, rg[..]) == Combined(old(rg[..]), 0, fold)
  {
    outputs := [];
    assert [] + Combined(rg[..], 0, fold).0 == Combined(rg[..], 0, fold).0;
    for idx := 0 to rg.Length
      invariant Combined(old(rg[..]), 0, fold) == Before(outputs, Combined(rg[..], idx, fold))
    {
      if rg[idx] == None || rg[idx].value.name == None {
        continue;
      }
      var name := rg[idx].value.name.value;
      var cbTotal := AddSizes(rg, idx, name, fold);
      var data := MoveData(rg, idx, name, fold);
      ghost var more := Combined(rg[..], idx + 1, fold).0;
      ConcatAssoc(outputs, [Output(name, data, cbTotal)], more);
      outputs := outputs + [Output(name, data, cbTotal)];
    }
    assert outputs + [] == outputs;
  }

  // ----- which attachment goes where

  /** The first slot from j on whose name is contained in a given one. */
  function FirstWithin(rg: Slots, j: nat, whole: Name, fold: Fold): (r: Option<nat>)
    requires j <= |rg|
    ensures r.Some? ==> j <= r.value < |rg| && Named(rg[r.value]) && Contains(whole, NameOf(rg[r.value]), fold)
    ensures forall i | j <= i < |rg| && (r.Some? ==> i < r.value) :: !(Named(rg[i]) && Contains(whole, NameOf(rg[i]), fold))
    decreases |rg| - j
  {
    if j == |rg| then None
    else if Named(rg[j]) && Contains(whole, NameOf(rg[j]), fold) then Some(j)
    else FirstWithin(rg, j + 1, whole, fold)
  }

  /** The leader of a named attachment: the first whose name its own contains. */
  function Leader(rg: Slots, k: nat, fold: Fold): (i: nat)
    requires k < |rg| && Named(rg[k])
    ensures i <= k && Named(rg[i]) && Contains(NameOf(rg[k]), NameOf(rg[i]), fold)
    ensures forall j | 0 <= j < i && Named(rg[j]) :: !Contains(NameOf(rg[k]), NameOf(rg[j]), fold)
  {
    ContainsItself(NameOf(rg[k]), fold);
    FirstWithin(rg, 0, NameOf(rg[k]), fold).value
  }

  /** Following a leader leads no further. */
  lemma LeaderLeads(rg: Slots, k: nat, fold: Fold)
    requires k < |rg| && Named(rg[k])
    ensures Leader(rg, Leader(rg, k, fold), fold) == Leader(rg, k, fold)
  {
    var i := Leader(rg, k, fold);
    var j := Leader(rg, i, fold);
    ContainsTransitive(NameOf(rg[k]), NameOf(rg[i]), NameOf(rg[j]), fold);
  }

  /** The bytes of all attachments that have the same leader, in the order of the array. */
  function Group(rg: Slots, leader: nat, from: nat, fold: Fold): seq<byte>
    requires from <= |rg|
    decreases |rg| - from
  {
    if from == |rg| then []
    else (if Named(rg[from]) && Leader(rg, from, fold) == leader then rg[from].value.data else [])
         + Group(rg, leader, from + 1, fold)
  }

  /** One output for every attachment that leads itself, with its group. */
  predicate Partition(outputs: seq<Output>, rg: Slots, idx: nat, fold: Fold)
    requires idx <= |rg|
    decreases |rg| - idx
  {
    if idx == |rg| then outputs == []
    else if Named(rg[idx]) && Leader(rg, idx, fold) == idx then
      && outputs != [] && outputs[0].name == NameOf(rg[idx]) && outputs[0].data == Group(rg, idx, 0, fold)
      && Partition(outputs[1..], rg, idx + 1, fold)
    else Partition(outputs, rg, idx + 1, fold)
  }

  /** The array when the loop reaches a slot: the groups of earlier leaders are gone. */
  predicate Reached(now: Slots, rg: Slots, idx: nat, fold: Fold) {
    && |now| == |rg| && idx <= |rg|
    && forall k | 0 <= k < |rg| :: now[k] == if Named(rg[k]) && Leader(rg, k, fold) < idx then None else rg[k]
  }

  lemma {:induction false} GroupIsLate(rg: Slots, leader: nat, from: nat, to: nat, fold: Fold)
    requires from <= to <= leader && to <= |rg|
    ensures Group(rg, leader, from, fold) == Group(rg, leader, to, fold)
    decreases |rg| - from
  {
    if from < to {
      GroupIsLate(rg, leader, from + 1, to, fold);
    }
  }

  /** Of what is still there, exactly the group of a leader matches it. */
  lemma MatchIsGroup(now: Slots, rg: Slots, idx: nat, k: nat, fold: Fold)
    requires Reached(now, rg, idx, fold) && idx <= k < |rg| && Named(rg[idx])
    ensures Matches(now[k], NameOf(rg[idx]), fold) <==> Named(rg[k]) && Leader(rg, k, fold) == idx
    ensures Named(rg[k]) && Leader(rg, k, fold) == idx ==> now[k] == rg[k]
  {
  }

  lemma {:induction false} MembersAreGroup(now: Slots, rg: Slots, idx: nat, from: nat, fold: Fold)
    requires Reached(now, rg, idx, fold) && idx <= from <= |rg| && idx < |rg| && Named(rg[idx])
    ensures Members(now, from, NameOf(rg[idx]), fold) == Group(rg, idx, from, fold)
    decreases |rg| - from
  {
    hide Matches, Contains, Leader, Reached;
    ReachedLength(now, rg, idx, fold);
    if from < |rg| {
      MatchIsGroup(now, rg, idx, from, fold);
      MembersAreGroup(now, rg, idx, from + 1, fold);
    }
  }

  lemma ClearedIsReached(now: Slots, rg: Slots, idx: nat, fold: Fold)
    requires Reached(now, rg, idx, fold) && idx < |rg| && Named(rg[idx])
    ensures Reached(Cleared(now, idx, NameOf(rg[idx]), fold), rg, idx + 1, fold)
  {
    var next := Cleared(now, idx, NameOf(rg[idx]), fold);
    forall k | 0 <= k < |rg|
      ensures next[k] == if Named(rg[k]) && Leader(rg, k, fold) < idx + 1 then None else rg[k]
    {
      if idx <= k { MatchIsGroup(now, rg, idx, k, fold); }
    }
  }

  lemma SkippedIsReached(now: Slots, rg: Slots, idx: nat, fold: Fold)
    requires Reached(now, rg, idx, fold) && idx < |rg| && !Named(now[idx])
    ensures Reached(now, rg, idx + 1, fold)
    ensures !(Named(rg[idx]) && Leader(rg, idx, fold) == idx)
  {
    forall k | 0 <= k < |rg| && Named(rg[k]) ensures Leader(rg, k, fold) != idx {
      LeaderLeads(rg, k, fold);
    }
  }

  lemma ReachedLength(now: Slots, rg: Slots, idx: nat, fold: Fold)
    requires Reached(now, rg, idx, fold)
    ensures |now| == |rg| && idx <= |rg|
  {
  }

  /** What is still there when it is reached leads itself. */
  lemma PresentIsLeader(now: Slots, rg: Slots, idx: nat, fold: Fold)
    requires Reached(now, rg, idx, fold) && idx < |rg| && Named(now[idx])
    ensures now[idx] == rg[idx] && Leader(rg, idx, fold) == idx
  {
  }

  lemma {:induction false} CombinedFrom(now: Slots, rg: Slots, idx: nat, fold: Fold)
    requires Reached(now, rg, idx, fold)
    ensures Partition(Combined(now, idx, fold).0, rg, idx, fold)
    ensures Reached(Combined(now, idx, fold).1, rg, |rg|, fold)
    decreases |rg| - idx
  {
    hide Reached, Leader, Members, Group, SizeOf, Cleared, Matches, Contains;
    ReachedLength(now, rg, idx, fold);
    if idx < |rg| {
      if Named(now[idx]) {
        PresentIsLeader(now, rg, idx, fold);
        var name := NameOf(rg[idx]);
        MembersAreGroup(now, rg, idx, idx, fold);
        GroupIsLate(rg, idx, 0, idx, fold);
        ClearedIsReached(now, rg, idx, fold);
        CombinedFrom(Cleared(now, idx, name, fold), rg, idx + 1, fold);
      } else {
        SkippedIsReached(now, rg, idx, fold);
        CombinedFrom(now, rg, idx + 1, fold);
      }
    }
  }

  /**
   Combining partitions the attachments. There is one output for every attachment whose name contains
   no earlier one's, in order; it joins, in the order of the array, the attachments for which this is
   the first whose name theirs contain. Those without a name stay in the array, all others leave it.
   */
  lemma CombiningPartitions(rg: Slots, fold: Fold)
    ensures var (outputs, last) := Combined(rg, 0, fold);
            && Partition(outputs, rg, 0, fold)
            && |last| == |rg| && forall k | 0 <= k < |rg| :: last[k] == if Named(rg[k]) then None else rg[k]
  {
    assert Reached(rg, rg, 0, fold);
    CombinedFrom(rg, rg, 0, fold);
  }

  // ----- sizes

  lemma {:induction false} SizeIsExact(rg: Slots, from: nat, name: Name, fold: Fold, sum: nat)
    requires from <= |rg| && sum < WORD
    requires forall k | from <= k < |rg| && rg[k].Some? :: |rg[k].value.data| < WORD
    ensures SizeOf(rg, from, name, fold, sum) < WORD
    ensures sum + |Members(rg, from, name, fold)| < WORD ==>
              SizeOf(rg, from, name, fold, sum) == sum + |Members(rg, from, name, fold)|
    decreases |rg| - from
  {
    if from < |rg| {
      var next := if Matches(rg[from], name, fold) then Wrap32(sum + |rg[from].value.data|) else sum;
      SizeIsExact(rg, from + 1, name, fold, if next > sum then next else sum);
    }
  }

  /** What is set aside for a group is what it takes, exactly when that can be said in 32 bits. */
  lemma ReservedIsExact(rg: Slots, from: nat, name: Name, fold: Fold)
    requires from <= |rg| && forall k | from <= k < |rg| && rg[k].Some? :: |rg[k].value.data| < WORD
    ensures SizeOf(rg, from, name, fold, 0) == |Members(rg, from, name, fold)|
            <==> |Members(rg, from, name, fold)| < WORD
  {
    SizeIsExact(rg, from, name, fold, 0);
  }

  /** Every output is as long as what was set aside for it, exactly when its length fits 32 bits. */
  lemma {:induction false} OutputsReserveExactly(rg: Slots, idx: nat, fold: Fold)
    requires idx <= |rg| && forall k | 0 <= k < |rg| && rg[k].Some? :: |rg[k].value.data| < WORD
    ensures forall o | o in Combined(rg, idx, fold).0 :: o.reserved == |o.data| <==> |o.data| < WORD
    decreases |rg| - idx
  {
    if idx < |rg| {
      if Named(rg[idx]) {
        var name := NameOf(rg[idx]);
        ReservedIsExact(rg, idx, name, fold);
        OutputsReserveExactly(Cleared(rg, idx, name, fold), idx + 1, fold);
      } else {
        OutputsReserveExactly(rg, idx + 1, fold);
      }
    }
  }

  function Length(outputs: seq<Output>): nat {
    if outputs == [] then 0 else |outputs[0].data| + Length(outputs[1..])
  }

  function NamedLength(rg: Slots, from: nat): nat
    requires from <= |rg|
    decreases |rg| - from
  {
    if from == |rg| then 0
    else (if Named(rg[from]) then |rg[from].value.data| else 0) + NamedLength(rg, from + 1)
  }

  lemma {:induction false} ClearedLength(rg: Slots, idx: nat, from: nat, name: Name, fold: Fold)
    requires idx <= from <= |rg|
    ensures NamedLength(rg, from) == |Members(rg, from, name, fold)| + NamedLength(Cleared(rg, idx, name, fold), from)
    decreases |rg| - from
  {
    if from < |rg| {
      ClearedLength(rg, idx, from + 1, name, fold);
    }
  }

  /** Every byte of a named attachment ends up in an output, once. */
  lemma {:induction false} BytesAreConserved(rg: Slots, idx: nat, fold: Fold)
    requires idx <= |rg|
    ensures Length(Combined(rg, idx, fold).0) == NamedLength(rg, idx)
    decreases |rg| - idx
  {
    if idx < |rg| {
      if Named(rg[idx]) {
        var name := NameOf(rg[idx]);
        ContainsItself(name, fold);
        ClearedLength(rg, idx, idx, name, fold);
        BytesAreConserved(Cleared(rg, idx, name, fold), idx + 1, fold);
      } else {
        BytesAreConserved(rg, idx + 1, fold);
      }
    }
  }
}
