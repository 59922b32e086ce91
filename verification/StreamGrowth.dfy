/** What it costs to append to a memory stream. */
module StreamGrowth {
  import opened Bytes
  import opened MemoryStream

  function Total(writes: seq<seq<byte>>): nat {
    if writes == [] then 0 else |writes[0]| + Total(writes[1..])
  }

  function Joined(writes: seq<seq<byte>>): (s: seq<byte>)
    ensures |s| == Total(writes)
  {
    if writes == [] then [] else writes[0] + Joined(writes[1..])
  }

  /** The stream after a run of writes. */
  function Appended(s: State, writes: seq<seq<byte>>, debug: bool): State
    decreases |writes|
  {
    if writes == [] then s else Appended(Written(s, writes[0], debug).1, writes[1..], debug)
  }

  const HALF := 0x8000_0000

  /** The bytes moved so far are paid for by the storage, and the storage by the bytes written. */
  predicate Lean(s: State) {
    s.moved <= 4 * |s.data| && |s.data| <= Max(2 * s.pos, FIRST_SIZE)
  }

  lemma GrownByAQuarter(capacity: nat, wanted: nat)
    requires capacity < wanted < HALF
    ensures var n := Grown(capacity, wanted, false);
            wanted <= n <= Max(2 * wanted, FIRST_SIZE) && 5 * capacity <= 4 * n
  {
    assert Wrap32(2 * capacity) == 2 * capacity;
    assert Wrap32(capacity + capacity / 4 + 0x10_0000) == capacity + capacity / 4 + 0x10_0000;
  }

  lemma WriteStaysLean(s: State, bytes: seq<byte>)
    requires Lean(s) && s.pos == s.size && s.pos + |bytes| < HALF
    ensures var (hr, s') := Written(s, bytes, false);
            hr == Ok && Lean(s') && s'.pos == s'.size == s.pos + |bytes|
  {
    hide Grown, Overwritten;
    var end := s.pos + |bytes|;
    if end > |s.data| {
      GrownByAQuarter(|s.data|, end);
    }
  }

  lemma {:induction false} AppendsStayLean(s: State, writes: seq<seq<byte>>)
    requires Lean(s) && s.pos == s.size && s.pos + Total(writes) < HALF
    ensures var r := Appended(s, writes, false);
            Lean(r) && r.pos == r.size == s.pos + Total(writes)
    decreases |writes|
  {
    hide Written, Lean;
    if writes != [] {
      WriteStaysLean(s, writes[0]);
      AppendsStayLean(Written(s, writes[0], false).1, writes[1..]);
    }
  }

  /**
   Amortised growth. However n bytes are cut into writes, a release build copies at most four times
   its final storage, and at most eight times n or 16384 bytes, when it moves the storage.
   */
  lemma AppendingIsLinear(writes: seq<seq<byte>>)
    requires Total(writes) < HALF
    ensures var r, n := Appended(EMPTY, writes, false), Total(writes);
            && r.size == n <= |r.data|
            && r.moved <= 4 * |r.data| && r.moved <= Max(8 * n, 16384)
  {
    AppendsStayLean(EMPTY, writes);
    AppendsAreStored(EMPTY, writes, false);
  }

  lemma WriteIsStored(s: State, bytes: seq<byte>, debug: bool)
    requires s.pos == s.size <= |s.data| && s.pos + |bytes| < WORD
    ensures var s' := Written(s, bytes, debug).1;
            s'.pos == s'.size == s.pos + |bytes| <= |s'.data| && s'.data[..s'.size] == s.data[..s.size] + bytes
  {
    hide Grown;
  }

  /** What was appended is there, one piece after the other. */
  lemma {:induction false} AppendsAreStored(s: State, writes: seq<seq<byte>>, debug: bool)
    requires s.pos == s.size <= |s.data| && s.pos + Total(writes) < WORD
    ensures var r := Appended(s, writes, debug);
            r.pos == r.size == s.pos + Total(writes) <= |r.data| && r.data[..r.size] == s.data[..s.size] + Joined(writes)
    decreases |writes|
  {
    hide Written;
    if writes == [] {
      assert s.data[..s.size] + [] == s.data[..s.size];
    } else {
      var s' := Written(s, writes[0], debug).1;
      WriteIsStored(s, writes[0], debug);
      AppendsAreStored(s', writes[1..], debug);
      ConcatAssoc(s.data[..s.size], writes[0], Joined(writes[1..]));
    }
  }

  /** A debug build allocates exactly what it needs, and copies everything for each byte it appends. */
  lemma {:induction false} DebugBuildIsQuadratic(writes: seq<seq<byte>>, s: State)
    requires (forall k | 0 <= k < |writes| :: |writes[k]| == 1) && s.pos == s.size == |s.data|
    requires s.pos + |writes| < WORD
    ensures var r := Appended(s, writes, true);
            |r.data| == s.pos + |writes| && 2 * (r.moved - s.moved) == |writes| * (|writes| - 1 + 2 * s.pos)
    decreases |writes|
  {
    hide Overwritten;
    if writes != [] {
      var s' := Written(s, writes[0], true).1;
      assert s'.moved == s.moved + s.pos;
      DebugBuildIsQuadratic(writes[1..], s');
    }
  }

  /**
   Giving back storage. When a stream is made shorter than its storage, the storage is moved only if
   at least three quarters of it come free, and what remains is never more than about four times the
   size of the stream.
   */
  /** A release build doubles its storage up to 4/3 MiB, and adds a quarter and 1 MiB from there on; a debug build has no slack. */
  lemma GrowthIs(capacity: nat, wanted: nat)
    requires capacity < wanted < WORD
    ensures Grown(capacity, wanted, true) == wanted
    ensures capacity <= 0x800 && wanted <= 0x1000 ==> Grown(capacity, wanted, false) == 0x1000
    ensures 0x800 <= capacity <= 0x15_5555 && wanted <= 2 * capacity ==> Grown(capacity, wanted, false) == 2 * capacity
    ensures 0x15_5556 <= capacity < 0x8000_0000 && wanted <= capacity + capacity / 4 + 0x10_0000 ==>
              Grown(capacity, wanted, false) == capacity + capacity / 4 + 0x10_0000
  {
  }

  /** Storage is left where it is exactly if the size fits it and is more than a quarter of it, or nothing is there to move. */
  lemma StorageMovesIff(s: State, n: nat, debug: bool)
    requires s.Fits() && n < WORD
    ensures var s' := Ensured(s, n, debug);
            |s.data| / 4 < n <= |s.data| ==> s' == s
    ensures n <= |s.data| / 4 ==> Ensured(s, n, debug).data == s.data[..n] && Ensured(s, n, debug).moved == s.moved + n
    ensures n > |s.data| ==> Ensured(s, n, debug).moved == s.moved + |s.data| && s.data < Ensured(s, n, debug).data
  {
    hide Grown;
  }

  lemma ShrinkingFreesMost(s: State, n: nat, debug: bool)
    requires n < |s.data| && n < WORD
    ensures var s' := Resized(s, n, debug).1;
            && (s'.moved != s.moved || s'.data != s.data ==> 4 * |s'.data| <= |s.data|)
            && n <= |s'.data| < 4 * (n + 1)
            && s'.data[..n] == s.data[..n] && s'.moved - s.moved <= n
  {
  }
}
