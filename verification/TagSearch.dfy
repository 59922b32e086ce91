/**
 The hand-written tag search of the decoder.

 FindTag walks the buffer once and never looks at a mismatched byte a second time, so it is not a
 substring search. Scan is its state machine; the two Exact lemmas say which occurrence it
 reports, without mentioning the state machine.
 */
module TagSearch {
  import opened Bytes

  predicate OccursAt(buf: seq<byte>, tag: seq<byte>, p: int) {
    0 <= p && p + |tag| <= |buf| && buf[p..p + |tag|] == tag
  }

  /** A new line is the start of the buffer, or any position after a CRLF. */
  predicate LineStart(buf: seq<byte>, p: int)
    requires 0 <= p <= |buf|
  {
    p == 0 || (p >= 2 && buf[p - 2] == CR && buf[p - 1] == LF)
  }

  /** The search from index i, with the j bytes before i already matched against the tag. */
  function Scan(buf: seq<byte>, tag: seq<byte>, newLine: bool, i: nat, j: nat): (r: Option<nat>)
    requires j < |tag| && j <= i <= |buf|
    ensures r.Some? ==> i < r.value + |tag| <= |buf|
    decreases |buf| - i
  {
    if i == |buf| then None
    else if buf[i] != tag[j] then Scan(buf, tag, newLine, i + 1, 0)
    else if j + 1 < |tag| then Scan(buf, tag, newLine, i + 1, j + 1)
    else if !newLine || LineStart(buf, i - j) then Some(i - j)
    else Scan(buf, tag, newLine, i + 1, 0)
  }

  function Find(buf: seq<byte>, tag: seq<byte>, newLine: bool): Option<nat>
    requires |tag| > 0
  {
    Scan(buf, tag, newLine, 0, 0)
  }

  method FindTag(buf: seq<byte>, tag: seq<byte>, newLine: bool) returns (r: Option<nat>)
    requires |tag| > 0
    ensures r == Find(buf, tag, newLine)
  {
    if |buf| < |tag| {
      ShortBuffer(buf, tag, newLine, 0, 0);
      return None;
    }
    var last := |tag| - 1;
    var jdx := 0;
    for idx := 0 to |buf|
      invariant jdx <= last && jdx <= idx
      invariant Scan(buf, tag, newLine, idx, jdx) == Find(buf, tag, newLine)
    {
      if buf[idx] == tag[jdx] {
        if jdx == last {
          if !newLine {
            return Some(idx - last);
          } else {
            if idx == last {
              return Some(idx - last);
            }
            if idx - last >= 2 {
              var chLf := buf[idx - last - 1];
              var chCr := buf[idx - last - 2];
              if chLf == LF && chCr == CR {
                return Some(idx - last);
              }
            }
          }
          jdx := 0;
        } else {
          jdx := jdx + 1;
        }
      } else {
        jdx := 0;
      }
    }
    r := None;
  }

  /** A line starts at the start of the buffer, and behind every CR LF. */
  lemma LinesStart(buf: seq<byte>, p: nat)
    requires p <= |buf|
    ensures LineStart(buf, p) <==> p == 0 || (p >= 2 && buf[p - 2..p] == [13, 10])
  {
    if p >= 2 {
      assert buf[p - 2..p][0] == buf[p - 2] && buf[p - 2..p][1] == buf[p - 1];
      assert buf[p - 2..p] == [buf[p - 2], buf[p - 1]];
    }
  }

  lemma ShortBuffer(buf: seq<byte>, tag: seq<byte>, newLine: bool, i: nat, j: nat)
    requires j < |tag| && j <= i <= |buf| && |buf| < |tag|
    ensures Scan(buf, tag, newLine, i, j) == None
    decreases |buf| - i
  {
  }

  /** Every reported position is an occurrence, and a line start when one was asked for. */
  lemma {:induction false} ScanSound(buf: seq<byte>, tag: seq<byte>, newLine: bool, i: nat, j: nat)
    requires j < |tag| && j <= i <= |buf| && buf[i - j..i] == tag[..j]
    ensures var r := Scan(buf, tag, newLine, i, j);
            r.Some? ==> OccursAt(buf, tag, r.value) && (newLine ==> LineStart(buf, r.value))
    decreases |buf| - i
  {
    if i == |buf| {
    } else if buf[i] != tag[j] {
      ScanSound(buf, tag, newLine, i + 1, 0);
    } else {
      SliceGrows(buf, i - j, i);
      SliceGrows(tag, 0, j);
      if j + 1 < |tag| {
        ScanSound(buf, tag, newLine, i + 1, j + 1);
      } else if !newLine || LineStart(buf, i - j) {
      } else {
        ScanSound(buf, tag, newLine, i + 1, 0);
      }
    }
  }

  // ----- line tags

  /** p starts a line and the bytes from p to i are a proper prefix of the tag. */
  predicate OpenLine(buf: seq<byte>, tag: seq<byte>, i: int, p: int) {
    0 <= p <= i <= |buf| && i - p < |tag| && LineStart(buf, p) && buf[p..i] == tag[..i - p]
  }

  lemma EndsHere(buf: seq<byte>, tag: seq<byte>, i: nat, q: nat)
    requires OccursAt(buf, tag, q) && q + |tag| == i + 1 && |tag| > 0
    ensures buf[q..i] == tag[..i - q] && buf[i] == tag[|tag| - 1]
  {
    assert buf[q..i] == buf[q..q + |tag|][..i - q];
    assert buf[i] == buf[q..q + |tag|][|tag| - 1];
  }

  lemma {:induction false} LineScanLeast(buf: seq<byte>, tag: seq<byte>, i: nat, j: nat, q: nat)
    requires LF !in tag && j < |tag| && j <= i <= |buf|
    requires forall p | OpenLine(buf, tag, i, p) :: i - p == j
    requires OccursAt(buf, tag, q) && LineStart(buf, q) && i < q + |tag|
    ensures var r := Scan(buf, tag, true, i, j); r.Some? && r.value <= q
    decreases |buf| - i
  {
    var next := i + 1;
    forall p | OpenLine(buf, tag, next, p) && p <= i
      ensures i - p == j && buf[i] == tag[j]
    {
      assert buf[p..i] == buf[p..next][..i - p] == tag[..i - p];
      assert OpenLine(buf, tag, i, p);
      assert buf[i] == buf[p..next][i - p];
    }
    assert q + |tag| == next ==> OpenLine(buf, tag, i, q) && buf[i] == tag[|tag| - 1] by {
      if q + |tag| == next { EndsHere(buf, tag, i, q); }
    }
    if buf[i] == tag[j] && j + 1 == |tag| && LineStart(buf, i - j) {
    } else {
      var k := if buf[i] == tag[j] && j + 1 < |tag| then j + 1 else 0;
      LineScanLeast(buf, tag, next, k, q);
    }
  }

  /**
   A line tag search is exact: it reports the first occurrence of the tag that starts a line, and
   nothing exactly when there is none.
   */
  lemma LineSearchExact(buf: seq<byte>, tag: seq<byte>)
    requires |tag| > 0 && LF !in tag
    ensures var r := Find(buf, tag, true);
            match r
            case Some(p) =>
              && OccursAt(buf, tag, p) && LineStart(buf, p)
              && forall q | 0 <= q < p :: !(OccursAt(buf, tag, q) && LineStart(buf, q))
            case None => forall q | 0 <= q <= |buf| :: !(OccursAt(buf, tag, q) && LineStart(buf, q))
  {
    ScanSound(buf, tag, true, 0, 0);
    forall q | 0 <= q <= |buf| && OccursAt(buf, tag, q) && LineStart(buf, q)
      ensures var r := Find(buf, tag, true); r.Some? && r.value <= q
    {
      LineScanLeast(buf, tag, 0, 0, q);
    }
  }

  // ----- attribute tags

  /**
   The positions where the search begins a match: the tag's first byte, unless the search is still
   inside a match it began a little earlier.
   */
  predicate Attempt(buf: seq<byte>, tag: seq<byte>, p: int)
    requires |tag| > 0
    decreases p, 0
  {
    0 <= p < |buf| && buf[p] == tag[0] && forall k | 1 <= k < |tag| && k <= p :: !Open(buf, tag, p, k)
  }

  /** A match begun k bytes before i is still running at i. */
  predicate Open(buf: seq<byte>, tag: seq<byte>, i: int, k: int)
    requires 1 <= k < |tag| && k <= i <= |buf|
    decreases i - k, 1
  {
    buf[i - k..i] == tag[..k] && Attempt(buf, tag, i - k)
  }

  lemma {:induction false} PlainScanLeast(buf: seq<byte>, tag: seq<byte>, i: nat, j: nat)
    requires j < |tag| && j <= i <= |buf|
    requires forall k | 1 <= k < |tag| && k <= i :: Open(buf, tag, i, k) <==> k == j
    ensures var r := Scan(buf, tag, false, i, j);
            && (r.Some? ==> Attempt(buf, tag, r.value))
            && forall q: nat | OccursAt(buf, tag, q) && Attempt(buf, tag, q) && i < q + |tag| ::
                 r.Some? && r.value <= q
    decreases |buf| - i
  {
    if i < |buf| {
      if j > 0 { assert Open(buf, tag, i, j); }
      assert Attempt(buf, tag, i) <==> (j == 0 && buf[i] == tag[0]);
      var next := i + 1;
      forall k | 1 <= k < |tag| && k <= next
        ensures Open(buf, tag, next, k) <==> (k == j + 1 && buf[i] == tag[j])
      {
        SliceGrows(buf, next - k, i);
        SliceGrows(tag, 0, k - 1);
        if k == 1 {
        } else {
          assert Open(buf, tag, i, k - 1) <==> k - 1 == j;
        }
      }
      if buf[i] == tag[j] && j + 1 == |tag| {
      } else {
        var j' := if buf[i] == tag[j] then j + 1 else 0;
        PlainScanLeast(buf, tag, next, j');
        forall q: nat | OccursAt(buf, tag, q) && Attempt(buf, tag, q) && i < q + |tag|
          ensures next < q + |tag|
        {
          if q + |tag| == next {
            EndsHere(buf, tag, i, q);
            if |tag| > 1 { assert Open(buf, tag, i, i - q); }
            assert false;
          }
        }
      }
    }
  }

  /**
   An attribute tag search reports the first occurrence at which a match begins, and nothing
   exactly when no match begins at an occurrence.
   */
  lemma PlainSearchExact(buf: seq<byte>, tag: seq<byte>)
    requires |tag| > 0
    ensures var r := Find(buf, tag, false);
            match r
            case Some(p) =>
              && OccursAt(buf, tag, p) && Attempt(buf, tag, p)
              && forall q | 0 <= q < p :: !(OccursAt(buf, tag, q) && Attempt(buf, tag, q))
            case None => forall q | 0 <= q :: !(OccursAt(buf, tag, q) && Attempt(buf, tag, q))
  {
    ScanSound(buf, tag, false, 0, 0);
    PlainScanLeast(buf, tag, 0, 0);
  }

  /** p is not directly preceded by a nonempty proper prefix of the tag. */
  predicate Unprefixed(buf: seq<byte>, tag: seq<byte>, p: nat)
    requires p <= |buf|
  {
    forall k | 1 <= k < |tag| && k <= p :: buf[p - k..p] != tag[..k]
  }

  /** An occurrence that does not follow a partial one is found, unless an earlier one is. */
  lemma UnprefixedIsFound(buf: seq<byte>, tag: seq<byte>, p: nat)
    requires |tag| > 0 && OccursAt(buf, tag, p) && Unprefixed(buf, tag, p)
    ensures Find(buf, tag, false).Some? && Find(buf, tag, false).value <= p
  {
    PlainSearchExact(buf, tag);
    assert buf[p] == buf[p..p + |tag|][0];
    assert Attempt(buf, tag, p);
  }

  /** p is the first occurrence of the tag. */
  ghost predicate FirstAt(buf: seq<byte>, tag: seq<byte>, p: nat) {
    OccursAt(buf, tag, p) && forall q: nat | q < p :: !OccursAt(buf, tag, q)
  }

  /** The search finds the first occurrence, as strstr does, exactly when a match begins there. */
  lemma FirstIsFoundIff(buf: seq<byte>, tag: seq<byte>, p: nat)
    requires |tag| > 0 && FirstAt(buf, tag, p)
    ensures Find(buf, tag, false) == Some(p) <==> Attempt(buf, tag, p)
  {
    PlainSearchExact(buf, tag);
  }

  /** On every buffer the search does what strstr does. */
  ghost predicate LikeStrstr(tag: seq<byte>)
    requires |tag| > 0
  {
    forall buf :: match Find(buf, tag, false)
                  case Some(p) => FirstAt(buf, tag, p)
                  case None => forall q: nat :: !OccursAt(buf, tag, q)
  }

  predicate RepeatsOneByte(tag: seq<byte>)
    requires |tag| > 0
  {
    forall k | 0 <= k < |tag| :: tag[k] == tag[0]
  }

  lemma EarlierOccurrence(buf: seq<byte>, tag: seq<byte>, p: nat, k: nat)
    requires |tag| > 0 && RepeatsOneByte(tag) && OccursAt(buf, tag, p) && k < |tag| && k <= p
    requires buf[p - k..p] == tag[..k]
    ensures OccursAt(buf, tag, p - k)
  {
    forall i | 0 <= i < |tag| ensures buf[p - k + i] == tag[i] {
      assert i < k ==> buf[p - k + i] == buf[p - k..p][i];
      assert i >= k ==> buf[p - k + i] == buf[p..p + |tag|][i - k];
    }
    assert buf[p - k..p - k + |tag|] == tag;
  }

  /** A tag that repeats one byte is found where it occurs first. */
  lemma RepeatedByteIsFound(buf: seq<byte>, tag: seq<byte>, p: nat)
    requires |tag| > 0 && RepeatsOneByte(tag) && FirstAt(buf, tag, p)
    ensures Find(buf, tag, false) == Some(p)
  {
    assert buf[p] == buf[p..p + |tag|][0];
    forall k | 1 <= k < |tag| && k <= p ensures !Open(buf, tag, p, k) {
      if buf[p - k..p] == tag[..k] { EarlierOccurrence(buf, tag, p, k); }
    }
    FirstIsFoundIff(buf, tag, p);
  }

  lemma FirstOccurrence(buf: seq<byte>, tag: seq<byte>, q: nat) returns (p: nat)
    requires OccursAt(buf, tag, q)
    ensures p <= q && FirstAt(buf, tag, p)
  {
    p := 0;
    while !OccursAt(buf, tag, p)
      invariant p <= q && forall i: nat | i < p :: !OccursAt(buf, tag, i)
      decreases q - p
    {
      p := p + 1;
    }
  }

  /** Any other tag is missed behind a stray copy of its first byte. */
  lemma OtherTagIsMissed(tag: seq<byte>)
    requires |tag| > 0 && !RepeatsOneByte(tag)
    ensures OccursAt([tag[0]] + tag, tag, 1) && Find([tag[0]] + tag, tag, false) == None
  {
    var buf := [tag[0]] + tag;
    var r := FirstOther(tag, |tag| - 1);
    assert buf[1..1 + |tag|] == tag;
    assert buf[r] == tag[r - 1] != tag[r];
    assert buf[0..|tag|][r] == buf[r];
    assert buf[0..1] == tag[..1];
    assert Attempt(buf, tag, 0);
    assert Open(buf, tag, 1, 1);
    PlainSearchExact(buf, tag);
  }

  lemma FirstOther(tag: seq<byte>, n: nat) returns (r: nat)
    requires |tag| > 0 && n < |tag| && exists k :: 0 <= k <= n && tag[k] != tag[0]
    ensures 0 < r < |tag| && tag[r - 1] == tag[0] != tag[r]
  {
    r := 1;
    while tag[r] == tag[0]
      invariant 0 < r <= n && tag[r - 1] == tag[0] && exists k :: r <= k <= n && tag[k] != tag[0]
      decreases n - r
    {
      r := r + 1;
    }
  }

  /** The tags that are found on all buffers as strstr finds them are those that repeat one byte. */
  lemma LikeStrstrIff(tag: seq<byte>)
    requires |tag| > 0
    ensures LikeStrstr(tag) <==> RepeatsOneByte(tag)
  {
    if RepeatsOneByte(tag) {
      forall buf
        ensures match Find(buf, tag, false)
                case Some(p) => FirstAt(buf, tag, p)
                case None => forall q: nat :: !OccursAt(buf, tag, q)
      {
        PlainSearchExact(buf, tag);
        forall q: nat | OccursAt(buf, tag, q)
          ensures Find(buf, tag, false).Some? && FirstAt(buf, tag, Find(buf, tag, false).value)
        {
          var p := FirstOccurrence(buf, tag, q);
          RepeatedByteIsFound(buf, tag, p);
        }
        if Find(buf, tag, false).Some? {
          assert OccursAt(buf, tag, Find(buf, tag, false).value);
        }
      }
    } else {
      OtherTagIsMissed(tag);
      assert Find([tag[0]] + tag, tag, false) == None;
    }
  }

  /** Unlike strstr, the search misses a line break that follows a stray CR. */
  lemma NotASubstringSearch()
    ensures OccursAt([CR, CR, LF], CRLF, 1) && Find([CR, CR, LF], CRLF, false) == None
  {
    var b: seq<byte> := [CR, CR, LF];
    assert Scan(b, CRLF, false, 3, 0) == None;
    assert Scan(b, CRLF, false, 2, 0) == None;
    assert Scan(b, CRLF, false, 1, 1) == None;
  }

  // ----- searching a concatenation

  /** The number of tag bytes matched when the search runs off the end of the buffer. */
  function EndState(buf: seq<byte>, tag: seq<byte>, i: nat, j: nat): (k: nat)
    requires j < |tag| && j <= i <= |buf|
    ensures k < |tag| && k <= |buf|
    decreases |buf| - i
  {
    if i == |buf| then j
    else if buf[i] != tag[j] then EndState(buf, tag, i + 1, 0)
    else if j + 1 < |tag| then EndState(buf, tag, i + 1, j + 1)
    else EndState(buf, tag, i + 1, 0)
  }

  lemma {:induction false} EndStateMatched(buf: seq<byte>, tag: seq<byte>, i: nat, j: nat)
    requires j < |tag| && j <= i <= |buf| && buf[i - j..i] == tag[..j]
    ensures var k := EndState(buf, tag, i, j); buf[|buf| - k..] == tag[..k]
    decreases |buf| - i
  {
    if i < |buf| {
      if buf[i] == tag[j] && j + 1 < |tag| {
        SliceGrows(buf, i - j, i);
        SliceGrows(tag, 0, j);
        EndStateMatched(buf, tag, i + 1, j + 1);
      } else {
        EndStateMatched(buf, tag, i + 1, 0);
      }
    }
  }

  function Shift(r: Option<nat>, d: nat): Option<nat> {
    match r case None => None case Some(p) => Some(p + d)
  }

  lemma {:induction false} ScanPrefix(a: seq<byte>, b: seq<byte>, tag: seq<byte>, i: nat, j: nat)
    requires j < |tag| && j <= i <= |a|
    ensures Scan(a + b, tag, false, i, j) ==
            var r := Scan(a, tag, false, i, j);
            if r.Some? then r else Scan(a + b, tag, false, |a|, EndState(a, tag, i, j))
    decreases |a| - i
  {
    if i < |a| {
      var j' := if a[i] == tag[j] && j + 1 < |tag| then j + 1 else 0;
      ScanPrefix(a, b, tag, i + 1, j');
    }
  }

  lemma {:induction false} ScanShift(a: seq<byte>, b: seq<byte>, tag: seq<byte>, i: nat, j: nat)
    requires j < |tag| && j <= i <= |b|
    ensures Scan(a + b, tag, false, |a| + i, j) == Shift(Scan(b, tag, false, i, j), |a|)
    decreases |b| - i
  {
    if i < |b| {
      assert (a + b)[|a| + i] == b[i];
      var j' := if b[i] == tag[j] && j + 1 < |tag| then j + 1 else 0;
      ScanShift(a, b, tag, i + 1, j');
    }
  }

  /** When no partial match crosses the seam, a concatenation is searched part by part. */
  lemma FindConcat(a: seq<byte>, b: seq<byte>, tag: seq<byte>)
    requires |tag| > 0 && (EndState(a, tag, 0, 0) == 0 || b == [] || b[0] !in tag)
    ensures Find(a + b, tag, false) ==
            var r := Find(a, tag, false); if r.Some? then r else Shift(Find(b, tag, false), |a|)
  {
    ScanPrefix(a, b, tag, 0, 0);
    ScanShift(a, b, tag, 0, 0);
    if b != [] {
      ScanShift(a, b, tag, 1, 0);
    }
  }

  /** Text without the first byte of a tag holds neither the tag nor a beginning of it. */
  lemma FirstByteAbsent(text: seq<byte>, tag: seq<byte>)
    requires |tag| > 0 && tag[0] !in text
    ensures Find(text, tag, false) == None && EndState(text, tag, 0, 0) == 0
  {
    NoMatchBegins(text, tag, 0);
  }

  lemma {:induction false} NoMatchBegins(text: seq<byte>, tag: seq<byte>, i: nat)
    requires |tag| > 0 && tag[0] !in text && i <= |text|
    ensures Scan(text, tag, false, i, 0) == None && EndState(text, tag, i, 0) == 0
    decreases |text| - i
  {
    if i < |text| {
      assert text[i] in text;
      NoMatchBegins(text, tag, i + 1);
    }
  }

  /** A tag at the very start is found there. */
  lemma FoundAtStart(tag: seq<byte>, more: seq<byte>)
    requires |tag| > 0
    ensures Find(tag + more, tag, false) == Some(0)
  {
    assert OccursAt(tag + more, tag, 0);
    UnprefixedIsFound(tag + more, tag, 0);
  }

  lemma LineTagAtStart(tag: seq<byte>, more: seq<byte>)
    requires |tag| > 0 && LF !in tag
    ensures Find(tag + more, tag, true) == Some(0)
  {
    LineSearchExact(tag + more, tag);
    assert OccursAt(tag + more, tag, 0);
  }

  /** Searching only the first m bytes finds what the full search finds, if it ends there. */
  lemma {:induction false} ScanTruncated(buf: seq<byte>, tag: seq<byte>, m: nat, i: nat, j: nat)
    requires j < |tag| && j <= i <= m <= |buf|
    ensures var r := Scan(buf, tag, false, i, j);
            Scan(buf[..m], tag, false, i, j) == if r.Some? && r.value + |tag| <= m then r else None
    decreases m - i
  {
    if i < m {
      var j' := if buf[i] == tag[j] && j + 1 < |tag| then j + 1 else 0;
      ScanTruncated(buf, tag, m, i + 1, j');
    }
  }

  lemma FindTruncated(buf: seq<byte>, tag: seq<byte>, m: nat)
    requires |tag| > 0 && m <= |buf|
    ensures var r := Find(buf, tag, false);
            Find(buf[..m], tag, false) == if r.Some? && r.value + |tag| <= m then r else None
  {
    ScanTruncated(buf, tag, m, 0, 0);
  }
}
