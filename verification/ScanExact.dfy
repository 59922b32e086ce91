/** Exactly when the scan for encoded bodies succeeds, and exactly which body it finds first. */
module ScanExact {
  import opened Bytes
  import opened EncodeInfo
  import opened Header
  import opened HeaderBounds
  import opened MessageSplit
  import opened TagSearch

  /** Carriage returns and line feeds come in pairs only. */
  predicate PairAt(buf: seq<byte>, k: nat)
    requires k < |buf|
  {
    && (buf[k] == CR ==> k + 1 < |buf| && buf[k + 1] == LF)
    && (buf[k] == LF ==> k > 0 && buf[k - 1] == CR)
  }

  predicate CleanBreaks(buf: seq<byte>) { forall k | 0 <= k < |buf| :: PairAt(buf, k) }

  /** In such text the next line break is always found. */
  lemma NextBreakIsFound(buf: seq<byte>, p: nat, q: nat)
    requires CleanBreaks(buf) && p <= q && q + 2 <= |buf| && buf[q] == CR
    ensures NextLine(buf, p).Some? && NextLine(buf, p).value <= q + 2
  {
    var rest, d := buf[p..], q - p;
    assert PairAt(buf, q);
    assert rest[d..d + 2] == CRLF;
    assert OccursAt(rest, CRLF, d);
    forall k | 1 <= k < |CRLF| && k <= d ensures rest[d - k..d] != CRLF[..k] {
      assert PairAt(buf, q - 1);
      var before := rest[d - 1..d];
      assert before[0] == rest[d - 1] == buf[q - 1];
      assert k == 1 && CRLF[..k][0] == CR;
    }
    UnprefixedIsFound(rest, CRLF, d);
  }

  /** A body ends no later than any line that starts behind its trailer. */
  lemma TailStops(buf: seq<byte>, begin: nat, p: nat)
    requires CleanBreaks(buf) && begin < p <= |buf| && LineStart(buf, begin) && LineStart(buf, p)
    requires FindTail(buf[begin..]).Some? && forall q: nat | p <= q :: !LineWith(buf, YEND, q)
    ensures begin + FindTail(buf[begin..]).value <= p
  {
    hide Find, LineWith;
    var text := buf[begin..];
    var e := Find(text, YEND, true).value;
    FoundLine(buf, begin, YEND);
    TrailerIsNoBreak(buf, begin + e);
    assert begin + e < p && e <= p - 2 - begin;
    SuffixIsClean(buf, begin);
    NextBreakIsFound(text, e, p - 2 - begin);
  }

  lemma TrailerIsNoBreak(buf: seq<byte>, e: nat)
    requires LineWith(buf, YEND, e)
    ensures e + 2 < |buf| && buf[e] == EQUALS && buf[e + 1] == YCHAR
  {
    assert buf[e] == buf[e..e + |YEND|][0] && buf[e + 1] == buf[e..e + |YEND|][1];
  }

  lemma SuffixIsClean(buf: seq<byte>, p: nat)
    requires CleanBreaks(buf) && p <= |buf| && LineStart(buf, p)
    ensures CleanBreaks(buf[p..])
  {
    forall k | 0 <= k < |buf[p..]| ensures PairAt(buf[p..], k) {
      assert PairAt(buf, p + k);
    }
  }

  /** The scan succeeds only if the first body has a trailer and the scan of what follows it succeeds. */
  lemma ScanGoesOn(buf: seq<byte>, line: nat, b: nat)
    requires line < |buf| && FindBegin(buf[line..]) == Some(b) && line + b <= |buf|
    ensures ScanFrom(buf, line).Scanned? ==>
              var tail := FindTail(buf[line + b..]);
              tail.Some? && ScanFrom(buf, line + b + tail.value).Scanned?
  {
    hide FindBegin, FindTail, Initialized;
    assert buf[line..][b..] == buf[line + b..];
  }

  /** An unpaired =ybegin line is never got over. */
  lemma {:induction false} UnpairedIsMet(buf: seq<byte>, line: nat, p: nat)
    requires line <= p && line <= |buf| && CleanBreaks(buf) && LineStart(buf, line) && BeginLine(buf, p)
    requires forall q: nat | p <= q :: !LineWith(buf, YEND, q)
    ensures !ScanFrom(buf, line).Scanned?
    decreases |buf| - line
  {
    hide Find, NextLine, Initialized, BeginLine, LineWith, CleanBreaks, FindTail, FindBegin, ScanFrom;
    BeginIsFound(buf, line);
    BeginStartsLine(buf, p);
    BeginIsInside(buf, p);
    var begin := line + FindBegin(buf[line..]).value;
    BeginStartsLine(buf, begin);
    ScanGoesOn(buf, line, begin - line);
    TailIsFound(buf, begin);
    if FindTail(buf[begin..]).Some? {
      var tail := begin + FindTail(buf[begin..]).value;
      FoundTrailer(buf, begin);
      if begin < p {
        TailStops(buf, begin, p);
        if tail < |buf| { UnpairedIsMet(buf, tail, p); }
      }
    }
  }

  lemma BeginIsInside(buf: seq<byte>, p: nat)
    requires BeginLine(buf, p)
    ensures p < |buf|
  {
  }

  /** Where a tail was found, a =yend line stands. */
  lemma FoundTrailer(buf: seq<byte>, begin: nat)
    requires begin <= |buf| && LineStart(buf, begin) && FindTail(buf[begin..]).Some?
    ensures exists q: nat :: begin <= q && LineWith(buf, YEND, q)
  {
    hide Find, LineWith;
    FoundLine(buf, begin, YEND);
    var e := Find(buf[begin..], YEND, true).value;
    assert begin <= begin + e && LineWith(buf, YEND, begin + e);
  }

  /** In text that ends in a line break no header is parsed beyond its body. */
  lemma {:induction false} NeverOverran(buf: seq<byte>, line: nat)
    requires line <= |buf| && LineStart(buf, line) && EndsInBreak(buf)
    ensures ScanFrom(buf, line) != Overran
    decreases |buf| - line
  {
    hide FindBody, Initialized, BeginLine;
    if line < |buf| && FindBody(buf[line..]).Some? && FindBody(buf[line..]).value.tail.Some? {
      FoundBody(buf, line);
      var tail := line + FindBody(buf[line..]).value.tail.value;
      if tail < |buf| { NeverOverran(buf, tail); }
    }
  }

  /**
   The scan succeeds exactly when every =ybegin line is followed by a =yend line. Otherwise it goes on
   at a null pointer.
   */
  lemma ScannedIffPaired(buf: seq<byte>, line: nat)
    requires line <= |buf| && LineStart(buf, line) && CleanBreaks(buf) && EndsInBreak(buf)
    ensures ScanFrom(buf, line).Scanned? <==> Paired(buf, line)
    ensures !Paired(buf, line) ==> ScanFrom(buf, line) == Faulted
  {
    NeverOverran(buf, line);
    hide ScanFrom, BeginLine, LineWith;
    if Paired(buf, line) {
      PairedIsScanned(buf, line);
    } else {
      var p: nat :| line <= p && BeginLine(buf, p) && !exists q: nat :: p <= q && LineWith(buf, YEND, q);
      UnpairedIsMet(buf, line, p);
    }
  }

  // ----- the first body

  /** p is the first position at which a =ybegin line of either version starts. */
  predicate FirstBegin(buf: seq<byte>, p: nat) {
    BeginLine(buf, p) && forall q: nat | q < p :: !BeginLine(buf, q)
  }

  /** The first body is reported, or none if there is none. */
  predicate FindsFirst(buf: seq<byte>) {
    match FindBegin(buf)
    case Some(p) => FirstBegin(buf, p)
    case None => forall q: nat | q < |buf| :: !BeginLine(buf, q)
  }

  /**
   Lines of the newer version are sought first. The first body is found exactly when this makes no
   difference: one of the versions does not occur, or the newer one occurs first.
   */
  lemma FirstBodyIsFound(buf: seq<byte>)
    ensures var newer, older := Find(buf, YBEGIN2, true), Find(buf, YBEGIN, true);
            FindsFirst(buf) <==> newer == None || older == None || newer.value <= older.value
  {
    hide Find;
    LineSearchExact(buf, YBEGIN2);
    LineSearchExact(buf, YBEGIN);
    var newer, older := Find(buf, YBEGIN2, true), Find(buf, YBEGIN, true);
    if newer.Some? && older.Some? && older.value < newer.value {
      assert BeginLine(buf, older.value);
    }
  }
}
