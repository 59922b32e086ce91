/** No byte of an encoded message is lost or duplicated when it is turned into attachments. */
module Conservation {
  import opened Attachments
  import opened Bytes
  import opened Header
  import opened MessageSplit

  /** The parts lie next to one another and fill the message between two positions. */
  predicate Tiles(parts: seq<Part>, from: nat, to: nat) {
    if parts == [] then from == to
    else parts[0].Begin() == from < parts[0].End() && Tiles(parts[1..], parts[0].End(), to)
  }

  /** The bytes of the message that the parts stand for, one after the other. */
  function Sources(buf: seq<byte>, parts: seq<Part>): seq<byte> {
    if parts == [] || !(parts[0].Begin() <= parts[0].End() <= |buf|) then []
    else buf[parts[0].Begin()..parts[0].End()] + Sources(buf, parts[1..])
  }

  function BodiesIn(parts: seq<Part>): seq<Body> {
    if parts == [] then []
    else (if parts[0].BodyPart? then [parts[0].body] else []) + BodiesIn(parts[1..])
  }

  lemma {:induction false} TilesAreSource(buf: seq<byte>, parts: seq<Part>, from: nat, to: nat)
    requires Tiles(parts, from, to) && to <= |buf|
    ensures from <= to && Sources(buf, parts) == buf[from..to]
  {
    if parts != [] {
      TilesAreSource(buf, parts[1..], parts[0].End(), to);
    }
  }

  lemma TextTiles(text: nat, to: nat, parts: seq<Part>, end: nat)
    requires text <= to && Tiles(parts, to, end)
    ensures Tiles(TextUpTo(Some(text), to) + parts, text, end)
    ensures BodiesIn(TextUpTo(Some(text), to) + parts) == BodiesIn(parts)
  {
    var all := TextUpTo(Some(text), to) + parts;
    if text < to {
      assert all[1..] == parts;
    } else {
      assert all == parts;
    }
  }

  /** Behind a body, text and bodies fill the message up to its end. */
  lemma {:induction false} AttachedTiles(buf: seq<byte>, bodies: seq<Body>, text: nat)
    requires BodiesOf(buf, bodies) && InOrder(bodies, text, |buf|)
    requires Attached(buf, bodies, Some(text)).Some?
    ensures var parts := Attached(buf, bodies, Some(text)).value;
            Tiles(parts, text, |buf|) && BodiesIn(parts) == bodies
    decreases |bodies|
  {
    hide ContentOf, BodyOf, TextUpTo;
    if bodies == [] {
      TextTiles(text, |buf|, [], |buf|);
      assert TextUpTo(Some(text), |buf|) + [] == TextUpTo(Some(text), |buf|);
    } else {
      var b := bodies[0];
      AttachedTiles(buf, bodies[1..], b.end);
      var more := [BodyPart(b, ContentOf(buf, b).value)] + Attached(buf, bodies[1..], Some(b.end)).value;
      assert more[1..] == Attached(buf, bodies[1..], Some(b.end)).value;
      TextTiles(text, b.begin, more, |buf|);
    }
  }

  /** The first body has no text before it, so the parts begin with it. */
  lemma AttachedFromFirst(buf: seq<byte>, bodies: seq<Body>, from: nat)
    requires bodies != [] && BodiesOf(buf, bodies) && InOrder(bodies, from, |buf|)
    requires Attached(buf, bodies, None).Some?
    ensures var parts := Attached(buf, bodies, None).value;
            Tiles(parts, bodies[0].begin, |buf|) && BodiesIn(parts) == bodies
  {
    hide ContentOf, BodyOf;
    var b := bodies[0];
    AttachedTiles(buf, bodies[1..], b.end);
    var more := Attached(buf, bodies[1..], Some(b.end)).value;
    var parts := [BodyPart(b, ContentOf(buf, b).value)] + more;
    assert parts[1..] == more && [] + parts == parts;
  }

  // ----- bodies that could not be parsed

  /** The bodies that were found and rejected. */
  function Rejected(buf: seq<byte>, line: nat): seq<(nat, nat)>
    requires line <= |buf|
    decreases |buf| - line
  {
    if line == |buf| then []
    else match FindBody(buf[line..])
      case Some(Found(b, Some(t))) =>
        var begin, tail := line + b, line + t;
        (if Initialized(buf[begin..tail]).0.Failed? then [(begin, tail)] else []) + Rejected(buf, tail)
      case _ => []
  }

  /** Rejected bodies lie within the message, and share no byte with the others. */
  lemma {:induction false} RejectedIsApart(buf: seq<byte>, line: nat)
    requires line <= |buf| && ScanFrom(buf, line).Scanned?
    ensures forall r | r in Rejected(buf, line) :: line <= r.0 < r.1 <= |buf|
    ensures forall r, b | r in Rejected(buf, line) && b in ScanFrom(buf, line).bodies :: r.1 <= b.begin || b.end <= r.0
    decreases |buf| - line
  {
    hide FindBody, Initialized;
    if line < |buf| && FindBody(buf[line..]).Some? {
      var tail := line + FindBody(buf[line..]).value.tail.value;
      RejectedIsApart(buf, tail);
      ScanIsOrdered(buf, tail);
      InOrderBounds(ScanFrom(buf, tail).bodies, tail, |buf|);
    }
  }

  lemma {:induction false} InOrderBounds(bodies: seq<Body>, from: nat, to: nat)
    requires InOrder(bodies, from, to)
    ensures forall b | b in bodies :: from <= b.begin
  {
    if bodies != [] {
      InOrderBounds(bodies[1..], bodies[0].end, to);
    }
  }

  /** What the first part leaves over begins with a body, if the first part is text. */
  lemma SecondIsBody(parts: seq<Part>, from: nat, to: nat)
    requires parts != [] && Tiles(parts, from, to) && NoTextsMeet(parts)
    ensures parts[0].BodyPart? ==> parts[0].body in BodiesIn(parts)
    ensures parts[0].TextPart? && parts[0].to < to ==>
              exists b :: b in BodiesIn(parts) && b.begin == parts[0].to < b.end
  {
    if parts[0].TextPart? && parts[0].to < to {
      assert parts[1..] != [] && parts[1..][0] == parts[1] && parts[0].TextPart?;
      assert parts[1].body in BodiesIn(parts[1..]);
    }
  }

  /** A stretch of the message that shares no byte with any body lies within one text. */
  lemma {:induction false} LiesInText(parts: seq<Part>, from: nat, to: nat, begin: nat, end: nat) returns (k: nat)
    requires Tiles(parts, from, to) && from <= begin < end <= to
    requires forall b | b in BodiesIn(parts) :: end <= b.begin || b.end <= begin
    requires NoTextsMeet(parts)
    ensures k < |parts| && parts[k].TextPart? && parts[k].from <= begin < end <= parts[k].to
  {
    if begin < parts[0].End() {
      k := 0;
      SecondIsBody(parts, from, to);
    } else {
      assert forall b | b in BodiesIn(parts[1..]) :: b in BodiesIn(parts);
      var j := LiesInText(parts[1..], parts[0].End(), to, begin, end);
      k := j + 1;
    }
  }

  /** Between any two texts there is a body. */
  predicate NoTextsMeet(parts: seq<Part>) {
    forall k | 0 < k < |parts| :: parts[k - 1].BodyPart? || parts[k].BodyPart?
  }

  lemma {:induction false} AttachedTextsDoNotMeet(buf: seq<byte>, bodies: seq<Body>, text: Option<nat>)
    requires BodiesOf(buf, bodies) && Attached(buf, bodies, text).Some?
    ensures NoTextsMeet(Attached(buf, bodies, text).value)
    decreases |bodies|
  {
    hide ContentOf, BodyOf;
    if bodies != [] {
      var more := Attached(buf, bodies[1..], Some(bodies[0].end)).value;
      AttachedTextsDoNotMeet(buf, bodies[1..], Some(bodies[0].end));
      var body := BodyPart(bodies[0], ContentOf(buf, bodies[0]).value);
      BodyBetween(TextUpTo(text, bodies[0].begin), body, more);
    }
  }

  lemma BodyBetween(before: seq<Part>, body: Part, more: seq<Part>)
    requires |before| <= 1 && body.BodyPart? && NoTextsMeet(more)
    ensures NoTextsMeet(before + ([body] + more))
  {
    var parts := before + ([body] + more);
    forall k | 0 < k < |parts| ensures parts[k - 1].BodyPart? || parts[k].BodyPart? {
      var n := |before| + 1;
      if k > n {
        assert parts[k - 1] == more[k - n - 1] && parts[k] == more[k - n];
      }
    }
  }

  /**
   Conservation. The attachments of a message, put together in order, are the message from its first
   accepted body to its end, byte for byte. The bodies among them are the accepted ones, in order and
   without overlap, and every body that was rejected behind the first accepted one is inside a text.
   */
  lemma MessageIsConserved(buf: seq<byte>, line: nat)
    requires line <= |buf| && ScanFrom(buf, line).Scanned? && ScanFrom(buf, line).bodies != []
    requires BodiesOf(buf, ScanFrom(buf, line).bodies) && Attached(buf, ScanFrom(buf, line).bodies, None).Some?
    ensures var bodies := ScanFrom(buf, line).bodies;
            var parts := Attached(buf, bodies, None).value;
            && line <= bodies[0].begin <= |buf|
            && Sources(buf, parts) == buf[bodies[0].begin..]
            && BodiesIn(parts) == bodies && InOrder(bodies, line, |buf|)
            && forall r | r in Rejected(buf, line) && bodies[0].begin <= r.0 ::
                 exists k :: 0 <= k < |parts| && parts[k].TextPart? && parts[k].from <= r.0 < r.1 <= parts[k].to
  {
    hide ScanFrom, Attached, BodyOf, NoTextsMeet;
    var bodies := ScanFrom(buf, line).bodies;
    var parts := Attached(buf, bodies, None).value;
    ScanIsOrdered(buf, line);
    AttachedFromFirst(buf, bodies, line);
    TilesAreSource(buf, parts, bodies[0].begin, |buf|);
    AttachedTextsDoNotMeet(buf, bodies, None);
    RejectedIsApart(buf, line);
    forall r | r in Rejected(buf, line) && bodies[0].begin <= r.0
      ensures exists k :: 0 <= k < |parts| && parts[k].TextPart? && parts[k].from <= r.0 < r.1 <= parts[k].to
    {
      var k := LiesInText(parts, bodies[0].begin, |buf|, r.0, r.1);
    }
  }
}
