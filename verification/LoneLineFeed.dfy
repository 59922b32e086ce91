/** Exactly when a line feed alone at the end of an encoded body makes the decoding loops leave it. */
module LoneLineFeed {
  import opened Bytes
  import opened Decoder
  import opened EncodeInfo
  import opened Encoder

  /** The bytes of the last line, which no line break ends, given those of its part already passed. */
  function LastLine(units: seq<Unit>, passed: nat, p: Params): nat
    decreases |units|
  {
    if units == [] then passed
    else LastLine(units[1..], if units[0] == Break then 0 else passed + |UnitText(units[0], p)|, p)
  }

  lemma {:induction false} LastLineIsPart(units: seq<Unit>, passed: nat, p: Params)
    ensures LastLine(units, passed, p) <= passed + |Body(units, p)|
    decreases |units|
  {
    if units != [] {
      LastLineIsPart(units[1..], if units[0] == Break then 0 else passed + |UnitText(units[0], p)|, p);
    }
  }

  /** A line that is too short to hold a trailer stops the loops. */
  lemma ShortLineStops(pre: seq<byte>, text: seq<byte>, room: nat, p: Params)
    requires |text| < |YEND|
    ensures Decode(pre + text, |pre|, true, room, p).status == Ok
  {
  }

  lemma LineGoesOn(pre: seq<byte>, units: seq<Unit>, room: nat, p: Params)
    requires SaneEscape(p) && Wellformed(units, true, p) && |Body(units, p)| + 1 >= |YEND| && room > 0
    ensures var buf := pre + Body(units, p) + [LF];
            Decode(buf, |pre|, true, room, p) == Decode(buf, |pre|, false, room, p)
  {
    var buf := pre + Body(units, p) + [LF];
    assert units != [];
    var head := UnitText(units[0], p);
    assert Body(units, p) == head + Body(units[1..], p);
    assert buf[|pre|] == head[0];
    if |head| == 2 { assert buf[|pre| + 1] == head[1]; }
    assert buf[|pre|..|pre| + 6][0] == buf[|pre|] && buf[|pre|..|pre| + 6][1] == buf[|pre| + 1];
  }

  /** At the start of a line, or within one that was long enough when it started. */
  lemma {:induction false} OverrunsIff(
    pre: seq<byte>, units: seq<Unit>, lineStart: bool, passed: nat, room: nat, p: Params)
    requires SaneEscape(p) && Wellformed(units, lineStart, p)
    requires if lineStart then passed == 0 else passed + |Body(units, p)| >= 5
    ensures Decode(pre + Body(units, p) + [LF], |pre|, lineStart, room, p).status == Overrun
            <==> room > |Meaning(units, p)| && LastLine(units, passed, p) >= 5
    decreases |units|, if lineStart then 2 else 1
  {
    hide Wellformed, UnitText, UnitMeaning, AtTrailer, ReadChar;
    var buf := pre + Body(units, p) + [LF];
    if room == 0 {
    } else if lineStart {
      if |Body(units, p)| + 1 < |YEND| {
        LastLineIsPart(units, 0, p);
        assert buf == pre + (Body(units, p) + [LF]);
        ShortLineStops(pre, Body(units, p) + [LF], room, p);
      } else {
        LineGoesOn(pre, units, room, p);
        AlsoWithin(units, p);
        OverrunsIff(pre, units, false, 0, room, p);
      }
    } else if units == [] {
      assert buf == pre + [LF] && buf[|pre|] == LF;
      LineFeedLast(buf, |pre|, room, p);
    } else {
      UnitThenMore(pre, units, passed, room, p);
    }
  }

  lemma LineFeedLast(buf: seq<byte>, i: nat, room: nat, p: Params)
    requires i + 1 == |buf| && buf[i] == LF && room > 0
    ensures Decode(buf, i, false, room, p).status == Overrun
  {
  }

  lemma {:induction false} UnitThenMore(pre: seq<byte>, units: seq<Unit>, passed: nat, room: nat, p: Params)
    requires SaneEscape(p) && units != [] && Wellformed(units, false, p) && passed + |Body(units, p)| >= 5 && room > 0
    ensures Decode(pre + Body(units, p) + [LF], |pre|, false, room, p).status == Overrun
            <==> room > |Meaning(units, p)| && LastLine(units, passed, p) >= 5
    decreases |units|, 0
  {
    hide Decode, Wellformed, UnitText, SaneEscape;
    var u, more := units[0], units[1..];
    SplitUnit(pre, units, [LF], p);
    OneUnit(units, false, p);
    UnitIsDecoded(pre, u, Body(more, p) + [LF], room, p);
    OverrunsIff(pre + UnitText(u, p), more, u == Break, if u == Break then 0 else passed + |UnitText(u, p)|,
                room - |UnitMeaning(u, p)|, p);
  }

  lemma AlsoWithin(units: seq<Unit>, p: Params)
    requires Wellformed(units, true, p)
    ensures Wellformed(units, false, p)
  {
  }

  lemma OneUnit(units: seq<Unit>, lineStart: bool, p: Params)
    requires units != [] && Wellformed(units, lineStart, p)
    ensures Wellformed([units[0]], false, p) && Wellformed(units[1..], units[0] == Break, p)
  {
  }

  /**
   The loops leave an encoded body that ends in a line feed without its carriage return exactly when
   the line before it has five bytes or more and there is room left for output.
   */
  lemma LoneLineFeedOverrunsIff(units: seq<Unit>, room: nat, p: Params)
    requires SaneEscape(p) && Wellformed(units, true, p)
    ensures Decode(Body(units, p) + [LF], 0, true, room, p).status == Overrun
            <==> room > |Meaning(units, p)| && LastLine(units, 0, p) >= 5
  {
    OverrunsIff([], units, true, 0, room, p);
    assert [] + Body(units, p) + [LF] == Body(units, p) + [LF];
  }
}
