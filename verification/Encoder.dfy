/**
 The encoder of the yEnc draft 1.3, and the proof that the decoder inverts it: for all data, every
 way of breaking it into lines, and every way of escaping more bytes than the draft demands.
 */
module Encoder {
  import opened Attributes
  import opened Bytes
  import opened Decoder
  import opened EncodeInfo
  import TrailerLine

  /** What an encoded body consists of. */
  datatype Unit = Plain(b: byte) | Escaped(b: byte) | Break

  function UnitText(u: Unit, p: Params): seq<byte> {
    match u
    case Plain(b) => [b]
    case Escaped(b) => [p.escape, b]
    case Break => CRLF
  }

  function Body(units: seq<Unit>, p: Params): seq<byte> {
    if units == [] then [] else UnitText(units[0], p) + Body(units[1..], p)
  }

  function UnitMeaning(u: Unit, p: Params): seq<byte> {
    match u
    case Plain(b) => [Minus(b, p.offset)]
    case Escaped(b) => [Minus(Minus(b, p.escOff), p.offset)]
    case Break => []
  }

  /** The data that units stand for. */
  function Meaning(units: seq<Unit>, p: Params): seq<byte> {
    if units == [] then [] else UnitMeaning(units[0], p) + Meaning(units[1..], p)
  }

  /**
   Units a yEnc encoder may write: no stray line break characters or escapes, and no line that
   looks like a keyword line.
   */
  predicate Wellformed(units: seq<Unit>, lineStart: bool, p: Params) {
    units == [] ||
    match units[0]
    case Plain(b) =>
      && b != CR && b != LF && b != p.escape && (lineStart ==> b != EQUALS)
      && Wellformed(units[1..], false, p)
    case Escaped(b) =>
      && b != CR && b != LF && (lineStart ==> b != YCHAR)
      && Wellformed(units[1..], false, p)
    case Break => Wellformed(units[1..], true, p)
  }

  /** The last unit, if any, is a line break. */
  predicate EndsLine(units: seq<Unit>) {
    units == [] || units[|units| - 1] == Break
  }

  predicate OnlyBreaks(units: seq<Unit>) {
    forall k | 0 <= k < |units| :: units[k] == Break
  }

  predicate SaneEscape(p: Params) { p.escape != CR && p.escape != LF }

  /**
   Decoding a body that is followed by a trailer line recovers its meaning, if there is room for
   it, and stops with nothing but line breaks before the trailer.
   */
  lemma {:induction false} BodyIsDecoded(
    pre: seq<byte>, units: seq<Unit>, tail: seq<byte>, lineStart: bool, room: nat, p: Params)
    returns (rest: seq<Unit>)
    requires SaneEscape(p) && Wellformed(units, lineStart, p) && YEND <= tail
    requires if units == [] then lineStart else EndsLine(units)
    requires |Meaning(units, p)| <= room
    ensures OnlyBreaks(rest)
    ensures var buf := pre + Body(units, p) + tail;
            var d := Decode(buf, |pre|, lineStart, room, p);
            d.status == Ok && d.out == Meaning(units, p) && buf[d.pos..] == Body(rest, p) + tail
    decreases |units|, if lineStart then 2 else 1
  {
    var buf := pre + Body(units, p) + tail;
    if room == 0 {
      rest := units;
      NoMeaning(units, p);
      assert buf[|pre|..] == Body(units, p) + tail;
    } else if units == [] {
      rest := [];
      StopsAtTrailer(pre, tail, room, p);
      assert buf == pre + tail;
    } else if lineStart {
      LineIsNotKeyword(pre, units, tail, p);
      rest := BodyIsDecoded(pre, units, tail, false, room, p);
    } else {
      rest := UnitThenBody(pre, units, tail, room, p);
    }
  }

  lemma {:induction false} UnitThenBody(pre: seq<byte>, units: seq<Unit>, tail: seq<byte>, room: nat, p: Params)
    returns (rest: seq<Unit>)
    requires SaneEscape(p) && units != [] && Wellformed(units, false, p) && EndsLine(units) && YEND <= tail
    requires |Meaning(units, p)| <= room && room > 0
    ensures OnlyBreaks(rest)
    ensures var buf := pre + Body(units, p) + tail;
            var d := Decode(buf, |pre|, false, room, p);
            d.status == Ok && d.out == Meaning(units, p) && buf[d.pos..] == Body(rest, p) + tail
    decreases |units|, 0
  {
    hide Decode, Wellformed, Body, UnitText, EndsLine;
    var u, units' := units[0], units[1..];
    var pre' := pre + UnitText(u, p);
    SplitWellformed(units, p);
    SplitUnit(pre, units, tail, p);
    UnitIsDecoded(pre, u, Body(units', p) + tail, room, p);
    rest := BodyIsDecoded(pre', units', tail, u == Break, room - |UnitMeaning(u, p)|, p);
  }

  lemma StopsAtTrailer(pre: seq<byte>, tail: seq<byte>, room: nat, p: Params)
    requires YEND <= tail
    ensures Decode(pre + tail, |pre|, true, room, p) == Decoded([], |pre|, Ok)
    ensures (pre + tail)[|pre|..] == tail
  {
    assert (pre + tail)[|pre|..|pre| + |YEND|] == tail[..|YEND|];
  }

  lemma SplitUnit(pre: seq<byte>, units: seq<Unit>, tail: seq<byte>, p: Params)
    requires units != []
    ensures var pre', body' := pre + UnitText(units[0], p), Body(units[1..], p);
            pre + Body(units, p) + tail == pre' + body' + tail == pre' + (body' + tail)
  {
    Regroup(pre, UnitText(units[0], p), Body(units[1..], p), tail);
  }

  lemma Regroup(a: seq<byte>, b: seq<byte>, c: seq<byte>, d: seq<byte>)
    ensures a + (b + c) + d == (a + b) + c + d == (a + b) + (c + d)
  {
  }

  lemma SplitWellformed(units: seq<Unit>, p: Params)
    requires units != [] && Wellformed(units, false, p) && EndsLine(units)
    ensures var u, units' := units[0], units[1..];
            && Wellformed([u], false, p) && Wellformed(units', u == Break, p)
            && (if units' == [] then u == Break else EndsLine(units'))
  {
  }

  lemma UnitIsDecoded(pre: seq<byte>, u: Unit, after: seq<byte>, room: nat, p: Params)
    requires SaneEscape(p) && Wellformed([u], false, p) && room > 0
    ensures var buf := pre + UnitText(u, p) + after;
            Decode(buf, |pre|, false, room, p) ==
            Decode(buf, |pre| + |UnitText(u, p)|, u == Break, room - |UnitMeaning(u, p)|, p).After(UnitMeaning(u, p))
  {
    var buf := pre + UnitText(u, p) + after;
    assert buf[|pre|] == UnitText(u, p)[0];
    if !u.Plain? { assert buf[|pre| + 1] == UnitText(u, p)[1]; }
  }

  lemma {:induction false} NoMeaning(units: seq<Unit>, p: Params)
    requires Meaning(units, p) == []
    ensures OnlyBreaks(units)
  {
    if units != [] {
      NoMeaning(units[1..], p);
      assert forall k | 0 < k < |units| :: units[k] == units[1..][k - 1];
    }
  }

  lemma LineIsNotKeyword(pre: seq<byte>, units: seq<Unit>, tail: seq<byte>, p: Params)
    requires SaneEscape(p) && units != [] && Wellformed(units, true, p) && |tail| >= |YEND|
    ensures var buf, i := pre + Body(units, p) + tail, |pre|;
            && !AtTrailer(buf, i)
            && !(buf[i] == p.escape && buf[i + 1] == YCHAR)
  {
    var buf, i := pre + Body(units, p) + tail, |pre|;
    var head := UnitText(units[0], p);
    assert Body(units, p) == head + Body(units[1..], p);
    assert buf[i] == head[0];
    if |head| == 2 { assert buf[i + 1] == head[1]; }
    assert buf[i..i + 6][0] == buf[i] && buf[i..i + 6][1] == buf[i + 1];
  }

  lemma {:induction false} BreaksHaveNoSpace(units: seq<Unit>, p: Params)
    requires OnlyBreaks(units)
    ensures SPACE !in Body(units, p)
  {
    if units != [] {
      BreaksHaveNoSpace(units[1..], p);
    }
  }

  /** The numbers that encoder and decoder agree on: those of the record, or else those of the draft. */
  function Agreed(info: Info): Params {
    Params(if OffsetF in info.flags then info.offset else 42,
           if EscapeF in info.flags then info.escape else 61,
           if EscOffF in info.flags then info.escOff else 64)
  }

  lemma DecoderAgrees(info: Info)
    ensures ParamsOf(info) == Agreed(info)
  {
  }

  /**
   Decoding inverts encoding. Every well-formed body followed by a printed trailer line decodes to
   exactly the data it stands for, even into a buffer with no byte to spare, and the size, the CRCs
   and the part number end up in the record.
   */
  lemma EncodingIsDecoded(units: seq<Unit>, t: TrailerLine.Fields, post: seq<byte>, info: Info, capacity: nat)
    requires var p := Agreed(info);
             && SaneEscape(p) && Wellformed(units, true, p) && EndsLine(units)
             && |Meaning(units, p)| <= capacity
    requires TrailerLine.Fit(t) && TrailerLine.Closes(post)
    ensures var p := Agreed(info);
            var data := Meaning(units, p);
            Processed(Body(units, p) + (TrailerLine.Line(t) + post), info, capacity)
            == (Ok, TrailerLine.Recorded(info.(sizeActual := |data|), t, post), data)
  {
    var p, tail := Agreed(info), TrailerLine.Line(t) + post;
    KeywordLine(t, post);
    var breaks := WholeBodyIsDecoded(units, tail, capacity, p);
    LoopsThenTrailer(Body(units, p) + tail, breaks, t, post, info, capacity);
  }

  lemma WholeBodyIsDecoded(units: seq<Unit>, tail: seq<byte>, capacity: nat, p: Params) returns (breaks: seq<byte>)
    requires SaneEscape(p) && Wellformed(units, true, p) && EndsLine(units) && |Meaning(units, p)| <= capacity
    requires YEND <= tail
    ensures var buf := Body(units, p) + tail;
            var d := Decode(buf, 0, true, capacity, p);
            d.status == Ok && d.out == Meaning(units, p) && buf[d.pos..] == breaks + tail
    ensures SPACE !in breaks
  {
    var rest := BodyIsDecoded([], units, tail, true, capacity, p);
    assert [] + Body(units, p) + tail == Body(units, p) + tail;
    BreaksHaveNoSpace(rest, p);
    breaks := Body(rest, p);
  }

  lemma LoopsThenTrailer(
    buf: seq<byte>, breaks: seq<byte>, t: TrailerLine.Fields, post: seq<byte>, info: Info, capacity: nat)
    requires SPACE !in breaks && TrailerLine.Fit(t) && TrailerLine.Closes(post)
    requires var d := Decode(buf, 0, true, capacity, Agreed(info));
             d.status == Ok && buf[d.pos..] == breaks + (TrailerLine.Line(t) + post)
    ensures var d := Decode(buf, 0, true, capacity, Agreed(info));
            Processed(buf, info, capacity)
            == (Ok, TrailerLine.Recorded(info.(sizeActual := |d.out|), t, post), d.out)
  {
    hide Decode, TrailerLine.Recorded, TrailerLine.Line, TrailerLine.Fit, TrailerLine.Closes, Trailer, Agreed;
    DecoderAgrees(info);
    var d := Decode(buf, 0, true, capacity, Agreed(info));
    var info' := info.(sizeActual := |d.out|);
    TrailerLine.TrailerIsRead(buf[..d.pos], breaks, t, post, info');
    assert breaks + TrailerLine.Line(t) + post == breaks + (TrailerLine.Line(t) + post);
    assert buf == buf[..d.pos] + buf[d.pos..];
  }

  lemma KeywordLine(t: TrailerLine.Fields, post: seq<byte>)
    ensures YEND <= TrailerLine.Line(t) + post
  {
    var items := TrailerLine.Items(t);
    assert Text(items) == ItemText(items[0]) + Text(items[1..]);
  }

  // ----- the encoder of the draft

  /** The bytes that must not stand in an encoded body as they are. */
  predicate Critical(e: byte) { e == NUL || e == LF || e == CR || e == EQUALS }

  function Plus(a: byte, b: byte): byte { (a + b) % 256 }

  function EncodeByte(c: byte, p: Params): Unit {
    var e := Plus(c, p.offset);
    if Critical(e) then Escaped(Plus(e, p.escOff)) else Plain(e)
  }

  function EncodeLine(line: seq<byte>, p: Params): (units: seq<Unit>)
    ensures |units| > 0
  {
    if line == [] then [Break] else [EncodeByte(line[0], p)] + EncodeLine(line[1..], p)
  }

  /** Data that was cut into lines in any way, each line encoded and ended by a line break. */
  function Encode(lines: seq<seq<byte>>, p: Params): seq<Unit> {
    if lines == [] then [] else EncodeLine(lines[0], p) + Encode(lines[1..], p)
  }

  function Join(lines: seq<seq<byte>>): seq<byte> {
    if lines == [] then [] else lines[0] + Join(lines[1..])
  }

  /** The escape offset moves no critical byte onto a line break or the letter y. */
  predicate SafeEscOff(p: Params) {
    forall e: byte | Critical(e) ::
      var x := Plus(e, p.escOff); x != CR && x != LF && x != YCHAR
  }

  lemma MinusUndoesPlus(a: byte, b: byte)
    ensures Minus(Plus(a, b), b) == a
  {
  }

  lemma ByteIsEncoded(c: byte, more: seq<Unit>, lineStart: bool, p: Params)
    requires p.escape == EQUALS && SafeEscOff(p) && Wellformed(more, false, p)
    ensures var units := [EncodeByte(c, p)] + more;
            Wellformed(units, lineStart, p) && Meaning(units, p) == [c] + Meaning(more, p)
  {
    var units := [EncodeByte(c, p)] + more;
    assert units[1..] == more;
    MinusUndoesPlus(c, p.offset);
    MinusUndoesPlus(Plus(c, p.offset), p.escOff);
  }

  lemma BreakIsEncoded(more: seq<Unit>, lineStart: bool, p: Params)
    requires Wellformed(more, true, p) && EndsLine(more)
    ensures var units := [Break] + more;
            Wellformed(units, lineStart, p) && EndsLine(units) && Meaning(units, p) == Meaning(more, p)
  {
    var units := [Break] + more;
    assert units[1..] == more;
  }

  lemma {:induction false} LineIsEncoded(line: seq<byte>, more: seq<Unit>, lineStart: bool, p: Params)
    requires p.escape == EQUALS && SafeEscOff(p) && Wellformed(more, true, p) && EndsLine(more)
    ensures var units := EncodeLine(line, p) + more;
            Wellformed(units, lineStart, p) && EndsLine(units) && Meaning(units, p) == line + Meaning(more, p)
  {
    if line == [] {
      BreakIsEncoded(more, lineStart, p);
    } else {
      var rest := EncodeLine(line[1..], p) + more;
      LineIsEncoded(line[1..], more, false, p);
      ByteIsEncoded(line[0], rest, lineStart, p);
      LineOfBytes(line, rest, more, p);
    }
  }

  lemma LineOfBytes(line: seq<byte>, rest: seq<Unit>, more: seq<Unit>, p: Params)
    requires line != [] && rest == EncodeLine(line[1..], p) + more && EndsLine(rest)
    ensures var units := EncodeLine(line, p) + more;
            units == [EncodeByte(line[0], p)] + rest && EndsLine(units)
    ensures forall m: seq<byte> :: [line[0]] + (line[1..] + m) == line + m
  {
    hide EncodeByte;
    var first, units := EncodeByte(line[0], p), EncodeLine(line, p) + more;
    assert EncodeLine(line, p) == [first] + EncodeLine(line[1..], p);
    UnitsConcat(first, EncodeLine(line[1..], p), more);
    SplitFirst(line);
  }

  lemma UnitsConcat(first: Unit, a: seq<Unit>, b: seq<Unit>)
    ensures ([first] + a) + b == [first] + (a + b)
    ensures EndsLine(a + b) && a + b != [] ==> EndsLine([first] + (a + b))
  {
  }

  lemma SplitFirst(line: seq<byte>)
    requires line != []
    ensures forall m: seq<byte> :: [line[0]] + (line[1..] + m) == line + m
  {
    forall m: seq<byte> ensures [line[0]] + (line[1..] + m) == line + m {
      assert line == [line[0]] + line[1..];
    }
  }

  lemma {:induction false} EncodingIsWellformed(lines: seq<seq<byte>>, p: Params)
    requires p.escape == EQUALS && SafeEscOff(p)
    ensures var units := Encode(lines, p);
            Wellformed(units, true, p) && EndsLine(units) && Meaning(units, p) == Join(lines)
  {
    if lines != [] {
      EncodingIsWellformed(lines[1..], p);
      LineIsEncoded(lines[0], Encode(lines[1..], p), true, p);
    }
  }

  function EncodedText(lines: seq<seq<byte>>, t: TrailerLine.Fields, post: seq<byte>, p: Params): seq<byte> {
    Body(Encode(lines, p), p) + (TrailerLine.Line(t) + post)
  }

  /** The decoder returns the data and the trailer of everything the encoder writes. */
  ghost predicate RoundTrips(info: Info) {
    forall lines: seq<seq<byte>>, t: TrailerLine.Fields, post: seq<byte>, capacity: nat
      | TrailerLine.Fit(t) && TrailerLine.Closes(post) && |Join(lines)| <= capacity ::
      Processed(EncodedText(lines, t, post, Agreed(info)), info, capacity)
      == (Ok, TrailerLine.Recorded(info.(sizeActual := |Join(lines)|), t, post), Join(lines))
  }

  /**
   The round trip works for all data, all line breaks and all trailers exactly when the escape
   offset moves no critical byte onto CR, LF or y.
   */
  lemma RoundTrip(info: Info)
    requires Agreed(info).escape == EQUALS
    ensures RoundTrips(info) <==> SafeEscOff(Agreed(info))
  {
    var p := Agreed(info);
    if SafeEscOff(p) {
      forall lines: seq<seq<byte>>, t: TrailerLine.Fields, post: seq<byte>, capacity: nat
        | TrailerLine.Fit(t) && TrailerLine.Closes(post) && |Join(lines)| <= capacity
        ensures Processed(EncodedText(lines, t, post, p), info, capacity)
             == (Ok, TrailerLine.Recorded(info.(sizeActual := |Join(lines)|), t, post), Join(lines))
      {
        EncodingIsWellformed(lines, p);
        EncodingIsDecoded(Encode(lines, p), t, post, info, capacity);
      }
    } else {
      var e: byte :| Critical(e) && var x := Plus(e, p.escOff); !(x != CR && x != LF && x != YCHAR);
      var lines := [[Minus(e, p.offset)]];
      var t := TrailerLine.Fields(1, None, None, None);
      UnsafeByteFails(e, t, info);
      assert Join(lines) == [Minus(e, p.offset)] by { assert Join(lines[1..]) == []; }
      assert |Join(lines)| <= 1 && TrailerLine.Closes([]);
      assert !RoundTrips(info);
    }
  }

  /** In particular, bodies encoded with the numbers of the draft are decoded when no others are stated. */
  lemma DraftIsDecoded(lines: seq<seq<byte>>, t: TrailerLine.Fields, post: seq<byte>, info: Info, capacity: nat)
    requires OffsetF !in info.flags && EscapeF !in info.flags && EscOffF !in info.flags
    requires TrailerLine.Fit(t) && TrailerLine.Closes(post) && |Join(lines)| <= capacity
    ensures Processed(EncodedText(lines, t, post, Params(42, 61, 64)), info, capacity)
         == (Ok, TrailerLine.Recorded(info.(sizeActual := |Join(lines)|), t, post), Join(lines))
  {
    hide Processed;
    RoundTrip(info);
  }

  lemma UnsafeByteFails(e: byte, t: TrailerLine.Fields, info: Info)
    requires var p := Agreed(info);
             p.escape == EQUALS && Critical(e) &&
             var x := Plus(e, p.escOff); x == CR || x == LF || x == YCHAR
    ensures var p := Agreed(info);
            Processed(EncodedText([[Minus(e, p.offset)]], t, [], p), info, 1).0 != Ok
  {
    var p := Agreed(info);
    var c, x := Minus(e, p.offset), Plus(e, p.escOff);
    var line: seq<byte> := [c];
    assert Plus(c, p.offset) == e;
    assert EncodeLine(line, p) == [Escaped(x), Break] by { assert line[1..] == []; }
    assert Encode([line], p) == [Escaped(x), Break] by { assert [line][1..] == []; }
    assert [Escaped(x), Break][1..] == [Break] && [Break][1..] == [];
    assert Body([Break], p) == CRLF + [];
    assert Body([Escaped(x), Break], p) == [EQUALS, x] + CRLF;
    var buf := EncodedText([line], t, [], p);
    assert buf == [EQUALS, x] + CRLF + (TrailerLine.Line(t) + []);
    KeywordLine(t, []);
    assert buf[0] == EQUALS && buf[1] == x && buf[0..6][2] == CR;
    assert !AtTrailer(buf, 0);
    if x != YCHAR { assert Decode(buf, 0, false, 1, p).status == Failed(InvalidEscape); }
    assert Decode(buf, 0, true, 1, p).status != Ok;
  }
}
