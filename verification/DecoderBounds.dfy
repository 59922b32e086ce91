/** What the decoding loops can write and read, on arbitrary input. */
module DecoderBounds {
  import opened Bytes
  import opened Decoder
  import opened EncodeInfo

  /** Never more bytes than there were, and never more than fit. */
  lemma {:induction false} OutputBounded(buf: seq<byte>, i: nat, lineStart: bool, room: nat, p: Params)
    requires i <= |buf|
    ensures var d := Decode(buf, i, lineStart, room, p);
            i <= d.pos && |d.out| <= room && |d.out| <= d.pos - i
    decreases |buf| - i, lineStart
  {
    if i < |buf| && room > 0 {
      if lineStart {
        OutputBounded(buf, i, false, room, p);
      } else {
        match ReadChar(buf, i, p)
        case NewLine(next) => OutputBounded(buf, next, true, room, p);
        case Byte(b, next) => OutputBounded(buf, next, false, room - 1, p);
        case Bad(status) =>
      }
    }
  }

  /** A smaller output buffer receives a prefix of what a larger one would. */
  lemma {:induction false} SmallerBufferGetsPrefix(
    buf: seq<byte>, i: nat, lineStart: bool, room: nat, more: nat, p: Params)
    requires i <= |buf| && room <= more
    ensures var small, large := Decode(buf, i, lineStart, room, p), Decode(buf, i, lineStart, more, p);
            && small.out == large.out[..Min(room, |large.out|)]
            && (|large.out| < room ==> small == large)
            && (large.status == Ok ==> small.status == Ok)
    decreases |buf| - i, lineStart
  {
    if i < |buf| && room > 0 {
      if lineStart {
        SmallerBufferGetsPrefix(buf, i, false, room, more, p);
      } else {
        match ReadChar(buf, i, p)
        case NewLine(next) => SmallerBufferGetsPrefix(buf, next, true, room, more, p);
        case Byte(b, next) => SmallerBufferGetsPrefix(buf, next, false, room - 1, more - 1, p);
        case Bad(status) =>
      }
    }
  }

  /** The last byte is a line feed that no carriage return precedes. */
  predicate LoneLineFeedLast(buf: seq<byte>) {
    |buf| > 0 && buf[|buf| - 1] == LF && !(|buf| > 1 && buf[|buf| - 2] == CR)
  }

  /** The loops stay inside every buffer that does not end in a lone line feed. */
  lemma {:induction false} StaysInside(buf: seq<byte>, i: nat, lineStart: bool, room: nat, p: Params)
    requires i <= |buf| && !LoneLineFeedLast(buf)
    requires !lineStart && i + 1 == |buf| && i > 0 ==> buf[i - 1] != CR
    ensures Decode(buf, i, lineStart, room, p).status != Overrun
    decreases |buf| - i, lineStart
  {
    if i < |buf| && room > 0 {
      if lineStart {
        if !AtTrailer(buf, i) { StaysInside(buf, i, false, room, p); }
      } else {
        match ReadChar(buf, i, p)
        case NewLine(next) => StaysInside(buf, next, true, room, p);
        case Byte(b, next) => StaysInside(buf, next, false, room - 1, p);
        case Bad(status) =>
      }
    }
  }

  /** A short line that ends in a lone line feed makes the loops run out of their buffer. */
  lemma LoneLineFeedOverruns(room: nat)
    requires room > 5
    ensures var buf: seq<byte> := [97, 97, 97, 97, 97, LF];
            Decode(buf, 0, true, room, ParamsOf(ZERO)).status == Overrun
  {
    var buf: seq<byte> := [97, 97, 97, 97, 97, LF];
    var p := ParamsOf(ZERO);
    assert Decode(buf, 5, false, room - 5, p).status == Overrun;
    assert Decode(buf, 4, false, room - 4, p).status == Overrun;
    assert Decode(buf, 3, false, room - 3, p).status == Overrun;
    assert Decode(buf, 2, false, room - 2, p).status == Overrun;
    assert Decode(buf, 1, false, room - 1, p).status == Overrun;
    assert buf[0..6][0] == 97;
  }

  /**
   On a buffer that does not end in a lone line feed, decoding ends without leaving it, writes no
   more bytes than either buffer holds, and an honest part size passes the caller's check that it
   is at most about twice the encoded size.
   */
  lemma DecodingIsBounded(buf: seq<byte>, info: Info, capacity: nat)
    requires !LoneLineFeedLast(buf)
    ensures var (status, after, out) := Processed(buf, info, capacity);
            && status != Overrun
            && |out| <= capacity && |out| <= |buf|
            && (info.PartSize() == |out| ==> !(info.PartSize() / 2 > |buf|))
  {
    StaysInside(buf, 0, true, capacity, ParamsOf(info));
    OutputBounded(buf, 0, true, capacity, ParamsOf(info));
  }
}
