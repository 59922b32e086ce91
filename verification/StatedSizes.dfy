/** What becomes of a body whose header may state any size, right or wrong. */
module StatedSizes {
  import opened Attachments
  import opened Bytes
  import opened EncodeInfo
  import opened HeaderRoundTrip
  import opened Integrity
  import opened MessageRoundTrip
  import opened MessageSplit
  import Decoder
  import DecoderBounds
  import Encoder
  import Header
  import TrailerLine

  /** The buffer that is set aside: what was stated, but no less than 64 KiB. */
  function Capacity(h: Head): nat
    requires Ranged(h)
  {
    Max(StatedSize(h), 0x1_0000)
  }

  lemma CapacityIs(m: Message)
    requires Valid(m.head) && Ranged(m.head)
    ensures Max(Read(m).PartSize(), MIN_CAPACITY) == Capacity(m.head)
  {
    hide Expected;
    SizeIsStated(m);
  }

  /** The record and the bytes, whatever comes of the trailer. */
  function Outcome(m: Message): (Status, Info, seq<byte>)
    requires Ranged(m.head)
  {
    Decoder.Processed(Encoded(m), Read(m), Capacity(m.head))
  }

  lemma LoopsWrite(m: Message, capacity: nat)
    requires Sound(m)
    ensures var d := Decoder.Decode(Encoded(m), 0, true, capacity, Decoder.ParamsOf(Read(m)));
            d.status == Ok && d.out == Meant(m)[..Min(capacity, |Meant(m)|)]
  {
    hide Encoder.Wellformed, Expected, TrailerLine.Line, TrailerLine.Fit, Encoder.Body, Encoder.Meaning, Valid, Decoder.Decode;
    var p, tail := Params(m), TrailerLine.Line(m.trailer) + CRLF;
    SameParams(m);
    Encoder.DecoderAgrees(Read(m));
    Encoder.KeywordLine(m.trailer, CRLF);
    var breaks := Encoder.WholeBodyIsDecoded(m.units, tail, Max(capacity, |Meant(m)|), p);
    DecoderBounds.SmallerBufferGetsPrefix(Encoded(m), 0, true, capacity, Max(capacity, |Meant(m)|), p);
  }

  /** The decoder writes as much of the data as the stated size makes room for. */
  lemma DataIsCut(m: Message)
    requires Sound(m) && Ranged(m.head)
    ensures var n := Min(Capacity(m.head), |Meant(m)|);
            && Outcome(m).2 == Meant(m)[..n]
            && Outcome(m).1.sizeActual == n && Outcome(m).1.PartSize() == StatedSize(m.head)
  {
    hide Encoder.Wellformed, Expected, TrailerLine.Line, TrailerLine.Fit, Encoder.Body, Encoder.Meaning, Valid, Decoder.Decode, Encoded, Decoder.Trailer;
    LoopsWrite(m, Capacity(m.head));
    SizeIsStated(m);
    var d := Decoder.Decode(Encoded(m), 0, true, Capacity(m.head), Decoder.ParamsOf(Read(m)));
    TrailerKeeps(Encoded(m), d.pos, Read(m).(sizeActual := |d.out|));
  }

  lemma TrailerKeeps(buf: seq<byte>, i: nat, info: Info)
    requires i <= |buf|
    ensures var after := Decoder.Trailer(buf, i, info).1;
            after.sizeActual == info.sizeActual && after.PartSize() == info.PartSize()
  {
    hide Decoder.TrailerValue;
  }

  /**
   A wrong size is marked, except when it is 64 KiB or more and less than the size of the data: then the
   data is cut to it, and the mark finds nothing wrong.
   */
  lemma WrongSizeIsMarked(m: Message)
    requires Sound(m) && Ranged(m.head)
    ensures var size, mark := StatedSize(m.head), Judged(Outcome(m).1, Outcome(m).2).badSize;
            && (mark == 0 <==> |Meant(m)| == size || (0x1_0000 <= size < |Meant(m)|))
            && (mark == 0 || mark == size)
  {
    hide Outcome, Sound, BadCrc;
    DataIsCut(m);
    SizeIsPositive(m);
  }

  lemma SizeIsPositive(m: Message)
    requires Sound(m) && Ranged(m.head)
    ensures StatedSize(m.head) > 0
  {
  }

  /**
   All of the data is attached if it fits the buffer and the stated size is no more than about twice that of
   the encoded body; if that is exceeded, the body is attached as it stands.
   */
  lemma DataIsAttached(buf: seq<byte>, line: nat, m: Message)
    requires line <= |buf| && buf[line..] == MessageText(m) && Readable(m) && Ranged(m.head)
    ensures var n := |Printed(m.head) + Encoded(m)|;
            var b := Body(line, line + n, Read(m));
            && line + n <= |buf| && Header.Initialized(buf[line..line + n]) == (Ok, Read(m)) && BodyOf(buf, b)
            && (StatedSize(m.head) > 2 * |Encoded(m)| + 1 ==> ContentOf(buf, b) == Some(Raw(buf[line..line + n])))
            && (StatedSize(m.head) <= 2 * |Encoded(m)| + 1 && |Meant(m)| <= Capacity(m.head) ==>
                  ContentOf(buf, b) == Some(Data(Meant(m))))
  {
    hide Encoder.Wellformed, Expected, Valid, Silent, Encoded, Printed, Decoder.Processed, Meant, Header.Initialized, SizeNeeds;
    var text := Printed(m.head) + Encoded(m);
    assert buf[line..line + |text|] == text;
    EncodedLength(m);
    HeaderIsParsed(m.head, Encoded(m));
    SameParams(m);
    SizeIsStated(m);
    CapacityIs(m);
    assert text[|Printed(m.head)|..] == Encoded(m);
    if |Meant(m)| <= Capacity(m.head) {
      FittingIsDecoded(m);
    }
  }

  lemma FittingIsDecoded(m: Message)
    requires Sound(m) && Ranged(m.head) && |Meant(m)| <= Capacity(m.head)
    ensures Outcome(m).0 == Ok && Outcome(m).2 == Meant(m)
  {
    hide Encoder.Wellformed, Expected, TrailerLine.Line, TrailerLine.Fit, Encoder.Body, Encoder.Meaning, Decoder.Processed, Valid;
    SameParams(m);
    CrlfCloses();
    Encoder.EncodingIsDecoded(m.units, m.trailer, CRLF, Read(m), Capacity(m.head));
  }
}
