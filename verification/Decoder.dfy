/** The decoding loops, and the trailer that is read after them. */
module Decoder {
  import opened Attributes
  import opened Bytes
  import opened EncodeInfo
  import opened Numbers
  import opened TagSearch

  /** The three numbers the decoding of a byte depends on. */
  datatype Params = Params(offset: byte, escape: byte, escOff: byte)

  function ParamsOf(info: Info): Params {
    Params(if OffsetF in info.flags then info.offset else DEFAULT_OFFSET,
           if EscapeF in info.flags then info.escape else DEFAULT_ESCAPE,
           if EscOffF in info.flags then info.escOff else DEFAULT_ESCOFF)
  }

  /** Subtraction of bytes wraps around. */
  function Minus(a: byte, b: byte): byte { (a - b) % 256 }

  predicate AtTrailer(buf: seq<byte>, i: nat)
    requires i <= |buf|
  {
    |buf| - i < |YEND| || buf[i..i + |YEND|] == YEND
  }

  /**
   What the loops write from position i on, with room for so many more bytes, and where and how
   they stop. A status of Overrun means that a line feed without a carriage return was the last
   byte, so that the count of remaining bytes fell below zero.
   */
  datatype Decoded = Decoded(out: seq<byte>, pos: nat, status: Status) {
    function After(written: seq<byte>): Decoded { this.(out := written + out) }
  }

  /** One turn of the inner loop: a decoded byte, the end of a line, or a reason to stop. */
  datatype Char = Byte(b: byte, next: nat) | NewLine(next: nat) | Bad(status: Status)

  /**
   A carriage return ends a line together with a line feed behind it. A line feed alone takes the
   byte behind it along.
   */
  function ReadChar(buf: seq<byte>, i: nat, p: Params): (r: Char)
    requires i < |buf|
    ensures !r.Bad? ==> i < r.next <= |buf|
    ensures r.Bad? ==> r.status != Ok
  {
    if buf[i] == CR then NewLine(if i + 1 < |buf| && buf[i + 1] == LF then i + 2 else i + 1)
    else if buf[i] == LF then if i + 1 == |buf| then Bad(Overrun) else NewLine(i + 2)
    else if buf[i] != p.escape then Byte(Minus(buf[i], p.offset), i + 1)
    else if i + 1 == |buf| || buf[i + 1] == CR || buf[i + 1] == LF then Bad(Failed(InvalidEscape))
    else Byte(Minus(Minus(buf[i + 1], p.escOff), p.offset), i + 2)
  }

  function Decode(buf: seq<byte>, i: nat, lineStart: bool, room: nat, p: Params): (d: Decoded)
    requires i <= |buf|
    ensures d.pos <= |buf|
    decreases |buf| - i, lineStart
  {
    if i == |buf| || room == 0 then Decoded([], i, Ok)
    else if lineStart then
      if AtTrailer(buf, i) then Decoded([], i, Ok)
      else if buf[i] == p.escape && buf[i + 1] == YCHAR then Decoded([], i, Failed(InvalidTag))
      else Decode(buf, i, false, room, p)
    else match ReadChar(buf, i, p)
      case NewLine(next) => Decode(buf, next, true, room, p)
      case Byte(b, next) => Decode(buf, next, false, room - 1, p).After([b])
      case Bad(status) => Decoded([], i, status)
  }

  // ----- the trailer

  /**
   The number of a trailer attribute. Its name is sought in a window of the buffer; its digits may
   extend beyond the window.
   */
  function TrailerValue(buf: seq<byte>, i: nat, end: nat, raw: seq<byte>, base: nat): Option<nat>
    requires i <= end <= |buf|
  {
    match Find(buf[i..end], Spaced(raw), false)
    case None => None
    case Some(p) => Some(Read(buf, i + p + 1 + |raw|, HEX_DIGITS, base))
  }

  function WithCrc(info: Info, v: Option<nat>): Info {
    if v.None? then info else info.(flags := info.flags + {CrcF}, crc := v.value)
  }

  function WithPartCrc(info: Info, v: Option<nat>): Info {
    if v.None? then info else info.(flags := info.flags + {PartCrcF}, partCrc := v.value)
  }

  function WithPart(info: Info, v: Option<nat>): Info {
    if v.None? then info else info.(flags := info.flags + {PartF}, part := Wrap16(v.value))
  }

  /**
   The trailer from position i on. Finding the size shortens the count of remaining bytes, so the
   names of the other fields are sought in all but the last six bytes. A part number is read with
   the digit limit of a CRC.
   */
  function Trailer(buf: seq<byte>, i: nat, info: Info): (Status, Info)
    requires i <= |buf|
  {
    if i == |buf| then (Failed(NoMoreData), info)
    else match Find(buf[i..], Spaced(RAW_SIZE), false)
      case None => (Failed(MissingTag), info)
      case Some(p) =>
        var end := |buf| - |Spaced(RAW_SIZE)|;
        var crc := TrailerValue(buf, i, end, RAW_CRC32, 16);
        var partCrc := TrailerValue(buf, i, end, RAW_PCRC32, 16);
        var part := TrailerValue(buf, i, end, RAW_PART, 10);
        (Ok, WithPart(WithPartCrc(WithCrc(info, crc), partCrc), part))
  }

  /** Status, record and bytes written by decoding a whole buffer into one of the given capacity. */
  function Processed(buf: seq<byte>, info: Info, capacity: nat): (Status, Info, seq<byte>) {
    var d := Decode(buf, 0, true, capacity, ParamsOf(info));
    if d.status != Ok then (d.status, info, d.out)
    else
      var (status, i) := Trailer(buf, d.pos, info.(sizeActual := |d.out|));
      (status, i, d.out)
  }

  // ----- the loops themselves

  method DecoderProcessBuffer(buf: seq<byte>, pei: Record, dst: array<byte>) returns (status: Status)
    modifies pei, dst
    ensures var (s, info, out) := Processed(buf, old(pei.info), dst.Length);
            && status == s && pei.info == info
            && |out| <= dst.Length && dst[..] == out + old(dst[..])[|out|..]
  {
    var flags := pei.info.flags;
    var p := Params(if OffsetF in flags then pei.info.offset else DEFAULT_OFFSET,
                    if EscapeF in flags then pei.info.escape else DEFAULT_ESCAPE,
                    if EscOffF in flags then pei.info.escOff else DEFAULT_ESCOFF);
    var i, n;
    i, n, status := DecodeLines(buf, p, dst);
    if status != Ok {
      return;
    }
    pei.info := pei.info.(sizeActual := n);
    status := ReadTrailer(buf, i, pei);
  }

  /** The outer loop: lines up to the trailer, or until a buffer is exhausted. */
  method DecodeLines(buf: seq<byte>, p: Params, dst: array<byte>) returns (i: nat, n: nat, status: Status)
    modifies dst
    ensures var d := Decode(buf, 0, true, dst.Length, p);
            && status == d.status && n == |d.out| <= dst.Length && dst[..n] == d.out
            && (status == Ok ==> i == d.pos)
    ensures forall k | n <= k < dst.Length :: dst[k] == old(dst[k])
  {
    ghost var d := Decode(buf, 0, true, dst.Length, p);
    i, n := 0, 0;
    while i < |buf| && n < dst.Length
      invariant i <= |buf| && n <= dst.Length
      invariant Decode(buf, i, true, dst.Length - n, p).After(dst[..n]) == d
      invariant forall k | n <= k < dst.Length :: dst[k] == old(dst[k])
      decreases |buf| - i
    {
      if |buf| - i < |YEND| {
        break;
      }
      var tag := FindTag(buf[i..i + |YEND|], YEND, true);
      TagAtStart(buf[i..i + |YEND|], YEND);
      if tag.Some? {
        break;
      }
      if p.escape == buf[i] && YCHAR == buf[i + 1] {
        return i, n, Failed(InvalidTag);
      }
      i, n, status := DecodeLine(buf, i, p, dst, n);
      if status != Ok {
        return;
      }
    }
    status := Ok;
  }

  /** The inner loop: decode up to and including the next line break. */
  method DecodeLine(buf: seq<byte>, from: nat, p: Params, dst: array<byte>, written: nat)
    returns (i: nat, n: nat, status: Status)
    requires from < |buf| && written < dst.Length
    modifies dst
    ensures written <= n <= dst.Length && from < i <= |buf|
    ensures forall k | n <= k < dst.Length :: dst[k] == old(dst[k])
    ensures var d := Decode(buf, from, false, dst.Length - written, p).After(old(dst[..written]));
            if status == Ok then Decode(buf, i, true, dst.Length - n, p).After(dst[..n]) == d
            else d.status == status && d.out == dst[..n]
  {
    i, n := from, written;
    ghost var d := Decode(buf, from, false, dst.Length - written, p).After(dst[..written]);
    while i < |buf| && n < dst.Length
      invariant from <= i <= |buf| && written <= n <= dst.Length
      invariant i == from ==> n == written
      invariant Decode(buf, i, false, dst.Length - n, p).After(dst[..n]) == d
      invariant forall k | n <= k < dst.Length :: dst[k] == old(dst[k])
      decreases |buf| - i
    {
      ghost var r := ReadChar(buf, i, p);
      var ch := buf[i];
      i := i + 1;
      if CR == ch {
        if i < |buf| && LF == buf[i] {
          i := i + 1;
        }
        assert r == NewLine(i);
        break;
      } else if LF == ch {
        if i == |buf| {
          return i, n, Overrun;
        }
        i := i + 1;
        assert r == NewLine(i);
        break;
      }
      if p.escape == ch {
        if i == |buf| {
          return i, n, Failed(InvalidEscape);
        }
        ch := buf[i];
        i := i + 1;
        if CR == ch || LF == ch {
          return i, n, Failed(InvalidEscape);
        }
        ch := Minus(ch, p.escOff);
      }
      assert r == Byte(Minus(ch, p.offset), i);
      AfterOne(Decode(buf, i, false, dst.Length - n - 1, p), dst[..n], Minus(ch, p.offset));
      dst[n] := Minus(ch, p.offset);
      SliceGrows(dst[..], 0, n);
      n := n + 1;
    }
    status := Ok;
  }

  lemma AfterOne(d: Decoded, written: seq<byte>, b: byte)
    ensures d.After([b]).After(written) == d.After(written + [b])
  {
    assert written + ([b] + d.out) == (written + [b]) + d.out;
  }

  lemma TagAtStart(s: seq<byte>, tag: seq<byte>)
    requires |s| == |tag| > 0 && LF !in tag
    ensures Find(s, tag, true).Some? <==> s == tag
  {
    LineSearchExact(s, tag);
    if s == tag {
      assert s[0..|tag|] == tag;
      assert OccursAt(s, tag, 0);
    }
  }

  method ReadValue(buf: seq<byte>, i: nat, end: nat, raw: seq<byte>, base: nat) returns (v: Option<nat>)
    requires i <= end <= |buf|
    ensures v == TrailerValue(buf, i, end, raw, base)
  {
    var tag := FindTag(buf[i..end], Spaced(raw), false);
    if tag == None {
      return None;
    }
    var from := i + tag.value + |Spaced(raw)|;
    var n := StrToUint(buf[from..Min(|buf|, from + HEX_DIGITS)], base);
    v := Some(n);
  }

  method ReadTrailer(buf: seq<byte>, i: nat, pei: Record) returns (status: Status)
    requires i <= |buf|
    modifies pei
    ensures (status, pei.info) == Trailer(buf, i, old(pei.info))
  {
    hide Scan, Read, TrailerValue;
    if i == |buf| {
      return Failed(NoMoreData);
    }
    var tag := FindTag(buf[i..], Spaced(RAW_SIZE), false);
    if tag == None {
      return Failed(MissingTag);
    }
    var end := |buf| - |Spaced(RAW_SIZE)|;

    var v := ReadValue(buf, i, end, RAW_CRC32, 16);
    if v.Some? {
      pei.info := pei.info.(flags := pei.info.flags + {CrcF}, crc := v.value);
    }
    v := ReadValue(buf, i, end, RAW_PCRC32, 16);
    if v.Some? {
      pei.info := pei.info.(flags := pei.info.flags + {PartCrcF}, partCrc := v.value);
    }
    v := ReadValue(buf, i, end, RAW_PART, 10);
    if v.Some? {
      pei.info := pei.info.(flags := pei.info.flags + {PartF}, part := Wrap16(v.value));
    }
    status := Ok;
  }
}
