/** What the decoder says of decoded data: the marks that its file name gets. */
module Integrity {
  import opened Bytes
  import opened Crc32
  import opened Crc32Inverse
  import opened EncodeInfo
  import opened MessageRoundTrip
  import Attachments
  import Decoder
  import Encoder
  import HeaderRoundTrip
  import TrailerLine

  /** Marks of zero are left out of the name. */
  datatype Verdict = Verdict(badCrc: nat, badSize: nat, part: nat)

  /** The CRC that the data should have: that of the part, or else that of the whole. */
  function StatedCrc(info: Info): Option<nat> {
    if PartCrcF in info.flags then Some(info.partCrc)
    else if CrcF in info.flags then Some(info.crc)
    else None
  }

  /** The mark of a wrong CRC is the CRC that the data does have. */
  function BadCrc(info: Info, data: seq<byte>): nat {
    match StatedCrc(info)
    case None => 0
    case Some(stated) => if Checksum(data, ONES) == stated then 0 else Checksum(data, ONES)
  }

  /** The verdict on a record and the bytes of its actual size. */
  function Judged(info: Info, data: seq<byte>): Verdict {
    Verdict(BadCrc(info, data),
            if info.PartSize() == info.sizeActual then 0 else info.PartSize(),
            if info.part > 1 && info.total > 1 && (PartF in info.flags || TotalF in info.flags) then info.part else 0)
  }

  /** Data of which no CRC is stated, or of which the stated one is right, gets no mark. */
  lemma RightDataIsNotMarked(info: Info, data: seq<byte>)
    requires match StatedCrc(info) case None => true case Some(stated) => stated == Checksum(data, ONES)
    ensures BadCrc(info, data) == 0
  {
  }

  /** The CRC of the part goes before that of the whole. */
  lemma PartCrcGoesFirst(info: Info)
    ensures PartCrcF in info.flags ==> StatedCrc(info) == Some(info.partCrc)
    ensures PartCrcF !in info.flags && CrcF in info.flags ==> StatedCrc(info) == Some(info.crc)
    ensures PartCrcF !in info.flags && CrcF !in info.flags ==> StatedCrc(info) == None
  {
  }

  /** A part is named exactly if it is a later one of several; the number is its own. */
  lemma LaterPartsAreNamed(info: Info, data: seq<byte>)
    ensures Judged(info, data).part != 0 <==> info.part >= 2 && info.total >= 2 && (PartF in info.flags || TotalF in info.flags)
    ensures Judged(info, data).part != 0 ==> Judged(info, data).part == info.part
  {
  }

  /** Without the data, or without a table, no CRC is compared. */
  function Verdicted(info: Info, data: Option<seq<byte>>, checks: bool): Verdict {
    match data
    case Some(bytes) => if checks then Judged(info, bytes) else Judged(info, []).(badCrc := 0)
    case None => Judged(info, []).(badCrc := 0)
  }

  /** With data and table the verdict is the whole one; without one of them it is the same but for the CRC. */
  lemma VerdictsAre(info: Info, data: seq<byte>)
    ensures Verdicted(info, Some(data), true) == Judged(info, data)
    ensures Verdicted(info, Some(data), false) == Verdicted(info, None, true) == Verdicted(info, None, false)
            == Verdict(0, Judged(info, data).badSize, Judged(info, data).part)
  {
  }

  /** The part of DecoderGetFileName that decides what goes into the name; the CRC is calculated only if one is stated. */
  method Judge(info: Info, data: Option<seq<byte>>, table: array?<word>) returns (v: Verdict, calculated: Option<nat>)
    requires table != null ==> IsCrcTable(table[..])
    ensures v == Verdicted(info, data, table != null)
    ensures calculated == if data.Some? && table != null && StatedCrc(info).Some? then Some(Checksum(data.value, ONES) as nat) else None
  {
    var iCrc32: nat := 0;
    var cbSize := info.PartSize();
    calculated := None;
    if table != null && data.Some? {
      if PartCrcF in info.flags {
        iCrc32 := CalculateChecksum(table, data.value, ONES);
        calculated := Some(iCrc32);
        if iCrc32 == info.partCrc {
          iCrc32 := 0;
        }
      } else if CrcF in info.flags {
        iCrc32 := CalculateChecksum(table, data.value, ONES);
        calculated := Some(iCrc32);
        if iCrc32 == info.crc {
          iCrc32 := 0;
        }
      }
    }
    if cbSize == info.sizeActual {
      cbSize := 0;
    }
    var iPart := if info.part > 1 && info.total > 1 && (PartF in info.flags || TotalF in info.flags) then info.part else 0;
    v := Verdict(iCrc32, cbSize, iPart);
  }

  /**
   Data that was damaged within 32 bits, and is otherwise of the stated CRC, is marked; exactly when
   the CRC that the damaged data has is not zero, because the mark is that CRC.
   */
  lemma DamageIsMarked(info: Info, good: seq<byte>, damaged: seq<byte>, i: nat)
    requires StatedCrc(info) == Some(Checksum(good, ONES) as nat)
    requires |good| == |damaged| && good != damaged
    requires forall k | 0 <= k < 8 * |good| && !(i <= k < i + 32) :: MessageBits(good)[k] == MessageBits(damaged)[k]
    ensures BadCrc(info, good) == 0
    ensures BadCrc(info, damaged) != 0 <==> Checksum(damaged, ONES) != 0
    ensures BadCrc(info, damaged) == Checksum(damaged, ONES)
  {
    BurstDetected(good, damaged, i, ONES);
  }

  /**
   Such damage exists: whatever the data, and whichever four bytes of it are damaged, one way of damaging
   them goes unmarked, unless the data itself has the CRC zero.
   */
  lemma DamageGoesUnmarked(info: Info, good: seq<byte>, i: nat) returns (damaged: seq<byte>)
    requires StatedCrc(info) == Some(Checksum(good, ONES) as nat) && i + 4 <= |good|
    ensures SameAround(good, damaged, i)
    ensures BadCrc(info, damaged) == 0
    ensures damaged != good <==> Checksum(good, ONES) != 0
  {
    damaged := AnyChecksumIsReached(good, i, ONES, 0);
  }

  /** The record of a message's attachment, after its body was decoded. */
  function After(m: Message): Info {
    Decoder.Processed(Encoded(m), Read(m), Max(Read(m).PartSize(), Attachments.MIN_CAPACITY)).1
  }

  /** The trailer states the CRC of the data, as that of the part or as that of the whole. */
  predicate Certified(m: Message) {
    var crc := Some(Checksum(Meant(m), ONES) as nat);
    m.trailer.partCrc == crc || (m.trailer.partCrc == None && m.trailer.crc == crc)
  }

  /** An honest message that certifies its data gets no mark, and its CRC is on record. */
  lemma CertifiedMessageIsClean(m: Message)
    requires Sound(m) && Honest(m) && Certified(m)
    ensures StatedCrc(After(m)) == Some(Checksum(Meant(m), ONES) as nat)
    ensures Judged(After(m), Meant(m)).badCrc == 0 && Judged(After(m), Meant(m)).badSize == 0
  {
    hide Encoder.Wellformed, TrailerLine.Line, Encoder.Body, Encoder.Meaning, Decoder.Processed, Checksum, TrailerLine.Fit, Meant, Encoded, Read, After, TrailerLine.Recorded, StatedCrc;
    RecordIs(m);
    SizeIsStated(m);
    ReadHasNoPartCrc(m);
    TrailerKeepsSize(Read(m), |Meant(m)|, m.trailer, CRLF);
  }

  lemma RecordIs(m: Message)
    requires Sound(m) && Honest(m)
    ensures After(m) == TrailerLine.Recorded(Read(m).(sizeActual := |Meant(m)|), m.trailer, CRLF)
  {
    hide Encoder.Wellformed, TrailerLine.Line, Encoder.Body, Encoder.Meaning, Decoder.Processed, TrailerLine.Fit, TrailerLine.Recorded, Read;
    SameParams(m);
    SizeIsStated(m);
    CrlfCloses();
    Encoder.EncodingIsDecoded(m.units, m.trailer, CRLF, Read(m), Max(Read(m).PartSize(), Attachments.MIN_CAPACITY));
  }

  /** A header has no part CRC. */
  lemma ReadHasNoPartCrc(m: Message)
    requires Sound(m)
    ensures PartCrcF !in Read(m).flags
  {
    hide Encoded, HeaderRoundTrip.Effective, HeaderRoundTrip.HeadSpan, Encoder.Wellformed, TrailerLine.Fit;
    HeaderRoundTrip.EffectiveFlags(m.head, Encoded(m));
  }

  /** A trailer does not change the size of the part. */
  lemma TrailerKeepsSize(info: Info, n: nat, t: TrailerLine.Fields, post: seq<byte>)
    ensures var after := TrailerLine.Recorded(info.(sizeActual := n), t, post);
            && after.PartSize() == info.PartSize() && after.sizeActual == n
            && (t.partCrc.Some? ==> StatedCrc(after) == t.partCrc)
            && (t.partCrc.None? && t.crc.Some? && PartCrcF !in info.flags ==> StatedCrc(after) == t.crc)
  {
    hide TrailerLine.PartIsSeen;
  }
}
