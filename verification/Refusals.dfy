/** What is refused, and how: the errors of the parser, the decoder, the loader and the hook builder. */
module Refusals {
  import opened Attachments
  import opened Attributes
  import opened Bytes
  import opened Decoder
  import opened EncodeInfo
  import opened Header
  import opened MessageSplit
  import opened Numbers
  import opened TagSearch
  import Hook
  import Jumps
  import Relocation
  import X86

  // ----- the parser

  /** The line length comes first: without it nothing is read. A name is needed, too. */
  lemma AttributesAreNeeded(buf: seq<byte>, c: Cursor, info: Info)
    requires Covers(buf, c.line, c.cb)
    ensures Seek(buf, c.line, c.cb, RAW_LINE) == Nowhere ==>
              BeforeName(buf, c) == Stop(Failed(MissingTag), ZERO.(flags := {c.version}))
    ensures Seek(buf, c.line, |buf| - c.line, RAW_NAME) == Nowhere ==> NameOn(buf, c, info) == Stop(Failed(MissingTag), info)
  {
    hide Seek, FromLine, Header.Part, Total, Crc, Offset, Escape, EscOff, Compression, NameValue, AfterName;
  }

  /** A size is needed behind an acceptable line length. */
  lemma SizeIsNeeded(buf: seq<byte>, c: Cursor, p: nat)
    requires c.line <= |buf| && p <= |buf| && Seek(buf, c.line, |buf| - p, RAW_SIZE) == Nowhere
    requires 63 <= Wrap16(ReadDec(buf, p)) <= 998
    ensures FromLine(buf, c, p) == Stop(Failed(MissingTag), ZERO.(flags := {LineF}, line := Wrap16(ReadDec(buf, p))))
  {
    hide Seek, ReadDec, Wrap16;
  }

  /** Behind the name a line has to follow. */
  lemma LineIsNeeded(buf: seq<byte>, n: Named)
    requires Covers(buf, n.at, n.cb)
    ensures NextLine(buf, n.at) == None ==> AfterName(buf, n) == Stop(Failed(NoMoreData), n.info)
    ensures n.cb == |buf| - n.at && NextLine(buf, n.at) == Some(|buf|) ==> AfterName(buf, n) == Stop(Failed(NoMoreData), n.info)
  {
    hide NextLine, PartLine;
  }

  /** A =ypart line needs a part number in the header, has to come next, and needs both ends of a range. */
  lemma PartLineRules(buf: seq<byte>, line: nat, cb: nat, info: Info)
    requires Covers(buf, line, cb)
    ensures var r := PartLine(buf, line, cb, info);
            match Find(buf[line..], YPART, true)
            case None => r == if cb == 0 then Stop(Failed(NoMoreData), info) else Next(info.(dataStart := Some(line)))
            case Some(d) =>
              if PartF !in info.flags then r == Stop(Failed(MissingTag), info)
              else if d > 0 then r == Stop(Failed(InvalidTag), info)
              else
                && (Seek(buf, line, |buf| - line, RAW_BEGIN) == Nowhere ==> r == Stop(Failed(MissingTag), info))
                && (Seek(buf, line, |buf| - line, RAW_BEGIN).At? && Seek(buf, line, |buf| - line, RAW_END) == Nowhere ==>
                      r.Stop? && r.status in {Failed(MissingTag), Failed(InvalidValue)})
  {
    hide Seek, AfterRange, Find, ReadDec;
  }

  // ----- the decoder

  /** An escape character needs a byte behind it, and not a line break; at the start of a line not the letter y. */
  lemma EscapesAreChecked(buf: seq<byte>, i: nat, room: nat, p: Params)
    requires i < |buf| && buf[i] == p.escape && p.escape != CR && p.escape != LF && room > 0
    ensures i + 1 == |buf| || buf[i + 1] in {13, 10} ==> Decode(buf, i, false, room, p) == Decoded([], i, Failed(InvalidEscape))
    ensures i + 6 <= |buf| && buf[i..i + 6] != YEND && buf[i + 1] == 'y' as int ==>
              Decode(buf, i, true, room, p) == Decoded([], i, Failed(InvalidTag))
  {
  }

  /** The trailer needs a size. */
  lemma TrailerIsChecked(buf: seq<byte>, i: nat, info: Info)
    requires i <= |buf|
    ensures i == |buf| ==> Trailer(buf, i, info) == (Failed(NoMoreData), info)
    ensures i < |buf| && Find(buf[i..], Spaced(RAW_SIZE), false) == None ==> Trailer(buf, i, info) == (Failed(MissingTag), info)
    ensures i < |buf| && Find(buf[i..], Spaced(RAW_SIZE), false).Some? ==> Trailer(buf, i, info).0 == Ok
  {
    hide Find, TrailerValue;
  }

  // ----- the loader

  /** Messages without an empty line, without anything behind it, and without an encoded body. */
  lemma OthersAreNotLoaded(buf: seq<byte>)
    ensures Load(buf) == NoHeaders <==> Find(buf, CRLFCRLF, false) == None
    ensures Load(buf) == HeadersOnly <==> Find(buf, CRLFCRLF, false).Some? && Find(buf, CRLFCRLF, false).value + 4 >= |buf|
    ensures Load(buf) == NotEncoded <==>
              && Find(buf, CRLFCRLF, false).Some? && Find(buf, CRLFCRLF, false).value + 4 < |buf|
              && ScanFrom(buf, Find(buf, CRLFCRLF, false).value + 4) == Scanned([])
  {
    hide Find, ScanFrom, Attached;
  }

  // ----- the hook builder

  /** An instruction that is not relative is copied exactly if it fits the callgate, and memory on both sides. */
  lemma CopyingIsRefused(m: seq<byte>, t: X86.Tables, base: nat, gate: nat, room: nat)
    ensures var one := Relocation.CopyOne(m, t, base, gate, room);
            match X86.Decode(m, t, base)
            case Fault => one == Relocation.Result(Relocation.AccessViolation, 0, m)
            case Return => one == Relocation.Result(Relocation.NotEnoughMemory, 0, m)
            case Instruction(end, relative) =>
              relative == None ==>
                if end - base > room then one == Relocation.Result(Relocation.InsufficientBuffer, 0, m)
                else if end > |m| || gate + (end - base) > |m| then one == Relocation.Result(Relocation.AccessViolation, 0, m)
                else one.outcome == Relocation.Ok && one.actual == end - base
  {
    hide X86.Decode;
  }

  /** A callgate of five bytes or less is refused, and so are targets outside memory. */
  lemma InstallingIsRefused(m: seq<byte>, t: X86.Tables, source: nat, gate: nat, cb: nat, hook: nat)
    ensures cb <= 5 ==> Hook.Installed(m, t, source, gate, cb, hook) == Relocation.Result(Relocation.InsufficientBuffer, 0, m)
    ensures cb > 5 && (Jumps.FinalTarget(m, source) == None || Jumps.FinalTarget(m, gate) == None || Jumps.FinalTarget(m, hook) == None)
            ==> Hook.Installed(m, t, source, gate, cb, hook) == Relocation.Result(Relocation.AccessViolation, 0, m)
  {
    hide Jumps.FinalTarget, Hook.Hooked;
  }

  /** The callgate has to lie in memory, together with the 15 bytes that a jump may take. */
  lemma CallgateIsRefused(m: seq<byte>, t: X86.Tables, source: nat, gate: nat, cb: nat)
    ensures var r := Hook.CallgateBuilt(m, t, source, gate, cb);
            && (gate + cb > |m| ==> r == Relocation.Result(Relocation.AccessViolation, 0, m))
            && (r.outcome == Relocation.Ok ==> gate + cb <= |m| && gate + r.actual + 15 <= |m|)
            && (cb == 15 && gate + cb <= |m| ==> r == Relocation.Result(Relocation.GeneralFailure, 0, m))
  {
    hide Relocation.CopyOne, Overwritten, Jumps.JmpSequence, Jumps.GetDisplacement;
  }
}
