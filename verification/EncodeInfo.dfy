/** The record that every stage of the decoder reads and fills in. */
module EncodeInfo {
  import opened Bytes

  datatype Flag =
    | LineF | SizeActualF | SizeF | NameF | CompF | OffsetF | EscapeF | EscOffF
    | BeginF | EndF | PartF | TotalF | CrcF | PartCrcF
    | UnicodeNameF | Version1F | Version2F

  /** The value of a record. Pointers into the encoded buffer are positions in it. */
  datatype Info = Info(
    flags: set<Flag>, line: nat, sizeActual: nat, size: nat, begin: nat, end: nat,
    offset: byte, escape: byte, escOff: byte, part: nat, total: nat, crc: nat, partCrc: nat,
    comp: nat, compLen: nat, name: nat, nameLen: nat, dataStart: Option<nat>)
  {
    /** The size given by begin and end if both are present, otherwise the size of the whole. */
    function PartSize(): nat {
      if BeginF in flags && EndF in flags then Wrap32(end - begin + 1)
      else if SizeF in flags then size
      else 0
    }
  }

  const ZERO := Info({}, 0, 0, 0, 0, 0, 0, 0, 0, 0, 0, 0, 0, 0, 0, 0, 0, None)

  datatype Error = MissingTag | InvalidTag | InvalidValue | InvalidEscape | NoMoreData

  /** How a stage of the decoder ends. Overrun: it read outside the buffer it was given. */
  datatype Status = Ok | Failed(error: Error) | Overrun

  // Tags and attributes; the ones called RAW lack the leading space.
  const YBEGIN2: seq<byte> := [61, 121, 98, 101, 103, 105, 110, 50, 32]     // "=ybegin2 "
  const YBEGIN: seq<byte> := [61, 121, 98, 101, 103, 105, 110, 32]          // "=ybegin "
  const RAW_YBEGIN: seq<byte> := [61, 121, 98, 101, 103, 105, 110]          // "=ybegin"
  const YPART: seq<byte> := [61, 121, 112, 97, 114, 116, 32]                // "=ypart "
  const YEND: seq<byte> := [61, 121, 101, 110, 100, 32]                     // "=yend "
  const RAW_LINE: seq<byte> := [108, 105, 110, 101, 61]                     // "line="
  const RAW_SIZE: seq<byte> := [115, 105, 122, 101, 61]                     // "size="
  const RAW_NAME: seq<byte> := [110, 97, 109, 101, 61]                      // "name="
  const RAW_PART: seq<byte> := [112, 97, 114, 116, 61]                      // "part="
  const RAW_TOTAL: seq<byte> := [116, 111, 116, 97, 108, 61]                // "total="
  const RAW_OFFSET: seq<byte> := [111, 102, 102, 115, 101, 116, 61]         // "offset="
  const RAW_ESCAPE: seq<byte> := [101, 115, 99, 97, 112, 101, 61]           // "escape="
  const RAW_ESCOFF: seq<byte> := [101, 115, 99, 111, 102, 102, 61]          // "escoff="
  const RAW_COMP: seq<byte> := [99, 111, 109, 112, 61]                      // "comp="
  const RAW_BEGIN: seq<byte> := [98, 101, 103, 105, 110, 61]                // "begin="
  const RAW_END: seq<byte> := [101, 110, 100, 61]                           // "end="
  const RAW_PCRC32: seq<byte> := [112, 99, 114, 99, 51, 50, 61]             // "pcrc32="
  const RAW_CRC32: seq<byte> := [99, 114, 99, 51, 50, 61]                   // "crc32="

  const DEFAULT_OFFSET: byte := 42
  const DEFAULT_ESCAPE: byte := EQUALS
  const DEFAULT_ESCOFF: byte := 64

  /** The record itself, which the stages update in place. */
  class Record {
    var info: Info

    constructor ()
      ensures info == ZERO
    {
      info := ZERO;
    }
  }
}
