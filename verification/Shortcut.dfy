/** The MS-SHLLINK shortcut parser of `lnk.rs`. */
module Shortcut {
  import opened Common
  import opened Utf8

  const HEADER_SIZE: nat := 0x4C
  const FLAGS_OFFSET: nat := 0x14
  const MAX_STRING_DATA_BYTES: nat := 64 * 1024
  const MAX_LINK_INFO_BYTES: nat := 64 * 1024
  const MAX_ID_LIST_BYTES: nat := 64 * 1024

  /** A flag bit by its position. */
  type FlagBit = x: nat | x <= 8

  const HAS_ID_LIST: FlagBit := 0
  const HAS_LINK_INFO: FlagBit := 1
  const HAS_NAME: FlagBit := 2
  const HAS_RELATIVE_PATH: FlagBit := 3
  const HAS_WORKING_DIR: FlagBit := 4
  const HAS_ARGUMENTS: FlagBit := 5
  const HAS_ICON_LOCATION: FlagBit := 6
  const IS_UNICODE: FlagBit := 7
  const FORCE_NO_LINK_INFO: FlagBit := 8

  /** The strings in the order they are stored. */
  const STRING_ORDER: seq<FlagBit> := [HAS_NAME, HAS_RELATIVE_PATH, HAS_WORKING_DIR, HAS_ARGUMENTS, HAS_ICON_LOCATION]

  datatype Section = LinkTargetIdList | LinkInfo | StringData(flag: FlagBit)

  datatype LnkError =
    | TruncatedHeader
    | InvalidHeaderSize(size: u32)
    | SectionOverflow(section: Section, declared: nat, available: nat)
    | StringCountOverflow(declared: nat, available: nat)

  datatype LnkArguments = LnkArguments(value: seq<byte>, unicode: bool)

  /** `flags & (1 << bit) != 0`. */
  predicate Bit(flags: u32, bit: FlagBit)
    decreases bit
  {
    if bit == 0 then flags % 2 == 1 else Bit(flags / 2, bit - 1)
  }

  function Le16(a: byte, b: byte): u16 {
    a + 0x100 * b
  }

  function Le32(a: byte, b: byte, c: byte, d: byte): u32 {
    a + 0x100 * b + 0x1_0000 * c + 0x100_0000 * d
  }

  function Remaining(data: seq<byte>, cursor: nat): nat {
    if cursor <= |data| then |data| - cursor else 0
  }

  // ----- UTF-16

  predicate IsHighSurrogate(u: u16) {
    0xD800 <= u < 0xDC00
  }

  predicate IsLowSurrogate(u: u16) {
    0xDC00 <= u < 0xE000
  }

  /** `String::from_utf16_lossy`: unpaired surrogates become U+FFFD. */
  function DecodeUtf16(units: seq<u16>): seq<Scalar> {
    if units == [] then []
    else if IsHighSurrogate(units[0]) && |units| >= 2 && IsLowSurrogate(units[1]) then
      [0x1_0000 + (units[0] - 0xD800) * 0x400 + (units[1] - 0xDC00)] + DecodeUtf16(units[2..])
    else if IsHighSurrogate(units[0]) || IsLowSurrogate(units[0]) then [0xFFFD] + DecodeUtf16(units[1..])
    else [units[0]] + DecodeUtf16(units[1..])
  }

  /** The 16-bit units of a payload; an odd last byte is dropped. */
  function Units(payload: seq<byte>): seq<u16> {
    if |payload| < 2 then [] else [Le16(payload[0], payload[1])] + Units(payload[2..])
  }

  function DecodePayload(payload: seq<byte>, unicode: bool): seq<byte> {
    if unicode then EncodeUtf8(DecodeUtf16(Units(payload))) else Lossy(payload)
  }

  /** How a payload becomes text, given whether it is UTF-16. */
  type Decoder = (seq<byte>, bool) -> seq<byte>

  // ----- the sections

  /** `skip_link_target_id_list`: the cursor after the list, inside the data. */
  function SkipIdList(data: seq<byte>, cursor: nat): (r: Result<nat, LnkError>)
    ensures r.Ok? ==> cursor + 2 <= r.value <= |data|
  {
    if cursor + 2 > |data| then Err(SectionOverflow(LinkTargetIdList, 2, Remaining(data, cursor)))
    else
      var size := Le16(data[cursor], data[cursor + 1]);
      if size > MAX_ID_LIST_BYTES || cursor + 2 + size > |data| then
        Err(SectionOverflow(LinkTargetIdList, size, Remaining(data, cursor + 2)))
      else Ok(cursor + 2 + size)
  }

  /** `skip_link_info`: the size field counts itself, and is not required to cover itself. */
  function SkipLinkInfo(data: seq<byte>, cursor: nat): (r: Result<nat, LnkError>)
    ensures r.Ok? ==> cursor <= r.value <= |data|
  {
    if cursor + 4 > |data| then Err(SectionOverflow(LinkInfo, 4, Remaining(data, cursor)))
    else
      var size := Le32(data[cursor], data[cursor + 1], data[cursor + 2], data[cursor + 3]);
      if size > MAX_LINK_INFO_BYTES || cursor + size > |data| then
        Err(SectionOverflow(LinkInfo, size, Remaining(data, cursor)))
      else Ok(cursor + size)
  }

  datatype Counted = Counted(text: seq<byte>, next: nat)

  /** `read_counted_string`: the decoded text and the cursor after it. */
  function CountedString(data: seq<byte>, cursor: nat, unicode: bool, flag: FlagBit,
                         decode: Decoder): (r: Result<Counted, LnkError>)
    ensures r.Ok? ==> cursor + 2 <= r.value.next <= |data|
  {
    if cursor + 2 > |data| then Err(SectionOverflow(StringData(flag), 2, Remaining(data, cursor)))
    else
      var count := Le16(data[cursor], data[cursor + 1]);
      var size := if unicode then 2 * count else count;
      if size > MAX_STRING_DATA_BYTES || cursor + 2 + size > |data| then
        Err(StringCountOverflow(size, Remaining(data, cursor + 2)))
      else Ok(Counted(decode(data[cursor + 2..cursor + 2 + size], unicode), cursor + 2 + size))
  }

  /** The strings from `order` on: the target's text, or nothing when the target is not stored. */
  function StringsFrom(data: seq<byte>, cursor: nat, flags: u32, order: seq<FlagBit>, target: FlagBit, decode: Decoder)
    : Result<Option<seq<byte>>, LnkError>
    decreases |order|
  {
    if order == [] then Ok(None)
    else if !Bit(flags, order[0]) then StringsFrom(data, cursor, flags, order[1..], target, decode)
    else
      match CountedString(data, cursor, Bit(flags, IS_UNICODE), order[0], decode)
      case Err(e) => Err(e)
      case Ok(counted) =>
        if order[0] == target then Ok(Some(counted.text))
        else StringsFrom(data, counted.next, flags, order[1..], target, decode)
  }

  /** The two optional sections between the header and the strings. */
  function SkipSections(data: seq<byte>, flags: u32): (r: Result<nat, LnkError>)
    requires |data| >= HEADER_SIZE
    ensures r.Ok? ==> HEADER_SIZE <= r.value <= |data|
  {
    var afterList := if Bit(flags, HAS_ID_LIST) then SkipIdList(data, HEADER_SIZE) else Ok(HEADER_SIZE);
    match afterList
    case Err(e) => Err(e)
    case Ok(cursor) =>
      if Bit(flags, HAS_LINK_INFO) && !Bit(flags, FORCE_NO_LINK_INFO) then SkipLinkInfo(data, cursor) else Ok(cursor)
  }

  function Flags(data: seq<byte>): u32
    requires |data| >= HEADER_SIZE
  {
    Le32(data[FLAGS_OFFSET], data[FLAGS_OFFSET + 1], data[FLAGS_OFFSET + 2], data[FLAGS_OFFSET + 3])
  }

  /** What `parse_arguments` returns for any input. */
  function Parsed(data: seq<byte>): Result<Option<LnkArguments>, LnkError> {
    if |data| < 4 then Err(TruncatedHeader)
    else
      var size := Le32(data[0], data[1], data[2], data[3]);
      if size != HEADER_SIZE then Err(InvalidHeaderSize(size))
      else if |data| < HEADER_SIZE then Err(TruncatedHeader)
      else
        var flags := Flags(data);
        match SkipSections(data, flags)
        case Err(e) => Err(e)
        case Ok(cursor) =>
          match StringsFrom(data, cursor, flags, STRING_ORDER, HAS_ARGUMENTS, DecodePayload)
          case Err(e) => Err(e)
          case Ok(None) => Ok(None)
          case Ok(Some(text)) => Ok(Some(LnkArguments(text, Bit(flags, IS_UNICODE))))
  }

  /** The loop of `read_string_data`, with the cursor it advances. */
  method ReadStringData(data: seq<byte>, start: nat, flags: u32, target: FlagBit, decode: Decoder)
    returns (r: Result<Option<seq<byte>>, LnkError>)
    requires start <= |data|
    ensures r == StringsFrom(data, start, flags, STRING_ORDER, target, decode)
  {
    var cursor := start;
    var unicode := Bit(flags, IS_UNICODE);
    var targetFound := false;
    for i := 0 to |STRING_ORDER|
      invariant start <= cursor <= |data| && !targetFound
      invariant StringsFrom(data, cursor, flags, STRING_ORDER[i..], target, decode)
                == StringsFrom(data, start, flags, STRING_ORDER, target, decode)
    {
      var flag := STRING_ORDER[i];
      assert STRING_ORDER[i..][1..] == STRING_ORDER[i + 1..];
      if !Bit(flags, flag) {
        continue;
      }
      if flag == target {
        targetFound := true;
      }
      var counted := CountedString(data, cursor, unicode, flag, decode);
      if counted.Err? {
        return Err(counted.error);
      }
      cursor := counted.value.next;
      if targetFound {
        return Ok(Some(counted.value.text));
      }
    }
    r := Ok(None);
  }

  /** `parse_arguments`: every read is inside the data, on every input. */
  method ParseArguments(data: seq<byte>) returns (r: Result<Option<LnkArguments>, LnkError>)
    ensures r == Parsed(data)
  {
    if |data| < 4 {
      return Err(TruncatedHeader);
    }
    var size := Le32(data[0], data[1], data[2], data[3]);
    if size != HEADER_SIZE {
      return Err(InvalidHeaderSize(size));
    }
    if |data| < HEADER_SIZE {
      return Err(TruncatedHeader);
    }
    var flags := Flags(data);
    var cursor := SkipSections(data, flags);
    if cursor.Err? {
      return Err(cursor.error);
    }
    var arguments := ReadStringData(data, cursor.value, flags, HAS_ARGUMENTS, DecodePayload);
    if arguments.Err? {
      return Err(arguments.error);
    }
    r :=
      if arguments.value.None? then Ok(None)
      else Ok(Some(LnkArguments(arguments.value.value, Bit(flags, IS_UNICODE))));
  }
}
