/**
  Shortcuts laid out as in sections 2.1 to 2.4 of MS-SHLLINK, and the theorem
  that the parser returns the arguments that were stored.
 */
module ShortcutCodec {
  import opened Common
  import opened Utf8
  import opened Shortcut

  /**
    The parts of a shortcut.  `payloads` gives the bytes stored for each string
    flag, `extra` whatever follows the strings, and the remaining header bytes
    are arbitrary.
   */
  datatype Link = Link(
    classId: seq<byte>, flags: u32, restOfHeader: seq<byte>, idList: seq<byte>, linkInfo: seq<byte>,
    payloads: FlagBit -> seq<byte>, extra: seq<byte>)

  // ----- encoding

  function Split16(n: u16): seq<byte> {
    [n % 0x100, n / 0x100]
  }

  function Split32(n: u32): seq<byte> {
    [n % 0x100, n / 0x100 % 0x100, n / 0x1_0000 % 0x100, n / 0x100_0000]
  }

  /** Bytes that fit a counted string: whole UTF-16 units if Unicode, and short enough for the count and the parser. */
  predicate Storable(payload: seq<byte>, unicode: bool) {
    && |payload| <= MAX_STRING_DATA_BYTES
    && if unicode then |payload| % 2 == 0 && |payload| / 2 < 0x1_0000 else |payload| < 0x1_0000
  }

  function EncodeString(payload: seq<byte>, unicode: bool): seq<byte>
    requires Storable(payload, unicode)
  {
    Split16(if unicode then |payload| / 2 else |payload|) + payload
  }

  predicate WellFormed(l: Link) {
    && |l.classId| == 16 && |l.restOfHeader| == 52
    && |l.idList| < 0x1_0000
    && 4 + |l.linkInfo| <= MAX_LINK_INFO_BYTES
    && forall flag :: flag in STRING_ORDER ==> Storable(l.payloads(flag), Bit(l.flags, IS_UNICODE))
  }

  /** The pieces whose flags are set, in order, and what follows them. */
  function Pieces(flags: u32, piece: FlagBit -> seq<byte>, order: seq<FlagBit>, extra: seq<byte>): seq<byte> {
    if order == [] then extra
    else (if Bit(flags, order[0]) then piece(order[0]) else []) + Pieces(flags, piece, order[1..], extra)
  }

  /** The counted string of each flag. */
  function PieceOf(l: Link): FlagBit -> seq<byte> {
    (flag: FlagBit) =>
      if Storable(l.payloads(flag), Bit(l.flags, IS_UNICODE))
      then EncodeString(l.payloads(flag), Bit(l.flags, IS_UNICODE)) else []
  }

  function EncodeStrings(l: Link): seq<byte>
    requires WellFormed(l)
  {
    Pieces(l.flags, PieceOf(l), STRING_ORDER, l.extra)
  }

  function EncodeHeader(l: Link): seq<byte> {
    Split32(HEADER_SIZE) + (l.classId + (Split32(l.flags) + l.restOfHeader))
  }

  function EncodeIdList(l: Link): seq<byte>
    requires WellFormed(l)
  {
    if Bit(l.flags, HAS_ID_LIST) then Split16(|l.idList|) + l.idList else []
  }

  function EncodeLinkInfo(l: Link, stored: bool): seq<byte>
    requires WellFormed(l)
  {
    if stored then Split32(4 + |l.linkInfo|) + l.linkInfo else []
  }

  /** A whole shortcut; `infoStored` says whether a LinkInfo structure is in the file. */
  function Encode(l: Link, infoStored: bool): seq<byte>
    requires WellFormed(l)
  {
    EncodeHeader(l) + (EncodeIdList(l) + (EncodeLinkInfo(l, infoStored) + EncodeStrings(l)))
  }

  /** When the parser looks for a LinkInfo structure. */
  predicate InfoExpected(flags: u32) {
    Bit(flags, HAS_LINK_INFO) && !Bit(flags, FORCE_NO_LINK_INFO)
  }

  // ----- texts as payloads

  function EncodeUnits(c: Scalar): seq<u16> {
    var high: int := c as int - 0x1_0000;
    if high < 0 then [c] else [0xD800 + high / 0x400, 0xDC00 + high % 0x400]
  }

  function EncodeUtf16(text: seq<Scalar>): seq<u16> {
    if text == [] then [] else EncodeUnits(text[0]) + EncodeUtf16(text[1..])
  }

  function UnitBytes(units: seq<u16>): seq<byte> {
    if units == [] then [] else Split16(units[0]) + UnitBytes(units[1..])
  }

  function Payload(text: seq<Scalar>, unicode: bool): seq<byte> {
    if unicode then UnitBytes(EncodeUtf16(text)) else EncodeUtf8(text)
  }

  lemma {:induction false} UnitsRoundTrip(units: seq<u16>)
    ensures |UnitBytes(units)| == 2 * |units| && Units(UnitBytes(units)) == units
  {
    if units == [] {
    } else {
      UnitsRoundTrip(units[1..]);
      assert UnitBytes(units)[2..] == UnitBytes(units[1..]);
    }
  }

  lemma {:induction false} Utf16RoundTrip(text: seq<Scalar>)
    ensures DecodeUtf16(EncodeUtf16(text)) == text
  {
    if text == [] {
    } else {
      Utf16RoundTrip(text[1..]);
      var units, rest := EncodeUtf16(text), EncodeUtf16(text[1..]);
      if text[0] < 0x1_0000 {
        assert units[1..] == rest;
      } else {
        assert units[2..] == rest;
      }
    }
  }

  /** Whichever way a string was stored, decoding gives its text back. */
  lemma PayloadRoundTrip(text: seq<Scalar>, unicode: bool)
    ensures DecodePayload(Payload(text, unicode), unicode) == EncodeUtf8(text)
  {
    if unicode {
      UnitsRoundTrip(EncodeUtf16(text));
      Utf16RoundTrip(text);
    } else {
      EncodedTextIsValid(text);
      LossyKeepsValid(EncodeUtf8(text));
    }
  }

  // ----- sections

  /** A length field, what it measures, and the rest. */
  lemma Fields(before: seq<byte>, length: seq<byte>, body: seq<byte>, after: seq<byte>)
    ensures var data, p := before + ((length + body) + after), |before|;
      && |data| == p + |length| + |body| + |after|
      && (forall i :: 0 <= i < |length| ==> data[p + i] == length[i])
      && data[p + |length|..p + |length| + |body|] == body
  {
  }

  lemma WordValue(n: u32)
    ensures Le32(n % 0x100, n / 0x100 % 0x100, n / 0x1_0000 % 0x100, n / 0x100_0000) == n
  {
    var a := n / 0x100;
    var b := a / 0x100;
    assert n / 0x1_0000 == b && n / 0x100_0000 == b / 0x100;
  }

  lemma SkipsIdListAt(before: seq<byte>, length: seq<byte>, body: seq<byte>, after: seq<byte>)
    requires |length| == 2 && Le16(length[0], length[1]) == |body|
    ensures SkipIdList(before + ((length + body) + after), |before|) == Ok(|before| + 2 + |body|)
  {
    Fields(before, length, body, after);
    var data, p := before + ((length + body) + after), |before|;
    assert data[p + 0] == length[0] && data[p + 1] == length[1];
  }

  lemma SkipsIdList(l: Link, before: seq<byte>, after: seq<byte>)
    requires WellFormed(l) && Bit(l.flags, HAS_ID_LIST)
    ensures SkipIdList(before + (EncodeIdList(l) + after), |before|) == Ok(|before| + |EncodeIdList(l)|)
  {
    SkipsIdListAt(before, Split16(|l.idList|), l.idList, after);
  }

  lemma SkipsLinkInfoAt(before: seq<byte>, length: seq<byte>, body: seq<byte>, after: seq<byte>)
    requires |length| == 4 && Le32(length[0], length[1], length[2], length[3]) == 4 + |body| <= MAX_LINK_INFO_BYTES
    ensures SkipLinkInfo(before + ((length + body) + after), |before|) == Ok(|before| + 4 + |body|)
  {
    Fields(before, length, body, after);
    var data, p := before + ((length + body) + after), |before|;
    assert data[p + 0] == length[0] && data[p + 1] == length[1];
    assert data[p + 2] == length[2] && data[p + 3] == length[3];
  }

  lemma SkipsLinkInfo(l: Link, before: seq<byte>, after: seq<byte>)
    requires WellFormed(l)
    ensures SkipLinkInfo(before + (EncodeLinkInfo(l, true) + after), |before|)
            == Ok(|before| + |EncodeLinkInfo(l, true)|)
  {
    WordValue(4 + |l.linkInfo|);
    SkipsLinkInfoAt(before, Split32(4 + |l.linkInfo|), l.linkInfo, after);
  }

  /** A count field with the payload it counts. */
  predicate IsPiece(piece: seq<byte>, payload: seq<byte>, unicode: bool) {
    && |piece| >= 2 && piece[2..] == payload && |payload| <= MAX_STRING_DATA_BYTES
    && |payload| == if unicode then 2 * Le16(piece[0], piece[1]) else Le16(piece[0], piece[1])
  }

  lemma EncodedIsPiece(payload: seq<byte>, unicode: bool)
    requires Storable(payload, unicode)
    ensures IsPiece(EncodeString(payload, unicode), payload, unicode)
  {
  }

  lemma ReadsPiece(before: seq<byte>, piece: seq<byte>, payload: seq<byte>, after: seq<byte>, unicode: bool,
                   flag: FlagBit, decode: Decoder)
    requires IsPiece(piece, payload, unicode)
    ensures CountedString(before + (piece + after), |before|, unicode, flag, decode)
            == Ok(Counted(decode(payload, unicode), |before| + |piece|))
  {
    var length := piece[..2];
    assert piece == length + payload;
    Fields(before, length, payload, after);
    var data, p := before + (piece + after), |before|;
    assert data[p + 0] == length[0] && data[p + 1] == length[1];
  }

  /** Strings are read in order until the arguments; those before them are skipped whole. */
  lemma {:induction false} ReadsPieces(flags: u32, piece: FlagBit -> seq<byte>, payload: FlagBit -> seq<byte>,
                                       extra: seq<byte>,
                                       data: seq<byte>, before: seq<byte>, order: seq<FlagBit>, decode: Decoder)
    requires forall flag :: flag in order ==> IsPiece(piece(flag), payload(flag), Bit(flags, IS_UNICODE))
    requires data == before + Pieces(flags, piece, order, extra)
    ensures StringsFrom(data, |before|, flags, order, HAS_ARGUMENTS, decode) ==
      Ok(if HAS_ARGUMENTS in order && Bit(flags, HAS_ARGUMENTS)
         then Some(decode(payload(HAS_ARGUMENTS), Bit(flags, IS_UNICODE))) else None)
    decreases |order|
  {
    if order == [] {
    } else {
      var flag, unicode, after := order[0], Bit(flags, IS_UNICODE), Pieces(flags, piece, order[1..], extra);
      assert order == [flag] + order[1..];
      if Bit(flags, flag) {
        Regroup(before, piece(flag), after);
        ReadsPiece(before, piece(flag), payload(flag), after, unicode, flag, decode);
        ReadsPieces(flags, piece, payload, extra, data, before + piece(flag), order[1..], decode);
      } else {
        assert [] + after == after;
        ReadsPieces(flags, piece, payload, extra, data, before, order[1..], decode);
      }
    }
  }

  lemma ReadsStrings(l: Link, data: seq<byte>, before: seq<byte>, decode: Decoder)
    requires WellFormed(l) && data == before + EncodeStrings(l)
    ensures StringsFrom(data, |before|, l.flags, STRING_ORDER, HAS_ARGUMENTS, decode) ==
      Ok(if Bit(l.flags, HAS_ARGUMENTS)
         then Some(decode(l.payloads(HAS_ARGUMENTS), Bit(l.flags, IS_UNICODE))) else None)
  {
    forall flag | flag in STRING_ORDER
      ensures IsPiece(PieceOf(l)(flag), l.payloads(flag), Bit(l.flags, IS_UNICODE))
    {
      EncodedIsPiece(l.payloads(flag), Bit(l.flags, IS_UNICODE));
    }
    assert STRING_ORDER[3] == HAS_ARGUMENTS;
    ReadsPieces(l.flags, PieceOf(l), l.payloads, l.extra, data, before, STRING_ORDER, decode);
  }

  lemma HeaderWords(size: seq<byte>, classId: seq<byte>, flags: seq<byte>, rest: seq<byte>, after: seq<byte>)
    requires |size| == 4 && |classId| == 16 && |flags| == 4
    ensures var data := (size + (classId + (flags + rest))) + after;
      && |data| >= 24
      && data[0] == size[0] && data[1] == size[1] && data[2] == size[2] && data[3] == size[3]
      && data[20] == flags[0] && data[21] == flags[1] && data[22] == flags[2] && data[23] == flags[3]
  {
  }

  lemma ReadsHeader(l: Link, after: seq<byte>)
    requires WellFormed(l)
    ensures var data := EncodeHeader(l) + after;
      && |EncodeHeader(l)| == HEADER_SIZE
      && Le32(data[0], data[1], data[2], data[3]) == HEADER_SIZE
      && Flags(data) == l.flags
  {
    WordValue(l.flags);
    HeaderWords(Split32(HEADER_SIZE), l.classId, Split32(l.flags), l.restOfHeader, after);
  }

  lemma SkipsSections(l: Link, strings: seq<byte>)
    requires WellFormed(l)
    ensures var header := EncodeHeader(l) + (EncodeIdList(l) + EncodeLinkInfo(l, InfoExpected(l.flags)));
      |EncodeHeader(l)| == HEADER_SIZE && SkipSections(header + strings, l.flags) == Ok(|header|)
  {
    var info := EncodeLinkInfo(l, InfoExpected(l.flags));
    var header := EncodeHeader(l) + (EncodeIdList(l) + info);
    var afterList := EncodeHeader(l) + EncodeIdList(l);
    HeaderGroups(EncodeHeader(l), EncodeIdList(l), info, strings);
    Regroup(EncodeHeader(l), EncodeIdList(l), info + strings);
    Regroup(EncodeHeader(l), EncodeIdList(l), info);
    if Bit(l.flags, HAS_ID_LIST) {
      SkipsIdList(l, EncodeHeader(l), info + strings);
    }
    if InfoExpected(l.flags) {
      SkipsLinkInfo(l, afterList, strings);
    }
  }

  /** The result of reading the strings, as the parser returns it. */
  function Wrapped(read: Result<Option<seq<byte>>, LnkError>, unicode: bool): Result<Option<LnkArguments>, LnkError> {
    match read
    case Err(e) => Err(e)
    case Ok(None) => Ok(None)
    case Ok(Some(text)) => Ok(Some(LnkArguments(text, unicode)))
  }

  /** With a good header and sections, the result is that of reading the strings. */
  lemma ParsedFrom(data: seq<byte>, flags: u32, cursor: nat)
    requires |data| >= HEADER_SIZE && Le32(data[0], data[1], data[2], data[3]) == HEADER_SIZE
    requires Flags(data) == flags && SkipSections(data, flags) == Ok(cursor)
    ensures Parsed(data) ==
      Wrapped(StringsFrom(data, cursor, flags, STRING_ORDER, HAS_ARGUMENTS, DecodePayload), Bit(flags, IS_UNICODE))
  {
  }

  lemma HeaderGroups(a: seq<byte>, b: seq<byte>, c: seq<byte>, d: seq<byte>)
    ensures a + (b + (c + d)) == (a + (b + c)) + d
  {
  }

  /**
    Round trip: for every combination of flags and every content of the sections,
    with LinkInfo stored when the parser looks for it, the arguments come back
    exactly when their flag is set.
   */
  lemma ShortcutRoundTrip(l: Link)
    requires WellFormed(l)
    ensures Parsed(Encode(l, InfoExpected(l.flags))) ==
      Ok(if Bit(l.flags, HAS_ARGUMENTS)
         then Some(LnkArguments(DecodePayload(l.payloads(HAS_ARGUMENTS), Bit(l.flags, IS_UNICODE)),
                                Bit(l.flags, IS_UNICODE)))
         else None)
  {
    var info, strings := EncodeLinkInfo(l, InfoExpected(l.flags)), EncodeStrings(l);
    var data := Encode(l, InfoExpected(l.flags));
    var header := EncodeHeader(l) + (EncodeIdList(l) + info);
    HeaderGroups(EncodeHeader(l), EncodeIdList(l), info, strings);
    ReadsHeader(l, EncodeIdList(l) + (info + strings));
    SkipsSections(l, strings);
    ParsedFrom(data, l.flags, |header|);
    ReadsStrings(l, data, header, DecodePayload);
  }

  /** So arguments stored as a text come back as that text, in either encoding. */
  lemma ArgumentTextRoundTrip(l: Link, text: seq<Scalar>)
    requires WellFormed(l) && Bit(l.flags, HAS_ARGUMENTS)
    requires l.payloads(HAS_ARGUMENTS) == Payload(text, Bit(l.flags, IS_UNICODE))
    ensures Parsed(Encode(l, InfoExpected(l.flags)))
            == Ok(Some(LnkArguments(EncodeUtf8(text), Bit(l.flags, IS_UNICODE))))
  {
    ShortcutRoundTrip(l);
    PayloadRoundTrip(text, Bit(l.flags, IS_UNICODE));
  }
}
