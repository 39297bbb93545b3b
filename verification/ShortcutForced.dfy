/**
  ForceNoLinkInfo.  Section 2.1.1 of MS-SHLLINK says of it that a stored LinkInfo
  is ignored, while the parser takes the flag to mean that there is none, so a
  stored LinkInfo is read as strings.  For which flags does that lose arguments?
 */
module ShortcutForced {
  import opened Common
  import opened Utf8
  import opened Shortcut
  import opened ShortcutCodec

  /** LinkInfo is stored whenever HasLinkInfo is set, as the standard says. */
  function StandardFile(l: Link): seq<byte>
    requires WellFormed(l)
  {
    Encode(l, Bit(l.flags, HAS_LINK_INFO))
  }

  /** The arguments as they were stored. */
  function StoredArguments(l: Link): Result<Option<LnkArguments>, LnkError> {
    Ok(if Bit(l.flags, HAS_ARGUMENTS)
       then Some(LnkArguments(DecodePayload(l.payloads(HAS_ARGUMENTS), Bit(l.flags, IS_UNICODE)),
                              Bit(l.flags, IS_UNICODE)))
       else None)
  }

  predicate Forced(flags: u32) {
    Bit(flags, HAS_LINK_INFO) && Bit(flags, FORCE_NO_LINK_INFO)
  }

  // ----- only the stored strings

  /** The string flags that are set, in order. */
  function Stored(flags: u32, order: seq<FlagBit>): (r: seq<FlagBit>)
    ensures |r| <= |order|
  {
    if order == [] then [] else (if Bit(flags, order[0]) then [order[0]] else []) + Stored(flags, order[1..])
  }

  lemma {:induction false} StoredMembers(flags: u32, order: seq<FlagBit>, flag: FlagBit)
    ensures flag in Stored(flags, order) <==> flag in order && Bit(flags, flag)
  {
    if order == [] {
    } else {
      StoredMembers(flags, order[1..], flag);
      assert order == [order[0]] + order[1..];
    }
  }

  /** The strings read one after the other until the arguments. */
  function ReadStored(data: seq<byte>, cursor: nat, unicode: bool, stored: seq<FlagBit>,
                      decode: Decoder): Result<Option<seq<byte>>, LnkError>
    decreases |stored|
  {
    if stored == [] then Ok(None)
    else
      match CountedString(data, cursor, unicode, stored[0], decode)
      case Err(e) => Err(e)
      case Ok(counted) =>
        if stored[0] == HAS_ARGUMENTS then Ok(Some(counted.text))
        else ReadStored(data, counted.next, unicode, stored[1..], decode)
  }

  lemma {:induction false} StoredIsRead(data: seq<byte>, cursor: nat, flags: u32, order: seq<FlagBit>, decode: Decoder)
    ensures StringsFrom(data, cursor, flags, order, HAS_ARGUMENTS, decode)
         == ReadStored(data, cursor, Bit(flags, IS_UNICODE), Stored(flags, order), decode)
    decreases |order|
  {
    if order == [] {
    } else if !Bit(flags, order[0]) {
      assert [] + Stored(flags, order[1..]) == Stored(flags, order[1..]);
      StoredIsRead(data, cursor, flags, order[1..], decode);
    } else {
      assert ([order[0]] + Stored(flags, order[1..]))[1..] == Stored(flags, order[1..]);
      var read := CountedString(data, cursor, Bit(flags, IS_UNICODE), order[0], decode);
      if read.Ok? {
        StoredIsRead(data, read.value.next, flags, order[1..], decode);
      }
    }
  }

  function StoredPieces(piece: FlagBit -> seq<byte>, stored: seq<FlagBit>, extra: seq<byte>): seq<byte> {
    if stored == [] then extra else piece(stored[0]) + StoredPieces(piece, stored[1..], extra)
  }

  lemma {:induction false} PiecesAreStored(flags: u32, piece: FlagBit -> seq<byte>, order: seq<FlagBit>,
                                           extra: seq<byte>)
    ensures Pieces(flags, piece, order, extra) == StoredPieces(piece, Stored(flags, order), extra)
  {
    if order == [] {
    } else {
      PiecesAreStored(flags, piece, order[1..], extra);
      var rest := Stored(flags, order[1..]);
      if Bit(flags, order[0]) {
        assert ([order[0]] + rest)[1..] == rest;
      } else {
        assert [] + rest == rest && [] + StoredPieces(piece, rest, extra) == StoredPieces(piece, rest, extra);
      }
    }
  }

  lemma {:induction false} PiecesOfLength(piece: FlagBit -> seq<byte>, stored: seq<FlagBit>, n: nat)
    requires forall flag :: flag in stored ==> |piece(flag)| == n
    ensures |StoredPieces(piece, stored, [])| == n * |stored|
  {
    if stored == [] {
    } else {
      PiecesOfLength(piece, stored[1..], n);
      assert stored[0] in stored;
      assert n * |stored| == n + n * |stored[1..]|;
    }
  }

  // ----- the parser on a forced LinkInfo

  function BeforeInfo(l: Link): seq<byte>
    requires WellFormed(l)
  {
    EncodeHeader(l) + EncodeIdList(l)
  }

  /** The strings are read from where the LinkInfo is. */
  lemma ForcedParse(l: Link, info: seq<byte>, strings: seq<byte>)
    requires WellFormed(l) && Forced(l.flags) && info == EncodeLinkInfo(l, true) && strings == EncodeStrings(l)
    ensures Parsed(StandardFile(l)) ==
      Wrapped(ReadStored(BeforeInfo(l) + (info + strings), |BeforeInfo(l)|, Bit(l.flags, IS_UNICODE),
                         Stored(l.flags, STRING_ORDER), DecodePayload),
              Bit(l.flags, IS_UNICODE))
  {
    var data := StandardFile(l);
    Regroup(EncodeHeader(l), EncodeIdList(l), info + strings);
    ReadsHeader(l, EncodeIdList(l) + (info + strings));
    if Bit(l.flags, HAS_ID_LIST) {
      SkipsIdList(l, EncodeHeader(l), info + strings);
    }
    ParsedFrom(data, l.flags, |BeforeInfo(l)|);
    StoredIsRead(data, |BeforeInfo(l)|, l.flags, STRING_ORDER, DecodePayload);
  }

  /** The low half of the LinkInfo size is taken for the count of the first string. */
  lemma SizeIsReadAsCount(before: seq<byte>, size: u32, body: seq<byte>, after: seq<byte>)
    ensures var data, p := before + ((Split32(size) + body) + after), |before|;
      p + 2 <= |data| && Le16(data[p], data[p + 1]) == size % 0x1_0000
  {
    Fields(before, Split32(size), body, after);
    var data, p := before + ((Split32(size) + body) + after), |before|;
    assert data[p + 0] == Split32(size)[0] && data[p + 1] == Split32(size)[1];
    HalfOf(size);
  }

  lemma HalfOf(n: u32)
    ensures n % 0x100 + 0x100 * (n / 0x100 % 0x100) == n % 0x1_0000
  {
    var q, r := n / 0x1_0000, n % 0x1_0000;
    assert n == 0x1_0000 * q + r;
    assert n / 0x100 == 0x100 * q + r / 0x100;
  }

  /** Outside Unicode the first read takes the LinkInfo and the first two bytes after it. */
  lemma FirstReadTakesInfo(before: seq<byte>, size: u32, body: seq<byte>, after: seq<byte>, flag: FlagBit,
                           decode: Decoder)
    requires size == 4 + |body| <= MAX_LINK_INFO_BYTES && |after| >= 2
    ensures var data, n := before + ((Split32(size) + body) + after), size % 0x1_0000;
      |before| + 2 + n <= |data| &&
      CountedString(data, |before|, false, flag, decode)
      == Ok(Counted(decode(data[|before| + 2..|before| + 2 + n], false), |before| + 2 + n))
  {
    SizeIsReadAsCount(before, size, body, after);
  }

  lemma LargeInfoIsRejected(before: seq<byte>, size: u32, body: seq<byte>, after: seq<byte>, flag: FlagBit,
                            decode: Decoder)
    requires 0x8000 < size < 0x1_0000
    ensures CountedString(before + ((Split32(size) + body) + after), |before|, true, flag, decode).Err?
  {
    SizeIsReadAsCount(before, size, body, after);
  }

  // ----- which flags are safe

  /**
    Either the flags do not clash, or no string is looked for, or a single one
    that is neither Unicode nor the arguments.
   */
  predicate ArgumentsSurvive(flags: u32) {
    var stored := Stored(flags, STRING_ORDER);
    || !Forced(flags)
    || stored == []
    || (!Bit(flags, IS_UNICODE) && |stored| == 1 && stored[0] != HAS_ARGUMENTS)
  }

  lemma ArgumentsAreStored(flags: u32)
    ensures HAS_ARGUMENTS in Stored(flags, STRING_ORDER) <==> Bit(flags, HAS_ARGUMENTS)
    ensures |Stored(flags, STRING_ORDER)| <= 5
  {
    assert STRING_ORDER[3] == HAS_ARGUMENTS;
    StoredMembers(flags, STRING_ORDER, HAS_ARGUMENTS);
  }

  lemma StringsOf(l: Link)
    requires WellFormed(l)
    ensures EncodeStrings(l) == StoredPieces(PieceOf(l), Stored(l.flags, STRING_ORDER), l.extra)
    ensures forall flag :: flag in Stored(l.flags, STRING_ORDER) ==>
      && Storable(l.payloads(flag), Bit(l.flags, IS_UNICODE))
      && PieceOf(l)(flag) == EncodeString(l.payloads(flag), Bit(l.flags, IS_UNICODE))
  {
    PiecesAreStored(l.flags, PieceOf(l), STRING_ORDER, l.extra);
    forall flag | flag in Stored(l.flags, STRING_ORDER)
      ensures Storable(l.payloads(flag), Bit(l.flags, IS_UNICODE))
      ensures PieceOf(l)(flag) == EncodeString(l.payloads(flag), Bit(l.flags, IS_UNICODE))
    {
      StoredMembers(l.flags, STRING_ORDER, flag);
    }
  }

  lemma SafeFlagsKeepArguments(l: Link)
    requires WellFormed(l) && ArgumentsSurvive(l.flags)
    ensures Parsed(StandardFile(l)) == StoredArguments(l)
  {
    if !Forced(l.flags) {
      ShortcutRoundTrip(l);
    } else {
      var info, strings, stored := EncodeLinkInfo(l, true), EncodeStrings(l), Stored(l.flags, STRING_ORDER);
      ForcedParse(l, info, strings);
      ArgumentsAreStored(l.flags);
      if stored != [] {
        StringsOf(l);
        assert stored[0] in stored && stored[1..] == [];
        assert |strings| >= 2;
        FirstReadTakesInfo(BeforeInfo(l), 4 + |l.linkInfo|, l.linkInfo, strings, stored[0], DecodePayload);
      }
    }
  }

  // ----- files that show it for all other flags

  /** A LinkInfo of a bare 28-byte header, padded. */
  function InfoBody(n: nat): seq<byte> {
    [0x1C] + seq(n, _ => 0)
  }

  /** Every string has this payload. */
  function UniformLink(flags: u32, padding: nat, payload: seq<byte>): Link {
    Link(seq(16, _ => 0), flags, seq(52, _ => 0), [0, 0], InfoBody(padding), (_: FlagBit) => payload, [])
  }

  lemma UniformPieces(flags: u32, padding: nat, payload: seq<byte>)
    requires padding <= 0xFF00 && Storable(payload, Bit(flags, IS_UNICODE))
    ensures var l := UniformLink(flags, padding, payload); var stored := Stored(flags, STRING_ORDER);
      && WellFormed(l)
      && EncodeStrings(l) == StoredPieces(PieceOf(l), stored, [])
      && |EncodeStrings(l)| == (2 + |payload|) * |stored|
      && (forall flag :: flag in stored ==> PieceOf(l)(flag) == EncodeString(payload, Bit(flags, IS_UNICODE)))
  {
    var l := UniformLink(flags, padding, payload);
    StringsOf(l);
    PiecesOfLength(PieceOf(l), Stored(flags, STRING_ORDER), 2 + |payload|);
  }

  /** What the parser reads where the LinkInfo is. */
  function ReadAtInfo(l: Link, decode: Decoder): Result<Option<seq<byte>>, LnkError>
    requires WellFormed(l)
  {
    ReadStored(BeforeInfo(l) + (EncodeLinkInfo(l, true) + EncodeStrings(l)), |BeforeInfo(l)|, Bit(l.flags, IS_UNICODE),
               Stored(l.flags, STRING_ORDER), decode)
  }

  lemma ForcedDiffers(l: Link, read: Result<Option<seq<byte>>, LnkError>)
    requires WellFormed(l) && Forced(l.flags) && read == ReadAtInfo(l, DecodePayload)
    requires read.Ok? ==>
      read.value.Some? && read.value.value != DecodePayload(l.payloads(HAS_ARGUMENTS), Bit(l.flags, IS_UNICODE))
    ensures Parsed(StandardFile(l)) != StoredArguments(l)
  {
    ForcedParse(l, EncodeLinkInfo(l, true), EncodeStrings(l));
  }

  /** Unicode: a LinkInfo of more than 32768 bytes is read as the count of a string that is too long. */
  lemma LargeInfoFails(l: Link, decode: Decoder)
    requires WellFormed(l) && Bit(l.flags, IS_UNICODE) && Stored(l.flags, STRING_ORDER) != []
    requires 0x8000 < 4 + |l.linkInfo| < 0x1_0000
    ensures ReadAtInfo(l, decode).Err?
  {
    LargeInfoIsRejected(BeforeInfo(l), 4 + |l.linkInfo|, l.linkInfo, EncodeStrings(l),
                        Stored(l.flags, STRING_ORDER)[0], decode);
  }

  lemma UnicodeFails(flags: u32)
    requires Forced(flags) && Bit(flags, IS_UNICODE) && Stored(flags, STRING_ORDER) != []
    ensures exists l :: WellFormed(l) && l.flags == flags && Parsed(StandardFile(l)) != StoredArguments(l)
  {
    var l := UniformLink(flags, 39_995, []);
    UniformPieces(flags, 39_995, []);
    LargeInfoFails(l, DecodePayload);
    ForcedDiffers(l, ReadAtInfo(l, DecodePayload));
  }

  lemma DecodedIsNotEmpty(read: seq<byte>)
    requires read != []
    ensures DecodePayload(read, false) != DecodePayload([], false)
  {
    assert Lossy([]) == [];
  }

  lemma ArgumentsReadFirst(data: seq<byte>, cursor: nat, stored: seq<FlagBit>, decode: Decoder, counted: Counted)
    requires stored != [] && stored[0] == HAS_ARGUMENTS
    requires CountedString(data, cursor, false, HAS_ARGUMENTS, decode) == Ok(counted)
    ensures ReadStored(data, cursor, false, stored, decode) == Ok(Some(counted.text))
  {
  }

  /** The arguments come first: the parser returns bytes of the LinkInfo for them. */
  lemma InfoIsReturned(before: seq<byte>, body: seq<byte>, strings: seq<byte>, stored: seq<FlagBit>, decode: Decoder)
    returns (read: seq<byte>)
    requires 4 + |body| < 0x1_0000 && |strings| >= 2 && stored != [] && stored[0] == HAS_ARGUMENTS
    ensures read != []
    ensures ReadStored(before + ((Split32(4 + |body|) + body) + strings), |before|, false, stored, decode)
            == Ok(Some(decode(read, false)))
  {
    var n := 4 + |body|;
    var data := before + ((Split32(n) + body) + strings);
    FirstReadTakesInfo(before, n, body, strings, HAS_ARGUMENTS, decode);
    read := data[|before| + 2..|before| + 2 + n];
    ArgumentsReadFirst(data, |before|, stored, decode, Counted(decode(read, false), |before| + 2 + n));
  }

  lemma FirstReadIsReturned(l: Link, decode: Decoder) returns (read: seq<byte>)
    requires WellFormed(l) && !Bit(l.flags, IS_UNICODE) && |EncodeStrings(l)| >= 2 && 4 + |l.linkInfo| < 0x1_0000
    requires Stored(l.flags, STRING_ORDER) != [] && Stored(l.flags, STRING_ORDER)[0] == HAS_ARGUMENTS
    ensures read != [] && ReadAtInfo(l, decode) == Ok(Some(decode(read, false)))
  {
    read := InfoIsReturned(BeforeInfo(l), l.linkInfo, EncodeStrings(l), Stored(l.flags, STRING_ORDER), decode);
  }

  lemma FirstArgumentsFail(flags: u32)
    requires Forced(flags) && !Bit(flags, IS_UNICODE)
    requires Stored(flags, STRING_ORDER) != [] && Stored(flags, STRING_ORDER)[0] == HAS_ARGUMENTS
    ensures exists l :: WellFormed(l) && l.flags == flags && Parsed(StandardFile(l)) != StoredArguments(l)
  {
    var l := UniformLink(flags, 23, []);
    UniformPieces(flags, 23, []);
    var read := FirstReadIsReturned(l, DecodePayload);
    DecodedIsNotEmpty(read);
    ForcedDiffers(l, ReadAtInfo(l, DecodePayload));
  }

  lemma SecondReadFails(data: seq<byte>, cursor: nat, stored: seq<FlagBit>, decode: Decoder, counted: Counted)
    requires |stored| >= 2 && stored[0] != HAS_ARGUMENTS
    requires CountedString(data, cursor, false, stored[0], decode) == Ok(counted)
    requires CountedString(data, counted.next, false, stored[1], decode).Err?
    ensures ReadStored(data, cursor, false, stored, decode).Err?
  {
    assert stored[1..][0] == stored[1];
  }

  lemma CountIsTooLarge(data: seq<byte>, at: nat, flag: FlagBit, decode: Decoder)
    requires at + 2 <= |data| < at + 2 + 0xFFFF && data[at] == data[at + 1] == 0xFF
    ensures CountedString(data, at, false, flag, decode).Err?
  {
  }

  lemma AfterInfo(before: seq<byte>, info: seq<byte>, strings: seq<byte>, i: nat)
    requires i < |strings|
    ensures |before| + |info| + i < |before + (info + strings)|
    ensures (before + (info + strings))[|before| + |info| + i] == strings[i]
  {
  }

  lemma AtInfo(before: seq<byte>, info: seq<byte>, strings: seq<byte>, i: nat)
    requires i < |info|
    ensures (before + (info + strings))[|before| + i] == info[i]
  {
  }

  lemma CountedAt(data: seq<byte>, at: nat, n: nat, flag: FlagBit, decode: Decoder)
    requires at + 2 + n <= |data| && n == Le16(data[at], data[at + 1])
    ensures CountedString(data, at, false, flag, decode)
            == Ok(Counted(decode(data[at + 2..at + 2 + n], false), at + 2 + n))
  {
  }

  /** Another string comes first: the bytes behind its count are taken for the count of the second one. */
  lemma NextCountFails(before: seq<byte>, info: seq<byte>, strings: seq<byte>, stored: seq<FlagBit>, decode: Decoder)
    requires 4 <= |info| && Le16(info[0], info[1]) == |info| && |stored| >= 2 && stored[0] != HAS_ARGUMENTS
    requires 4 <= |strings| < 0xFFFF && strings[2] == strings[3] == 0xFF
    ensures ReadStored(before + (info + strings), |before|, false, stored, decode).Err?
  {
    var data, at, n := before + (info + strings), |before|, |info|;
    AtInfo(before, info, strings, 0);
    AtInfo(before, info, strings, 1);
    CountedAt(data, at, n, stored[0], decode);
    AfterInfo(before, info, strings, 2);
    AfterInfo(before, info, strings, 3);
    CountIsTooLarge(data, at + 2 + n, stored[1], decode);
    SecondReadFails(data, at, stored, decode, Counted(decode(data[at + 2..at + 2 + n], false), at + 2 + n));
  }

  lemma SecondCountIsTooLarge(l: Link, decode: Decoder)
    requires WellFormed(l) && !Bit(l.flags, IS_UNICODE) && 4 + |l.linkInfo| < 0x1_0000
    requires |Stored(l.flags, STRING_ORDER)| >= 2 && Stored(l.flags, STRING_ORDER)[0] != HAS_ARGUMENTS
    requires 4 <= |EncodeStrings(l)| < 0xFFFF && EncodeStrings(l)[2] == EncodeStrings(l)[3] == 0xFF
    ensures ReadAtInfo(l, decode).Err?
  {
    HalfOf(4 + |l.linkInfo|);
    NextCountFails(BeforeInfo(l), EncodeLinkInfo(l, true), EncodeStrings(l), Stored(l.flags, STRING_ORDER), decode);
  }

  lemma SecondStringFails(flags: u32)
    requires Forced(flags) && !Bit(flags, IS_UNICODE)
    requires |Stored(flags, STRING_ORDER)| >= 2 && Stored(flags, STRING_ORDER)[0] != HAS_ARGUMENTS
    ensures exists l :: WellFormed(l) && l.flags == flags && Parsed(StandardFile(l)) != StoredArguments(l)
  {
    var l := UniformLink(flags, 23, [0xFF, 0xFF]);
    UniformPieces(flags, 23, [0xFF, 0xFF]);
    ArgumentsAreStored(flags);
    var stored := Stored(flags, STRING_ORDER);
    assert stored[0] in stored && EncodeStrings(l)[..4] == PieceOf(l)(stored[0]);
    SecondCountIsTooLarge(l, DecodePayload);
    ForcedDiffers(l, ReadAtInfo(l, DecodePayload));
  }

  /**
    With LinkInfo stored as the standard says, the arguments come back from every
    file with these flags exactly when the flags are safe.
   */
  lemma ArgumentsSurviveExactly(flags: u32)
    ensures (forall l :: WellFormed(l) && l.flags == flags ==> Parsed(StandardFile(l)) == StoredArguments(l))
      <==> ArgumentsSurvive(flags)
  {
    if ArgumentsSurvive(flags) {
      forall l | WellFormed(l) && l.flags == flags ensures Parsed(StandardFile(l)) == StoredArguments(l) {
        SafeFlagsKeepArguments(l);
      }
    } else if Bit(flags, IS_UNICODE) {
      UnicodeFails(flags);
    } else if Stored(flags, STRING_ORDER)[0] == HAS_ARGUMENTS {
      FirstArgumentsFail(flags);
    } else {
      SecondStringFails(flags);
    }
  }
}
