/**
  The flag word, the order of the strings, the size limits and the replacement of
  unpaired surrogates, in the numbers of MS-SHLLINK and of the parser.
 */
module ShortcutFlags {
  import opened Common
  import opened Utf8
  import opened Shortcut
  import opened ShortcutCodec

  // ----- the flag word

  lemma HalfOfQuotient(n: nat, d: nat)
    requires d > 0
    ensures n / 2 / d == n / (2 * d)
  {
    var q, r := n / (2 * d), n % (2 * d);
    assert n == 2 * d * q + r;
    Halved(n, d * q, r);
    assert n / 2 == d * q + r / 2 && r / 2 < d;
    QuotientIs(n / 2, d, q, r / 2);
  }

  lemma Halved(n: nat, half: nat, r: nat)
    requires n == 2 * half + r
    ensures n / 2 == half + r / 2
  {
  }

  lemma ProductGrows(d: nat, a: nat, b: nat)
    requires a <= b
    ensures d * a <= d * b
  {
  }

  lemma QuotientIs(n: nat, d: nat, q: nat, r: nat)
    requires d > 0 && n == d * q + r && r < d
    ensures n / d == q
  {
    var p := n / d;
    assert n == d * p + n % d;
    if p < q {
      ProductGrows(d, p + 1, q);
      assert false;
    } else if p > q {
      ProductGrows(d, q + 1, p);
      assert false;
    }
  }

  function Pow2(k: nat): (p: nat)
    ensures p > 0
  {
    if k == 0 then 1 else 2 * Pow2(k - 1)
  }

  /** A flag is set exactly when its binary digit in the word is one. */
  lemma {:induction false} BitIsBinaryDigit(flags: u32, bit: FlagBit)
    ensures Bit(flags, bit) <==> flags / Pow2(bit) % 2 == 1
    decreases bit
  {
    if bit == 0 {
    } else {
      BitIsBinaryDigit(flags / 2, bit - 1);
      HalfOfQuotient(flags, Pow2(bit - 1));
    }
  }

  lemma FirstPowers()
    ensures Pow2(0) == 0x1 && Pow2(1) == 0x2 && Pow2(2) == 0x4 && Pow2(3) == 0x8 && Pow2(4) == 0x10
    ensures Pow2(5) == 0x20 && Pow2(6) == 0x40 && Pow2(7) == 0x80 && Pow2(8) == 0x100
  {
    assert Pow2(3) == 2 * Pow2(2) && Pow2(5) == 2 * Pow2(4) && Pow2(7) == 2 * Pow2(6);
  }

  /** The values of section 2.1.1 of MS-SHLLINK. */
  lemma FlagsAreTheStandards(flags: u32)
    ensures Bit(flags, HAS_ID_LIST) <==> flags / 0x1 % 2 == 1
    ensures Bit(flags, HAS_LINK_INFO) <==> flags / 0x2 % 2 == 1
    ensures Bit(flags, HAS_NAME) <==> flags / 0x4 % 2 == 1
    ensures Bit(flags, HAS_RELATIVE_PATH) <==> flags / 0x8 % 2 == 1
    ensures Bit(flags, HAS_WORKING_DIR) <==> flags / 0x10 % 2 == 1
    ensures Bit(flags, HAS_ARGUMENTS) <==> flags / 0x20 % 2 == 1
    ensures Bit(flags, HAS_ICON_LOCATION) <==> flags / 0x40 % 2 == 1
    ensures Bit(flags, IS_UNICODE) <==> flags / 0x80 % 2 == 1
    ensures Bit(flags, FORCE_NO_LINK_INFO) <==> flags / 0x100 % 2 == 1
  {
    FirstPowers();
    BitIsBinaryDigit(flags, HAS_ID_LIST);
    BitIsBinaryDigit(flags, HAS_LINK_INFO);
    BitIsBinaryDigit(flags, HAS_NAME);
    BitIsBinaryDigit(flags, HAS_RELATIVE_PATH);
    BitIsBinaryDigit(flags, HAS_WORKING_DIR);
    BitIsBinaryDigit(flags, HAS_ARGUMENTS);
    BitIsBinaryDigit(flags, HAS_ICON_LOCATION);
    BitIsBinaryDigit(flags, IS_UNICODE);
    BitIsBinaryDigit(flags, FORCE_NO_LINK_INFO);
  }

  // ----- a shortcut in bytes

  /** A shortcut of which nothing is stored but the arguments, in UTF-16, as bytes from beginning to end. */
  function ArgumentsOnly(classId: seq<byte>, rest: seq<byte>, count: u16, units: seq<byte>, extra: seq<byte>)
    : seq<byte>
  {
    [0x4C, 0, 0, 0] + (classId + ([0xA0, 0, 0, 0] + (rest + ([count % 0x100, count / 0x100] + (units + extra)))))
  }

  lemma ArgumentsOnlyBytes(classId: seq<byte>, rest: seq<byte>, count: u16, units: seq<byte>, extra: seq<byte>)
    requires |classId| == 16 && |rest| == 52 && |units| == 2 * count
    ensures var data := ArgumentsOnly(classId, rest, count, units, extra);
      && |data| >= 78 + 2 * count
      && data[0] == 0x4C && data[1] == 0 && data[2] == 0 && data[3] == 0
      && data[20] == 0xA0 && data[21] == 0 && data[22] == 0 && data[23] == 0
      && data[76] == count % 0x100 && data[77] == count / 0x100
      && data[78..78 + 2 * count] == units
  {
  }

  /** A file with these bytes in place is read up to its arguments. */
  lemma ParsesArguments(data: seq<byte>, count: u16, units: seq<byte>)
    requires |data| >= 78 + 2 * count && 2 * count <= 0x1_0000
    requires data[0] == 0x4C && data[1] == 0 && data[2] == 0 && data[3] == 0
    requires data[20] == 0xA0 && data[21] == 0 && data[22] == 0 && data[23] == 0
    requires data[76] == count % 0x100 && data[77] == count / 0x100 && data[78..78 + 2 * count] == units
    ensures Parsed(data) == Ok(Some(LnkArguments(DecodePayload(units, true), true)))
  {
    NoSections(data);
    ParsedFrom(data, 0xA0, 76);
    OtherStringsAbsent(data, DecodePayload);
    ArgumentsFirst(data, STRING_ORDER[3..]);
  }

  /** The flag word 0xA0: the arguments are stored, in UTF-16, and nothing else is. */
  lemma UnicodeArguments()
    ensures Bit(0xA0, HAS_ARGUMENTS) && Bit(0xA0, IS_UNICODE)
    ensures !Bit(0xA0, HAS_ID_LIST) && !Bit(0xA0, HAS_LINK_INFO)
    ensures !Bit(0xA0, HAS_NAME) && !Bit(0xA0, HAS_RELATIVE_PATH) && !Bit(0xA0, HAS_WORKING_DIR)
  {
    FlagsAreTheStandards(0xA0);
  }

  lemma NoSections(data: seq<byte>)
    requires |data| >= 76
    ensures SkipSections(data, 0xA0) == Ok(76) && Bit(0xA0, IS_UNICODE)
  {
    UnicodeArguments();
  }

  lemma ReadsArgumentsOnly(classId: seq<byte>, rest: seq<byte>, count: u16, units: seq<byte>, extra: seq<byte>)
    requires |classId| == 16 && |rest| == 52 && |units| == 2 * count && |units| <= 0x1_0000
    ensures Parsed(ArgumentsOnly(classId, rest, count, units, extra))
            == Ok(Some(LnkArguments(EncodeUtf8(DecodeUtf16(Units(units))), true)))
  {
    ArgumentsOnlyBytes(classId, rest, count, units, extra);
    ParsesArguments(ArgumentsOnly(classId, rest, count, units, extra), count, units);
  }

  lemma OtherStringsAbsent(data: seq<byte>, decode: Decoder)
    ensures STRING_ORDER[3..] != [] && STRING_ORDER[3..][0] == HAS_ARGUMENTS
    ensures StringsFrom(data, 76, 0xA0, STRING_ORDER, HAS_ARGUMENTS, decode)
            == StringsFrom(data, 76, 0xA0, STRING_ORDER[3..], HAS_ARGUMENTS, decode)
  {
    UnicodeArguments();
    SkipsAbsent(data, STRING_ORDER, decode);
    SkipsAbsent(data, STRING_ORDER[1..], decode);
    SkipsAbsent(data, STRING_ORDER[2..], decode);
    assert STRING_ORDER[1..][1..] == STRING_ORDER[2..] && STRING_ORDER[2..][1..] == STRING_ORDER[3..];
  }

  lemma SkipsAbsent(data: seq<byte>, order: seq<FlagBit>, decode: Decoder)
    requires order != [] && !Bit(0xA0, order[0])
    ensures StringsFrom(data, 76, 0xA0, order, HAS_ARGUMENTS, decode)
            == StringsFrom(data, 76, 0xA0, order[1..], HAS_ARGUMENTS, decode)
  {
  }

  lemma ArgumentsFirst(data: seq<byte>, order: seq<FlagBit>)
    requires order != [] && order[0] == HAS_ARGUMENTS && |data| >= 78
    requires Le16(data[76], data[77]) * 2 <= 0x1_0000 && 78 + Le16(data[76], data[77]) * 2 <= |data|
    ensures StringsFrom(data, 76, 0xA0, order, HAS_ARGUMENTS, DecodePayload)
            == Ok(Some(DecodePayload(data[78..78 + Le16(data[76], data[77]) * 2], true)))
  {
    UnicodeArguments();
  }

  // ----- the limits

  /** The sections and strings that are accepted: within the data and at most 64 KiB. */
  lemma SectionsAreLimited(data: seq<byte>, cursor: nat, unicode: bool, flag: FlagBit, decode: Decoder)
    requires cursor + 4 <= |data|
    ensures var size := data[cursor] as int + 0x100 * data[cursor + 1] as int;
      SkipIdList(data, cursor).Ok? <==> cursor + 2 + size <= |data|
    ensures var size := data[cursor] as int + 0x100 * data[cursor + 1] as int
                        + 0x1_0000 * data[cursor + 2] as int + 0x100_0000 * data[cursor + 3] as int;
      SkipLinkInfo(data, cursor).Ok? <==> size <= 0x1_0000 && cursor + size <= |data|
    ensures var size := (if unicode then 2 else 1) * (data[cursor] as int + 0x100 * data[cursor + 1] as int);
      CountedString(data, cursor, unicode, flag, decode).Ok? <==> size <= 0x1_0000 && cursor + 2 + size <= |data|
  {
  }

  /** An overflow error is justified: what is declared exceeds what is there, or the 64 KiB. */
  lemma OverflowsAreReal(data: seq<byte>, cursor: nat, unicode: bool, flag: FlagBit, decode: Decoder)
    requires cursor <= |data|
    ensures SkipIdList(data, cursor).Err? ==>
      var e := SkipIdList(data, cursor).error;
      && e.SectionOverflow? && e.section == LinkTargetIdList && e.declared > e.available
      && e.available == |data| - cursor - (if |data| - cursor >= 2 then 2 else 0)
    ensures SkipLinkInfo(data, cursor).Err? ==>
      var e := SkipLinkInfo(data, cursor).error;
      && e.SectionOverflow? && e.section == LinkInfo && (e.declared > e.available || e.declared > 0x1_0000)
      && e.available == |data| - cursor
    ensures CountedString(data, cursor, unicode, flag, decode).Err? ==>
      var e := CountedString(data, cursor, unicode, flag, decode).error;
      if |data| - cursor < 2 then e == SectionOverflow(StringData(flag), 2, |data| - cursor)
      else
        && e.StringCountOverflow? && (e.declared > e.available || e.declared > 0x1_0000)
        && e.available == |data| - cursor - 2
  {
  }

  // ----- unpaired surrogates

  predicate IsUnpaired(units: seq<u16>, i: nat)
    requires i < |units|
  {
    || (0xD800 <= units[i] <= 0xDBFF && (i + 1 == |units| || !(0xDC00 <= units[i + 1] <= 0xDFFF)))
    || (0xDC00 <= units[i] <= 0xDFFF && (i == 0 || !(0xD800 <= units[i - 1] <= 0xDBFF)))
  }

  predicate NoneUnpaired(units: seq<u16>) {
    forall i :: 0 <= i < |units| ==> !IsUnpaired(units, i)
  }

  /** Unless the cut goes through a pair, the units before it and after it are judged on their own. */
  lemma NoneUnpairedFrom(units: seq<u16>, n: nat)
    requires 0 < n <= |units| && forall i :: 0 <= i < n ==> !IsUnpaired(units, i)
    requires n < |units| ==> !(0xD800 <= units[n - 1] <= 0xDBFF && 0xDC00 <= units[n] <= 0xDFFF)
    ensures NoneUnpaired(units) <==> NoneUnpaired(units[n..])
  {
    forall i | 0 <= i < |units[n..]| ensures IsUnpaired(units[n..], i) <==> IsUnpaired(units, i + n) {
    }
    if NoneUnpaired(units[n..]) {
      forall i | 0 <= i < |units| ensures !IsUnpaired(units, i) {
        assert i >= n ==> !IsUnpaired(units[n..], i - n);
      }
    }
  }

  /** One decoded character is encoded back to its own units. */
  lemma StepBack(decode: seq<u16> -> seq<Scalar>, units: seq<u16>, n: nat, c: Scalar)
    requires n <= |units| && decode(units) == [c] + decode(units[n..]) && EncodeUnits(c) == units[..n]
    ensures EncodeUtf16(decode(units)) == units[..n] + EncodeUtf16(decode(units[n..]))
  {
    assert decode(units)[1..] == decode(units[n..]);
  }

  /** The character of a surrogate pair. */
  function PairValue(high: u16, low: u16): Scalar
    requires 0xD800 <= high <= 0xDBFF && 0xDC00 <= low <= 0xDFFF
  {
    0x1_0000 + (high as int - 0xD800) * 0x400 + (low as int - 0xDC00)
  }

  lemma PairIsKept(high: u16, low: u16)
    requires 0xD800 <= high <= 0xDBFF && 0xDC00 <= low <= 0xDFFF
    ensures EncodeUnits(PairValue(high, low)) == [high, low]
  {
  }

  lemma PairIsDecoded(units: seq<u16>) returns (c: Scalar)
    requires |units| >= 2 && 0xD800 <= units[0] <= 0xDBFF && 0xDC00 <= units[1] <= 0xDFFF
    ensures DecodeUtf16(units) == [c] + DecodeUtf16(units[2..]) && EncodeUnits(c) == units[..2]
  {
    c := PairValue(units[0], units[1]);
    PairIsKept(units[0], units[1]);
    assert units[..2] == [units[0], units[1]];
  }

  lemma PairStep(units: seq<u16>)
    requires |units| >= 2 && 0xD800 <= units[0] <= 0xDBFF && 0xDC00 <= units[1] <= 0xDFFF
    ensures EncodeUtf16(DecodeUtf16(units)) == units[..2] + EncodeUtf16(DecodeUtf16(units[2..]))
  {
    var c := PairIsDecoded(units);
    StepBack(DecodeUtf16, units, 2, c);
  }

  lemma SingleStep(units: seq<u16>)
    requires units != [] && !(0xD800 <= units[0] <= 0xDFFF)
    ensures EncodeUtf16(DecodeUtf16(units)) == units[..1] + EncodeUtf16(DecodeUtf16(units[1..]))
  {
    assert units[..1] == [units[0]];
    StepBack(DecodeUtf16, units, 1, units[0]);
  }

  lemma SamePrefix<T>(s: seq<T>, n: nat, t: seq<T>)
    requires n <= |s|
    ensures s[..n] + t == s <==> t == s[n..]
  {
    assert (s[..n] + t)[n..] == t && s[..n] + s[n..] == s;
  }

  /** Decoding loses nothing exactly when no surrogate is unpaired; a lone one becomes U+FFFD. */
  lemma {:induction false} DecodingIsExactlyLossless(units: seq<u16>)
    ensures EncodeUtf16(DecodeUtf16(units)) == units <==> NoneUnpaired(units)
    ensures |units| == 1 && IsUnpaired(units, 0) ==> DecodeUtf16(units) == [0xFFFD]
  {
    if units == [] {
    } else if |units| >= 2 && 0xD800 <= units[0] <= 0xDBFF && 0xDC00 <= units[1] <= 0xDFFF {
      DecodingIsExactlyLossless(units[2..]);
      PairStep(units);
      SamePrefix(units, 2, EncodeUtf16(DecodeUtf16(units[2..])));
      assert !IsUnpaired(units, 0) && !IsUnpaired(units, 1);
      NoneUnpairedFrom(units, 2);
    } else if IsUnpaired(units, 0) {
      assert DecodeUtf16(units)[0] == 0xFFFD;
      assert EncodeUtf16(DecodeUtf16(units))[0] == 0xFFFD;
    } else {
      DecodingIsExactlyLossless(units[1..]);
      SingleStep(units);
      SamePrefix(units, 1, EncodeUtf16(DecodeUtf16(units[1..])));
      NoneUnpairedFrom(units, 1);
    }
  }
}
