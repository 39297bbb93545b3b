/**
  The ustar layout of IEEE Std 1003.1-2017 ("ustar Interchange Format" in the
  pax utility) as an encoder, and the theorem that the scanner reads back what
  was encoded.
 */
module TarCodec {
  import opened Common
  import opened Utf8
  import opened Limits
  import opened TarScan
  import opened TarSizes

  // "ustar", NUL, "00"
  const MAGIC: seq<byte> := [0x75, 0x73, 0x74, 0x61, 0x72, 0x00, 0x30, 0x30]

  /** A member and the header block that describes it. */
  datatype TarMember = TarMember(
    name: seq<byte>, prefix: seq<byte>, typeflag: byte, content: seq<byte>, header: seq<byte>)

  predicate NulFree(s: seq<byte>) {
    forall i :: 0 <= i < |s| ==> s[i] != 0
  }

  function Zeros(n: nat): seq<byte> {
    seq(n, _ => 0)
  }

  function PadTo(s: seq<byte>, n: nat): (r: seq<byte>)
    requires |s| <= n
    ensures |r| == n
  {
    s + Zeros(n - |s|)
  }

  /**
    The fields of the ustar header the scanner depends on, at their offsets; the
    others (mode, owners, time, checksum, link name, device) may hold anything.
   */
  predicate LaidOut(header: seq<byte>, name: seq<byte>, prefix: seq<byte>, typeflag: byte, size: nat)
    requires |name| <= 100 && |prefix| <= 155
  {
    && |header| == BLOCK
    && header[0..100] == PadTo(name, 100)
    && IsSizeField(header[124..136], size)
    && header[156] == typeflag
    && header[257..265] == MAGIC
    && header[345..500] == PadTo(prefix, 155)
  }

  predicate WellFormed(m: TarMember) {
    && |m.name| <= 100 && NulFree(m.name)
    && |m.prefix| <= 155 && NulFree(m.prefix)
    && LaidOut(m.header, m.name, m.prefix, m.typeflag, |m.content|)
  }

  // ----- encoding

  /** A header built field by field, in the order of the standard. */
  function Header(name: seq<byte>, modeAndOwners: seq<byte>, sizeField: seq<byte>, timeAndChecksum: seq<byte>,
                  typeflag: byte, linkName: seq<byte>, ownerNames: seq<byte>, prefix: seq<byte>,
                  padding: seq<byte>): seq<byte>
    requires |name| <= 100 && |prefix| <= 155
  {
    PadTo(name, 100) + (modeAndOwners + (sizeField + (timeAndChecksum + ([typeflag] +
      (linkName + (MAGIC + (ownerNames + (PadTo(prefix, 155) + padding))))))))
  }

  /** Such a header is laid out as required, whatever the fields the scanner skips. */
  lemma HeaderIsLaidOut(name: seq<byte>, modeAndOwners: seq<byte>, sizeField: seq<byte>, timeAndChecksum: seq<byte>,
                        typeflag: byte, linkName: seq<byte>, ownerNames: seq<byte>, prefix: seq<byte>,
                        padding: seq<byte>, size: nat)
    requires |name| <= 100 && |prefix| <= 155 && IsSizeField(sizeField, size)
    requires |modeAndOwners| == 24 && |timeAndChecksum| == 20 && |linkName| == 100 && |ownerNames| == 80
    requires |padding| == 12
    ensures LaidOut(Header(name, modeAndOwners, sizeField, timeAndChecksum,
                           typeflag, linkName, ownerNames, prefix, padding),
                    name, prefix, typeflag, size)
  {
    var h := Header(name, modeAndOwners, sizeField, timeAndChecksum, typeflag, linkName, ownerNames, prefix, padding);
    assert h[124..136] == sizeField;
  }

  /** The zeros that bring the content to whole blocks. */
  function Filler(size: nat): (n: nat)
    ensures (size + n) % BLOCK == 0 && n < BLOCK
  {
    if size % BLOCK == 0 then 0 else BLOCK - size % BLOCK
  }

  function EncodeMember(m: TarMember): seq<byte>
    requires WellFormed(m)
  {
    m.header + (m.content + Zeros(Filler(|m.content|)))
  }

  /** All members, two zero blocks, and whatever follows the end of the archive. */
  function Encode(members: seq<TarMember>, trailing: seq<byte>): seq<byte>
    requires forall m :: m in members ==> WellFormed(m)
  {
    if members == [] then Zeros(2 * BLOCK) + trailing
    else EncodeMember(members[0]) + Encode(members[1..], trailing)
  }

  // ----- what the scanner should report, member by member

  /** Anything but the GNU long-link and long-name headers (`K`, `L`) and the PAX headers (`g`, `x`). */
  predicate IsOrdinaryMember(m: TarMember) {
    m.typeflag != 'K' as int && m.typeflag != 'L' as int && m.typeflag != 'g' as int && m.typeflag != 'x' as int
  }

  function MemberName(m: TarMember): Result<seq<byte>, ArchiveError> {
    SafeEntryName(RawName(Lossy(m.prefix), Lossy(m.name)))
  }

  predicate SetsPending(m: TarMember) {
    (m.typeflag == 'x' as int || m.typeflag == 'g' as int) && HasSizeRecord(m.content)
  }

  function PendingAfter(m: TarMember, pending: bool): bool {
    if IsOrdinaryMember(m) then false else pending || SetsPending(m)
  }

  /** The names of the ordinary members that are not directories, in order. */
  function MemberNames(members: seq<TarMember>): seq<seq<byte>> {
    if members == [] then []
    else
      var m := members[0];
      (if IsOrdinaryMember(m) && m.typeflag != '5' as int && MemberName(m).Ok? then [MemberName(m).value] else [])
      + MemberNames(members[1..])
  }

  function MemberHazards(members: seq<TarMember>, index: u64, pending: bool): seq<TarHazard>
    requires index + |members| <= U64_MAX
  {
    if members == [] then []
    else
      var m := members[0];
      (if pending && (m.typeflag == 'K' as int || m.typeflag == 'L' as int)
       then [PaxSizeAcrossExtension(index, m.typeflag)] else [])
      + MemberHazards(members[1..], index + 1, PendingAfter(m, pending))
  }

  /** Whether all ordinary members have safe names and fit the limits, else the first failure. */
  function Admit(limits: ArchiveLimits, t: Counters, members: seq<TarMember>): Result<Counters, ArchiveError>
    requires forall m :: m in members ==> WellFormed(m)
    decreases |members|
  {
    if members == [] then Ok(t)
    else if !IsOrdinaryMember(members[0]) then Admit(limits, t, members[1..])
    else
      match MemberName(members[0])
      case Err(e) => Err(e)
      case Ok(name) =>
        SizeIsU64(members[0]);
        var (t1, broken) := Recorded(limits, t, name, |members[0].content|, None);
        if broken.Some? then Err(LimitExceeded(broken.value)) else Admit(limits, t1, members[1..])
  }

  lemma SizeIsU64(m: TarMember)
    requires WellFormed(m)
    ensures |m.content| <= U64_MAX
  {
    SizeFieldRoundTrip(m.header[124..136], |m.content|);
  }

  function Expected(limits: ArchiveLimits, members: seq<TarMember>, s: ScanState): Result<Report, ArchiveError>
    requires forall m :: m in members ==> WellFormed(m)
    requires s.blockIndex + |members| <= U64_MAX
  {
    match Admit(limits, s.tally, members)
    case Err(e) => Err(e)
    case Ok(_) => Ok(Report(MemberNames(members), MemberHazards(members, s.blockIndex, s.pending)))
  }

  // ----- reading one header back

  lemma {:induction false} CStringOfPadded(s: seq<byte>, n: nat)
    requires NulFree(s) && |s| <= n
    ensures CString(PadTo(s, n)) == s
  {
    if s == [] {
    } else {
      CStringOfPadded(s[1..], n - 1);
      assert PadTo(s, n)[1..] == PadTo(s[1..], n - 1);
    }
  }

  lemma HeaderIsNotZero(m: TarMember)
    requires WellFormed(m)
    ensures !AllZero(m.header)
  {
    assert m.header[257] == m.header[257..265][0] == MAGIC[0];
  }

  lemma HeaderNameIsMemberName(m: TarMember)
    requires WellFormed(m)
    ensures HeaderName(m.header[0..100], m.header[345..500]) == MemberName(m)
  {
    CStringOfPadded(m.name, 100);
    CStringOfPadded(m.prefix, 155);
  }

  lemma Remainder(blocks: nat, r: nat)
    requires r < 512
    ensures (512 * blocks + r) % 512 == r
  {
  }

  /**
    The padded size is the least number of whole blocks that holds the content,
    which is the content with the encoder's filler; it fails exactly when no such
    number fits 64 bits.
   */
  lemma PaddedSizeFillsBlocks(size: u64)
    ensures match PaddedSize(size)
      case Ok(padded) => size <= padded < size + BLOCK && padded % BLOCK == 0 && padded == size + Filler(size)
      case Err(e) => e == LimitExceeded(MaxSingleFileBytes) && forall p: u64 :: size <= p ==> p % BLOCK != 0
  {
    var blocks, r := size / 512, size % 512;
    var filler := if r == 0 then 0 else 512 - r;
    Remainder(if r == 0 then blocks else blocks + 1, 0);
    assert Filler(size) == filler && PaddedSize(size) ==
      if size + filler <= U64_MAX then Ok(size + filler) else Err(LimitExceeded(MaxSingleFileBytes));
    forall p: u64 | size <= p < size + filler ensures p % BLOCK != 0 {
      Remainder(blocks, p - 512 * blocks);
    }
  }

  /** What the scanner makes of one encoded member, apart from where it goes next. */
  function MemberStep(limits: ArchiveLimits, m: TarMember, s: ScanState): Result<Step, ArchiveError>
    requires WellFormed(m)
  {
    if IsPaxHeader(m.typeflag) then Ok(Step([], [], s.(pending := PendingAfter(m, s.pending))))
    else if !IsOrdinaryMember(m) then
      Ok(Step([], if s.pending then [PaxSizeAcrossExtension(s.blockIndex, m.typeflag)] else [], s))
    else
      match MemberName(m)
      case Err(e) => Err(e)
      case Ok(name) =>
        SizeIsU64(m);
        var (t, broken) := Recorded(limits, s.tally, name, |m.content|, None);
        if broken.Some? then Err(LimitExceeded(broken.value))
        else Ok(Step(if m.typeflag == TYPE_DIRECTORY then [] else [name], [], s.(pending := false, tally := t)))
  }

  lemma InterpretOrdinary(limits: ArchiveLimits, data: seq<byte>, m: TarMember, s: ScanState)
    requires WellFormed(m) && |m.content| <= U64_MAX && IsOrdinaryMember(m)
    ensures Interpret(limits, data, m.header, |m.content|, s) == MemberStep(limits, m, s)
  {
    HeaderNameIsMemberName(m);
  }

  lemma InterpretPax(limits: ArchiveLimits, data: seq<byte>, m: TarMember, s: ScanState)
    requires WellFormed(m) && |m.content| <= U64_MAX && IsPaxHeader(m.typeflag)
    requires Content(data, s.offset + BLOCK, |m.content|) == Ok(m.content)
    ensures Interpret(limits, data, m.header, |m.content|, s) == MemberStep(limits, m, s)
  {
    DecodingKeepsSizeRecords(m.content);
  }

  lemma InterpretMember(limits: ArchiveLimits, data: seq<byte>, m: TarMember, s: ScanState)
    requires WellFormed(m) && |m.content| <= U64_MAX
    requires s.offset + BLOCK + |m.content| <= |data|
    requires data[s.offset + BLOCK..s.offset + BLOCK + |m.content|] == m.content
    ensures Interpret(limits, data, m.header, |m.content|, s) == MemberStep(limits, m, s)
  {
    if IsPaxHeader(m.typeflag) {
      InterpretPax(limits, data, m, s);
    } else if IsOrdinaryMember(m) {
      InterpretOrdinary(limits, data, m, s);
    }
  }

  /** The slices of an encoded member inside the archive. */
  lemma MemberSlices(before: seq<byte>, m: TarMember, after: seq<byte>)
    requires WellFormed(m)
    ensures var data := before + (EncodeMember(m) + after); var p := |before|;
      && p + BLOCK + |m.content| <= |data|
      && data[p..p + BLOCK] == m.header
      && data[p + BLOCK..p + BLOCK + |m.content|] == m.content
      && data == (before + EncodeMember(m)) + after
  {
    var data := before + (EncodeMember(m) + after);
    var p := |before|;
    assert data == before + (m.header + (m.content + (Zeros(Filler(|m.content|)) + after)));
  }

  lemma AdvancePastMember(s: ScanState, m: TarMember)
    requires WellFormed(m) && s.offset + |EncodeMember(m)| <= ISIZE_MAX && s.blockIndex < U64_MAX
    ensures |m.content| <= U64_MAX
    ensures Advance(s, |m.content|) == Ok(s.(offset := s.offset + |EncodeMember(m)|, blockIndex := s.blockIndex + 1))
  {
    SizeIsU64(m);
    PaddedSizeFillsBlocks(|m.content|);
  }

  lemma ScanHeaderInParts(limits: ArchiveLimits, data: seq<byte>, m: TarMember, s: ScanState)
    requires WellFormed(m) && HasHeader(data, s.offset) && data[s.offset..s.offset + BLOCK] == m.header
    ensures |m.content| <= U64_MAX
    ensures ScanHeader(limits, data, s) == ThenAdvance(Interpret(limits, data, m.header, |m.content|, s), |m.content|)
  {
    SizeFieldRoundTrip(m.header[124..136], |m.content|);
  }

  lemma AdvanceMemberStep(limits: ArchiveLimits, m: TarMember, s: ScanState)
    requires WellFormed(m) && |m.content| <= U64_MAX && s.blockIndex < U64_MAX
    requires s.offset + |EncodeMember(m)| <= ISIZE_MAX
    ensures ThenAdvance(MemberStep(limits, m, s), |m.content|) ==
      match MemberStep(limits, m, s)
      case Err(e) => Err(e)
      case Ok(step) =>
        Ok(step.(next := step.next.(offset := s.offset + |EncodeMember(m)|, blockIndex := s.blockIndex + 1)))
  {
    var step := MemberStep(limits, m, s);
    if step.Ok? {
      AdvancePastMember(step.value.next, m);
    }
  }

  /** The header at `s.offset` is read as the encoded member it is. */
  lemma ScanMember(limits: ArchiveLimits, data: seq<byte>, m: TarMember, s: ScanState)
    requires WellFormed(m) && |m.content| <= U64_MAX && s.blockIndex < U64_MAX
    requires s.offset + |EncodeMember(m)| <= ISIZE_MAX
    requires s.offset + BLOCK + |m.content| <= |data|
    requires data[s.offset..s.offset + BLOCK] == m.header
    requires data[s.offset + BLOCK..s.offset + BLOCK + |m.content|] == m.content
    ensures HasHeader(data, s.offset)
    ensures ScanHeader(limits, data, s) ==
      match MemberStep(limits, m, s)
      case Err(e) => Err(e)
      case Ok(step) =>
        Ok(step.(next := step.next.(offset := s.offset + |EncodeMember(m)|, blockIndex := s.blockIndex + 1)))
  {
    HeaderIsNotZero(m);
    ScanHeaderInParts(limits, data, m, s);
    InterpretMember(limits, data, m, s);
    AdvanceMemberStep(limits, m, s);
  }

  // ----- the round trip

  lemma EndOfArchive(before: seq<byte>, trailing: seq<byte>)
    ensures !HasHeader(before + (Zeros(2 * BLOCK) + trailing), |before|)
  {
    var data := before + (Zeros(2 * BLOCK) + trailing);
    assert data[|before|..|before| + BLOCK] == Zeros(BLOCK);
  }

  /** One expected step in front of the rest. */
  lemma ExpectedUnfolds(limits: ArchiveLimits, members: seq<TarMember>, s: ScanState, next: ScanState)
    requires members != [] && forall m :: m in members ==> WellFormed(m)
    requires s.blockIndex + |members| <= U64_MAX
    ensures match MemberStep(limits, members[0], s)
      case Err(e) => Expected(limits, members, s) == Err(e)
      case Ok(step) =>
        next == step.next.(offset := next.offset, blockIndex := s.blockIndex + 1) ==>
          Expected(limits, members, s) == Prepend(step.member, step.hazard, Expected(limits, members[1..], next))
  {
  }

  lemma {:induction false} ScanEncoded(limits: ArchiveLimits, before: seq<byte>, members: seq<TarMember>,
                                       trailing: seq<byte>, s: ScanState)
    requires forall m :: m in members ==> WellFormed(m)
    requires s.offset == |before| && s.blockIndex <= s.offset
    requires |before + Encode(members, trailing)| <= ISIZE_MAX
    ensures s.blockIndex + |members| <= U64_MAX
    ensures ScanFrom(limits, before + Encode(members, trailing), s) == Expected(limits, members, s)
    decreases |members|
  {
    var data := before + Encode(members, trailing);
    if members == [] {
      EndOfArchive(before, trailing);
    } else {
      var m := members[0];
      var after := Encode(members[1..], trailing);
      var before1 := before + EncodeMember(m);
      MemberSlices(before, m, after);
      SizeIsU64(m);
      ScanMember(limits, data, m, s);
      var next0 := ScanState(|before1|, s.blockIndex + 1, false, NO_COUNTS);
      ScanEncoded(limits, before1, members[1..], trailing, next0);
      match MemberStep(limits, m, s) {
        case Err(e) =>
          ExpectedUnfolds(limits, members, s, next0);
        case Ok(step) =>
          var next := step.next.(offset := |before1|, blockIndex := s.blockIndex + 1);
          ScanEncoded(limits, before1, members[1..], trailing, next);
          ExpectedUnfolds(limits, members, s, next);
      }
    }
  }

  /**
    Round trip: for every list of ustar members and anything after the archive's
    end, the scanner reports exactly the names of the ordinary non-directory
    members and exactly the pending-size hazards, or the first name or limit
    failure.
   */
  lemma TarRoundTrip(limits: ArchiveLimits, members: seq<TarMember>, trailing: seq<byte>)
    requires forall m :: m in members ==> WellFormed(m)
    requires |Encode(members, trailing)| <= ISIZE_MAX
    ensures |members| <= U64_MAX
    ensures ScanFrom(limits, Encode(members, trailing), START) == Expected(limits, members, START)
  {
    assert [] + Encode(members, trailing) == Encode(members, trailing);
    ScanEncoded(limits, [], members, trailing, START);
  }

  // ----- what the expected report says

  /** A PAX size is pending in front of member `k`: set before it, with no ordinary member since. */
  ghost predicate PendingAt(members: seq<TarMember>, k: nat, pending: bool)
    requires k <= |members|
  {
    || (pending && forall i :: 0 <= i < k ==> !IsOrdinaryMember(members[i]))
    || exists j :: 0 <= j < k && SetsPending(members[j]) && forall i :: j < i < k ==> !IsOrdinaryMember(members[i])
  }

  lemma PendingStep(members: seq<TarMember>, k: nat, pending: bool)
    requires 0 < k <= |members|
    ensures PendingAt(members, k, pending) <==> PendingAt(members[1..], k - 1, PendingAfter(members[0], pending))
  {
    var rest, p1 := members[1..], PendingAfter(members[0], pending);
    if PendingAt(members, k, pending) {
      if j :| 0 <= j < k && SetsPending(members[j]) && forall i :: j < i < k ==> !IsOrdinaryMember(members[i]) {
        if j > 0 {
          assert SetsPending(rest[j - 1]);
        } else {
          assert p1;
        }
      } else {
        assert !IsOrdinaryMember(members[0]);
      }
    }
    if PendingAt(rest, k - 1, p1) {
      if j :| 0 <= j < k - 1 && SetsPending(rest[j]) && forall i :: j < i < k - 1 ==> !IsOrdinaryMember(rest[i]) {
        assert SetsPending(members[j + 1]);
        assert forall i :: j + 1 < i < k ==> members[i] == rest[i - 1];
      } else {
        assert forall i :: 1 <= i < k ==> members[i] == rest[i - 1];
        assert !pending ==> SetsPending(members[0]);
      }
    }
  }

  /** A hazard is reported exactly for the `L` and `K` headers in front of which a PAX size is pending. */
  lemma {:induction false} MemberHazardsExact(members: seq<TarMember>, index: u64, pending: bool, h: TarHazard)
    requires index + |members| <= U64_MAX
    ensures h in MemberHazards(members, index, pending) <==>
      && index <= h.blockIndex < index + |members|
      && h.typeflag == members[h.blockIndex - index].typeflag
      && (h.typeflag == 'K' as int || h.typeflag == 'L' as int)
      && PendingAt(members, h.blockIndex - index, pending)
  {
    if members == [] {
    } else {
      MemberHazardsExact(members[1..], index + 1, PendingAfter(members[0], pending), h);
      if index < h.blockIndex < index + |members| {
        PendingStep(members, h.blockIndex - index, pending);
      }
    }
  }

  /** The path of a member: the prefix, if there is one, a slash and the name. */
  function UstarPath(m: TarMember): seq<byte> {
    if m.prefix == [] then m.name else m.prefix + ['/' as int] + m.name
  }

  /** An ordinary member whose fields are well-formed UTF-8 and whose path is already normalised. */
  predicate HasPlainName(m: TarMember) {
    Valid(m.prefix) && Valid(m.name) && Normalised(UstarPath(m))
  }

  lemma PlainNameIsKept(m: TarMember)
    requires HasPlainName(m)
    ensures MemberName(m) == Ok(UstarPath(m))
  {
    LossyKeepsValid(m.prefix);
    LossyKeepsValid(m.name);
  }

  predicate AllPlain(members: seq<TarMember>) {
    forall m :: m in members ==> WellFormed(m) && (IsOrdinaryMember(m) ==> HasPlainName(m))
  }

  predicate IsFileMember(m: TarMember) {
    IsOrdinaryMember(m) && m.typeflag != '5' as int
  }

  /** The paths of the files, as they were encoded. */
  function FilePaths(members: seq<TarMember>): seq<seq<byte>> {
    if members == [] then []
    else
      (if IsFileMember(members[0]) then [UstarPath(members[0])] else [])
      + FilePaths(members[1..])
  }

  /** The ordinary members as entries for the limit tracker. */
  function OrdinaryEntries(members: seq<TarMember>): seq<ArchiveEntry>
    requires forall m :: m in members ==> WellFormed(m)
  {
    if members == [] then []
    else
      var m := members[0];
      SizeIsU64(m);
      (if IsOrdinaryMember(m)
       then [ArchiveEntry(UstarPath(m), |m.content|, None, false, false, File, None, false)] else [])
      + OrdinaryEntries(members[1..])
  }

  lemma {:induction false} PlainNamesAreReported(members: seq<TarMember>)
    requires AllPlain(members)
    ensures MemberNames(members) == FilePaths(members)
  {
    if members == [] {
    } else {
      PlainNamesAreReported(members[1..]);
      if IsOrdinaryMember(members[0]) {
        PlainNameIsKept(members[0]);
      }
    }
  }

  lemma {:induction false} AdmittedExactlyByTracker(limits: ArchiveLimits, t: Counters, members: seq<TarMember>)
    requires AllPlain(members)
    ensures Admit(limits, t, members).Ok? <==> RecordedAll(limits, t, OrdinaryEntries(members)).1.None?
    decreases |members|
  {
    if members == [] {
    } else {
      var m, rest := members[0], OrdinaryEntries(members[1..]);
      if IsOrdinaryMember(m) {
        PlainNameIsKept(m);
        var name := UstarPath(m);
        SizeIsU64(m);
        assert OrdinaryEntries(members)[1..] == rest;
        var t1 := Recorded(limits, t, name, |m.content|, None).0;
        AdmittedExactlyByTracker(limits, t1, members[1..]);
      } else {
        AdmittedExactlyByTracker(limits, t, members[1..]);
        assert OrdinaryEntries(members) == rest;
      }
    }
  }

  /**
    For members with plain names the scan succeeds exactly when the ordinary
    members are within the limits, and then lists the encoded paths unchanged.
   */
  lemma PlainArchiveRoundTrip(limits: ArchiveLimits, members: seq<TarMember>, trailing: seq<byte>)
    requires AllPlain(members) && |Encode(members, trailing)| <= ISIZE_MAX
    ensures |members| <= U64_MAX
    ensures var scanned := ScanFrom(limits, Encode(members, trailing), START);
      && (scanned.Ok? <==> RecordedAll(limits, NO_COUNTS, OrdinaryEntries(members)).1.None?)
      && (scanned.Ok? ==> scanned.value == Report(FilePaths(members), MemberHazards(members, 0, false)))
  {
    TarRoundTrip(limits, members, trailing);
    PlainNamesAreReported(members);
    AdmittedExactlyByTracker(limits, NO_COUNTS, members);
  }
}
