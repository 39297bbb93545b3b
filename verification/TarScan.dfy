/**
  `consensus_tar_members`: the byte-level tar scanner that lists members and
  flags extension headers that a pending PAX `size=` record would cross.
 */
module TarScan {
  import opened Common
  import opened Utf8
  import opened Limits

  const BLOCK: nat := 512

  const TYPE_DIRECTORY: byte := 0x35
  const TYPE_LONG_LINK: byte := 0x4B
  const TYPE_LONG_NAME: byte := 0x4C
  const TYPE_GLOBAL: byte := 0x67
  const TYPE_EXTENDED: byte := 0x78

  /** A `L` or `K` header met while a PAX size is pending. */
  datatype TarHazard = PaxSizeAcrossExtension(blockIndex: u64, typeflag: byte)

  datatype Report = Report(members: seq<seq<byte>>, hazards: seq<TarHazard>)

  predicate IsPaxHeader(typeflag: byte) {
    typeflag == TYPE_EXTENDED || typeflag == TYPE_GLOBAL
  }

  predicate IsExtensionHeader(typeflag: byte) {
    typeflag == TYPE_LONG_NAME || typeflag == TYPE_LONG_LINK || IsPaxHeader(typeflag)
  }

  predicate AllZero(block: seq<byte>) {
    forall i :: 0 <= i < |block| ==> block[i] == 0
  }

  /** `is_ascii_whitespace`. */
  predicate IsAsciiWhitespace(b: byte) {
    b == 0x20 || b == 0x09 || b == 0x0A || b == 0x0C || b == 0x0D
  }

  /** The fold of `parse_tar_octal`: up to a NUL, skipping white space, checked for 64 bits. */
  function ParseOctal(bytes: seq<byte>, acc: u64): Result<u64, ArchiveError> {
    if bytes == [] || bytes[0] == 0 then Ok(acc)
    else if IsAsciiWhitespace(bytes[0]) then ParseOctal(bytes[1..], acc)
    else if !(0x30 <= bytes[0] <= 0x37) then Err(Malformed)
    else if acc * 8 + (bytes[0] - 0x30) > U64_MAX then Err(LimitExceeded(MaxSingleFileBytes))
    else ParseOctal(bytes[1..], acc * 8 + (bytes[0] - 0x30))
  }

  /** `padded_tar_size`: the size rounded up to whole blocks. */
  function PaddedSize(size: u64): Result<u64, ArchiveError> {
    var padding := (BLOCK - size % BLOCK) % BLOCK;
    if size + padding <= U64_MAX then Ok(size + padding) else Err(LimitExceeded(MaxSingleFileBytes))
  }

  /** The bytes before the first NUL. */
  function CString(bytes: seq<byte>): seq<byte> {
    if bytes == [] || bytes[0] == 0 then [] else [bytes[0]] + CString(bytes[1..])
  }

  /** `tar_string`. */
  function TarString(bytes: seq<byte>): seq<byte> {
    Lossy(CString(bytes))
  }

  function RawName(prefix: seq<byte>, name: seq<byte>): seq<byte> {
    if prefix == [] then name else prefix + [SLASH] + name
  }

  /** `tar_header_name`, given the name and prefix fields. */
  function HeaderName(nameField: seq<byte>, prefixField: seq<byte>): Result<seq<byte>, ArchiveError> {
    SafeEntryName(RawName(TarString(prefixField), TarString(nameField)))
  }

  /** What follows the first line feed. */
  function AfterLine(content: seq<byte>): seq<byte> {
    if content == [] then [] else if content[0] == 0x0A then content[1..] else AfterLine(content[1..])
  }

  lemma AfterLineShrinks(content: seq<byte>)
    requires content != []
    ensures |AfterLine(content)| < |content|
  {
  }

  // "size="
  const SIZE_KEY: seq<byte> := [0x73, 0x69, 0x7A, 0x65, 0x3D]

  /** Whether the text after the first space of the first line starts with `size=`. */
  predicate FirstLineIsSize(content: seq<byte>) {
    content != [] && content[0] != 0x0A &&
    if content[0] == 0x20 then SIZE_KEY <= content[1..] else FirstLineIsSize(content[1..])
  }

  /** Whether some line of the text has such a record. */
  predicate HasSizeRecord(content: seq<byte>)
    decreases |content|
  {
    content != [] &&
    (FirstLineIsSize(content) || (AfterLineShrinks(content); HasSizeRecord(AfterLine(content))))
  }

  /** `pax_content_has_size_record`: the lines of the decoded content. */
  predicate PaxContentHasSizeRecord(content: seq<byte>) {
    HasSizeRecord(Lossy(content))
  }

  // ----- decoding does not change what is looked for

  predicate AllHigh(s: seq<byte>) {
    forall i :: 0 <= i < |s| ==> s[i] >= 0x80
  }

  /** Bytes above ASCII are neither line feeds nor spaces. */
  lemma {:induction false} SkipHigh(high: seq<byte>, rest: seq<byte>)
    requires AllHigh(high)
    ensures FirstLineIsSize(high + rest) == FirstLineIsSize(rest)
    ensures AfterLine(high + rest) == AfterLine(rest)
    ensures HasSizeRecord(high + rest) == HasSizeRecord(rest)
  {
    if high == [] {
      assert high + rest == rest;
    } else {
      SkipHigh(high[1..], rest);
      assert (high + rest)[1..] == high[1..] + rest;
    }
  }

  /** One step of the decoder: an ASCII byte is kept, anything else is high bytes for high bytes. */
  lemma LossyStep(s: seq<byte>) returns (n: nat, out: seq<byte>)
    requires s != []
    ensures 0 < n <= |s| && out != [] && Lossy(s) == out + Lossy(s[n..])
    ensures s[0] < 0x80 ==> n == 1 && out == [s[0]]
    ensures s[0] >= 0x80 ==> AllHigh(s[..n]) && AllHigh(out)
  {
    var k := CharLength(s);
    if k > 0 {
      n, out := k, s[..k];
    } else {
      n := if LeadLength(s[0]) == 0 then 1 else GoodPrefix(s, LeadLength(s[0]));
      out := REPLACEMENT;
    }
  }

  /** An ASCII text starts the content exactly when it starts the decoded content. */
  lemma {:induction false} LossyKeepsPrefix(key: seq<byte>, s: seq<byte>)
    requires forall i :: 0 <= i < |key| ==> key[i] < 0x80
    ensures key <= Lossy(s) <==> key <= s
  {
    if key == [] || s == [] {
    } else {
      var n, out := LossyStep(s);
      if s[0] < 0x80 {
        LossyKeepsPrefix(key[1..], s[1..]);
        assert key <= s <==> key[0] == s[0] && key[1..] <= s[1..];
        assert Lossy(s)[1..] == Lossy(s[1..]);
        assert key <= Lossy(s) <==> key[0] == Lossy(s)[0] && key[1..] <= Lossy(s)[1..];
      } else {
        assert Lossy(s)[0] == out[0] >= 0x80;
      }
    }
  }

  lemma LineStep(c: byte, rest: seq<byte>)
    ensures FirstLineIsSize([c] + rest) <==>
      c != 0x0A && (if c == 0x20 then SIZE_KEY <= rest else FirstLineIsSize(rest))
    ensures AfterLine([c] + rest) == if c == 0x0A then rest else AfterLine(rest)
  {
    assert ([c] + rest)[1..] == rest;
  }

  lemma {:induction false} LossyKeepsFirstLine(s: seq<byte>)
    ensures FirstLineIsSize(Lossy(s)) == FirstLineIsSize(s)
    ensures AfterLine(Lossy(s)) == Lossy(AfterLine(s))
  {
    if s == [] {
    } else {
      var n, out := LossyStep(s);
      LossyKeepsFirstLine(s[n..]);
      if s[0] < 0x80 {
        assert s == [s[0]] + s[1..];
        LineStep(s[0], s[1..]);
        LineStep(s[0], Lossy(s[1..]));
        LossyKeepsPrefix(SIZE_KEY, s[1..]);
      } else {
        SkipHigh(out, Lossy(s[n..]));
        SkipHigh(s[..n], s[n..]);
        assert s[..n] + s[n..] == s;
      }
    }
  }

  /** So the record can be looked for in the bytes. */
  lemma {:induction false} DecodingKeepsSizeRecords(s: seq<byte>)
    ensures PaxContentHasSizeRecord(s) == HasSizeRecord(s)
    decreases |s|
  {
    if s == [] {
    } else {
      var n, out := LossyStep(s);
      LossyKeepsFirstLine(s);
      AfterLineShrinks(s);
      DecodingKeepsSizeRecords(AfterLine(s));
    }
  }

  /** The scanner between two headers. */
  datatype ScanState = ScanState(offset: nat, blockIndex: u64, pending: bool, tally: Counters)

  /** What one header contributes. */
  datatype Step = Step(member: seq<seq<byte>>, hazard: seq<TarHazard>, next: ScanState)

  /** `tar_content`. */
  function Content(data: seq<byte>, offset: nat, size: u64): Result<seq<byte>, ArchiveError> {
    if offset + size <= |data| then Ok(data[offset..offset + size]) else Err(Malformed)
  }

  predicate HasHeader(data: seq<byte>, offset: nat) {
    offset + BLOCK <= |data| && !AllZero(data[offset..offset + BLOCK])
  }

  /** The archive goes on exactly where a whole block is left that has a byte other than zero. */
  lemma HeaderIsAnyNonZeroBlock(data: seq<byte>, offset: nat)
    ensures HasHeader(data, offset) <==>
      offset + 512 <= |data| && exists i :: offset <= i < offset + 512 && data[i] != 0
  {
    if offset + BLOCK <= |data| {
      var block := data[offset..offset + BLOCK];
      if AllZero(block) {
        forall i | offset <= i < offset + 512 ensures data[i] == 0 {
          assert block[i - offset] == 0;
        }
      } else {
        var i :| 0 <= i < |block| && block[i] != 0;
        assert data[offset + i] != 0;
      }
    }
  }

  /** What the header at `s.offset` does to the pending flag, the counters and the two lists. */
  function Interpret(limits: ArchiveLimits, data: seq<byte>, header: seq<byte>, size: u64, s: ScanState)
    : Result<Step, ArchiveError>
    requires |header| == BLOCK
  {
    var typeflag := header[156];
    if IsPaxHeader(typeflag) then
      match Content(data, s.offset + BLOCK, size)
      case Err(e) => Err(e)
      case Ok(content) => Ok(Step([], [], s.(pending := s.pending || PaxContentHasSizeRecord(content))))
    else if IsExtensionHeader(typeflag) then
      Ok(Step([], if s.pending then [PaxSizeAcrossExtension(s.blockIndex, typeflag)] else [], s))
    else
      match HeaderName(header[0..100], header[345..500])
      case Err(e) => Err(e)
      case Ok(name) =>
        var (tally, broken) := Recorded(limits, s.tally, name, size, None);
        if broken.Some? then Err(LimitExceeded(broken.value))
        else Ok(Step(if typeflag == TYPE_DIRECTORY then [] else [name], [], s.(pending := false, tally := tally)))
  }

  /** Past the content of the header at `s.offset`, with the overflow checks of the source. */
  function Advance(s: ScanState, size: u64): Result<ScanState, ArchiveError> {
    match PaddedSize(size)
    case Err(e) => Err(e)
    case Ok(padded) =>
      if s.offset + BLOCK + padded > U64_MAX then Err(LimitExceeded(MaxTotalUnpackedBytes))
      else if s.blockIndex == U64_MAX then Err(LimitExceeded(MaxFiles))
      else Ok(s.(offset := s.offset + BLOCK + padded, blockIndex := s.blockIndex + 1))
  }

  /** The step that was made, moved past the content. */
  function ThenAdvance(made: Result<Step, ArchiveError>, size: u64): Result<Step, ArchiveError> {
    match made
    case Err(e) => Err(e)
    case Ok(step) =>
      match Advance(step.next, size)
      case Err(e) => Err(e)
      case Ok(next) => Ok(step.(next := next))
  }

  function ScanHeader(limits: ArchiveLimits, data: seq<byte>, s: ScanState): (r: Result<Step, ArchiveError>)
    requires HasHeader(data, s.offset)
    ensures r.Ok? ==> r.value.next.offset >= s.offset + BLOCK
  {
    var header := data[s.offset..s.offset + BLOCK];
    match ParseOctal(header[124..136], 0)
    case Err(e) => Err(e)
    case Ok(size) => ThenAdvance(Interpret(limits, data, header, size, s), size)
  }

  /** Everything reported from `s` on; the first error wins. */
  function ScanFrom(limits: ArchiveLimits, data: seq<byte>, s: ScanState): Result<Report, ArchiveError>
    decreases |data| - s.offset
  {
    if !HasHeader(data, s.offset) then Ok(Report([], []))
    else
      match ScanHeader(limits, data, s)
      case Err(e) => Err(e)
      case Ok(step) => Prepend(step.member, step.hazard, ScanFrom(limits, data, step.next))
  }

  function Prepend(members: seq<seq<byte>>, hazards: seq<TarHazard>,
                   r: Result<Report, ArchiveError>): Result<Report, ArchiveError>
  {
    match r
    case Err(e) => Err(e)
    case Ok(report) => Ok(Report(members + report.members, hazards + report.hazards))
  }

  lemma PrependTwice(m1: seq<seq<byte>>, h1: seq<TarHazard>, m2: seq<seq<byte>>, h2: seq<TarHazard>,
                     r: Result<Report, ArchiveError>)
    ensures Prepend(m1, h1, Prepend(m2, h2, r)) == Prepend(m1 + m2, h1 + h2, r)
  {
    if r.Ok? {
      assert m1 + (m2 + r.value.members) == (m1 + m2) + r.value.members;
      assert h1 + (h2 + r.value.hazards) == (h1 + h2) + r.value.hazards;
    }
  }

  const START: ScanState := ScanState(0, 0, false, NO_COUNTS)

  /** The three-way branch on the typeflag, with the counters kept by the tracker. */
  method InterpretHeader(data: seq<byte>, header: seq<byte>, size: u64, s: ScanState, tracker: LimitTracker)
    returns (r: Result<Step, ArchiveError>)
    requires |header| == BLOCK && tracker.Tally() == s.tally
    modifies tracker
    ensures r == Interpret(tracker.limits, data, header, size, s)
    ensures r.Ok? ==> tracker.Tally() == r.value.next.tally
  {
    var typeflag := header[156];
    var members: seq<seq<byte>> := [];
    var hazards: seq<TarHazard> := [];
    var pending := s.pending;
    if IsPaxHeader(typeflag) {
      var content := Content(data, s.offset + BLOCK, size);
      if content.Err? {
        return Err(content.error);
      }
      if PaxContentHasSizeRecord(content.value) {
        pending := true;
      }
    } else if IsExtensionHeader(typeflag) {
      if pending {
        hazards := [PaxSizeAcrossExtension(s.blockIndex, typeflag)];
      }
    } else {
      pending := false;
      var name := HeaderName(header[0..100], header[345..500]);
      if name.Err? {
        return Err(name.error);
      }
      var broken := tracker.RecordEntry(name.value, size, None);
      if broken.Some? {
        return Err(LimitExceeded(broken.value));
      }
      if typeflag != TYPE_DIRECTORY {
        members := [name.value];
      }
    }
    r := Ok(Step(members, hazards, ScanState(s.offset, s.blockIndex, pending, tracker.Tally())));
  }

  /** One turn of the scanner's loop. */
  method ReadHeader(data: seq<byte>, s: ScanState, tracker: LimitTracker) returns (r: Result<Step, ArchiveError>)
    requires HasHeader(data, s.offset) && tracker.Tally() == s.tally
    modifies tracker
    ensures r == ScanHeader(tracker.limits, data, s)
    ensures r.Ok? ==> tracker.Tally() == r.value.next.tally
  {
    var header := data[s.offset..s.offset + BLOCK];
    var size := ParseOctal(header[124..136], 0);
    if size.Err? {
      return Err(size.error);
    }
    r := InterpretHeader(data, header, size.value, s, tracker);
    if r.Ok? {
      var next := Advance(r.value.next, size.value);
      r := if next.Err? then Err(next.error) else Ok(r.value.(next := next.value));
    }
  }

  /**
    The loop of the scanner.  `data` is a Rust slice, so `offset + 512` does not
    saturate and the "truncated tar header" branch of the source is never reached:
    a short tail simply ends the loop.  The offset grows by at least one block
    each time, so the loop ends on every input.
   */
  method ConsensusTarMembers(data: seq<byte>, limits: ArchiveLimits) returns (r: Result<Report, ArchiveError>)
    requires |data| <= ISIZE_MAX
    ensures r == ScanFrom(limits, data, START)
  {
    var tracker := new LimitTracker(limits);
    var members: seq<seq<byte>> := [];
    var hazards: seq<TarHazard> := [];
    var s := START;
    PrependNothing(ScanFrom(limits, data, START));
    while HasHeader(data, s.offset)
      invariant tracker.limits == limits && fresh(tracker) && tracker.Tally() == s.tally
      invariant ScanFrom(limits, data, START) == Prepend(members, hazards, ScanFrom(limits, data, s))
      decreases |data| - s.offset
    {
      var step := ReadHeader(data, s, tracker);
      if step.Err? {
        return Err(step.error);
      }
      PrependTwice(members, hazards, step.value.member, step.value.hazard, ScanFrom(limits, data, step.value.next));
      members := members + step.value.member;
      hazards := hazards + step.value.hazard;
      s := step.value.next;
    }
    assert members + [] == members && hazards + [] == hazards;
    r := Ok(Report(members, hazards));
  }

  lemma PrependNothing(r: Result<Report, ArchiveError>)
    ensures Prepend([], [], r) == r
  {
    if r.Ok? {
      assert [] + r.value.members == r.value.members && [] + r.value.hazards == r.value.hazards;
    }
  }
}
