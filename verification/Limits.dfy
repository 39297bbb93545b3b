/**
  The resource limits of `arbitraitor-archive`: entry metadata, entry-name
  validation and the `LimitTracker` accounting.  Entry names are UTF-8 bytes.
  The clock is left out: `check_time` always passes.
 */
module Limits {
  import opened Common
  import opened Text

  const SLASH: byte := 0x2F
  const BACKSLASH: byte := 0x5C
  const DOT: byte := 0x2E

  datatype Limit = MaxDepth | MaxFiles | MaxTotalUnpackedBytes | MaxSingleFileBytes | MaxCompressionRatio | MaxSymlinks

  datatype ArchiveError =
    | Io
    | Malformed
    | UnsafePath(name: seq<byte>)
    | UnsupportedEntry(name: seq<byte>)
    | EntryNotFound(name: seq<byte>)
    | LimitExceeded(limit: Limit)

  datatype ArchiveLimits = ArchiveLimits(
    maxDepth: u32, maxFiles: u32, maxTotalUnpackedBytes: u64, maxSingleFileBytes: u64,
    maxCompressionRatio: u32, maxSymlinks: u32)

  datatype EntryType = File | Directory | Symlink | Hardlink | Fifo | CharacterDevice | BlockDevice | Other

  datatype ArchiveEntry = ArchiveEntry(
    name: seq<byte>, size: u64, compressedSize: Option<u64>, isDir: bool, isSymlink: bool,
    entryType: EntryType, linkTarget: Option<seq<byte>>, isEncrypted: bool)

  // ----- names

  function IsSlash(): byte -> bool {
    c => c == SLASH
  }

  function IsOrdinary(): seq<byte> -> bool {
    part => part != [] && part != [DOT]
  }

  /** The parts of a path that `Path::components` keeps, `..` included. */
  function Components(name: seq<byte>): seq<seq<byte>> {
    Filter(Split(name, IsSlash()), IsOrdinary())
  }

  /** `safe_entry_name`: the normalised relative path, or an error. */
  function SafeEntryName(name: seq<byte>): Result<seq<byte>, ArchiveError> {
    var parts := Components(name);
    if name == [] || name[0] == SLASH || [DOT, DOT] in parts || parts == [] then Err(UnsafePath(name))
    else Ok(Join(parts, SLASH))
  }

  /** A normalised name is what validation leaves alone. */
  predicate Normalised(name: seq<byte>) {
    SafeEntryName(name) == Ok(name)
  }

  method NormaliseEntryName(name: seq<byte>) returns (r: Result<seq<byte>, ArchiveError>)
    ensures r == SafeEntryName(name)
  {
    if name == [] || name[0] == SLASH {
      return Err(UnsafePath(name));
    }
    var parts := Split(name, IsSlash());
    var normal := [];
    for i := 0 to |parts|
      invariant normal == Filter(parts[..i], IsOrdinary())
      invariant [DOT, DOT] !in normal
    {
      var part := parts[i];
      assert parts[..i + 1] == parts[..i] + [part];
      FilterSnoc(parts[..i], part, IsOrdinary());
      if part == [DOT, DOT] {
        assert part in parts && IsOrdinary()(part);
        FilterMembers(parts, IsOrdinary());
        return Err(UnsafePath(name));
      }
      if part != [] && part != [DOT] {
        normal := normal + [part];
      }
    }
    assert parts[..|parts|] == parts;
    r := if normal == [] then Err(UnsafePath(name)) else Ok(Join(normal, SLASH));
  }

  /** A validated name is relative, has no empty, `.` or `..` part, and validates to itself. */
  lemma SafeNameIsNormalised(name: seq<byte>)
    requires SafeEntryName(name).Ok?
    ensures var safe := SafeEntryName(name).value;
      && Normalised(safe)
      && Split(safe, IsSlash()) == Components(name)
      && forall p :: p in Split(safe, IsSlash()) ==> IsOrdinary()(p) && p != [DOT, DOT]
  {
    var raw := Split(name, IsSlash());
    var parts := Components(name);
    SplitPartsFree(name, IsSlash());
    FilterMembers(raw, IsOrdinary());
    SplitOfJoin(parts, SLASH, IsSlash());
    FilterAll(parts, IsOrdinary());
    assert parts[0] in parts;
    assert !IsSlash()(parts[0][0]);
    assert Join(parts, SLASH)[0] == parts[0][0];
  }

  lemma FilterMember<T>(s: seq<T>, keep: T -> bool, x: T)
    ensures x in Filter(s, keep) <==> x in s && keep(x)
  {
    FilterMembers(s, keep);
  }

  /** The parts of a path that are kept: not empty, and not a single dot. */
  function KeptPart(): seq<byte> -> bool {
    p => p != [] && p != [0x2E]
  }

  lemma ComponentsAreKept(parts: seq<seq<byte>>)
    requires parts != [] && forall p :: p in parts ==> SLASH !in p
    ensures Components(Join(parts, SLASH)) == Filter(parts, KeptPart())
  {
    forall p | p in parts ensures Free(p, IsSlash()) {
    }
    SplitOfJoin(parts, SLASH, IsSlash());
    FilterSame(parts, IsOrdinary(), KeptPart());
  }

  /**
    Which paths are safe, and what is made of them: empty parts and `.` are dropped;
    a path is refused that begins with a slash, has a `..` part, or has no other part.
   */
  lemma SafeNamesExactly(parts: seq<seq<byte>>)
    requires parts != [] && forall p :: p in parts ==> 0x2F !in p
    ensures var kept, name := Filter(parts, KeptPart()), Join(parts, 0x2F);
      SafeEntryName(name) ==
        if (parts[0] == [] && |parts| > 1) || [0x2E, 0x2E] in parts || kept == [] then Err(UnsafePath(name))
        else Ok(Join(kept, 0x2F))
  {
    ComponentsAreKept(parts);
    FilterMember(parts, KeptPart(), [DOT, DOT]);
    JoinBegins(parts);
    var nothing: seq<seq<byte>> := [[]];
    assert nothing[1..] == [] && Filter(nothing, KeptPart()) == [] + Filter([], KeptPart());
  }

  lemma {:induction false} FilterSame<T>(s: seq<T>, a: T -> bool, b: T -> bool)
    requires forall x :: x in s ==> a(x) == b(x)
    ensures Filter(s, a) == Filter(s, b)
  {
    if s == [] {
    } else {
      FilterSame(s[1..], a, b);
      assert s[0] in s;
    }
  }

  /** A joined path begins with a slash exactly when its first part is empty and not the only one. */
  lemma JoinBegins(parts: seq<seq<byte>>)
    requires parts != [] && forall p :: p in parts ==> SLASH !in p
    ensures var name := Join(parts, SLASH);
      && (name != [] && name[0] == SLASH <==> parts[0] == [] && |parts| > 1)
      && (name == [] ==> parts == [[]])
  {
    assert parts[0] in parts;
    if parts[0] != [] {
      assert parts[0][0] in parts[0];
      assert Join(parts, SLASH)[0] == parts[0][0];
    }
  }

  function NotEmpty(): seq<byte> -> bool {
    part => part != []
  }

  /** How deep a name is: its parts between slashes that are not empty. */
  function Depth(name: seq<byte>): nat {
    |Filter(Split(name, IsSlash()), NotEmpty())|
  }

  lemma JoinedPartsAreCounted(parts: seq<seq<byte>>)
    requires parts != [] && forall p :: p in parts ==> SLASH !in p
    ensures Depth(Join(parts, SLASH)) == |Filter(parts, NotEmpty())|
  {
    forall p | p in parts ensures Free(p, IsSlash()) {
    }
    SplitOfJoin(parts, SLASH, IsSlash());
  }

  lemma FilterSkips<T>(skipped: T, rest: seq<T>, keep: T -> bool)
    requires !keep(skipped)
    ensures Filter([skipped] + rest, keep) == Filter(rest, keep)
  {
    assert ([skipped] + rest)[1..] == rest;
    assert [] + Filter(rest, keep) == Filter(rest, keep);
  }

  lemma FilterAround<T>(a: seq<T>, skipped: T, b: seq<T>, keep: T -> bool)
    requires !keep(skipped) && (forall x :: x in a ==> keep(x)) && (forall x :: x in b ==> keep(x))
    ensures Filter(a, keep) == a && Filter(a + ([skipped] + b), keep) == a + b
  {
    FilterAppend(a, [skipped] + b, keep);
    FilterSkips(skipped, b, keep);
    FilterAll(a, keep);
    FilterAll(b, keep);
  }

  /** The depth of a path is the number of its parts. */
  lemma DepthCountsParts(parts: seq<seq<byte>>)
    requires parts != [] && forall p :: p in parts ==> p != [] && SLASH !in p
    ensures Depth(Join(parts, SLASH)) == |parts|
  {
    JoinedPartsAreCounted(parts);
    FilterAll(parts, NotEmpty());
  }

  /** Empty parts between slashes do not count. */
  lemma DepthSkipsEmptyParts(a: seq<seq<byte>>, b: seq<seq<byte>>)
    requires (forall p :: p in a ==> p != [] && SLASH !in p) && (forall p :: p in b ==> p != [] && SLASH !in p)
    ensures Depth(Join(a + ([[]] + b), SLASH)) == |a| + |b|
  {
    FilterAround(a, [], b, NotEmpty());
    JoinedPartsAreCounted(a + ([[]] + b));
  }

  // ----- accounting

  datatype Counters = Counters(files: u32, total: u64, symlinks: u32)

  const NO_COUNTS: Counters := Counters(0, 0, 0)

  function CheckDepth(limits: ArchiveLimits, name: seq<byte>): bool {
    Depth(name) <= limits.maxDepth
  }

  /** `check_ratio` (and, negated, `compression_ratio_exceeded`). */
  predicate RatioOk(limits: ArchiveLimits, size: u64, compressed: Option<u64>) {
    match compressed
    case None => true
    case Some(c) => if c == 0 then size == 0 else size / c <= limits.maxCompressionRatio
  }

  lemma QuotientBelow(n: nat, c: nat, q: nat)
    requires c > 0
    ensures n / c <= q <==> n < (q + 1) * c
  {
    var m := n / c;
    assert n == m * c + n % c;
    if m <= q {
      ProductsGrow(m, q, c);
      assert (q + 1) * c == q * c + c;
    } else {
      ProductsGrow(q + 1, m, c);
    }
  }

  lemma ProductsGrow(a: nat, b: nat, c: nat)
    requires a <= b
    ensures a * c <= b * c
  {
  }

  /** The ratio check without a division: nothing may come from nothing, and less than `ratio + 1` bytes from each. */
  lemma RatioIsExact(limits: ArchiveLimits, size: u64, compressed: Option<u64>)
    ensures RatioOk(limits, size, compressed) <==>
      || compressed == None
      || size == 0
      || size < (limits.maxCompressionRatio + 1) * compressed.value
  {
    if compressed.Some? && compressed.value > 0 {
      QuotientBelow(size, compressed.value, limits.maxCompressionRatio);
      assert (limits.maxCompressionRatio + 1) * compressed.value > 0;
    }
  }

  /** What `record_entry` does to the counters, and how it ends. */
  function Recorded(limits: ArchiveLimits, t: Counters, name: seq<byte>, size: u64, compressed: Option<u64>)
    : (r: (Counters, Option<Limit>))
  {
    if !CheckDepth(limits, name) then (t, Some(MaxDepth))
    else if t.files == U32_MAX then (t, Some(MaxFiles))
    else
      var t1 := t.(files := t.files + 1);
      if t1.files > limits.maxFiles then (t1, Some(MaxFiles))
      else if size > limits.maxSingleFileBytes then (t1, Some(MaxSingleFileBytes))
      else if t.total + size > U64_MAX then (t1, Some(MaxTotalUnpackedBytes))
      else
        var t2 := t1.(total := t.total + size);
        if t2.total > limits.maxTotalUnpackedBytes then (t2, Some(MaxTotalUnpackedBytes))
        else if !RatioOk(limits, size, compressed) then (t2, Some(MaxCompressionRatio))
        else (t2, None)
  }

  lemma RecordedAtDepth(limits: ArchiveLimits, t: Counters, name: seq<byte>, depth: nat, size: u64,
                        compressed: Option<u64>)
    requires Depth(name) == depth
    ensures Recorded(limits, t, name, size, compressed).1 ==
      if depth > limits.maxDepth then Some(MaxDepth)
      else if t.files >= limits.maxFiles then Some(MaxFiles)
      else if size > limits.maxSingleFileBytes then Some(MaxSingleFileBytes)
      else if t.total + size > limits.maxTotalUnpackedBytes then Some(MaxTotalUnpackedBytes)
      else if compressed.Some? && size > 0 && size >= (limits.maxCompressionRatio + 1) * compressed.value
      then Some(MaxCompressionRatio)
      else None
  {
    RatioIsExact(limits, size, compressed);
  }

  /** Which limit an entry with a path of these parts is refused for, from the numbers alone. */
  lemma RecordedExactly(limits: ArchiveLimits, t: Counters, parts: seq<seq<byte>>, size: u64, compressed: Option<u64>)
    requires parts != [] && forall p :: p in parts ==> p != [] && SLASH !in p
    ensures Recorded(limits, t, Join(parts, SLASH), size, compressed).1 ==
      if |parts| > limits.maxDepth then Some(MaxDepth)
      else if t.files >= limits.maxFiles then Some(MaxFiles)
      else if size > limits.maxSingleFileBytes then Some(MaxSingleFileBytes)
      else if t.total + size > limits.maxTotalUnpackedBytes then Some(MaxTotalUnpackedBytes)
      else if compressed.Some? && size > 0 && size >= (limits.maxCompressionRatio + 1) * compressed.value
      then Some(MaxCompressionRatio)
      else None
  {
    DepthCountsParts(parts);
    RecordedAtDepth(limits, t, Join(parts, SLASH), |parts|, size, compressed);
  }

  class LimitTracker {
    const limits: ArchiveLimits
    var files: u32
    var totalUnpackedBytes: u64
    var symlinks: u32

    function Tally(): Counters
      reads this
    {
      Counters(files, totalUnpackedBytes, symlinks)
    }

    constructor (limits: ArchiveLimits)
      ensures this.limits == limits && Tally() == NO_COUNTS
    {
      this.limits := limits;
      files, totalUnpackedBytes, symlinks := 0, 0, 0;
    }

    /** `record_file_metadata`: depth, then the entry count. */
    method RecordFileMetadata(name: seq<byte>) returns (error: Option<Limit>)
      modifies this
      ensures totalUnpackedBytes == old(totalUnpackedBytes) && symlinks == old(symlinks)
      ensures error.None? ==>
        CheckDepth(limits, name) && files == old(files) + 1 && files <= limits.maxFiles
      ensures error.Some? ==>
        if !CheckDepth(limits, name) then error == Some(MaxDepth) && files == old(files)
        else error == Some(MaxFiles) && files == (if old(files) == U32_MAX then U32_MAX else old(files) + 1)
             && old(files) + 1 > limits.maxFiles
    {
      if !CheckDepth(limits, name) {
        return Some(MaxDepth);
      }
      if files == U32_MAX {
        return Some(MaxFiles);
      }
      files := files + 1;
      if files > limits.maxFiles {
        return Some(MaxFiles);
      }
      error := None;
    }

    /** `add_unpacked_bytes`: the sum is stored even when it turns out too large. */
    method AddUnpackedBytes(bytes: u64) returns (error: Option<Limit>)
      modifies this`totalUnpackedBytes
      ensures error.None? <==> old(totalUnpackedBytes) + bytes <= limits.maxTotalUnpackedBytes
      ensures error.Some? ==> error == Some(MaxTotalUnpackedBytes)
      ensures totalUnpackedBytes ==
        if old(totalUnpackedBytes) + bytes <= U64_MAX then old(totalUnpackedBytes) + bytes else old(totalUnpackedBytes)
    {
      var sum := CheckedAdd(totalUnpackedBytes, bytes);
      if sum.None? {
        return Some(MaxTotalUnpackedBytes);
      }
      totalUnpackedBytes := sum.value;
      if totalUnpackedBytes > limits.maxTotalUnpackedBytes {
        return Some(MaxTotalUnpackedBytes);
      }
      error := None;
    }

    method RecordEntry(name: seq<byte>, size: u64, compressed: Option<u64>) returns (error: Option<Limit>)
      modifies this
      ensures (Tally(), error) == Recorded(limits, old(Tally()), name, size, compressed)
    {
      error := RecordFileMetadata(name);
      if error.Some? {
        return;
      }
      if size > limits.maxSingleFileBytes {
        return Some(MaxSingleFileBytes);
      }
      error := AddUnpackedBytes(size);
      if error.Some? {
        return;
      }
      if !RatioOk(limits, size, compressed) {
        return Some(MaxCompressionRatio);
      }
    }

    method RecordSymlink() returns (error: Option<Limit>)
      modifies this`symlinks
      ensures error.None? <==> old(symlinks) < limits.maxSymlinks
      ensures error.Some? ==> error == Some(MaxSymlinks)
      ensures symlinks == if old(symlinks) == U32_MAX then U32_MAX else old(symlinks) + 1
    {
      if symlinks == U32_MAX {
        return Some(MaxSymlinks);
      }
      symlinks := symlinks + 1;
      if symlinks > limits.maxSymlinks {
        return Some(MaxSymlinks);
      }
      error := None;
    }
  }

  /** Feeding entries to `record_entry` until one fails; the count of `entries()` loops. */
  function RecordedAll(limits: ArchiveLimits, t: Counters, entries: seq<ArchiveEntry>): (Counters, Option<Limit>)
    decreases |entries|
  {
    if entries == [] then (t, None)
    else
      var (t1, error) := Recorded(limits, t, entries[0].name, entries[0].size, entries[0].compressedSize);
      if error.Some? then (t1, error) else RecordedAll(limits, t1, entries[1..])
  }

  function TotalSize(entries: seq<ArchiveEntry>): nat {
    if entries == [] then 0 else entries[0].size + TotalSize(entries[1..])
  }

  predicate SizesWithinLimits(limits: ArchiveLimits, e: ArchiveEntry) {
    e.size <= limits.maxSingleFileBytes && RatioOk(limits, e.size, e.compressedSize)
  }

  predicate EntryWithinLimits(limits: ArchiveLimits, e: ArchiveEntry) {
    CheckDepth(limits, e.name) && SizesWithinLimits(limits, e)
  }

  /**
    The tracker accepts a list of entries exactly when every entry is within the
    per-entry limits and the list is within the count and the total.
   */
  lemma {:induction false} TrackerAcceptsExactly(limits: ArchiveLimits, t: Counters, entries: seq<ArchiveEntry>)
    requires t.files <= limits.maxFiles && t.total <= limits.maxTotalUnpackedBytes
    ensures RecordedAll(limits, t, entries).1.None? <==>
      && (forall e :: e in entries ==> EntryWithinLimits(limits, e))
      && t.files + |entries| <= limits.maxFiles
      && t.total + TotalSize(entries) <= limits.maxTotalUnpackedBytes
    ensures RecordedAll(limits, t, entries).1.None? ==>
      RecordedAll(limits, t, entries).0 == Counters(t.files + |entries|, t.total + TotalSize(entries), t.symlinks)
    decreases |entries|
  {
    if entries == [] {
    } else {
      var e := entries[0];
      var (t1, error) := Recorded(limits, t, e.name, e.size, e.compressedSize);
      if error.None? {
        TrackerAcceptsExactly(limits, t1, entries[1..]);
        assert entries == [e] + entries[1..];
      } else {
        assert e in entries;
      }
    }
  }
}
