/**
  `detect_archive_hazards`: the limit findings and the collision findings.  The
  collision key is any function of the name; in the source it folds case and
  diacritics.
 */
module Hazards {
  import opened Common
  import opened Limits

  type Name = seq<byte>

  type CollisionKey = Name -> Name

  datatype Hazard =
    | ExcessiveFileCount
    | ExcessiveTotalSize
    | ExcessiveEntrySize(index: nat)
    | ExcessiveCompressionRatio(index: nat)
    | OverwritingEntry(index: nat)
    | CaseUnicodeCollision(index: nat)
    | MalformedSizeOverflow(index: nat)

  /** The running total of the first `n` sizes; a size that would overflow 64 bits is skipped. */
  function SkippingTotal(entries: seq<ArchiveEntry>, n: nat): u64
    requires n <= |entries|
  {
    if n == 0 then 0
    else
      var before := SkippingTotal(entries, n - 1);
      if before + entries[n - 1].size <= U64_MAX then before + entries[n - 1].size else before
  }

  predicate OverflowsAt(entries: seq<ArchiveEntry>, i: nat)
    requires i < |entries|
  {
    SkippingTotal(entries, i) + entries[i].size > U64_MAX
  }

  predicate RepeatsAt(entries: seq<ArchiveEntry>, i: nat)
    requires i < |entries|
  {
    exists j :: 0 <= j < i && entries[j].name == entries[i].name
  }

  /** The name of the latest of the first `n` entries whose key is `k`. */
  function LatestWithKey(key: CollisionKey, entries: seq<ArchiveEntry>, n: nat, k: Name): Option<Name>
    requires n <= |entries|
  {
    if n == 0 then None
    else if key(entries[n - 1].name) == k then Some(entries[n - 1].name)
    else LatestWithKey(key, entries, n - 1, k)
  }

  predicate CollidesAt(key: CollisionKey, entries: seq<ArchiveEntry>, i: nat)
    requires i < |entries|
  {
    var latest := LatestWithKey(key, entries, i, key(entries[i].name));
    latest.Some? && latest.value != entries[i].name
  }

  /** What a finding asserts about the entries. */
  predicate Holds(limits: ArchiveLimits, key: CollisionKey, entries: seq<ArchiveEntry>, h: Hazard) {
    match h
    case ExcessiveFileCount => |entries| > limits.maxFiles
    case ExcessiveTotalSize => SkippingTotal(entries, |entries|) > limits.maxTotalUnpackedBytes
    case ExcessiveEntrySize(i) => i < |entries| && entries[i].size > limits.maxSingleFileBytes
    case ExcessiveCompressionRatio(i) => i < |entries| && !RatioOk(limits, entries[i].size, entries[i].compressedSize)
    case OverwritingEntry(i) => i < |entries| && RepeatsAt(entries, i)
    case CaseUnicodeCollision(i) => i < |entries| && CollidesAt(key, entries, i)
    case MalformedSizeOverflow(i) => i < |entries| && OverflowsAt(entries, i)
  }

  /** The entry a finding is about; -1 for the file count and |entries| for the total, as they are emitted. */
  function Position(entries: seq<ArchiveEntry>, h: Hazard): int {
    if h.ExcessiveFileCount? then -1 else if h.ExcessiveTotalSize? then |entries| else h.index
  }

  /** The findings are exactly the ones whose assertion is so. */
  ghost predicate Exact(limits: ArchiveLimits, key: CollisionKey, entries: seq<ArchiveEntry>, found: seq<Hazard>) {
    forall h :: h in found <==> Holds(limits, key, entries, h)
  }

  /** The order of the checks on one entry. */
  function Turn(h: Hazard): nat {
    match h
    case ExcessiveEntrySize(_) => 0
    case ExcessiveCompressionRatio(_) => 1
    case OverwritingEntry(_) => 2
    case CaseUnicodeCollision(_) => 3
    case MalformedSizeOverflow(_) => 4
    case _ => 5
  }

  predicate Before(entries: seq<ArchiveEntry>, g: Hazard, h: Hazard) {
    || Position(entries, g) < Position(entries, h)
    || (Position(entries, g) == Position(entries, h) && Turn(g) < Turn(h))
  }

  /** Entry by entry, on one entry in the order of the checks, and nothing twice. */
  predicate Ordered(entries: seq<ArchiveEntry>, found: seq<Hazard>) {
    forall i, j :: 0 <= i < j < |found| ==> Before(entries, found[i], found[j])
  }

  /** `compression_ratio_exceeded`, the hazard scan's own copy of the ratio check. */
  function CompressionRatioExceeded(e: ArchiveEntry, limits: ArchiveLimits): (r: bool)
    ensures r <==> !RatioOk(limits, e.size, e.compressedSize)
  {
    if e.compressedSize.None? then false
    else if e.compressedSize.value == 0 then e.size > 0
    else e.size / e.compressedSize.value > limits.maxCompressionRatio
  }

  /** The finding that check number `turn` makes about entry `i`. */
  function Check(i: nat, turn: nat): Hazard
    requires turn < 5
  {
    match turn
    case 0 => ExcessiveEntrySize(i)
    case 1 => ExcessiveCompressionRatio(i)
    case 2 => OverwritingEntry(i)
    case 3 => CaseUnicodeCollision(i)
    case _ => MalformedSizeOverflow(i)
  }

  /** What the first `turns` checks find, those that hold in their order. */
  function Found(limits: ArchiveLimits, key: CollisionKey, entries: seq<ArchiveEntry>, i: nat, turns: nat): seq<Hazard>
    requires turns <= 5
  {
    if turns == 0 then []
    else
      var before := Found(limits, key, entries, i, turns - 1);
      if Holds(limits, key, entries, Check(i, turns - 1)) then before + [Check(i, turns - 1)] else before
  }

  /** `found` is what the first `turns` checks on entry `i` have to say, in their order. */
  ghost predicate FoundInTurns(limits: ArchiveLimits, key: CollisionKey, entries: seq<ArchiveEntry>, i: nat,
                               turns: nat, found: seq<Hazard>) {
    && Ordered(entries, found)
    && forall h :: h in found <==> Position(entries, h) == i && Turn(h) < turns && Holds(limits, key, entries, h)
  }

  lemma CheckIsOnly(entries: seq<ArchiveEntry>, i: nat, turn: nat, h: Hazard)
    requires i < |entries| && turn < 5
    ensures h == Check(i, turn) <==> Position(entries, h) == i && Turn(h) == turn
  {
  }

  lemma TurnTaken(limits: ArchiveLimits, key: CollisionKey, entries: seq<ArchiveEntry>, i: nat, turn: nat,
                  before: seq<Hazard>)
    requires i < |entries| && turn < 5 && FoundInTurns(limits, key, entries, i, turn, before)
    ensures Holds(limits, key, entries, Check(i, turn)) ==>
      FoundInTurns(limits, key, entries, i, turn + 1, before + [Check(i, turn)])
    ensures !Holds(limits, key, entries, Check(i, turn)) ==> FoundInTurns(limits, key, entries, i, turn + 1, before)
  {
    var one := Check(i, turn);
    CheckIsOnly(entries, i, turn, one);
    forall h
      ensures h in before || (h == one && Holds(limits, key, entries, h)) <==>
        Position(entries, h) == i && Turn(h) < turn + 1 && Holds(limits, key, entries, h)
    {
      CheckIsOnly(entries, i, turn, h);
    }
    forall j | 0 <= j < |before| ensures Before(entries, before[j], one) {
      assert before[j] in before;
    }
  }

  lemma {:induction false} FoundIsExact(limits: ArchiveLimits, key: CollisionKey, entries: seq<ArchiveEntry>,
                                        i: nat, turns: nat)
    requires i < |entries| && turns <= 5
    ensures FoundInTurns(limits, key, entries, i, turns, Found(limits, key, entries, i, turns))
  {
    if turns == 0 {
    } else {
      FoundIsExact(limits, key, entries, i, turns - 1);
      TurnTaken(limits, key, entries, i, turns - 1, Found(limits, key, entries, i, turns - 1));
    }
  }

  /** `found` is what holds at one position, in order. */
  ghost predicate FoundAt(limits: ArchiveLimits, key: CollisionKey, entries: seq<ArchiveEntry>, i: int,
                          found: seq<Hazard>) {
    && Ordered(entries, found)
    && forall h :: h in found <==> Position(entries, h) == i && Holds(limits, key, entries, h)
  }

  /** The two checks that look at nothing but the entry. */
  method SizeFindings(entries: seq<ArchiveEntry>, limits: ArchiveLimits, key: CollisionKey, i: nat)
    returns (found: seq<Hazard>)
    requires i < |entries|
    ensures found == Found(limits, key, entries, i, 2)
  {
    found := [];
    if entries[i].size > limits.maxSingleFileBytes {
      found := found + [ExcessiveEntrySize(i)];
    }
    assert found == Found(limits, key, entries, i, 1);
    if CompressionRatioExceeded(entries[i], limits) {
      found := found + [ExcessiveCompressionRatio(i)];
    }
  }

  /** The findings about one entry, from what the scan remembers of the entries before it. */
  method EntryFindings(entries: seq<ArchiveEntry>, limits: ArchiveLimits, key: CollisionKey, i: nat,
                       repeats: bool, previous: Option<Name>, total: u64)
    returns (found: seq<Hazard>)
    requires i < |entries|
    requires repeats == RepeatsAt(entries, i) && total == SkippingTotal(entries, i)
    requires previous == LatestWithKey(key, entries, i, key(entries[i].name))
    ensures FoundAt(limits, key, entries, i, found)
  {
    var entry := entries[i];
    found := SizeFindings(entries, limits, key, i);
    if repeats {
      found := found + [OverwritingEntry(i)];
    }
    assert found == Found(limits, key, entries, i, 3);
    if previous.Some? && previous.value != entry.name {
      found := found + [CaseUnicodeCollision(i)];
    }
    assert found == Found(limits, key, entries, i, 4);
    if CheckedAdd(total, entry.size).None? {
      found := found + [MalformedSizeOverflow(i)];
    }
    assert found == Found(limits, key, entries, i, 5);
    FoundIsExact(limits, key, entries, i, 5);
  }

  /** The findings about the entries before entry `i`, in order; the file count comes first of all. */
  ghost predicate FoundBefore(limits: ArchiveLimits, key: CollisionKey, entries: seq<ArchiveEntry>, i: int,
                              found: seq<Hazard>) {
    && Ordered(entries, found)
    && forall h :: h in found <==> Position(entries, h) < i && Holds(limits, key, entries, h)
  }

  lemma FindingsAppended(limits: ArchiveLimits, key: CollisionKey, entries: seq<ArchiveEntry>, i: int,
                         before: seq<Hazard>, found: seq<Hazard>)
    requires FoundBefore(limits, key, entries, i, before) && FoundAt(limits, key, entries, i, found)
    ensures FoundBefore(limits, key, entries, i + 1, before + found)
  {
    var both := before + found;
    forall j, k | 0 <= j < k < |both|
      ensures Before(entries, both[j], both[k])
    {
      assert j < |before| ==> both[j] in before;
      assert k >= |before| ==> both[k] in found;
    }
  }

  lemma FoundAll(limits: ArchiveLimits, key: CollisionKey, entries: seq<ArchiveEntry>, found: seq<Hazard>)
    requires FoundBefore(limits, key, entries, |entries| + 1, found)
    ensures Exact(limits, key, entries, found) && Ordered(entries, found)
  {
  }

  /** The names and the latest name of each key among the first `n` entries. */
  ghost predicate Remembers(exactNames: set<Name>, normalizedNames: map<Name, Name>,
                            key: CollisionKey, entries: seq<ArchiveEntry>, n: nat)
    requires n <= |entries|
  {
    && exactNames == (set j | 0 <= j < n :: entries[j].name)
    && (forall k :: k in normalizedNames <==> LatestWithKey(key, entries, n, k).Some?)
    && (forall k :: k in normalizedNames ==> LatestWithKey(key, entries, n, k) == Some(normalizedNames[k]))
  }

  /** The scan before entry `n`: its findings, what it remembers of the names, and the running total. */
  ghost predicate Scanned(limits: ArchiveLimits, key: CollisionKey, entries: seq<ArchiveEntry>, n: nat,
                          findings: seq<Hazard>, exactNames: set<Name>, normalizedNames: map<Name, Name>, total: u64)
    requires n <= |entries|
  {
    && FoundBefore(limits, key, entries, n, findings)
    && Remembers(exactNames, normalizedNames, key, entries, n)
    && total == SkippingTotal(entries, n)
  }

  lemma ScanBegins(limits: ArchiveLimits, key: CollisionKey, entries: seq<ArchiveEntry>)
    ensures Scanned(limits, key, entries, 0, if |entries| > limits.maxFiles then [ExcessiveFileCount] else [],
                    {}, map[], 0)
  {
  }

  /** What the scan remembers is what the checks on the next entry ask for. */
  lemma ScanKnows(limits: ArchiveLimits, key: CollisionKey, entries: seq<ArchiveEntry>, i: nat,
                  findings: seq<Hazard>, exactNames: set<Name>, normalizedNames: map<Name, Name>, total: u64)
    requires i < |entries| && Scanned(limits, key, entries, i, findings, exactNames, normalizedNames, total)
    ensures var name := entries[i].name; var k := key(name);
      && (name in exactNames) == RepeatsAt(entries, i)
      && (if k in normalizedNames then Some(normalizedNames[k]) else None) == LatestWithKey(key, entries, i, k)
      && total == SkippingTotal(entries, i)
  {
  }

  lemma ScanGoesOn(limits: ArchiveLimits, key: CollisionKey, entries: seq<ArchiveEntry>, i: nat,
                   findings: seq<Hazard>, exactNames: set<Name>, normalizedNames: map<Name, Name>, total: u64,
                   found: seq<Hazard>)
    requires i < |entries| && Scanned(limits, key, entries, i, findings, exactNames, normalizedNames, total)
    requires FoundAt(limits, key, entries, i, found)
    ensures var name, sum := entries[i].name, CheckedAdd(total, entries[i].size);
      Scanned(limits, key, entries, i + 1, findings + found, exactNames + {name},
              normalizedNames[key(name) := name], if sum.Some? then sum.value else total)
  {
    FindingsAppended(limits, key, entries, i, findings, found);
  }

  lemma ScanEnds(limits: ArchiveLimits, key: CollisionKey, entries: seq<ArchiveEntry>,
                 findings: seq<Hazard>, exactNames: set<Name>, normalizedNames: map<Name, Name>, total: u64)
    requires Scanned(limits, key, entries, |entries|, findings, exactNames, normalizedNames, total)
    ensures var all := if total > limits.maxTotalUnpackedBytes then findings + [ExcessiveTotalSize] else findings;
      Exact(limits, key, entries, all) && Ordered(entries, all)
  {
    var last := if total > limits.maxTotalUnpackedBytes then [ExcessiveTotalSize] else [];
    FindingsAppended(limits, key, entries, |entries|, findings, last);
    FoundAll(limits, key, entries, findings + last);
    assert findings + [] == findings;
  }

  method DetectArchiveHazards(entries: seq<ArchiveEntry>, limits: ArchiveLimits, key: CollisionKey)
    returns (findings: seq<Hazard>)
    ensures Exact(limits, key, entries, findings) && Ordered(entries, findings)
  {
    findings := [];
    var exactNames: set<Name> := {};
    var normalizedNames: map<Name, Name> := map[];
    var total: u64 := 0;
    if |entries| > limits.maxFiles {
      findings := [ExcessiveFileCount];
    }
    ScanBegins(limits, key, entries);
    for i := 0 to |entries|
      invariant Scanned(limits, key, entries, i, findings, exactNames, normalizedNames, total)
    {
      ScanKnows(limits, key, entries, i, findings, exactNames, normalizedNames, total);
      var name := entries[i].name;
      var k := key(name);
      var previous := if k in normalizedNames then Some(normalizedNames[k]) else None;
      var found := EntryFindings(entries, limits, key, i, name in exactNames, previous, total);
      ScanGoesOn(limits, key, entries, i, findings, exactNames, normalizedNames, total, found);
      findings := findings + found;
      exactNames := exactNames + {name};
      normalizedNames := normalizedNames[k := name];
      var sum := CheckedAdd(total, entries[i].size);
      if sum.Some? {
        total := sum.value;
      }
    }
    ScanEnds(limits, key, entries, findings, exactNames, normalizedNames, total);
    if total > limits.maxTotalUnpackedBytes {
      findings := findings + [ExcessiveTotalSize];
    }
  }

  lemma {:induction false} SameOrder(entries: seq<ArchiveEntry>, a: seq<Hazard>, b: seq<Hazard>)
    requires Ordered(entries, a) && Ordered(entries, b)
    requires forall h :: h in a <==> h in b
    ensures a == b
  {
    assert a != [] ==> a[0] in a;
    assert b != [] ==> b[0] in b;
    if a == [] {
    } else {
      assert a[0] in b && b[0] in a;
      assert a[0] == b[0];
      forall h ensures h in a[1..] <==> h in b[1..] {
        assert h in a <==> h == a[0] || h in a[1..];
        assert h in b <==> h == b[0] || h in b[1..];
      }
      SameOrder(entries, a[1..], b[1..]);
    }
  }

  /** What holds of the entries leaves one possible list of findings. */
  lemma FindingsAreDetermined(limits: ArchiveLimits, key: CollisionKey, entries: seq<ArchiveEntry>,
                              a: seq<Hazard>, b: seq<Hazard>)
    requires Exact(limits, key, entries, a) && Ordered(entries, a)
    requires Exact(limits, key, entries, b) && Ordered(entries, b)
    ensures a == b
  {
    forall h ensures h in a <==> h in b {
      assert h in a <==> Holds(limits, key, entries, h);
    }
    SameOrder(entries, a, b);
  }

  // ----- the two limit checkers agree

  lemma {:induction false} TotalSizeOfPrefix(entries: seq<ArchiveEntry>, n: nat)
    requires n < |entries|
    ensures TotalSize(entries[..n + 1]) == TotalSize(entries[..n]) + entries[n].size
  {
    if n == 0 {
    } else {
      TotalSizeOfPrefix(entries[1..], n - 1);
      assert entries[..n + 1][1..] == entries[1..][..n];
      assert entries[..n][1..] == entries[1..][..n - 1];
    }
  }

  lemma {:induction false} TotalSizeGrows(entries: seq<ArchiveEntry>, n: nat)
    requires n <= |entries|
    ensures TotalSize(entries[..n]) <= TotalSize(entries)
    decreases |entries| - n
  {
    if n < |entries| {
      TotalSizeOfPrefix(entries, n);
      TotalSizeGrows(entries, n + 1);
    } else {
      assert entries[..n] == entries;
    }
  }

  /** Until something overflows, the skipping total is the true total. */
  lemma {:induction false} SkippingTotalIsTrueTotal(entries: seq<ArchiveEntry>, n: nat)
    requires n <= |entries|
    ensures SkippingTotal(entries, n) <= TotalSize(entries[..n])
    ensures (forall i :: 0 <= i < n ==> !OverflowsAt(entries, i)) ==>
      SkippingTotal(entries, n) == TotalSize(entries[..n])
  {
    if n == 0 {
    } else {
      SkippingTotalIsTrueTotal(entries, n - 1);
      TotalSizeOfPrefix(entries, n - 1);
      assert (forall i :: 0 <= i < n ==> !OverflowsAt(entries, i)) ==> !OverflowsAt(entries, n - 1);
    }
  }

  /** None of the five findings that mirror a `LimitTracker` limit. */
  predicate NoLimitHazard(found: seq<Hazard>) {
    forall h :: h in found ==>
      && !h.ExcessiveFileCount? && !h.ExcessiveTotalSize?
      && !h.ExcessiveEntrySize? && !h.ExcessiveCompressionRatio? && !h.MalformedSizeOverflow?
  }

  lemma NoLimitHazardMeaning(limits: ArchiveLimits, key: CollisionKey, entries: seq<ArchiveEntry>, found: seq<Hazard>)
    requires Exact(limits, key, entries, found)
    ensures NoLimitHazard(found) <==>
      && |entries| <= limits.maxFiles
      && SkippingTotal(entries, |entries|) <= limits.maxTotalUnpackedBytes
      && (forall i :: 0 <= i < |entries| ==> !OverflowsAt(entries, i))
      && (forall e :: e in entries ==> SizesWithinLimits(limits, e))
  {
    assert ExcessiveFileCount in found <==> |entries| > limits.maxFiles;
    assert ExcessiveTotalSize in found <==> SkippingTotal(entries, |entries|) > limits.maxTotalUnpackedBytes;
    forall i | 0 <= i < |entries|
      ensures NoLimitHazard(found) ==> SizesWithinLimits(limits, entries[i]) && !OverflowsAt(entries, i)
    {
      assert ExcessiveEntrySize(i) in found <==> Holds(limits, key, entries, ExcessiveEntrySize(i));
      assert ExcessiveCompressionRatio(i) in found <==> Holds(limits, key, entries, ExcessiveCompressionRatio(i));
      assert MalformedSizeOverflow(i) in found <==> Holds(limits, key, entries, MalformedSizeOverflow(i));
    }
    if h :| h in found && (h.ExcessiveEntrySize? || h.ExcessiveCompressionRatio? || h.MalformedSizeOverflow?) {
      assert Holds(limits, key, entries, h) && entries[h.index] in entries;
    }
  }

  /** A true total that fits leaves no room for an overflow on the way. */
  lemma NoOverflowBelowTotal(entries: seq<ArchiveEntry>, i: nat)
    requires i < |entries| && TotalSize(entries) <= U64_MAX
    ensures !OverflowsAt(entries, i)
  {
    SkippingTotalIsTrueTotal(entries, i);
    TotalSizeOfPrefix(entries, i);
    TotalSizeGrows(entries, i + 1);
  }

  /** The sizes add up without overflow exactly when no size is reported to overflow. */
  lemma NoOverflowMeansTrueTotal(entries: seq<ArchiveEntry>)
    ensures TotalSize(entries) <= U64_MAX ==> forall i :: 0 <= i < |entries| ==> !OverflowsAt(entries, i)
    ensures (forall i :: 0 <= i < |entries| ==> !OverflowsAt(entries, i)) ==>
      SkippingTotal(entries, |entries|) == TotalSize(entries)
  {
    if TotalSize(entries) <= U64_MAX {
      forall i | 0 <= i < |entries| ensures !OverflowsAt(entries, i) {
        NoOverflowBelowTotal(entries, i);
      }
    }
    SkippingTotalIsTrueTotal(entries, |entries|);
    assert entries[..|entries|] == entries;
  }

  /**
    The streaming tracker, which stops at its first failure, accepts a list of
    entries exactly when the hazard scan, which carries on past a 64-bit
    overflow, reports no limit finding (and no entry is too deep, a limit the
    scan does not look at).
   */
  lemma LimitCheckersAgree(limits: ArchiveLimits, key: CollisionKey, entries: seq<ArchiveEntry>, found: seq<Hazard>)
    requires Exact(limits, key, entries, found)
    ensures RecordedAll(limits, NO_COUNTS, entries).1.None? <==>
      NoLimitHazard(found) && forall e :: e in entries ==> CheckDepth(limits, e.name)
  {
    TrackerAcceptsExactly(limits, NO_COUNTS, entries);
    NoLimitHazardMeaning(limits, key, entries, found);
    NoOverflowMeansTrueTotal(entries);
  }

  // ----- collision detection is exact

  lemma {:induction false} LatestIsRemembered(key: CollisionKey, entries: seq<ArchiveEntry>, n: nat, i: nat)
    requires i < n <= |entries|
    ensures LatestWithKey(key, entries, n, key(entries[i].name)).Some?
    ensures exists j :: i <= j < n && key(entries[j].name) == key(entries[i].name)
                        && LatestWithKey(key, entries, n, key(entries[i].name)) == Some(entries[j].name)
  {
    if key(entries[n - 1].name) == key(entries[i].name) {
    } else {
      LatestIsRemembered(key, entries, n - 1, i);
    }
  }

  lemma {:induction false} LatestIsEarlier(key: CollisionKey, entries: seq<ArchiveEntry>, n: nat, k: Name)
    requires n <= |entries| && LatestWithKey(key, entries, n, k).Some?
    ensures exists j :: 0 <= j < n && key(entries[j].name) == k
  {
    if key(entries[n - 1].name) == k {
    } else {
      LatestIsEarlier(key, entries, n - 1, k);
    }
  }

  predicate NoCollisionHazard(found: seq<Hazard>) {
    forall h :: h in found ==> !h.OverwritingEntry? && !h.CaseUnicodeCollision?
  }

  predicate KeysDistinct(key: CollisionKey, entries: seq<ArchiveEntry>) {
    forall i, j :: 0 <= i < j < |entries| ==> key(entries[i].name) != key(entries[j].name)
  }

  lemma NoCollisionHazardMeaning(limits: ArchiveLimits, key: CollisionKey, entries: seq<ArchiveEntry>,
                                 found: seq<Hazard>)
    requires Exact(limits, key, entries, found)
    ensures NoCollisionHazard(found) <==>
      forall i :: 0 <= i < |entries| ==> !RepeatsAt(entries, i) && !CollidesAt(key, entries, i)
  {
    forall i | 0 <= i < |entries|
      ensures NoCollisionHazard(found) ==> !RepeatsAt(entries, i) && !CollidesAt(key, entries, i)
    {
      assert OverwritingEntry(i) in found <==> Holds(limits, key, entries, OverwritingEntry(i));
      assert CaseUnicodeCollision(i) in found <==> Holds(limits, key, entries, CaseUnicodeCollision(i));
    }
    if h :| h in found && (h.OverwritingEntry? || h.CaseUnicodeCollision?) {
      assert RepeatsAt(entries, h.index) || CollidesAt(key, entries, h.index);
    }
  }

  /**
    There is neither an overwriting nor a collision finding exactly when the keys
    of all entries differ, although only the latest name of each key is kept.
   */
  lemma CollisionDetectionIsExact(limits: ArchiveLimits, key: CollisionKey, entries: seq<ArchiveEntry>,
                                  found: seq<Hazard>)
    requires Exact(limits, key, entries, found)
    ensures NoCollisionHazard(found) <==> KeysDistinct(key, entries)
  {
    NoCollisionHazardMeaning(limits, key, entries, found);
    if KeysDistinct(key, entries) {
      forall i | 0 <= i < |entries|
        ensures !CollidesAt(key, entries, i)
      {
        if CollidesAt(key, entries, i) {
          LatestIsEarlier(key, entries, i, key(entries[i].name));
        }
      }
    } else {
      var i, j :| 0 <= i < j < |entries| && key(entries[i].name) == key(entries[j].name);
      LatestIsRemembered(key, entries, j, i);
      assert RepeatsAt(entries, j) || CollidesAt(key, entries, j);
    }
  }
}
