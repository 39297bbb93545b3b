/**
  What the payload walk reaches: every plain file of an archive is extracted and
  walked, in order, until the byte budget of the archive is spent.
 */
module PayloadCompleteness {
  import opened Common
  import opened Limits
  import opened PayloadWalk

  // ----- one archive

  /** What is left of an entry that ends the loop: the byte budget of the archive is spent. */
  function BudgetIssue(sha: Digest, entry: ArchiveEntry): Outcome {
    Outcome([], [ArchiveIssue(LimitExceeded(MaxTotalUnpackedBytes), sha, FromEntry(sha, entry.name))], [])
  }

  /**
    What one entry leaves when the loop goes on after it: a plain file is walked,
    or its failed extraction is one issue; any other entry leaves nothing.
   */
  predicate Leaves(w: Walk, path: seq<Digest>, bytes: Bytes, kind: Kind, sha: Digest, depth: nat,
                   e: ArchiveEntry, o: Outcome)
    requires depth < w.maxDepth
  {
    if e.entryType == File && !e.isDir && !e.isSymlink && !e.isEncrypted then
      match w.world.extract(bytes, kind, e.name)
      case Ok(payload) =>
        |payload| <= U64_MAX &&
        o == WalkSpec(w, path, payload, w.world.classify(payload), FromEntry(sha, e.name),
                      w.world.digest(payload), |payload|, depth + 1)
      case Err(error) => o == Outcome([], [ArchiveIssue(error, sha, FromEntry(sha, e.name))], [])
    else o == NOTHING
  }

  /** The bytes extracted from one entry. */
  function ExtractedBytes(w: Walk, bytes: Bytes, kind: Kind, e: ArchiveEntry): nat {
    var extracted := w.world.extract(bytes, kind, e.name);
    if e.entryType == File && !e.isDir && !e.isSymlink && !e.isEncrypted && extracted.Ok? then |extracted.value| else 0
  }

  function AllExtractedBytes(w: Walk, bytes: Bytes, kind: Kind, entries: seq<ArchiveEntry>): nat {
    if entries == [] then 0
    else ExtractedBytes(w, bytes, kind, entries[0]) + AllExtractedBytes(w, bytes, kind, entries[1..])
  }

  function JoinedAll(parts: seq<Outcome>): Outcome {
    if parts == [] then NOTHING else Joined(parts[0], JoinedAll(parts[1..]))
  }

  /**
    The outcome is that of the entries one by one: of all of them if the budget
    `left` lasts, and otherwise of those before the first one that exceeds it,
    which leaves one issue.
   */
  predicate IsComplete(w: Walk, path: seq<Digest>, bytes: Bytes, kind: Kind, sha: Digest, depth: nat,
                       entries: seq<ArchiveEntry>, left: int, o: Outcome, parts: seq<Outcome>)
    requires depth < w.maxDepth
  {
    && |parts| <= |entries|
    && (forall k :: 0 <= k < |parts| ==> Leaves(w, path, bytes, kind, sha, depth, entries[k], parts[k]))
    && AllExtractedBytes(w, bytes, kind, entries[..|parts|]) <= left
    && if |parts| == |entries| then o == JoinedAll(parts)
       else
         && o == Joined(JoinedAll(parts), BudgetIssue(sha, entries[|parts|]))
         && AllExtractedBytes(w, bytes, kind, entries[..|parts| + 1]) > left
  }

  lemma JoinedAssociates(a: Outcome, b: Outcome, c: Outcome)
    ensures Joined(a, Joined(b, c)) == Joined(Joined(a, b), c)
  {
    Regroup(a.nodes, b.nodes, c.nodes);
    Regroup(a.issues, b.issues, c.issues);
    Regroup(a.visits, b.visits, c.visits);
  }

  lemma JoinedNothing(a: Outcome)
    ensures Joined(a, NOTHING) == a && Joined(NOTHING, a) == a
  {
    assert a.nodes + [] == a.nodes && a.issues + [] == a.issues && a.visits + [] == a.visits;
    assert [] + a.nodes == a.nodes && [] + a.issues == a.issues && [] + a.visits == a.visits;
  }

  /** An entry that fits leaves its own outcome and the rest of the budget; one that does not fit ends the loop. */
  predicate StepLeaves(step: Stepper, w: Walk, path: seq<Digest>, bytes: Bytes, kind: Kind, sha: Digest, depth: nat,
                       e: ArchiveEntry, used: u64)
    requires depth < w.maxDepth
  {
    var (first, next) := step(e, used);
    var size := ExtractedBytes(w, bytes, kind, e);
    if used + size <= w.limits.maxTotalUnpackedBytes then
      Leaves(w, path, bytes, kind, sha, depth, e, first) && next == Some(used + size)
    else first == BudgetIssue(sha, e) && next == None
  }

  lemma EntryLeaves(w: Walk, path: seq<Digest>, bytes: Bytes, kind: Kind, sha: Digest, depth: nat,
                    e: ArchiveEntry, used: u64)
    requires depth < w.maxDepth && used <= w.limits.maxTotalUnpackedBytes
    ensures StepLeaves(EntryStepper(w, path, bytes, kind, sha, depth), w, path, bytes, kind, sha, depth, e, used)
  {
  }

  lemma CompleteWithNext(w: Walk, path: seq<Digest>, bytes: Bytes, kind: Kind, sha: Digest, depth: nat,
                         entries: seq<ArchiveEntry>, left: int, first: Outcome, o: Outcome, parts: seq<Outcome>)
    requires depth < w.maxDepth && entries != []
    requires Leaves(w, path, bytes, kind, sha, depth, entries[0], first)
    requires IsComplete(w, path, bytes, kind, sha, depth, entries[1..],
                        left - ExtractedBytes(w, bytes, kind, entries[0]), o, parts)
    ensures IsComplete(w, path, bytes, kind, sha, depth, entries, left, Joined(first, o), [first] + parts)
  {
    var all, n := [first] + parts, |parts|;
    assert all[1..] == parts;
    assert entries[..n + 1][1..] == entries[1..][..n];
    forall k | 0 <= k < |all| ensures Leaves(w, path, bytes, kind, sha, depth, entries[k], all[k]) {
      if k > 0 {
        assert entries[k] == entries[1..][k - 1] && all[k] == parts[k - 1];
      }
    }
    if n < |entries| - 1 {
      assert entries[..n + 2][1..] == entries[1..][..n + 1];
      JoinedAssociates(first, JoinedAll(parts), BudgetIssue(sha, entries[1..][n]));
    }
  }

  lemma RunsNext(step: Stepper, entries: seq<ArchiveEntry>, used: u64)
    requires entries != []
    ensures var (first, next) := step(entries[0], used);
      RunEntries(step, entries, used)
      == Joined(first, if next.None? then NOTHING else RunEntries(step, entries[1..], next.value))
  {
  }

  /** The first entry already exceeds the budget. */
  lemma CompleteAtOnce(w: Walk, path: seq<Digest>, bytes: Bytes, kind: Kind, sha: Digest, depth: nat,
                       entries: seq<ArchiveEntry>, left: int)
    requires depth < w.maxDepth && entries != [] && 0 <= left < ExtractedBytes(w, bytes, kind, entries[0])
    ensures IsComplete(w, path, bytes, kind, sha, depth, entries, left, BudgetIssue(sha, entries[0]), [])
  {
    assert entries[..1][1..] == [];
    JoinedNothing(BudgetIssue(sha, entries[0]));
  }

  lemma {:induction false} RunIsComplete(step: Stepper, w: Walk, path: seq<Digest>, bytes: Bytes, kind: Kind,
                                         sha: Digest, depth: nat, entries: seq<ArchiveEntry>, used: u64)
    returns (parts: seq<Outcome>)
    requires depth < w.maxDepth && used <= w.limits.maxTotalUnpackedBytes
    requires forall e, u: u64 :: u <= w.limits.maxTotalUnpackedBytes ==>
      StepLeaves(step, w, path, bytes, kind, sha, depth, e, u)
    ensures IsComplete(w, path, bytes, kind, sha, depth, entries, w.limits.maxTotalUnpackedBytes - used,
                       RunEntries(step, entries, used), parts)
    decreases |entries|
  {
    if entries == [] {
      parts := [];
    } else {
      var (first, next) := step(entries[0], used);
      assert StepLeaves(step, w, path, bytes, kind, sha, depth, entries[0], used);
      RunsNext(step, entries, used);
      if next.None? {
        parts := [];
        CompleteAtOnce(w, path, bytes, kind, sha, depth, entries, w.limits.maxTotalUnpackedBytes - used);
        JoinedNothing(first);
      } else {
        var more := RunIsComplete(step, w, path, bytes, kind, sha, depth, entries[1..], next.value);
        parts := [first] + more;
        CompleteWithNext(w, path, bytes, kind, sha, depth, entries, w.limits.maxTotalUnpackedBytes - used,
                         first, RunEntries(step, entries[1..], next.value), more);
      }
    }
  }

  /**
    Completeness of one archive: every listed entry up to the first one that passes
    the byte budget has left its outcome, in order, and nothing else has.
   */
  lemma ExpansionIsComplete(w: Walk, path: seq<Digest>, bytes: Bytes, kind: Kind, sha: Digest,
                            depth: nat, entries: seq<ArchiveEntry>, used: u64)
    returns (parts: seq<Outcome>)
    requires depth < w.maxDepth && used <= w.limits.maxTotalUnpackedBytes
    ensures IsComplete(w, path, bytes, kind, sha, depth, entries, w.limits.maxTotalUnpackedBytes - used,
                       RunEntries(EntryStepper(w, path, bytes, kind, sha, depth), entries, used), parts)
  {
    var step := EntryStepper(w, path, bytes, kind, sha, depth);
    forall e, u: u64 | u <= w.limits.maxTotalUnpackedBytes
      ensures StepLeaves(step, w, path, bytes, kind, sha, depth, e, u)
    {
      EntryLeaves(w, path, bytes, kind, sha, depth, e, u);
    }
    parts := RunIsComplete(step, w, path, bytes, kind, sha, depth, entries, used);
  }

  /** A node without the nodes below it. */
  function Bare(n: Node): Node {
    n.(contained := [])
  }

  function Bares(nodes: seq<Node>): seq<Node> {
    if nodes == [] then [] else [Bare(nodes[0])] + Bares(nodes[1..])
  }

  /** One node for each plain file that can be extracted, in order, with digest, kind, size and name of its payload. */
  function ChildNodes(w: Walk, bytes: Bytes, kind: Kind, sha: Digest, entries: seq<ArchiveEntry>): seq<Node>
    requires AllExtractedBytes(w, bytes, kind, entries) <= U64_MAX
  {
    if entries == [] then []
    else
      var e := entries[0];
      var extracted := w.world.extract(bytes, kind, e.name);
      (if e.entryType == File && !e.isDir && !e.isSymlink && !e.isEncrypted && extracted.Ok? then
         var payload := extracted.value;
         [Node(w.world.digest(payload), w.world.classify(payload), |payload|, FromEntry(sha, e.name), [])]
       else [])
      + ChildNodes(w, bytes, kind, sha, entries[1..])
  }

  lemma {:induction false} BaresAppend(a: seq<Node>, b: seq<Node>)
    ensures Bares(a + b) == Bares(a) + Bares(b)
  {
    if a == [] {
      assert a + b == b;
    } else {
      BaresAppend(a[1..], b);
      assert (a + b)[0] == a[0] && (a + b)[1..] == a[1..] + b;
      Regroup([Bare(a[0])], Bares(a[1..]), Bares(b));
    }
  }

  lemma WalkedNode(w: Walk, path: seq<Digest>, bytes: Bytes, kind: Kind, origin: Origin, sha: Digest, size: u64,
                   depth: nat)
    ensures Bares(WalkSpec(w, path, bytes, kind, origin, sha, size, depth).nodes) == [Node(sha, kind, size, origin, [])]
  {
    var nodes := WalkSpec(w, path, bytes, kind, origin, sha, size, depth).nodes;
    assert nodes[1..] == [];
  }

  lemma {:induction false} PartsHaveTheChildren(w: Walk, path: seq<Digest>, bytes: Bytes, kind: Kind, sha: Digest,
                                                depth: nat, entries: seq<ArchiveEntry>, parts: seq<Outcome>)
    requires depth < w.maxDepth && |parts| == |entries|
    requires forall k :: 0 <= k < |parts| ==> Leaves(w, path, bytes, kind, sha, depth, entries[k], parts[k])
    requires AllExtractedBytes(w, bytes, kind, entries) <= U64_MAX
    ensures Bares(JoinedAll(parts).nodes) == ChildNodes(w, bytes, kind, sha, entries)
  {
    if parts == [] {
    } else {
      PartsHaveTheChildren(w, path, bytes, kind, sha, depth, entries[1..], parts[1..]);
      BaresAppend(parts[0].nodes, JoinedAll(parts[1..]).nodes);
      var e := entries[0];
      var extracted := w.world.extract(bytes, kind, e.name);
      if e.entryType == File && !e.isDir && !e.isSymlink && !e.isEncrypted && extracted.Ok? {
        var payload := extracted.value;
        WalkedNode(w, path, payload, w.world.classify(payload), FromEntry(sha, e.name), w.world.digest(payload),
                   |payload|, depth + 1);
      }
    }
  }

  // ----- one node

  /** An archive's listing is accepted exactly when the decoder gives it and its metadata is within the limits. */
  lemma ListingIsAcceptedExactly(w: Walk, bytes: Bytes, kind: Kind, entries: seq<ArchiveEntry>)
    ensures ListedEntries(w, bytes, kind) == Ok(entries) <==>
      && w.world.decode(bytes, kind) == Ok(entries)
      && |entries| <= w.limits.maxFiles && TotalSize(entries) <= w.limits.maxTotalUnpackedBytes
      && forall e :: e in entries ==> EntryWithinLimits(w.limits, e)
    ensures w.world.decode(bytes, kind).Err? ==> ListedEntries(w, bytes, kind) == w.world.decode(bytes, kind)
    ensures ListedEntries(w, bytes, kind).Err? && w.world.decode(bytes, kind).Ok? ==>
      ListedEntries(w, bytes, kind).error.LimitExceeded?
  {
    if w.world.decode(bytes, kind).Ok? {
      TrackerAcceptsExactly(w.limits, NO_COUNTS, w.world.decode(bytes, kind).value);
    }
  }

  predicate IsKnownArchive(kind: Kind) {
    kind == Zip || kind == Tar || kind == Gzip || kind == Xz || kind == Bzip2 || kind == Zstd
  }

  /** A walked node that is not expanded: itself, one visit, and the issues given. */
  function Unexpanded(bytes: Bytes, kind: Kind, origin: Origin, sha: Digest, size: u64, depth: nat,
                      status: Status, issues: seq<Issue>): Outcome
  {
    Outcome([Node(sha, kind, size, origin, [])], issues, [Visit(sha, kind, size, origin, status, depth, bytes)])
  }

  /** What stays unexpanded: a digest met on the way down, any kind but the six archives, and what is too deep. */
  lemma WalkStopsExactly(w: Walk, path: seq<Digest>, bytes: Bytes, kind: Kind, origin: Origin, sha: Digest, size: u64,
                         depth: nat)
    ensures var o := WalkSpec(w, path, bytes, kind, origin, sha, size, depth);
      if sha in path then o == Unexpanded(bytes, kind, origin, sha, size, depth, Leaf, [Cycle(sha, origin)])
      else if !IsKnownArchive(kind) then o == Unexpanded(bytes, kind, origin, sha, size, depth, Leaf, [])
      else if depth >= w.maxDepth then
        o == Unexpanded(bytes, kind, origin, sha, size, depth, Truncated, [DepthTruncated(sha, origin, w.maxDepth)])
      else o.visits != [] && o.visits[0] == Visit(sha, kind, size, origin, Expanded, depth, bytes)
  {
  }

  /**
    An archive that is expanded: if its listing is refused, that is one issue and
    the node has no children; otherwise the listed entries leave their outcomes one
    by one, and the children are the payloads of the plain files, in order.
   */
  lemma ExpandedNodeIsComplete(w: Walk, path: seq<Digest>, bytes: Bytes, kind: Kind, origin: Origin, sha: Digest,
                               size: u64, depth: nat)
    returns (inside: Outcome, parts: seq<Outcome>)
    requires sha !in path && IsKnownArchive(kind) && depth < w.maxDepth
    ensures WalkSpec(w, path, bytes, kind, origin, sha, size, depth) ==
      Outcome([Node(sha, kind, size, origin, inside.nodes)], inside.issues,
              [Visit(sha, kind, size, origin, Expanded, depth, bytes)] + inside.visits)
    ensures match ListedEntries(w, bytes, kind)
      case Err(error) => inside == Outcome([], [ArchiveIssue(error, sha, origin)], [])
      case Ok(entries) =>
        && IsComplete(w, path + [sha], bytes, kind, sha, depth, entries, w.limits.maxTotalUnpackedBytes, inside, parts)
        && Bares(inside.nodes) == ChildNodes(w, bytes, kind, sha, entries[..|parts|])
  {
    inside, parts := ExpandSpec(w, path + [sha], bytes, kind, sha, origin, depth), [];
    var listed := ListedEntries(w, bytes, kind);
    if listed.Ok? {
      parts := ExpansionIsComplete(w, path + [sha], bytes, kind, sha, depth, listed.value, 0);
      PartsHaveTheChildren(w, path + [sha], bytes, kind, sha, depth, listed.value[..|parts|], parts);
      assert inside.nodes == JoinedAll(parts).nodes by {
        assert JoinedAll(parts).nodes + [] == JoinedAll(parts).nodes;
      }
    }
  }
}
