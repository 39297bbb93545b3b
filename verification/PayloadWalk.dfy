/**
  The recursive payload walk of `payload.rs`.  Decoders, the digest and the
  classifier are functions of the bytes; everything the walk itself does (cycle
  and depth checks, visiting, the ancestor stack, the byte budget) is modelled.
 */
module PayloadWalk {
  import opened Common
  import opened Limits

  type Bytes = seq<byte>
  type Digest = seq<byte>

  /** The artifact types the walk tells apart. */
  datatype Kind = Zip | Tar | Gzip | Xz | Bzip2 | Zstd | NotArchive(tag: nat)

  predicate IsArchive(kind: Kind) {
    !kind.NotArchive?
  }

  /** The libraries the walk calls. */
  datatype World = World(
    digest: Bytes -> Digest,
    classify: Bytes -> Kind,
    /** The entries a decoder finds, before any limit is applied. */
    decode: (Bytes, Kind) -> Result<seq<ArchiveEntry>, ArchiveError>,
    extract: (Bytes, Kind, seq<byte>) -> Result<Bytes, ArchiveError>)

  datatype Origin = Root | FromEntry(parent: Digest, entryName: seq<byte>)

  datatype Node = Node(sha: Digest, kind: Kind, size: u64, origin: Origin, contained: seq<Node>)

  datatype Issue =
    | Cycle(sha: Digest, origin: Origin)
    | DepthTruncated(sha: Digest, origin: Origin, maxDepth: u32)
    | ArchiveIssue(error: ArchiveError, sha: Digest, origin: Origin)

  datatype Status = Leaf | Expanded | Truncated

  /** One call of the visitor: the node's view and its bytes. */
  datatype Visit = Visit(sha: Digest, kind: Kind, size: u64, origin: Origin, status: Status, depth: nat, bytes: Bytes)

  /** The parameters that stay the same during a walk. */
  datatype Walk = Walk(world: World, limits: ArchiveLimits, maxDepth: u32)

  /** What a subwalk returns and appends to the two logs. */
  datatype Outcome = Outcome(nodes: seq<Node>, issues: seq<Issue>, visits: seq<Visit>)

  // ----- specification

  /** `ArchiveReader::entries`: the decoder's entries, if the limit tracker takes them all. */
  function ListedEntries(w: Walk, bytes: Bytes, kind: Kind): Result<seq<ArchiveEntry>, ArchiveError> {
    match w.world.decode(bytes, kind)
    case Err(e) => Err(e)
    case Ok(entries) =>
      var broken := RecordedAll(w.limits, NO_COUNTS, entries).1;
      if broken.Some? then Err(LimitExceeded(broken.value)) else Ok(entries)
  }

  /** Directories, links, special files and encrypted members are not payloads. */
  predicate IsPayload(e: ArchiveEntry) {
    !e.isDir && e.entryType == File && !e.isSymlink && !e.isEncrypted
  }

  function StatusOf(w: Walk, kind: Kind, depth: nat): Status {
    if !IsArchive(kind) then Leaf else if depth < w.maxDepth then Expanded else Truncated
  }

  function WalkSpec(w: Walk, ancestors: seq<Digest>, bytes: Bytes, kind: Kind, origin: Origin, sha: Digest, size: u64,
                    depth: nat)
    : (r: Outcome)
    ensures |r.nodes| == 1
    decreases w.maxDepth - depth, 1, 0
  {
    if sha in ancestors then
      Outcome([Node(sha, kind, size, origin, [])], [Cycle(sha, origin)],
              [Visit(sha, kind, size, origin, Leaf, depth, bytes)])
    else
      var status := StatusOf(w, kind, depth);
      var visit := Visit(sha, kind, size, origin, status, depth, bytes);
      if status != Expanded then
        Outcome([Node(sha, kind, size, origin, [])],
                if status == Truncated then [DepthTruncated(sha, origin, w.maxDepth)] else [],
                [visit])
      else
        var inside := ExpandSpec(w, ancestors + [sha], bytes, kind, sha, origin, depth);
        Outcome([Node(sha, kind, size, origin, inside.nodes)], inside.issues, [visit] + inside.visits)
  }

  function ExpandSpec(w: Walk, ancestors: seq<Digest>, bytes: Bytes, kind: Kind, sha: Digest, origin: Origin,
                      depth: nat): Outcome
    requires depth < w.maxDepth
    decreases w.maxDepth - depth, 0, 0
  {
    match ListedEntries(w, bytes, kind)
    case Err(e) => Outcome([], [ArchiveIssue(e, sha, origin)], [])
    case Ok(entries) => RunEntries(EntryStepper(w, ancestors, bytes, kind, sha, depth), entries, 0)
  }

  const NOTHING: Outcome := Outcome([], [], [])

  /**
    The loop body for one entry with `used` bytes of the archive's budget spent:
    what it appends, and the budget spent afterwards unless the loop ends here.
   */
  function EntrySpec(w: Walk, ancestors: seq<Digest>, bytes: Bytes, kind: Kind, sha: Digest, depth: nat,
                     entry: ArchiveEntry, used: u64)
    : (Outcome, Option<u64>)
    requires depth < w.maxDepth
    decreases w.maxDepth - depth - 1, 2, 0
  {
    if !IsPayload(entry) then (NOTHING, Some(used))
    else
      var from := FromEntry(sha, entry.name);
      match w.world.extract(bytes, kind, entry.name)
      case Err(e) => (Outcome([], [ArchiveIssue(e, sha, from)], []), Some(used))
      case Ok(payload) =>
        if used + |payload| > U64_MAX || used + |payload| > w.limits.maxTotalUnpackedBytes then
          (Outcome([], [ArchiveIssue(LimitExceeded(MaxTotalUnpackedBytes), sha, from)], []), None)
        else
          (WalkSpec(w, ancestors, payload, w.world.classify(payload), from,
                    w.world.digest(payload), |payload|, depth + 1),
           Some(used + |payload|))
  }

  /** What each entry of one archive does to the logs and the budget. */
  type Stepper = (ArchiveEntry, u64) -> (Outcome, Option<u64>)

  function EntryStepper(w: Walk, ancestors: seq<Digest>, bytes: Bytes, kind: Kind, sha: Digest, depth: nat): Stepper
    requires depth < w.maxDepth
    decreases w.maxDepth - depth - 1, 3
  {
    (entry: ArchiveEntry, used: u64) => EntrySpec(w, ancestors, bytes, kind, sha, depth, entry, used)
  }

  /** The loop over the entries. */
  function RunEntries(step: Stepper, entries: seq<ArchiveEntry>, used: u64): Outcome
    decreases |entries|
  {
    if entries == [] then NOTHING
    else
      var (first, next) := step(entries[0], used);
      Joined(first, if next.None? then NOTHING else RunEntries(step, entries[1..], next.value))
  }

  function Joined(a: Outcome, b: Outcome): Outcome {
    Outcome(a.nodes + b.nodes, a.issues + b.issues, a.visits + b.visits)
  }

  // ----- the walk

  /** `WalkEnv`: the stack and the two logs that the recursion mutates. */
  class WalkEnv {
    const walk: Walk
    var ancestors: seq<Digest>
    var issues: seq<Issue>
    var visits: seq<Visit>

    constructor (walk: Walk)
      ensures this.walk == walk && ancestors == [] && issues == [] && visits == []
    {
      this.walk := walk;
      ancestors, issues, visits := [], [], [];
    }

    /**
      `walk`: the ancestor stack is as long as the node is deep and is left as
      found; the outcome is appended to the logs.
     */
    method WalkNode(bytes: Bytes, kind: Kind, origin: Origin, sha: Digest, size: u64, depth: nat) returns (node: Node)
      requires depth <= walk.maxDepth && |ancestors| == depth
      modifies this
      ensures ancestors == old(ancestors) && |ancestors| == depth
      ensures var r := WalkSpec(walk, old(ancestors), bytes, kind, origin, sha, size, depth);
        [node] == r.nodes && issues == old(issues) + r.issues && visits == old(visits) + r.visits
      decreases walk.maxDepth - depth, 1
    {
      if sha in ancestors {
        issues := issues + [Cycle(sha, origin)];
        visits := visits + [Visit(sha, kind, size, origin, Leaf, depth, bytes)];
        return Node(sha, kind, size, origin, []);
      }
      var archive := IsArchive(kind);
      var canExpand := archive && depth < walk.maxDepth;
      var status := if !archive then Leaf else if canExpand then Expanded else Truncated;
      if archive && !canExpand {
        issues := issues + [DepthTruncated(sha, origin, walk.maxDepth)];
      }
      visits := visits + [Visit(sha, kind, size, origin, status, depth, bytes)];
      var contained: seq<Node> := [];
      if canExpand {
        ghost var before := ancestors;
        ancestors := ancestors + [sha];
        contained := Expand(bytes, kind, sha, origin, depth);
        ancestors := ancestors[..|ancestors| - 1];
        assert ancestors == before;
      }
      node := Node(sha, kind, size, origin, contained);
    }

    /** The body of the loop in `expand`; `stop` is its `break`. */
    method ExpandEntry(bytes: Bytes, kind: Kind, sha: Digest, depth: nat, entry: ArchiveEntry, used: u64)
      returns (children: seq<Node>, usedAfter: u64, stop: bool)
      requires depth < walk.maxDepth && |ancestors| == depth + 1
      modifies this
      ensures ancestors == old(ancestors)
      ensures var (r, next) := EntryStepper(walk, old(ancestors), bytes, kind, sha, depth)(entry, used);
        && children == r.nodes && issues == old(issues) + r.issues && visits == old(visits) + r.visits
        && next == if stop then None else Some(usedAfter)
      decreases walk.maxDepth - depth - 1, 2
    {
      children, usedAfter, stop := [], used, false;
      if !IsPayload(entry) {
        return;
      }
      var from := FromEntry(sha, entry.name);
      var sink := walk.world.extract(bytes, kind, entry.name);
      if sink.Err? {
        issues := issues + [ArchiveIssue(sink.error, sha, from)];
        return;
      }
      var payload := sink.value;
      if used + |payload| > U64_MAX || used + |payload| > walk.limits.maxTotalUnpackedBytes {
        issues := issues + [ArchiveIssue(LimitExceeded(MaxTotalUnpackedBytes), sha, from)];
        stop := true;
        return;
      }
      usedAfter := used + |payload|;
      var child :=
        WalkNode(payload, walk.world.classify(payload), from, walk.world.digest(payload), |payload|, depth + 1);
      children := [child];
    }

    /** `expand`. */
    method Expand(bytes: Bytes, kind: Kind, sha: Digest, origin: Origin, depth: nat) returns (contained: seq<Node>)
      requires depth < walk.maxDepth && |ancestors| == depth + 1
      modifies this
      ensures ancestors == old(ancestors)
      ensures var r := ExpandSpec(walk, old(ancestors), bytes, kind, sha, origin, depth);
        contained == r.nodes && issues == old(issues) + r.issues && visits == old(visits) + r.visits
      decreases walk.maxDepth - depth, 0
    {
      contained := [];
      var listed := ListedEntries(walk, bytes, kind);
      if listed.Err? {
        issues := issues + [ArchiveIssue(listed.error, sha, origin)];
        return;
      }
      contained := ExpandEntries(bytes, kind, sha, depth, listed.value);
    }

    method ExpandEntries(bytes: Bytes, kind: Kind, sha: Digest, depth: nat, entries: seq<ArchiveEntry>)
      returns (contained: seq<Node>)
      requires depth < walk.maxDepth && |ancestors| == depth + 1
      modifies this
      ensures ancestors == old(ancestors)
      ensures var r := RunEntries(EntryStepper(walk, old(ancestors), bytes, kind, sha, depth), entries, 0);
        contained == r.nodes && issues == old(issues) + r.issues && visits == old(visits) + r.visits
      decreases walk.maxDepth - depth - 1, 3
    {
      contained := [];
      var used: u64 := 0;
      ghost var stack, step := ancestors, EntryStepper(walk, ancestors, bytes, kind, sha, depth);
      ghost var left := RunEntries(step, entries, 0);
      ghost var nodes, allIssues, allVisits := left.nodes, issues + left.issues, visits + left.visits;
      for i := 0 to |entries|
        invariant ancestors == stack && left == RunEntries(step, entries[i..], used)
        invariant contained + left.nodes == nodes
        invariant issues + left.issues == allIssues && visits + left.visits == allVisits
      {
        ghost var (first, next) := step(entries[i], used);
        RunStep(step, entries, i, used);
        left := if next.None? then NOTHING else RunEntries(step, entries[i + 1..], next.value);
        Regroup(contained, first.nodes, left.nodes);
        Regroup(issues, first.issues, left.issues);
        Regroup(visits, first.visits, left.visits);
        var children, usedAfter, stop := ExpandEntry(bytes, kind, sha, depth, entries[i], used);
        contained := contained + children;
        used := usedAfter;
        if stop {
          break;
        }
      }
    }
  }

  /** One turn of the loop over the entries. */
  lemma RunStep(step: Stepper, entries: seq<ArchiveEntry>, i: nat, used: u64)
    requires i < |entries|
    ensures var (first, next) := step(entries[i], used);
      RunEntries(step, entries[i..], used)
      == Joined(first, if next.None? then NOTHING else RunEntries(step, entries[i + 1..], next.value))
  {
    assert entries[i..][1..] == entries[i + 1..];
  }

  /** `walk_payloads`: a walk from the root with an empty stack. */
  function RootOutcome(w: Walk, bytes: Bytes, kind: Kind, size: u64): Outcome {
    WalkSpec(w, [], bytes, kind, Root, w.world.digest(bytes), size, 0)
  }

  method WalkPayloads(w: Walk, bytes: Bytes, kind: Kind) returns (node: Node, env: WalkEnv)
    requires |bytes| <= ISIZE_MAX
    ensures [node] == RootOutcome(w, bytes, kind, |bytes|).nodes
    ensures env.issues == RootOutcome(w, bytes, kind, |bytes|).issues
    ensures env.visits == RootOutcome(w, bytes, kind, |bytes|).visits
    ensures env.ancestors == []
  {
    env := new WalkEnv(w);
    node := env.WalkNode(bytes, kind, Root, w.world.digest(bytes), |bytes|, 0);
  }

  datatype PayloadError = CycleError(sha: Digest) | ArchiveFailure(error: ArchiveError)

  /** The error an issue aborts strict discovery with; truncation is not an error. */
  function ErrorOf(issue: Issue): Option<PayloadError> {
    match issue
    case Cycle(sha, _) => Some(CycleError(sha))
    case ArchiveIssue(error, _, _) => Some(ArchiveFailure(error))
    case DepthTruncated(_, _, _) => None
  }

  /** `discover_payloads`: the tree, unless some issue other than truncation was observed; the first one is returned. */
  method DiscoverPayloads(w: Walk, bytes: Bytes, kind: Kind) returns (r: Result<Node, PayloadError>)
    requires |bytes| <= ISIZE_MAX
    ensures var o := RootOutcome(w, bytes, kind, |bytes|);
      match r
      case Ok(node) => [node] == o.nodes && forall i :: 0 <= i < |o.issues| ==> o.issues[i].DepthTruncated?
      case Err(e) => exists i :: 0 <= i < |o.issues| && ErrorOf(o.issues[i]) == Some(e)
                                 && forall j :: 0 <= j < i ==> o.issues[j].DepthTruncated?
  {
    var node, env := WalkPayloads(w, bytes, kind);
    var issues := env.issues;
    for i := 0 to |issues|
      invariant forall j :: 0 <= j < i ==> issues[j].DepthTruncated?
    {
      var error := ErrorOf(issues[i]);
      if error.Some? {
        return Err(error.value);
      }
    }
    r := Ok(node);
  }
}
