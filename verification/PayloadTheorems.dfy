/** What every payload walk guarantees: visiting order, issues, stack discipline and size. */
module PayloadTheorems {
  import opened Common
  import opened Text
  import opened Limits
  import opened PayloadWalk

  // ----- the logs as functions of the returned tree

  /** The visitor's view of a call, without the bytes. */
  function View(v: Visit): Visit {
    v.(bytes := [])
  }

  function Views(visits: seq<Visit>): seq<Visit> {
    if visits == [] then [] else [View(visits[0])] + Views(visits[1..])
  }

  /** The expansion status of a tree node whose ancestors have the digests `path`. */
  function NodeStatus(w: Walk, path: seq<Digest>, n: Node, depth: nat): Status {
    if n.sha in path then Leaf else StatusOf(w, n.kind, depth)
  }

  function NodeVisit(w: Walk, path: seq<Digest>, n: Node, depth: nat): Visit {
    Visit(n.sha, n.kind, n.size, n.origin, NodeStatus(w, path, n, depth), depth, [])
  }

  /** Pre-order: each node before the nodes below it, siblings in order. */
  function TreeVisits(w: Walk, path: seq<Digest>, nodes: seq<Node>, depth: nat): seq<Visit>
    decreases nodes
  {
    if nodes == [] then []
    else
      [NodeVisit(w, path, nodes[0], depth)]
      + (TreeVisits(w, path + [nodes[0].sha], nodes[0].contained, depth + 1) + TreeVisits(w, path, nodes[1..], depth))
  }

  function NodeIssue(w: Walk, path: seq<Digest>, n: Node, depth: nat): seq<Issue> {
    if n.sha in path then [Cycle(n.sha, n.origin)]
    else if NodeStatus(w, path, n, depth) == Truncated then [DepthTruncated(n.sha, n.origin, w.maxDepth)]
    else []
  }

  /** The cycle and truncation issues of a tree, in pre-order. */
  function TreeIssues(w: Walk, path: seq<Digest>, nodes: seq<Node>, depth: nat): seq<Issue>
    decreases nodes
  {
    if nodes == [] then []
    else
      NodeIssue(w, path, nodes[0], depth)
      + (TreeIssues(w, path + [nodes[0].sha], nodes[0].contained, depth + 1) + TreeIssues(w, path, nodes[1..], depth))
  }

  function IsStructural(): Issue -> bool {
    (i: Issue) => !i.ArchiveIssue?
  }

  /** Only expanded nodes contain others, and a node names its container. */
  predicate WellFormedNode(w: Walk, path: seq<Digest>, n: Node, depth: nat) {
    && depth <= w.maxDepth
    && (n.contained != [] ==> NodeStatus(w, path, n, depth) == Expanded)
    && (forall c :: c in n.contained ==> c.origin.FromEntry? && c.origin.parent == n.sha)
  }

  predicate WellFormedTree(w: Walk, path: seq<Digest>, nodes: seq<Node>, depth: nat)
    decreases nodes
  {
    nodes == [] ||
    (WellFormedNode(w, path, nodes[0], depth)
     && WellFormedTree(w, path + [nodes[0].sha], nodes[0].contained, depth + 1)
     && WellFormedTree(w, path, nodes[1..], depth))
  }

  /** The bytes given to the visitor are those of the node: same digest and length. */
  predicate BytesMatch(w: Walk, v: Visit) {
    w.world.digest(v.bytes) == v.sha && |v.bytes| == v.size
  }

  /** The logs of an outcome say exactly what its trees say. */
  predicate Agrees(w: Walk, path: seq<Digest>, depth: nat, o: Outcome) {
    && Views(o.visits) == TreeVisits(w, path, o.nodes, depth)
    && Filter(o.issues, IsStructural()) == TreeIssues(w, path, o.nodes, depth)
    && WellFormedTree(w, path, o.nodes, depth)
    && forall v :: v in o.visits ==> BytesMatch(w, v)
  }

  // ----- joining outcomes

  /** Appending to the tail of `head + (below + tail)`. */
  lemma AppendAfter<T>(head: seq<T>, below: seq<T>, tail: seq<T>, more: seq<T>)
    ensures head + (below + (tail + more)) == (head + (below + tail)) + more
  {
  }

  lemma {:induction false} ViewsAppend(a: seq<Visit>, b: seq<Visit>)
    ensures Views(a + b) == Views(a) + Views(b)
  {
    if a == [] {
      assert a + b == b && Views(a) == [];
    } else {
      ViewsAppend(a[1..], b);
      assert (a + b)[1..] == a[1..] + b && (a + b)[0] == a[0];
      Regroup([View(a[0])], Views(a[1..]), Views(b));
    }
  }

  lemma {:induction false} TreeVisitsAppend(w: Walk, path: seq<Digest>, a: seq<Node>, b: seq<Node>, depth: nat)
    ensures TreeVisits(w, path, a + b, depth) == TreeVisits(w, path, a, depth) + TreeVisits(w, path, b, depth)
  {
    if a == [] {
      assert a + b == b;
    } else {
      TreeVisitsAppend(w, path, a[1..], b, depth);
      assert (a + b)[1..] == a[1..] + b && (a + b)[0] == a[0];
      AppendAfter([NodeVisit(w, path, a[0], depth)], TreeVisits(w, path + [a[0].sha], a[0].contained, depth + 1),
                  TreeVisits(w, path, a[1..], depth), TreeVisits(w, path, b, depth));
    }
  }

  lemma {:induction false} TreeIssuesAppend(w: Walk, path: seq<Digest>, a: seq<Node>, b: seq<Node>, depth: nat)
    ensures TreeIssues(w, path, a + b, depth) == TreeIssues(w, path, a, depth) + TreeIssues(w, path, b, depth)
  {
    if a == [] {
      assert a + b == b;
    } else {
      TreeIssuesAppend(w, path, a[1..], b, depth);
      assert (a + b)[1..] == a[1..] + b && (a + b)[0] == a[0];
      AppendAfter(NodeIssue(w, path, a[0], depth), TreeIssues(w, path + [a[0].sha], a[0].contained, depth + 1),
                  TreeIssues(w, path, a[1..], depth), TreeIssues(w, path, b, depth));
    }
  }

  lemma {:induction false} WellFormedAppend(w: Walk, path: seq<Digest>, a: seq<Node>, b: seq<Node>, depth: nat)
    requires WellFormedTree(w, path, a, depth) && WellFormedTree(w, path, b, depth)
    ensures WellFormedTree(w, path, a + b, depth)
  {
    if a == [] {
      assert a + b == b;
    } else {
      WellFormedAppend(w, path, a[1..], b, depth);
      assert (a + b)[1..] == a[1..] + b;
    }
  }

  lemma JoinedAgrees(w: Walk, path: seq<Digest>, depth: nat, a: Outcome, b: Outcome)
    requires Agrees(w, path, depth, a) && Agrees(w, path, depth, b)
    ensures Agrees(w, path, depth, Joined(a, b))
  {
    ViewsAppend(a.visits, b.visits);
    TreeVisitsAppend(w, path, a.nodes, b.nodes, depth);
    FilterAppend(a.issues, b.issues, IsStructural());
    TreeIssuesAppend(w, path, a.nodes, b.nodes, depth);
    WellFormedAppend(w, path, a.nodes, b.nodes, depth);
  }

  /** A property of single entries that survives joining holds of the whole loop. */
  lemma {:induction false} RunKeeps(step: Stepper, entries: seq<ArchiveEntry>, used: u64, p: Outcome -> bool)
    requires p(NOTHING)
    requires forall a, b :: p(a) && p(b) ==> p(Joined(a, b))
    requires forall e, u :: p(step(e, u).0)
    ensures p(RunEntries(step, entries, used))
    decreases |entries|
  {
    if entries == [] {
    } else {
      var (first, next) := step(entries[0], used);
      if next.Some? {
        RunKeeps(step, entries[1..], next.value, p);
      }
    }
  }

  // ----- agreement

  predicate FromContainer(sha: Digest, o: Outcome) {
    forall n :: n in o.nodes ==> n.origin.FromEntry? && n.origin.parent == sha
  }

  function ChildProperty(w: Walk, path: seq<Digest>, sha: Digest, depth: nat): Outcome -> bool {
    (o: Outcome) => Agrees(w, path, depth, o) && FromContainer(sha, o)
  }

  lemma ErrorAgrees(w: Walk, path: seq<Digest>, sha: Digest, depth: nat, issue: Issue)
    requires issue.ArchiveIssue?
    ensures ChildProperty(w, path, sha, depth)(Outcome([], [issue], []))
  {
    assert [issue][1..] == [];
    assert Filter([issue], IsStructural()) == [] + Filter([], IsStructural()) == [];
  }

  lemma NothingAgrees(w: Walk, path: seq<Digest>, sha: Digest, depth: nat)
    ensures ChildProperty(w, path, sha, depth)(NOTHING)
  {
  }

  /** A payload walked as a child names its container. */
  lemma {:induction false} ChildAgrees(w: Walk, path: seq<Digest>, sha: Digest, depth: nat, name: seq<byte>,
                                       payload: Bytes)
    requires depth < w.maxDepth && |payload| <= U64_MAX
    ensures ChildProperty(w, path, sha, depth + 1)(
              WalkSpec(w, path, payload, w.world.classify(payload), FromEntry(sha, name),
                       w.world.digest(payload), |payload|, depth + 1))
    decreases w.maxDepth - depth - 1, 2
  {
    WalkAgrees(w, path, payload, w.world.classify(payload), FromEntry(sha, name),
               w.world.digest(payload), |payload|, depth + 1);
  }

  lemma {:induction false} EntryAgrees(w: Walk, path: seq<Digest>, bytes: Bytes, kind: Kind, sha: Digest, depth: nat,
                                       entry: ArchiveEntry, used: u64)
    requires depth < w.maxDepth
    ensures ChildProperty(w, path, sha, depth + 1)(EntrySpec(w, path, bytes, kind, sha, depth, entry, used).0)
    decreases w.maxDepth - depth - 1, 3
  {
    var from, extracted := FromEntry(sha, entry.name), w.world.extract(bytes, kind, entry.name);
    if !IsPayload(entry) {
      NothingAgrees(w, path, sha, depth + 1);
    } else if extracted.Err? {
      ErrorAgrees(w, path, sha, depth + 1, ArchiveIssue(extracted.error, sha, from));
    } else if used + |extracted.value| > w.limits.maxTotalUnpackedBytes {
      ErrorAgrees(w, path, sha, depth + 1, ArchiveIssue(LimitExceeded(MaxTotalUnpackedBytes), sha, from));
    } else {
      ChildAgrees(w, path, sha, depth, entry.name, extracted.value);
    }
  }

  lemma {:induction false} ExpandAgrees(w: Walk, path: seq<Digest>, bytes: Bytes, kind: Kind, sha: Digest,
                                        origin: Origin, depth: nat)
    requires depth < w.maxDepth
    ensures ChildProperty(w, path, sha, depth + 1)(ExpandSpec(w, path, bytes, kind, sha, origin, depth))
    decreases w.maxDepth - depth, 0
  {
    var listed := ListedEntries(w, bytes, kind);
    if listed.Err? {
      ErrorAgrees(w, path, sha, depth + 1, ArchiveIssue(listed.error, sha, origin));
    } else {
      var p, step := ChildProperty(w, path, sha, depth + 1), EntryStepper(w, path, bytes, kind, sha, depth);
      forall a, b | p(a) && p(b)
        ensures p(Joined(a, b))
      {
        JoinedAgrees(w, path, depth + 1, a, b);
      }
      forall e, u
        ensures p(step(e, u).0)
      {
        EntryAgrees(w, path, bytes, kind, sha, depth, e, u);
      }
      assert p(NOTHING);
      RunKeeps(step, listed.value, 0, p);
    }
  }

  lemma SingleTree(w: Walk, path: seq<Digest>, n: Node, depth: nat)
    ensures TreeVisits(w, path, [n], depth) ==
      [NodeVisit(w, path, n, depth)] + TreeVisits(w, path + [n.sha], n.contained, depth + 1)
    ensures TreeIssues(w, path, [n], depth) ==
      NodeIssue(w, path, n, depth) + TreeIssues(w, path + [n.sha], n.contained, depth + 1)
    ensures WellFormedTree(w, path, [n], depth) <==>
      WellFormedNode(w, path, n, depth) && WellFormedTree(w, path + [n.sha], n.contained, depth + 1)
  {
    assert [n][1..] == [];
  }

  lemma LeafAgrees(w: Walk, path: seq<Digest>, n: Node, depth: nat, visit: Visit)
    requires n.contained == [] && depth <= w.maxDepth
    requires View(visit) == NodeVisit(w, path, n, depth) && BytesMatch(w, visit)
    ensures Agrees(w, path, depth, Outcome([n], NodeIssue(w, path, n, depth), [visit]))
  {
    SingleTree(w, path, n, depth);
    assert [visit][1..] == [];
    FilterAll(NodeIssue(w, path, n, depth), IsStructural());
  }

  lemma InnerAgrees(w: Walk, path: seq<Digest>, n: Node, depth: nat, visit: Visit, inside: Outcome)
    requires n.contained == inside.nodes && depth <= w.maxDepth && NodeStatus(w, path, n, depth) == Expanded
    requires View(visit) == NodeVisit(w, path, n, depth) && BytesMatch(w, visit)
    requires Agrees(w, path + [n.sha], depth + 1, inside) && FromContainer(n.sha, inside)
    ensures Agrees(w, path, depth, Outcome([n], inside.issues, [visit] + inside.visits))
  {
    SingleTree(w, path, n, depth);
    assert ([visit] + inside.visits)[1..] == inside.visits;
    assert NodeIssue(w, path, n, depth) == [];
  }

  /** Every walk: pre-order visits with matching bytes, and exactly the issues its tree shows. */
  lemma {:induction false} WalkAgrees(w: Walk, path: seq<Digest>, bytes: Bytes, kind: Kind, origin: Origin, sha: Digest,
                                      size: u64, depth: nat)
    requires depth <= w.maxDepth
    requires w.world.digest(bytes) == sha && |bytes| == size
    ensures var r := WalkSpec(w, path, bytes, kind, origin, sha, size, depth);
      Agrees(w, path, depth, r) && r.nodes[0].origin == origin
    decreases w.maxDepth - depth, 1
  {
    var status := if sha in path then Leaf else StatusOf(w, kind, depth);
    var visit := Visit(sha, kind, size, origin, status, depth, bytes);
    if status != Expanded {
      LeafAgrees(w, path, Node(sha, kind, size, origin, []), depth, visit);
    } else {
      ExpandAgrees(w, path + [sha], bytes, kind, sha, origin, depth);
      var inside := ExpandSpec(w, path + [sha], bytes, kind, sha, origin, depth);
      InnerAgrees(w, path, Node(sha, kind, size, origin, inside.nodes), depth, visit, inside);
    }
  }

  /**
    The root walk: the visitor is called once per node of the returned tree, in
    pre-order, with bytes of that node's digest and length; the cycle and
    truncation issues are those of the tree; nothing is expanded twice on a path.
   */
  lemma RootWalkAgrees(w: Walk, bytes: Bytes, kind: Kind)
    requires |bytes| <= ISIZE_MAX
    ensures Agrees(w, [], 0, RootOutcome(w, bytes, kind, |bytes|))
  {
    WalkAgrees(w, [], bytes, kind, Root, w.world.digest(bytes), |bytes|, 0);
  }

  /** Along every way down from the root, each node that contains others has a digest its ancestors do not have. */
  lemma {:induction false} NoRepeatedExpansion(w: Walk, path: seq<Digest>, nodes: seq<Node>, depth: nat, n: Node)
    requires WellFormedTree(w, path, nodes, depth) && n in nodes && n.contained != []
    ensures n.sha !in path && IsArchive(n.kind) && depth < w.maxDepth
    ensures WellFormedTree(w, path + [n.sha], n.contained, depth + 1)
    ensures NoDuplicates(path) ==> NoDuplicates(path + [n.sha])
    decreases nodes
  {
    if n == nodes[0] {
    } else {
      NoRepeatedExpansion(w, path, nodes[1..], depth, n);
    }
  }

  // ----- how large the tree can get

  function Count(nodes: seq<Node>): nat
    decreases nodes
  {
    if nodes == [] then 0 else 1 + Count(nodes[0].contained) + Count(nodes[1..])
  }

  function Height(nodes: seq<Node>): nat
    decreases nodes
  {
    if nodes == [] then 0
    else
      var below, beside := 1 + Height(nodes[0].contained), Height(nodes[1..]);
      if below >= beside then below else beside
  }

  /** The sizes of the listed nodes alone. */
  function TopBytes(nodes: seq<Node>): nat {
    if nodes == [] then 0 else nodes[0].size + TopBytes(nodes[1..])
  }

  /** The sizes of the listed nodes and of everything below them. */
  function TreeBytes(nodes: seq<Node>): nat
    decreases nodes
  {
    if nodes == [] then 0 else nodes[0].size + TreeBytes(nodes[0].contained) + TreeBytes(nodes[1..])
  }

  function Power(f: nat, d: nat): nat {
    if d == 0 then 1 else f * Power(f, d - 1)
  }

  /** f^0 + ... + f^(n-1). */
  function PowerSum(f: nat, n: nat): nat {
    if n == 0 then 0 else PowerSum(f, n - 1) + Power(f, n - 1)
  }

  lemma {:induction false} PowerSumShift(f: nat, n: nat)
    ensures PowerSum(f, n + 1) == 1 + f * PowerSum(f, n)
  {
    if n == 0 {
    } else {
      PowerSumShift(f, n - 1);
      Distribute(f, PowerSum(f, n - 1), Power(f, n - 1));
    }
  }

  lemma Distribute(f: nat, a: nat, b: nat)
    ensures f * (a + b) == f * a + f * b
  {
  }

  lemma Scale(a: nat, b: nat, c: nat)
    requires a <= b
    ensures c * a <= b * c
  {
  }

  /** At most `c` nodes and `d` bytes below each of the listed nodes, at most `h` levels. */
  predicate Within(c: nat, d: nat, h: nat, nodes: seq<Node>) {
    Count(nodes) <= c * |nodes| && TreeBytes(nodes) <= TopBytes(nodes) + d * |nodes| && Height(nodes) <= h
  }

  /** The bounds with `levels` archive levels left. */
  predicate WithinLevels(limits: ArchiveLimits, levels: nat, nodes: seq<Node>) {
    Within(PowerSum(limits.maxFiles, levels + 1),
           limits.maxTotalUnpackedBytes * PowerSum(limits.maxFiles, levels), levels + 1, nodes)
  }

  lemma {:induction false} MeasuresAppend(a: seq<Node>, b: seq<Node>)
    ensures Count(a + b) == Count(a) + Count(b)
    ensures TopBytes(a + b) == TopBytes(a) + TopBytes(b)
    ensures TreeBytes(a + b) == TreeBytes(a) + TreeBytes(b)
    ensures Height(a + b) == if Height(a) >= Height(b) then Height(a) else Height(b)
  {
    if a == [] {
      assert a + b == b;
    } else {
      MeasuresAppend(a[1..], b);
      assert (a + b)[1..] == a[1..] + b && (a + b)[0] == a[0];
    }
  }

  lemma JoinedWithin(c: nat, d: nat, h: nat, a: seq<Node>, b: seq<Node>)
    requires Within(c, d, h, a) && Within(c, d, h, b)
    ensures Within(c, d, h, a + b)
  {
    MeasuresAppend(a, b);
    Distribute(c, |a|, |b|);
    Distribute(d, |a|, |b|);
  }

  function BoundProperty(limits: ArchiveLimits, levels: nat): Outcome -> bool {
    (o: Outcome) => WithinLevels(limits, levels, o.nodes)
  }

  /** One child per entry at most, and together no more bytes than the budget left. */
  lemma {:induction false} RunStaysInBudget(w: Walk, path: seq<Digest>, bytes: Bytes, kind: Kind, sha: Digest,
                                            depth: nat, entries: seq<ArchiveEntry>, used: u64)
    requires depth < w.maxDepth && used <= w.limits.maxTotalUnpackedBytes
    ensures var o := RunEntries(EntryStepper(w, path, bytes, kind, sha, depth), entries, used);
      |o.nodes| <= |entries| && used + TopBytes(o.nodes) <= w.limits.maxTotalUnpackedBytes
    decreases |entries|
  {
    if entries == [] {
    } else {
      var step := EntryStepper(w, path, bytes, kind, sha, depth);
      var (first, next) := step(entries[0], used);
      EntryStaysInBudget(w, path, bytes, kind, sha, depth, entries[0], used);
      if next.Some? {
        RunStaysInBudget(w, path, bytes, kind, sha, depth, entries[1..], next.value);
        MeasuresAppend(first.nodes, RunEntries(step, entries[1..], next.value).nodes);
      } else {
        assert first.nodes + [] == first.nodes;
      }
    }
  }

  lemma EntryStaysInBudget(w: Walk, path: seq<Digest>, bytes: Bytes, kind: Kind, sha: Digest, depth: nat,
                           entry: ArchiveEntry, used: u64)
    requires depth < w.maxDepth && used <= w.limits.maxTotalUnpackedBytes
    ensures var (first, next) := EntrySpec(w, path, bytes, kind, sha, depth, entry, used);
      && |first.nodes| <= 1
      && (next.None? ==> first.nodes == [])
      && (next.Some? ==> used + TopBytes(first.nodes) == next.value <= w.limits.maxTotalUnpackedBytes)
  {
    var (first, _) := EntrySpec(w, path, bytes, kind, sha, depth, entry, used);
    if first.nodes != [] {
      assert first.nodes[1..] == [];
    }
  }

  /** One node above at most `f` bounded children that hold at most `b` bytes. */
  lemma NodeWithin(c: nat, d: nat, h: nat, f: nat, b: nat, n: Node)
    requires Within(c, d, h, n.contained) && |n.contained| <= f && TopBytes(n.contained) <= b
    ensures Within(1 + f * c, b + f * d, h + 1, [n])
  {
    assert [n][1..] == [];
    Scale(|n.contained|, f, c);
    Scale(|n.contained|, f, d);
  }

  lemma ScaledStep(b: nat, f: nat, p: nat)
    ensures b * (1 + f * p) == b + f * (b * p)
  {
    var q := f * p;
    Distribute(b, 1, q);
    Swap(b, f, p);
  }

  lemma Swap(b: nat, f: nat, p: nat)
    ensures b * (f * p) == f * (b * p)
  {
  }

  /** The geometric sums grow by one level as `NodeWithin` says. */
  lemma BoundsGrow(f: nat, b: nat, levels: nat)
    ensures PowerSum(f, levels + 1) == 1 + f * PowerSum(f, levels)
    ensures b * PowerSum(f, levels + 1) == b + f * (b * PowerSum(f, levels))
  {
    PowerSumShift(f, levels);
    ScaledStep(b, f, PowerSum(f, levels));
  }

  lemma InnerWithin(limits: ArchiveLimits, levels: nat, n: Node)
    requires levels > 0 && WithinLevels(limits, levels - 1, n.contained)
    requires |n.contained| <= limits.maxFiles && TopBytes(n.contained) <= limits.maxTotalUnpackedBytes
    ensures WithinLevels(limits, levels, [n])
  {
    var f, b := limits.maxFiles, limits.maxTotalUnpackedBytes;
    NodeWithin(PowerSum(f, levels), b * PowerSum(f, levels - 1), levels, f, b, n);
    BoundsGrow(f, b, levels);
    BoundsGrow(f, b, levels - 1);
  }

  lemma LeafWithin(limits: ArchiveLimits, levels: nat, n: Node)
    requires n.contained == []
    ensures WithinLevels(limits, levels, [n])
  {
    assert [n][1..] == [];
    PowerSumShift(limits.maxFiles, levels);
  }

  lemma {:induction false} ExpandWithin(w: Walk, path: seq<Digest>, bytes: Bytes, kind: Kind, sha: Digest,
                                        origin: Origin, depth: nat)
    requires depth < w.maxDepth
    ensures var o := ExpandSpec(w, path, bytes, kind, sha, origin, depth);
      && WithinLevels(w.limits, w.maxDepth - depth - 1, o.nodes)
      && |o.nodes| <= w.limits.maxFiles && TopBytes(o.nodes) <= w.limits.maxTotalUnpackedBytes
    decreases w.maxDepth - depth, 0
  {
    var listed := ListedEntries(w, bytes, kind);
    if listed.Err? {
    } else {
      var levels := w.maxDepth - depth - 1;
      var p, step := BoundProperty(w.limits, levels), EntryStepper(w, path, bytes, kind, sha, depth);
      forall a, b | p(a) && p(b)
        ensures p(Joined(a, b))
      {
        JoinedWithin(PowerSum(w.limits.maxFiles, levels + 1),
                     w.limits.maxTotalUnpackedBytes * PowerSum(w.limits.maxFiles, levels),
                     levels + 1, a.nodes, b.nodes);
      }
      forall e, u
        ensures p(step(e, u).0)
      {
        EntryWithin(w, path, bytes, kind, sha, depth, e, u);
      }
      assert p(NOTHING);
      RunKeeps(step, listed.value, 0, p);
      RunStaysInBudget(w, path, bytes, kind, sha, depth, listed.value, 0);
      TrackerAcceptsExactly(w.limits, NO_COUNTS, listed.value);
    }
  }

  lemma {:induction false} EntryWithin(w: Walk, path: seq<Digest>, bytes: Bytes, kind: Kind, sha: Digest, depth: nat,
                                       entry: ArchiveEntry, used: u64)
    requires depth < w.maxDepth
    ensures WithinLevels(w.limits, w.maxDepth - depth - 1,
                         EntrySpec(w, path, bytes, kind, sha, depth, entry, used).0.nodes)
    decreases w.maxDepth - depth - 1, 2
  {
    var extracted := w.world.extract(bytes, kind, entry.name);
    if !IsPayload(entry) || extracted.Err? || used + |extracted.value| > w.limits.maxTotalUnpackedBytes {
    } else {
      var payload := extracted.value;
      WalkWithin(w, path, payload, w.world.classify(payload), FromEntry(sha, entry.name),
                 w.world.digest(payload), |payload|, depth + 1);
    }
  }

  lemma {:induction false} WalkWithin(w: Walk, path: seq<Digest>, bytes: Bytes, kind: Kind, origin: Origin, sha: Digest,
                                      size: u64, depth: nat)
    requires depth <= w.maxDepth
    ensures WithinLevels(w.limits, w.maxDepth - depth, WalkSpec(w, path, bytes, kind, origin, sha, size, depth).nodes)
    decreases w.maxDepth - depth, 1
  {
    var status := if sha in path then Leaf else StatusOf(w, kind, depth);
    if status == Expanded {
      ExpandWithin(w, path + [sha], bytes, kind, sha, origin, depth);
      var inside := ExpandSpec(w, path + [sha], bytes, kind, sha, origin, depth).nodes;
      InnerWithin(w.limits, w.maxDepth - depth, Node(sha, kind, size, origin, inside));
    } else {
      LeafWithin(w.limits, w.maxDepth - depth, Node(sha, kind, size, origin, []));
    }
  }

  /**
    The whole tree: with F = max_files, B = max_total_unpacked_bytes and
    D = max_depth it has at most D levels below the root, at most F^0 + ... + F^D
    nodes, and at most B * (F^0 + ... + F^(D-1)) bytes besides the root's own.
   */
  lemma WholeTreeIsBounded(w: Walk, bytes: Bytes, kind: Kind)
    requires |bytes| <= ISIZE_MAX
    ensures var nodes, f, d := RootOutcome(w, bytes, kind, |bytes|).nodes, w.limits.maxFiles, w.maxDepth;
      && Height(nodes) <= d + 1
      && Count(nodes) <= PowerSum(f, d + 1)
      && TreeBytes(nodes) <= |bytes| + w.limits.maxTotalUnpackedBytes * PowerSum(f, d)
  {
    WalkWithin(w, [], bytes, kind, Root, w.world.digest(bytes), |bytes|, 0);
    SingleMeasures(RootOutcome(w, bytes, kind, |bytes|).nodes, PowerSum(w.limits.maxFiles, w.maxDepth + 1),
                   w.limits.maxTotalUnpackedBytes * PowerSum(w.limits.maxFiles, w.maxDepth), w.maxDepth + 1);
  }

  lemma SingleMeasures(nodes: seq<Node>, c: nat, d: nat, h: nat)
    requires |nodes| == 1 && Within(c, d, h, nodes)
    ensures Count(nodes) <= c && TreeBytes(nodes) <= nodes[0].size + d && Height(nodes) <= h
  {
    assert TopBytes(nodes[1..]) == 0;
    assert d * |nodes| == d && c * |nodes| == c;
  }
}
