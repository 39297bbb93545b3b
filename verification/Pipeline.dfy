/**
  The pipeline state machine of `arbitraitor-core`.  A transition assigns the
  fields of an operation it owns; what it assigns is specified on values, so that
  whole runs can be reasoned about.  Identifiers, findings and the attached plan
  never influence a transition and are left out.
 */
module Pipeline {
  import opened Common

  datatype State =
    | Created | Retrieving | Stored | Identified | Analyzing | Expanding | Evaluating
    | AwaitingApproval | Approved | Released | Completed | Blocked | Failed | Cancelled

  datatype Stage =
    | AtCreated | Retrieval | Storage | Identification | Analysis | Expansion | Evaluation
    | Approval | Release | Receipt | Terminal

  datatype Verdict = Pass | Warn | Prompt | Block | Error | Incomplete

  datatype ErrorKind =
    | InvalidTransition | TerminalTransition | ReleaseBeforeVerdict | VerdictBeforeAnalysisComplete
    | AnalysisBeforeStorage | CompletionBeforeRelease | ReleaseProhibited | BlockingVerdict

  /** The part of `StateError` that depends on the state machine. */
  datatype StateError = StateError(kind: ErrorKind, stage: Stage, releaseProhibited: bool)

  datatype Operation = Operation(
    state: State, verdict: Option<Verdict>, releaseProhibited: bool, hasBlockingVerdict: bool)

  predicate IsTerminal(s: State) {
    s.Blocked? || s.Failed? || s.Cancelled? || s.Completed?
  }

  predicate ProhibitsRelease(s: State) {
    s.Blocked? || s.Failed? || s.Cancelled?
  }

  function StageOf(s: State): Stage {
    match s
    case Created => AtCreated
    case Retrieving => Retrieval
    case Stored => Storage
    case Identified => Identification
    case Analyzing => Analysis
    case Expanding => Expansion
    case Evaluating => Evaluation
    case AwaitingApproval => Approval
    case Approved => Approval
    case Released => Release
    case _ => Terminal
  }

  predicate ProhibitsReleaseOnError(stage: Stage) {
    !stage.AtCreated? && !stage.Receipt? && !stage.Terminal?
  }

  predicate VerdictProhibitsRelease(v: Verdict) {
    v.Block? || v.Error? || v.Incomplete?
  }

  predicate BlocksRelease(v: Option<Verdict>) {
    v.Some? && VerdictProhibitsRelease(v.value)
  }

  // ----- transitions

  function Refusal(from: State, to: State, kind: ErrorKind): StateError {
    StateError(kind, StageOf(from), ProhibitsReleaseOnError(StageOf(from)) || ProhibitsRelease(to))
  }

  /** The edges of the graph, besides those into the three prohibiting states. */
  predicate IsEdge(from: State, to: State) {
    match from
    case Created => to.Retrieving?
    case Retrieving => to.Stored?
    case Stored => to.Identified?
    case Identified => to.Analyzing?
    case Analyzing => to.Expanding?
    case Expanding => to.Evaluating?
    case AwaitingApproval => to.Approved?
    case Approved => to.Released?
    case Released => to.Completed?
    case _ => false
  }

  function TransitionErrorKind(to: State): ErrorKind {
    match to
    case Released => ReleaseBeforeVerdict
    case AwaitingApproval => VerdictBeforeAnalysisComplete
    case Analyzing => AnalysisBeforeStorage
    case Completed => CompletionBeforeRelease
    case _ => InvalidTransition
  }

  /** The guard on the edge into `Released`, in the order it is checked. */
  function ReleaseGuard(op: Operation): Option<ErrorKind> {
    if op.verdict.None? then Some(ReleaseBeforeVerdict)
    else if op.hasBlockingVerdict then Some(BlockingVerdict)
    else if op.releaseProhibited then Some(ReleaseProhibited)
    else None
  }

  /** `validate_transition`: nothing, or why the transition is refused. */
  function ValidateTransition(op: Operation, next: State): Option<StateError> {
    if IsTerminal(op.state) then Some(Refusal(op.state, next, TerminalTransition))
    else if ProhibitsRelease(next) then None
    else if !IsEdge(op.state, next) then Some(Refusal(op.state, next, TransitionErrorKind(next)))
    else if next.Released? && ReleaseGuard(op).Some? then Some(Refusal(op.state, next, ReleaseGuard(op).value))
    else None
  }

  function TransitionTo(op: Operation, next: State): Result<Operation, StateError> {
    var refused := ValidateTransition(op, next);
    if refused.Some? then Err(refused.value)
    else Ok(op.(state := next, releaseProhibited := op.releaseProhibited || ProhibitsRelease(next)))
  }

  function RecordVerdict(op: Operation, verdict: Verdict): Result<Operation, StateError> {
    if IsTerminal(op.state) then Err(Refusal(op.state, AwaitingApproval, TerminalTransition))
    else if !op.state.Evaluating? then Err(Refusal(op.state, AwaitingApproval, VerdictBeforeAnalysisComplete))
    else
      var blocking := VerdictProhibitsRelease(verdict);
      Ok(Operation(AwaitingApproval, Some(verdict),
                   op.releaseProhibited || blocking, op.hasBlockingVerdict || blocking))
  }

  function Approve(op: Operation): Result<Operation, StateError> {
    if op.verdict.None? then Err(Refusal(op.state, Approved, ReleaseBeforeVerdict))
    else if op.hasBlockingVerdict then Err(Refusal(op.state, Approved, BlockingVerdict))
    else TransitionTo(op, Approved)
  }

  function ReleaseBytes(op: Operation): Result<Operation, StateError> {
    var refused := ReleaseGuard(op);
    if refused.Some? then Err(Refusal(op.state, Released, refused.value)) else TransitionTo(op, Released)
  }

  function ComponentFailure(op: Operation, stage: Stage): Operation {
    var prohibited := ProhibitsReleaseOnError(stage);
    var marked := op.(releaseProhibited := op.releaseProhibited || prohibited);
    if prohibited && !IsTerminal(op.state) then marked.(state := Failed) else marked
  }

  const NEW: Operation := Operation(Created, None, false, false)

  /** `validate_invariants`. */
  predicate Invariants(op: Operation) {
    && (ProhibitsRelease(op.state) ==> op.releaseProhibited)
    && (op.state.AwaitingApproval? || op.state.Approved? || op.state.Released? || op.state.Completed? ==>
          op.verdict.Some?)
    && (op.state.Released? || op.state.Completed? ==> !op.releaseProhibited && !op.hasBlockingVerdict)
    && (BlocksRelease(op.verdict) ==> op.hasBlockingVerdict && op.releaseProhibited)
  }

  /** `Deserialize`: the wire value with the blocking marker restored from the verdict, if it is consistent. */
  function Deserialize(wire: Operation): Option<Operation> {
    var op := wire.(hasBlockingVerdict := wire.hasBlockingVerdict || BlocksRelease(wire.verdict));
    if Invariants(op) then Some(op) else None
  }

  // ----- the operation object

  /** An operation whose fields the transitions assign; a refused transition assigns nothing. */
  class PipelineOperation {
    var state: State
    var verdict: Option<Verdict>
    var releaseProhibited: bool
    var hasBlockingVerdict: bool

    function Value(): Operation
      reads this
    {
      Operation(state, verdict, releaseProhibited, hasBlockingVerdict)
    }

    constructor ()
      ensures Value() == NEW
    {
      state, verdict, releaseProhibited, hasBlockingVerdict := Created, None, false, false;
    }

    /** The operation read from a wire value that `Deserialize` accepts. */
    constructor FromWire(wire: Operation)
      requires Deserialize(wire).Some?
      ensures Value() == Deserialize(wire).value && Invariants(Value())
    {
      state, verdict, releaseProhibited := wire.state, wire.verdict, wire.releaseProhibited;
      hasBlockingVerdict := wire.hasBlockingVerdict || BlocksRelease(wire.verdict);
    }

    method MoveTo(next: State) returns (refused: Option<StateError>)
      modifies this
      ensures Value() == Apply(old(Value()), DoTransition(next))
      ensures refused.None? <==> Attempt(old(Value()), DoTransition(next)).Ok?
      ensures refused.Some? ==> Attempt(old(Value()), DoTransition(next)) == Err(refused.value)
    {
      refused := ValidateTransition(Value(), next);
      if refused.None? {
        state := next;
        releaseProhibited := releaseProhibited || ProhibitsRelease(next);
      }
    }

    method Record(v: Verdict) returns (refused: Option<StateError>)
      modifies this
      ensures Value() == Apply(old(Value()), DoRecordVerdict(v))
      ensures refused.None? <==> Attempt(old(Value()), DoRecordVerdict(v)).Ok?
      ensures refused.Some? ==> Attempt(old(Value()), DoRecordVerdict(v)) == Err(refused.value)
    {
      if IsTerminal(state) {
        return Some(Refusal(state, AwaitingApproval, TerminalTransition));
      }
      if state != Evaluating {
        return Some(Refusal(state, AwaitingApproval, VerdictBeforeAnalysisComplete));
      }
      verdict := Some(v);
      if VerdictProhibitsRelease(v) {
        hasBlockingVerdict := true;
        releaseProhibited := true;
      }
      state := AwaitingApproval;
      refused := None;
    }

    method ApprovePlan() returns (refused: Option<StateError>)
      modifies this
      ensures Value() == Apply(old(Value()), DoApprove)
      ensures refused.None? <==> Attempt(old(Value()), DoApprove).Ok?
      ensures refused.Some? ==> Attempt(old(Value()), DoApprove) == Err(refused.value)
    {
      if verdict.None? {
        return Some(Refusal(state, Approved, ReleaseBeforeVerdict));
      }
      if hasBlockingVerdict {
        return Some(Refusal(state, Approved, BlockingVerdict));
      }
      refused := MoveTo(Approved);
    }

    method ReleaseExactBytes() returns (refused: Option<StateError>)
      modifies this
      ensures Value() == Apply(old(Value()), DoRelease)
      ensures refused.None? <==> Attempt(old(Value()), DoRelease).Ok?
      ensures refused.Some? ==> Attempt(old(Value()), DoRelease) == Err(refused.value)
    {
      if verdict.None? {
        return Some(Refusal(state, Released, ReleaseBeforeVerdict));
      }
      if hasBlockingVerdict {
        return Some(Refusal(state, Released, BlockingVerdict));
      }
      if releaseProhibited {
        return Some(Refusal(state, Released, ReleaseProhibited));
      }
      refused := MoveTo(Released);
    }

    method ReportFailure(stage: Stage)
      modifies this
      ensures Value() == Apply(old(Value()), DoComponentFailure(stage))
    {
      var prohibited := ProhibitsReleaseOnError(stage);
      releaseProhibited := releaseProhibited || prohibited;
      if prohibited && !IsTerminal(state) {
        state := Failed;
      }
    }
  }

  // ----- runs

  /** The public calls that can change an operation. */
  datatype Call =
    | DoTransition(next: State) | DoRecordVerdict(verdict: Verdict) | DoApprove | DoRelease | DoComplete
    | DoBlock | DoFail | DoCancel | DoComponentFailure(stage: Stage)

  function Attempt(op: Operation, call: Call): Result<Operation, StateError> {
    match call
    case DoTransition(next) => TransitionTo(op, next)
    case DoRecordVerdict(v) => RecordVerdict(op, v)
    case DoApprove => Approve(op)
    case DoRelease => ReleaseBytes(op)
    case DoComplete => TransitionTo(op, Completed)
    case DoBlock => TransitionTo(op, Blocked)
    case DoFail => TransitionTo(op, Failed)
    case DoCancel => TransitionTo(op, Cancelled)
    case DoComponentFailure(stage) => Ok(ComponentFailure(op, stage))
  }

  /** A refused call leaves the caller with the operation it had. */
  function Apply(op: Operation, call: Call): Operation {
    match Attempt(op, call)
    case Ok(next) => next
    case Err(_) => op
  }

  /** All operations of a run, the starting one first. */
  function Run(op: Operation, calls: seq<Call>): (r: seq<Operation>)
    ensures |r| == |calls| + 1 && r[0] == op
    decreases |calls|
  {
    [op] + (if calls == [] then [] else Run(Apply(op, calls[0]), calls[1..]))
  }

  function Last(run: seq<Operation>): Operation
    requires run != []
  {
    run[|run| - 1]
  }

  // ----- one call

  /** What every call keeps: the markers are sticky, and a release has passed the guard. */
  lemma CallIsSafe(op: Operation, call: Call)
    ensures var next := Apply(op, call);
      && (op.releaseProhibited ==> next.releaseProhibited)
      && (op.hasBlockingVerdict ==> next.hasBlockingVerdict)
      && (next.state.Released? && next.state != op.state ==>
            op.state.Approved? && next.verdict.Some? && !next.releaseProhibited && !next.hasBlockingVerdict)
      && (next.state.Completed? && next.state != op.state ==> op.state.Released?)
      && (IsTerminal(op.state) ==> next.state == op.state && next.verdict == op.verdict)
  {
  }

  predicate FailsAfterCompletion(op: Operation, call: Call) {
    op.state.Completed? && call.DoComponentFailure? && ProhibitsReleaseOnError(call.stage)
  }

  /** A call keeps the invariants exactly unless it reports a failure on a completed operation. */
  lemma CallKeepsInvariantsExactly(op: Operation, call: Call)
    requires Invariants(op)
    ensures Invariants(Apply(op, call)) <==> !FailsAfterCompletion(op, call)
  {
  }

  /**
    How far along the pipeline a state is: the measure of progress that every
    state change raises, which bounds the number of changes of a run.
   */
  function Rank(s: State): nat {
    match s
    case Created => 0
    case Retrieving => 1
    case Stored => 2
    case Identified => 3
    case Analyzing => 4
    case Expanding => 5
    case Evaluating => 6
    case AwaitingApproval => 7
    case Approved => 8
    case Released => 9
    case _ => 10
  }

  /** Every state change climbs; outside the prohibiting states it climbs by exactly one. */
  lemma CallClimbs(op: Operation, call: Call)
    ensures var next := Apply(op, call).state;
      next != op.state ==>
        && Rank(op.state) < Rank(next)
        && (!ProhibitsRelease(next) ==> Rank(next) == Rank(op.state) + 1)
  {
  }

  // ----- whole runs

  /** The states a run goes through, without repetitions. */
  function Path(run: seq<Operation>): seq<State>
    requires run != []
  {
    if |run| == 1 then [run[0].state]
    else if run[0].state == run[1].state then Path(run[1..])
    else [run[0].state] + Path(run[1..])
  }

  /** The chain to release. */
  const CHAIN: seq<State> :=
    [Created, Retrieving, Stored, Identified, Analyzing, Expanding, Evaluating, AwaitingApproval, Approved, Released]

  lemma RunTail(op: Operation, calls: seq<Call>)
    requires calls != []
    ensures Run(op, calls)[1..] == Run(Apply(op, calls[0]), calls[1..])
  {
  }

  /** Ranks climb along a path, so it has at most `10 - Rank(start)` changes. */
  lemma {:induction false} PathIsShort(op: Operation, calls: seq<Call>)
    ensures var path := Path(Run(op, calls));
      && path != [] && path[0] == op.state
      && |path| + Rank(op.state) <= 11
      && forall i :: 0 <= i < |path| - 1 ==> Rank(path[i]) < Rank(path[i + 1])
    decreases |calls|
  {
    if calls == [] {
    } else {
      RunTail(op, calls);
      CallClimbs(op, calls[0]);
      PathIsShort(Apply(op, calls[0]), calls[1..]);
    }
  }

  /** A run of any length makes at most ten state changes. */
  lemma AtMostTenChanges(op: Operation, calls: seq<Call>)
    ensures |Path(Run(op, calls))| - 1 <= 10
  {
    PathIsShort(op, calls);
  }

  lemma ChainStep(s: State, t: State)
    requires Rank(t) == Rank(s) + 1 && Rank(t) <= 9
    ensures CHAIN[Rank(s)..] == [s] + CHAIN[Rank(t)..]
  {
    assert CHAIN[Rank(s)] == s;
  }

  lemma {:induction false} PathToRelease(op: Operation, calls: seq<Call>)
    requires Last(Run(op, calls)).state.Released?
    ensures Rank(op.state) <= 9 && Path(Run(op, calls)) == CHAIN[Rank(op.state)..]
    decreases |calls|
  {
    if calls != [] {
      var next := Apply(op, calls[0]);
      var run, rest := Run(op, calls), Run(next, calls[1..]);
      RunTail(op, calls);
      assert Last(run) == Last(rest);
      PathToRelease(next, calls[1..]);
      assert next.state == op.state || Rank(next.state) == Rank(op.state) + 1 by { CallClimbs(op, calls[0]); }
      if next.state != op.state {
        ChainStep(op.state, next.state);
      }
    } else {
      assert CHAIN[9..] == [Released];
    }
  }

  /** From `new`, a run is in `Released` only after the whole chain in order. */
  lemma ReleasedOnlyThroughTheChain(calls: seq<Call>)
    requires Last(Run(NEW, calls)).state.Released?
    ensures Path(Run(NEW, calls)) == CHAIN
  {
    PathToRelease(NEW, calls);
  }

  /** Once a marker is set it stays, and the run never enters `Released` or `Completed` afterwards. */
  lemma {:induction false} ProhibitionIsFinal(op: Operation, calls: seq<Call>)
    requires op.releaseProhibited || op.hasBlockingVerdict
    ensures var last := Last(Run(op, calls));
      && (op.releaseProhibited ==> last.releaseProhibited)
      && (op.hasBlockingVerdict ==> last.hasBlockingVerdict)
      && (!op.state.Released? && !op.state.Completed? ==> !last.state.Released? && !last.state.Completed?)
    decreases |calls|
  {
    if calls == [] {
    } else {
      RunTail(op, calls);
      CallIsSafe(op, calls[0]);
      ProhibitionIsFinal(Apply(op, calls[0]), calls[1..]);
    }
  }

  /** The invariants, except for the one marker a failure report sets on a completed operation. */
  predicate AlmostInvariant(op: Operation) {
    Invariants(op) || (op.state.Completed? && Invariants(op.(releaseProhibited := false)))
  }

  lemma CallKeepsAlmostInvariant(op: Operation, call: Call)
    requires AlmostInvariant(op)
    ensures AlmostInvariant(Apply(op, call))
  {
  }

  /** Reachable operations satisfy the invariants; the only exception is a completed operation marked afterwards. */
  lemma {:induction false} RunKeepsInvariants(op: Operation, calls: seq<Call>)
    requires AlmostInvariant(op)
    ensures forall o :: o in Run(op, calls) ==> AlmostInvariant(o)
    decreases |calls|
  {
    if calls == [] {
    } else {
      CallKeepsAlmostInvariant(op, calls[0]);
      var rest := Run(Apply(op, calls[0]), calls[1..]);
      RunKeepsInvariants(Apply(op, calls[0]), calls[1..]);
      assert Run(op, calls) == [op] + rest;
    }
  }

  /** A completed operation that carries the marker, and so breaks the invariants; no call repairs it. */
  predicate MarkedAfterCompletion(op: Operation) {
    op.state.Completed? && op.releaseProhibited
  }

  lemma {:induction false} MarkedStaysBroken(op: Operation, calls: seq<Call>)
    requires MarkedAfterCompletion(op)
    ensures !Invariants(Last(Run(op, calls)))
    decreases |calls|
  {
    if calls == [] {
    } else {
      RunTail(op, calls);
      assert MarkedAfterCompletion(Apply(op, calls[0]));
      MarkedStaysBroken(Apply(op, calls[0]), calls[1..]);
    }
  }

  /** No call of the run reports a failure on an operation that is completed by then. */
  predicate NeverFailsAfterCompletion(op: Operation, calls: seq<Call>) {
    forall i :: 0 <= i < |calls| ==> !FailsAfterCompletion(Run(op, calls)[i], calls[i])
  }

  lemma NeverFailsSplits(op: Operation, calls: seq<Call>)
    requires calls != []
    ensures NeverFailsAfterCompletion(op, calls) <==>
      !FailsAfterCompletion(op, calls[0]) && NeverFailsAfterCompletion(Apply(op, calls[0]), calls[1..])
  {
    var run, rest := Run(op, calls), Run(Apply(op, calls[0]), calls[1..]);
    RunTail(op, calls);
    assert run[0] == op;
    forall i | 0 <= i < |calls| - 1
      ensures run[i + 1] == rest[i] && calls[i + 1] == calls[1..][i]
    {
    }
    if NeverFailsAfterCompletion(op, calls) {
      forall i | 0 <= i < |calls[1..]|
        ensures !FailsAfterCompletion(rest[i], calls[1..][i])
      {
        assert !FailsAfterCompletion(run[i + 1], calls[i + 1]);
      }
    }
    if !FailsAfterCompletion(op, calls[0]) && NeverFailsAfterCompletion(Apply(op, calls[0]), calls[1..]) {
      forall i | 0 <= i < |calls|
        ensures !FailsAfterCompletion(run[i], calls[i])
      {
        if i > 0 {
          assert !FailsAfterCompletion(rest[i - 1], calls[1..][i - 1]);
        }
      }
    }
  }

  /**
    Over whole runs: a run ends in a consistent operation exactly when none of its
    calls reports a failure on an operation that is already completed.
   */
  lemma {:induction false} RunKeepsInvariantsExactly(op: Operation, calls: seq<Call>)
    requires Invariants(op)
    ensures Invariants(Last(Run(op, calls))) <==> NeverFailsAfterCompletion(op, calls)
    decreases |calls|
  {
    if calls == [] {
    } else {
      var next := Apply(op, calls[0]);
      RunTail(op, calls);
      NeverFailsSplits(op, calls);
      CallKeepsInvariantsExactly(op, calls[0]);
      if FailsAfterCompletion(op, calls[0]) {
        MarkedStaysBroken(next, calls[1..]);
      } else {
        RunKeepsInvariantsExactly(next, calls[1..]);
      }
    }
  }

  /** An operation that may start a run: a new one or a deserialised one. */
  ghost predicate IsStart(op: Operation) {
    op == NEW || exists wire :: Deserialize(wire) == Some(op)
  }

  /**
    Release safety: whatever the starting point and the calls, every operation of
    the run that is `Released` carries `Pass`, `Warn` or `Prompt` and neither
    marker; one that is `Completed` carries one of the three verdicts too.
   */
  lemma ReleaseIsSafe(op: Operation, calls: seq<Call>)
    requires IsStart(op)
    ensures forall o :: o in Run(op, calls) && (o.state.Released? || o.state.Completed?) ==>
      o.verdict == Some(Pass) || o.verdict == Some(Warn) || o.verdict == Some(Prompt)
    ensures forall o :: o in Run(op, calls) && o.state.Released? ==> !o.releaseProhibited && !o.hasBlockingVerdict
  {
    RunKeepsInvariants(op, calls);
    forall o | o in Run(op, calls) && (o.state.Released? || o.state.Completed?)
      ensures o.verdict == Some(Pass) || o.verdict == Some(Warn) || o.verdict == Some(Prompt)
    {
      assert AlmostInvariant(o);
    }
  }

  // ----- what can be reached

  /** From evaluation to release by the calls that are meant for it. */
  const RELEASING: seq<Call> := [DoApprove, DoRelease]

  /**
    A verdict recorded on an unmarked operation leads to release exactly when it is
    `Pass`, `Warn` or `Prompt`; with `Block`, `Error` or `Incomplete` the plan stays
    unapproved and both markers are set.
   */
  lemma VerdictReleasesExactly(v: Verdict)
    ensures Last(Run(Operation(Evaluating, None, false, false), [DoRecordVerdict(v)] + RELEASING)) ==
      if v == Pass || v == Warn || v == Prompt then Operation(Released, Some(v), false, false)
      else Operation(AwaitingApproval, Some(v), true, true)
  {
    var op := Operation(Evaluating, None, false, false);
    var calls := [DoRecordVerdict(v)] + RELEASING;
    RunTail(op, calls);
    assert calls[1..] == RELEASING;
    RunTail(Apply(op, DoRecordVerdict(v)), RELEASING);
    var approved := Apply(Apply(op, DoRecordVerdict(v)), DoApprove);
    assert RELEASING[1..] == [DoRelease];
    RunTail(approved, [DoRelease]);
    assert [DoRelease][1..] == [];
  }

  predicate IsReleasable(v: Verdict) {
    v == Pass || v == Warn || v == Prompt
  }

  /** Call number `i` of a release from the beginning. */
  function ReleaseCall(v: Verdict, i: nat): Call
    requires i < 10
  {
    if i < 6 then DoTransition(CHAIN[i + 1])
    else if i == 6 then DoRecordVerdict(v)
    else if i == 7 then DoApprove
    else if i == 8 then DoRelease
    else DoComplete
  }

  /** The operation before call number `i`. */
  function Milestone(v: Verdict, i: nat): Operation
    requires i <= 10
  {
    if i <= 6 then Operation(CHAIN[i], None, false, false)
    else if !IsReleasable(v) then Operation(AwaitingApproval, Some(v), true, true)
    else Operation(if i < 10 then CHAIN[i] else Completed, Some(v), false, false)
  }

  lemma NextMilestone(v: Verdict, i: nat)
    requires i < 10
    ensures Apply(Milestone(v, i), ReleaseCall(v, i)) == Milestone(v, i + 1)
  {
    assert CHAIN[6] == Evaluating && CHAIN[7] == AwaitingApproval && CHAIN[8] == Approved && CHAIN[9] == Released;
    if i < 6 {
      assert IsEdge(CHAIN[i], CHAIN[i + 1]);
    }
  }

  /** The last calls of a release from the beginning, from call number `i` on. */
  function ReleaseFrom(v: Verdict, i: nat): seq<Call>
    requires i <= 10
    decreases 10 - i
  {
    if i == 10 then [] else [ReleaseCall(v, i)] + ReleaseFrom(v, i + 1)
  }

  lemma {:induction false} MilestonesAreReached(v: Verdict, i: nat)
    requires i <= 10
    ensures Last(Run(Milestone(v, i), ReleaseFrom(v, i))) == Milestone(v, 10)
    decreases 10 - i
  {
    if i == 10 {
    } else {
      NextMilestone(v, i);
      RunTail(Milestone(v, i), ReleaseFrom(v, i));
      assert ReleaseFrom(v, i)[1..] == ReleaseFrom(v, i + 1);
      MilestonesAreReached(v, i + 1);
    }
  }

  /**
    Called in turn on a new operation (six transitions, the verdict, the approval,
    the release, the completion), the calls complete it exactly with one of the
    three verdicts.
   */
  lemma FullReleaseCompletesExactly(v: Verdict)
    ensures Last(Run(NEW, ReleaseFrom(v, 0))) ==
      if v == Pass || v == Warn || v == Prompt then Operation(Completed, Some(v), false, false)
      else Operation(AwaitingApproval, Some(v), true, true)
  {
    assert CHAIN[0] == Created;
    MilestonesAreReached(v, 0);
  }

  /** Blocking, failing and cancelling work on every operation that is not at an end, and bar its release. */
  lemma CanAlwaysBeStopped(op: Operation)
    ensures var atEnd := op.state.Completed? || op.state.Blocked? || op.state.Failed? || op.state.Cancelled?;
      && Apply(op, DoBlock) == (if atEnd then op else op.(state := Blocked, releaseProhibited := true))
      && Apply(op, DoFail) == (if atEnd then op else op.(state := Failed, releaseProhibited := true))
      && Apply(op, DoCancel) == (if atEnd then op else op.(state := Cancelled, releaseProhibited := true))
  {
  }

  /** A reported failure bars the release unless it comes from before the retrieval or from after the release. */
  lemma FailureBarsRelease(op: Operation, stage: Stage)
    ensures var next := Apply(op, DoComponentFailure(stage));
      var outside := stage == AtCreated || stage == Receipt || stage == Terminal;
      var atEnd := op.state.Completed? || op.state.Blocked? || op.state.Failed? || op.state.Cancelled?;
      && next.releaseProhibited == (op.releaseProhibited || !outside)
      && next.state == (if outside || atEnd then op.state else Failed)
      && next.verdict == op.verdict && next.hasBlockingVerdict == op.hasBlockingVerdict
  {
  }

  /** What a refused transition reports: the stage it was tried at, and whether a release is barred there. */
  lemma RefusalReportsItsStage(op: Operation, next: State)
    requires TransitionTo(op, next).Err?
    ensures var error := TransitionTo(op, next).error;
      && (error.kind == TerminalTransition <==>
            op.state.Completed? || op.state.Blocked? || op.state.Failed? || op.state.Cancelled?)
      && (error.kind == TerminalTransition <==> error.stage == Terminal)
      && (error.stage == AtCreated <==> op.state.Created?)
      && (error.stage == Retrieval <==> op.state.Retrieving?)
      && (error.stage == Storage <==> op.state.Stored?)
      && (error.stage == Identification <==> op.state.Identified?)
      && (error.stage == Analysis <==> op.state.Analyzing?)
      && (error.stage == Expansion <==> op.state.Expanding?)
      && (error.stage == Evaluation <==> op.state.Evaluating?)
      && (error.stage == Approval <==> op.state.AwaitingApproval? || op.state.Approved?)
      && (error.stage == Release <==> op.state.Released?)
      && (error.releaseProhibited <==>
            || (error.stage != AtCreated && error.stage != Terminal)
            || next == Blocked || next == Failed || next == Cancelled)
  {
  }

  /** Why a transition is refused on an operation that is not at an end. */
  lemma RefusalKinds(op: Operation, next: State)
    requires TransitionTo(op, next).Err? && TransitionTo(op, next).error.kind != TerminalTransition
    ensures match TransitionTo(op, next).error.kind
      case ReleaseBeforeVerdict => next.Released? && (op.state.Approved? ==> op.verdict.None?)
      case BlockingVerdict => next.Released? && op.state.Approved? && op.verdict.Some? && op.hasBlockingVerdict
      case ReleaseProhibited =>
        next.Released? && op.state.Approved? && op.verdict.Some? && !op.hasBlockingVerdict && op.releaseProhibited
      case VerdictBeforeAnalysisComplete => next.AwaitingApproval?
      case AnalysisBeforeStorage => next.Analyzing? && !op.state.Identified?
      case CompletionBeforeRelease => next.Completed? && !op.state.Released?
      case _ => next.Created? || next.Retrieving? || next.Stored? || next.Identified? || next.Expanding?
                || next.Evaluating? || next.Approved?
  {
  }

  /**
    Deserialising accepts exactly the consistent values, and gives the same
    operation back for those that were serialised.
   */
  lemma DeserializeExact(op: Operation)
    ensures Deserialize(op) == Some(op) <==> Invariants(op)
  {
  }

  /**
    The wire values that are accepted, constructor by constructor.  A blocking
    marker that is missing is restored from the verdict; a release marker is not.
   */
  lemma DeserializeAcceptsExactly(wire: Operation)
    ensures Deserialize(wire).Some? <==>
      match wire.state
      case Released | Completed =>
        && (wire.verdict == Some(Pass) || wire.verdict == Some(Warn) || wire.verdict == Some(Prompt))
        && !wire.releaseProhibited && !wire.hasBlockingVerdict
      case Blocked | Failed | Cancelled => wire.releaseProhibited
      case AwaitingApproval | Approved =>
        && wire.verdict.Some?
        && (wire.verdict == Some(Block) || wire.verdict == Some(Error) || wire.verdict == Some(Incomplete) ==>
              wire.releaseProhibited)
      case _ =>
        wire.verdict == Some(Block) || wire.verdict == Some(Error) || wire.verdict == Some(Incomplete) ==>
          wire.releaseProhibited
    ensures Deserialize(wire).Some? ==>
      var blocking := wire.verdict == Some(Block) || wire.verdict == Some(Error) || wire.verdict == Some(Incomplete);
      Deserialize(wire).value == wire.(hasBlockingVerdict := wire.hasBlockingVerdict || blocking)
  {
  }

  /**
    `transition_to(Approved)` lets through what `approve` refuses exactly when an
    operation awaits approval without a verdict or with a blocking one; with the
    marker or without the verdict it still cannot be moved on into `Released`.
   */
  lemma TransitionSkipsTheApprovalGuardExactly(op: Operation)
    ensures TransitionTo(op, Approved).Ok? && Approve(op).Err? <==>
      op.state.AwaitingApproval? && (op.verdict.None? || op.hasBlockingVerdict)
    ensures TransitionTo(op, Approved).Ok? && Approve(op).Err? ==>
      TransitionTo(TransitionTo(op, Approved).value, Released).Err?
    ensures Approve(op).Ok? ==> TransitionTo(op, Approved) == Approve(op)
  {
  }

  /** One such operation, consistent in every other respect: a blocking verdict has been recorded. */
  lemma TransitionCanApproveABlockedPlan()
    ensures var op := Operation(AwaitingApproval, Some(Block), true, true);
      && Invariants(op) && Approve(op).Err?
      && TransitionTo(op, Approved).Ok? && TransitionTo(TransitionTo(op, Approved).value, Released).Err?
  {
  }
}
