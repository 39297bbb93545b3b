/** The analysis coordinator: detector order, outcomes, mandatory coverage and the verdict. */
module Coordinator {
  import Common

  // ----- vocabulary

  datatype ShellDialect = Posix | Bash | Zsh

  datatype TarCompression = Plain | GzipTar | Bzip2Tar | XzTar | ZstdTar

  datatype ArtifactKind =
    | ShellScript(dialect: ShellDialect) | PowerShellScript | PythonScript | PerlScript | RubyScript | JavaScript
    | PeExecutable | ElfExecutable | MachOExecutable | WindowsShortcut | WebAssembly
    | Zip | Gzip | Bzip2 | Xz | Zstd | Tar(compression: TarCompression)
    | DebianPackage | RpmPackage | NpmTarball | PythonWheel | Jar
    | GenericText | GenericBinary | Html | Json | PdfDocument | OfficeDocument

  datatype Severity = Informational | Low | Medium | High | Critical

  datatype Finding = Finding(id: string, detector: string, severity: Severity, artifactSha256: string)

  /** What one run of a detector's thread delivers before its time-out. */
  datatype Outcome =
    | Findings(raw: seq<Finding>) | Failed(message: string) | Panicked(message: string) | TimedOut | Disconnected

  /** A registered detector, with what it does on the artifact at hand. */
  datatype Detector = Detector(id: string, supportedKinds: seq<ArtifactKind>, outcome: Outcome)

  datatype Status = Ok | Error(message: string) | Timeout

  datatype DetectorResult = DetectorResult(id: string, status: Status, findingCount: nat)

  datatype Execution = Execution(result: DetectorResult, findings: seq<Finding>)

  datatype Verdict = Pass | Warn | Prompt | Block | Incomplete

  datatype AnalysisResult = AnalysisResult(findings: seq<Finding>, results: seq<DetectorResult>, verdict: Verdict)

  // ----- detector order

  /** The order of Rust strings. */
  predicate AtMost(a: string, b: string) {
    a == [] || (b != [] && (a[0] < b[0] || (a[0] == b[0] && AtMost(a[1..], b[1..]))))
  }

  /** Placing a detector before the first one whose id is not smaller keeps equal ids in order. */
  function Insert(d: Detector, sorted: seq<Detector>): seq<Detector> {
    if sorted == [] || AtMost(d.id, sorted[0].id) then [d] + sorted
    else [sorted[0]] + Insert(d, sorted[1..])
  }

  /** `with_detectors`: a stable sort by id. */
  function WithDetectors(ds: seq<Detector>): seq<Detector> {
    if ds == [] then [] else Insert(ds[0], WithDetectors(ds[1..]))
  }

  ghost predicate SortedById(ds: seq<Detector>) {
    forall i, j :: 0 <= i < j < |ds| ==> AtMost(ds[i].id, ds[j].id)
  }

  /** The detectors that carry an id, in their order. */
  function OfId(ds: seq<Detector>, id: string): seq<Detector> {
    if ds == [] then [] else (if ds[0].id == id then [ds[0]] else []) + OfId(ds[1..], id)
  }

  lemma {:induction false} AtMostIsTotal(a: string, b: string)
    ensures AtMost(a, b) || AtMost(b, a)
    ensures AtMost(a, b) && AtMost(b, a) ==> a == b
  {
    if a == [] || b == [] || a[0] != b[0] {
    } else {
      AtMostIsTotal(a[1..], b[1..]);
      assert a == [a[0]] + a[1..] && b == [b[0]] + b[1..];
    }
  }

  lemma {:induction false} AtMostIsTransitive(a: string, b: string, c: string)
    requires AtMost(a, b) && AtMost(b, c)
    ensures AtMost(a, c)
  {
    if a == [] || a[0] != b[0] || b[0] != c[0] {
    } else {
      AtMostIsTransitive(a[1..], b[1..], c[1..]);
    }
  }

  lemma {:induction false} InsertMembers(d: Detector, sorted: seq<Detector>)
    ensures multiset(Insert(d, sorted)) == multiset(sorted) + multiset{d}
    ensures forall x :: x in Insert(d, sorted) <==> x == d || x in sorted
  {
    if sorted == [] || AtMost(d.id, sorted[0].id) {
    } else {
      InsertMembers(d, sorted[1..]);
      assert sorted == [sorted[0]] + sorted[1..];
    }
  }

  lemma {:induction false} InsertKeepsOrder(d: Detector, sorted: seq<Detector>)
    requires SortedById(sorted)
    ensures SortedById(Insert(d, sorted))
  {
    if sorted == [] {
    } else if AtMost(d.id, sorted[0].id) {
      forall j | 0 <= j < |sorted| ensures AtMost(d.id, sorted[j].id) {
        if j > 0 {
          AtMostIsTransitive(d.id, sorted[0].id, sorted[j].id);
        }
      }
    } else {
      AtMostIsTotal(d.id, sorted[0].id);
      InsertKeepsOrder(d, sorted[1..]);
      InsertMembers(d, sorted[1..]);
      var rest := Insert(d, sorted[1..]);
      forall j | 0 <= j < |rest| ensures AtMost(sorted[0].id, rest[j].id) {
        assert rest[j] in rest;
      }
    }
  }

  lemma OfIdCons(x: Detector, tail: seq<Detector>, id: string)
    ensures OfId([x] + tail, id) == (if x.id == id then [x] else []) + OfId(tail, id)
  {
    assert ([x] + tail)[1..] == tail;
  }

  lemma {:induction false} InsertIsStable(d: Detector, sorted: seq<Detector>, id: string)
    ensures OfId(Insert(d, sorted), id) == (if d.id == id then [d] else []) + OfId(sorted, id)
  {
    if sorted == [] || AtMost(d.id, sorted[0].id) {
      OfIdCons(d, sorted, id);
    } else {
      var first, tail := sorted[0], sorted[1..];
      assert sorted == [first] + tail;
      InsertIsStable(d, tail, id);
      OfIdCons(first, Insert(d, tail), id);
      OfIdCons(first, tail, id);
      AtMostIsReflexive(d.id);
      assert first.id != d.id;
    }
  }

  lemma {:induction false} AtMostIsReflexive(a: string)
    ensures AtMost(a, a)
  {
    AtMostIsTotal(a, a);
  }

  lemma {:induction false} RegistrationSorts(ds: seq<Detector>)
    ensures SortedById(WithDetectors(ds))
  {
    if ds == [] {
    } else {
      RegistrationSorts(ds[1..]);
      InsertKeepsOrder(ds[0], WithDetectors(ds[1..]));
    }
  }

  lemma {:induction false} RegistrationPermutes(ds: seq<Detector>)
    ensures multiset(WithDetectors(ds)) == multiset(ds)
  {
    if ds == [] {
    } else {
      RegistrationPermutes(ds[1..]);
      InsertMembers(ds[0], WithDetectors(ds[1..]));
      assert ds == [ds[0]] + ds[1..];
    }
  }

  lemma {:induction false} RegistrationIsStable(ds: seq<Detector>, id: string)
    ensures OfId(WithDetectors(ds), id) == OfId(ds, id)
  {
    if ds == [] {
    } else {
      RegistrationIsStable(ds[1..], id);
      InsertIsStable(ds[0], WithDetectors(ds[1..]), id);
    }
  }

  /** Registration gives a sorted permutation that keeps the order among equal ids. */
  lemma RegistrationSortsStably(ds: seq<Detector>)
    ensures SortedById(WithDetectors(ds)) && multiset(WithDetectors(ds)) == multiset(ds)
    ensures SameWithinIds(WithDetectors(ds), ds)
  {
    RegistrationSorts(ds);
    RegistrationPermutes(ds);
    forall id ensures OfId(WithDetectors(ds), id) == OfId(ds, id) {
      RegistrationIsStable(ds, id);
    }
  }

  lemma {:induction false} OfIdFindsFirst(ds: seq<Detector>, d: Detector)
    requires d in ds
    ensures OfId(ds, d.id) != []
  {
    if ds[0] == d {
    } else {
      OfIdFindsFirst(ds[1..], d);
    }
  }

  lemma {:induction false} OfIdMembers(ds: seq<Detector>, id: string)
    ensures forall d :: d in OfId(ds, id) <==> d in ds && d.id == id
  {
    if ds == [] {
    } else {
      OfIdMembers(ds[1..], id);
    }
  }

  lemma HeadIsSmallest(a: seq<Detector>, b: seq<Detector>)
    requires a != [] && b != [] && SortedById(b) && OfId(a, a[0].id) == OfId(b, a[0].id)
    ensures AtMost(b[0].id, a[0].id)
  {
    OfIdMembers(b, a[0].id);
    assert a[0] == OfId(a, a[0].id)[0];
    assert a[0] in OfId(b, a[0].id);
    AtMostIsReflexive(a[0].id);
  }

  /** Detectors of equal id come in the same order. */
  ghost predicate SameWithinIds(a: seq<Detector>, b: seq<Detector>) {
    forall id :: OfId(a, id) == OfId(b, id)
  }

  /** A sorted sequence is determined by its sub-sequences of equal id. */
  lemma {:induction false} StableSortIsUnique(a: seq<Detector>, b: seq<Detector>)
    requires SortedById(a) && SortedById(b) && SameWithinIds(a, b)
    ensures a == b
  {
    if a == [] || b == [] {
      if a != [] {
        OfIdFindsFirst(a, a[0]);
        assert false;
      }
      if b != [] {
        OfIdFindsFirst(b, b[0]);
        assert false;
      }
    } else {
      HeadIsSmallest(a, b);
      HeadIsSmallest(b, a);
      AtMostIsTotal(a[0].id, b[0].id);
      assert a[0] == OfId(a, a[0].id)[0] == OfId(b, b[0].id)[0] == b[0];
      forall id ensures OfId(a[1..], id) == OfId(b[1..], id) {
        TailOfId(a, id);
        TailOfId(b, id);
      }
      StableSortIsUnique(a[1..], b[1..]);
      assert a == [a[0]] + a[1..] && b == [b[0]] + b[1..];
    }
  }

  lemma TailOfId(a: seq<Detector>, id: string)
    requires a != []
    ensures OfId(a[1..], id) == if a[0].id == id then OfId(a, id)[1..] else OfId(a, id)
  {
  }

  /** Two registrations run in the same order exactly when they agree on the order among equal ids. */
  lemma OrderDependsOnlyOnEqualIds(a: seq<Detector>, b: seq<Detector>)
    ensures WithDetectors(a) == WithDetectors(b) <==> SameWithinIds(a, b)
  {
    RegistrationSortsStably(a);
    RegistrationSortsStably(b);
    if SameWithinIds(a, b) {
      StableSortIsUnique(WithDetectors(a), WithDetectors(b));
    }
  }

  ghost predicate DistinctIds(ds: seq<Detector>) {
    forall i, j :: 0 <= i < j < |ds| ==> ds[i].id != ds[j].id
  }

  lemma {:induction false} OfIdNone(ds: seq<Detector>, id: string)
    requires forall d :: d in ds ==> d.id != id
    ensures OfId(ds, id) == []
  {
    if ds == [] {
    } else {
      OfIdNone(ds[1..], id);
    }
  }

  lemma {:induction false} DistinctOfId(ds: seq<Detector>, d: Detector)
    requires DistinctIds(ds) && d in ds
    ensures OfId(ds, d.id) == [d]
  {
    if ds[0] == d {
      OfIdNone(ds[1..], d.id);
    } else {
      DistinctOfId(ds[1..], d);
    }
  }

  lemma SameOfId(a: seq<Detector>, b: seq<Detector>, id: string)
    requires DistinctIds(a) && DistinctIds(b) && forall d :: d in a <==> d in b
    ensures OfId(a, id) == OfId(b, id)
  {
    if d :| d in a && d.id == id {
      DistinctOfId(a, d);
      DistinctOfId(b, d);
    } else {
      OfIdNone(a, id);
      OfIdNone(b, id);
    }
  }

  /** With distinct ids every permutation of the registration is the same coordinator. */
  lemma RegistrationOrderIsIrrelevant(a: seq<Detector>, b: seq<Detector>)
    requires DistinctIds(a) && DistinctIds(b) && multiset(a) == multiset(b)
    ensures WithDetectors(a) == WithDetectors(b)
  {
    assert forall d :: d in a <==> d in multiset(a);
    assert forall d :: d in b <==> d in multiset(b);
    forall id ensures OfId(a, id) == OfId(b, id) {
      SameOfId(a, b, id);
    }
    OrderDependsOnlyOnEqualIds(a, b);
  }

  // ----- running the detectors

  /** `supports_artifact_kind`: an empty list supports every kind. */
  predicate Supports(d: Detector, kind: ArtifactKind) {
    d.supportedKinds == [] || kind in d.supportedKinds
  }

  function RewriteDigests(findings: seq<Finding>, sha256: string): (r: seq<Finding>)
    ensures |r| == |findings|
  {
    if findings == [] then [] else [findings[0].(artifactSha256 := sha256)] + RewriteDigests(findings[1..], sha256)
  }

  /** `run_detector`: anything but a delivered list of findings yields none, and a status that is not `Ok`. */
  function RunDetector(d: Detector, sha256: string): Execution {
    match d.outcome
    case Findings(raw) =>
      var findings := RewriteDigests(raw, sha256);
      Execution(DetectorResult(d.id, Ok, |findings|), findings)
    case Failed(message) => Execution(DetectorResult(d.id, Error(message), 0), [])
    case Panicked(message) => Execution(DetectorResult(d.id, Error(message), 0), [])
    case TimedOut => Execution(DetectorResult(d.id, Timeout, 0), [])
    case Disconnected => Execution(DetectorResult(d.id, Error("detector thread disconnected"), 0), [])
  }

  /** `f` of the kept elements, in order. */
  function Gathered<A, B>(s: seq<A>, keep: A -> bool, f: A -> B): seq<B> {
    if s == [] then [] else (if keep(s[0]) then [f(s[0])] else []) + Gathered(s[1..], keep, f)
  }

  lemma {:induction false} GatheredAppend<A, B>(s: seq<A>, x: A, keep: A -> bool, f: A -> B)
    ensures Gathered(s + [x], keep, f) == Gathered(s, keep, f) + (if keep(x) then [f(x)] else [])
  {
    if s == [] {
      assert [] + [x] == [x] && [x][1..] == [];
    } else {
      GatheredAppend(s[1..], x, keep, f);
      assert (s + [x])[0] == s[0] && (s + [x])[1..] == s[1..] + [x];
      Common.Regroup(if keep(s[0]) then [f(s[0])] else [], Gathered(s[1..], keep, f), if keep(x) then [f(x)] else []);
    }
  }

  lemma {:induction false} GatheredMembers<A(!new), B(!new)>(s: seq<A>, keep: A -> bool, f: A -> B)
    ensures forall y :: y in Gathered(s, keep, f) <==> exists x :: x in s && keep(x) && y == f(x)
  {
    if s == [] {
    } else {
      GatheredMembers(s[1..], keep, f);
      assert forall x :: x in s <==> x == s[0] || x in s[1..];
    }
  }

  function Supporter(kind: ArtifactKind): Detector -> bool {
    d => Supports(d, kind)
  }

  function Runner(sha256: string): Detector -> Execution {
    d => RunDetector(d, sha256)
  }

  /** The executions of the detectors that support the kind, in detector order. */
  function Executions(ds: seq<Detector>, kind: ArtifactKind, sha256: string): seq<Execution> {
    Gathered(ds, Supporter(kind), Runner(sha256))
  }

  function AllFindings(es: seq<Execution>): seq<Finding> {
    if es == [] then [] else es[0].findings + AllFindings(es[1..])
  }

  function AllResults(es: seq<Execution>): (r: seq<DetectorResult>)
    ensures |r| == |es|
  {
    if es == [] then [] else [es[0].result] + AllResults(es[1..])
  }

  // ----- mandatory coverage

  const SHELL_DETECTOR_ID := "arbitraitor-analysis.shell"
  const PYJS_DETECTOR_ID := "arbitraitor-analysis.python-js"
  const ARTIFACT_DETECTOR_ID := "arbitraitor-analysis.artifact"
  const ARCHIVE_DETECTOR_ID := "arbitraitor-analysis.archive-hazards"
  const URL_DISCOVERY_DETECTOR_ID := "arbitraitor-analysis.url-discovery"
  const MANDATORY_COVERAGE_DETECTOR_ID := "arbitraitor-analysis.mandatory-coverage"

  /** The ids of the built-in detectors. */
  datatype DetectorIds = DetectorIds(shell: string, pyjs: string, artifact: string, archive: string, urls: string)

  const BUILT_IN: DetectorIds :=
    DetectorIds(SHELL_DETECTOR_ID, PYJS_DETECTOR_ID, ARTIFACT_DETECTOR_ID,
                ARCHIVE_DETECTOR_ID, URL_DISCOVERY_DETECTOR_ID)

  /** The coverage table. */
  function MandatoryAmong(ids: DetectorIds, kind: ArtifactKind): seq<string> {
    match kind
    case ShellScript(_) => [ids.shell]
    case PythonScript | JavaScript => [ids.pyjs]
    case ElfExecutable | PeExecutable | MachOExecutable | WindowsShortcut => [ids.artifact]
    case Zip | Tar(_) | Gzip | Bzip2 | Xz | Zstd => [ids.archive]
    case Html | Json => [ids.urls]
    case _ => []
  }

  function MandatoryDetectors(kind: ArtifactKind): seq<string> {
    MandatoryAmong(BUILT_IN, kind)
  }

  predicate Ran(results: seq<DetectorResult>, id: string) {
    exists r :: r in results && r.id == id
  }

  function MissingDetectorFinding(sha256: string): Finding {
    Finding("mandatory-detector.missing", MANDATORY_COVERAGE_DETECTOR_ID, Critical, sha256)
  }

  /** `validate_coverage` over the given mandatory ids: one critical finding for each that did not run. */
  function CoverageFindings(mandatory: seq<string>, results: seq<DetectorResult>, sha256: string): seq<Finding> {
    if mandatory == [] then []
    else
      (if Ran(results, mandatory[0]) then [] else [MissingDetectorFinding(sha256)])
      + CoverageFindings(mandatory[1..], results, sha256)
  }

  // ----- the verdict

  predicate HasSeverity(findings: seq<Finding>, severity: Severity) {
    exists f :: f in findings && f.severity == severity
  }

  function DeriveVerdict(findings: seq<Finding>, results: seq<DetectorResult>): Verdict {
    if exists r :: r in results && r.status != Ok then Incomplete
    else if HasSeverity(findings, Critical) then Block
    else if HasSeverity(findings, High) then Prompt
    else if HasSeverity(findings, Medium) || HasSeverity(findings, Low) then Warn
    else Pass
  }

  /** What `analyze_with_retrieval` returns for detectors in this order. */
  function Analysis(ds: seq<Detector>, kind: ArtifactKind, sha256: string): AnalysisResult {
    var es := Executions(ds, kind, sha256);
    var results := AllResults(es);
    var findings := AllFindings(es) + CoverageFindings(MandatoryDetectors(kind), results, sha256);
    AnalysisResult(findings, results, DeriveVerdict(findings, results))
  }

  lemma {:induction false} AllAppend(es: seq<Execution>, e: Execution)
    ensures AllFindings(es + [e]) == AllFindings(es) + e.findings
    ensures AllResults(es + [e]) == AllResults(es) + [e.result]
  {
    if es == [] {
      assert [e][1..] == [] && es + [e] == [e];
      assert e.findings + AllFindings([]) == AllFindings([]) + e.findings;
    } else {
      AllAppend(es[1..], e);
      assert (es + [e])[1..] == es[1..] + [e];
      assert es[0].findings + (AllFindings(es[1..]) + e.findings)
          == (es[0].findings + AllFindings(es[1..])) + e.findings;
    }
  }

  /** The detector loop of `analyze_with_retrieval`. */
  method RunAll(ds: seq<Detector>, kind: ArtifactKind, sha256: string)
    returns (findings: seq<Finding>, results: seq<DetectorResult>)
    ensures findings == AllFindings(Executions(ds, kind, sha256))
    ensures results == AllResults(Executions(ds, kind, sha256))
  {
    findings, results := [], [];
    ghost var es := [];
    for i := 0 to |ds|
      invariant es == Executions(ds[..i], kind, sha256)
      invariant findings == AllFindings(es) && results == AllResults(es)
    {
      GatheredAppend(ds[..i], ds[i], Supporter(kind), Runner(sha256));
      assert ds[..i] + [ds[i]] == ds[..i + 1];
      if Supports(ds[i], kind) {
        var execution := RunDetector(ds[i], sha256);
        AllAppend(es, execution);
        findings := findings + execution.findings;
        results := results + [execution.result];
        es := es + [execution];
      }
    }
    assert ds[..|ds|] == ds;
  }

  method AnalyzeWithRetrieval(ds: seq<Detector>, kind: ArtifactKind, sha256: string) returns (r: AnalysisResult)
    ensures r == Analysis(ds, kind, sha256)
  {
    var findings, results := RunAll(ds, kind, sha256);
    findings := findings + CoverageFindings(MandatoryDetectors(kind), results, sha256);
    r := AnalysisResult(findings, results, DeriveVerdict(findings, results));
  }

  // ----- what the verdict means for the registered detectors

  /** Every detector that supports the kind delivered its findings. */
  ghost predicate AllDelivered(ds: seq<Detector>, kind: ArtifactKind) {
    forall d :: d in ds && Supports(d, kind) ==> d.outcome.Findings?
  }

  /** Some detector that supports the kind delivered a finding of this severity. */
  ghost predicate Reported(ds: seq<Detector>, kind: ArtifactKind, severity: Severity) {
    exists d :: d in ds && Supports(d, kind) && d.outcome.Findings? && HasSeverity(d.outcome.raw, severity)
  }

  /** Every mandatory id belongs to a registered detector that supports the kind. */
  ghost predicate Covered(ds: seq<Detector>, kind: ArtifactKind) {
    CoveredFor(ds, kind, MandatoryDetectors(kind))
  }

  ghost predicate CoveredFor(ds: seq<Detector>, kind: ArtifactKind, mandatory: seq<string>) {
    forall id :: id in mandatory ==> exists d :: d in ds && d.id == id && Supports(d, kind)
  }

  lemma ExecutionMembers(ds: seq<Detector>, kind: ArtifactKind, sha256: string)
    ensures forall e :: e in Executions(ds, kind, sha256) <==>
      exists d :: d in ds && Supports(d, kind) && e == RunDetector(d, sha256)
  {
    GatheredMembers(ds, Supporter(kind), Runner(sha256));
    forall e | e in Executions(ds, kind, sha256)
      ensures exists d :: d in ds && Supports(d, kind) && e == RunDetector(d, sha256)
    {
      var d :| d in ds && Supporter(kind)(d) && e == Runner(sha256)(d);
    }
    forall d | d in ds && Supports(d, kind) ensures RunDetector(d, sha256) in Executions(ds, kind, sha256) {
      assert Supporter(kind)(d) && Runner(sha256)(d) == RunDetector(d, sha256);
    }
  }

  lemma {:induction false} ResultMembers(es: seq<Execution>)
    ensures forall r :: r in AllResults(es) <==> exists e :: e in es && e.result == r
  {
    if es == [] {
    } else {
      ResultMembers(es[1..]);
      assert forall e :: e in es <==> e == es[0] || e in es[1..];
    }
  }

  lemma {:induction false} FindingMembers(es: seq<Execution>)
    ensures forall f :: f in AllFindings(es) <==> exists e :: e in es && f in e.findings
  {
    if es == [] {
    } else {
      FindingMembers(es[1..]);
      assert forall e :: e in es <==> e == es[0] || e in es[1..];
    }
  }

  lemma {:induction false} RewriteMembers(raw: seq<Finding>, sha256: string)
    ensures forall f :: f in RewriteDigests(raw, sha256) <==> exists g :: g in raw && f == g.(artifactSha256 := sha256)
  {
    if raw == [] {
    } else {
      RewriteMembers(raw[1..], sha256);
      assert forall g :: g in raw <==> g == raw[0] || g in raw[1..];
    }
  }

  lemma {:induction false} CoverageMembers(mandatory: seq<string>, results: seq<DetectorResult>, sha256: string)
    ensures forall f :: f in CoverageFindings(mandatory, results, sha256) ==> f == MissingDetectorFinding(sha256)
    ensures CoverageFindings(mandatory, results, sha256) == [] <==> forall id :: id in mandatory ==> Ran(results, id)
  {
    if mandatory == [] {
    } else {
      CoverageMembers(mandatory[1..], results, sha256);
      assert forall id :: id in mandatory <==> id == mandatory[0] || id in mandatory[1..];
    }
  }

  /**
    Every reported finding is the finding of a detector that supports the kind and
    delivered, now carrying the digest of this artifact, or the one about missing
    coverage; and no delivered finding is lost, whatever the other detectors did.
   */
  lemma FindingsAreExactlyTheDelivered(ds: seq<Detector>, kind: ArtifactKind, sha256: string, f: Finding)
    ensures f in AllFindings(Executions(ds, kind, sha256)) <==>
      exists d, g :: d in ds && Supports(d, kind) && d.outcome.Findings? && g in d.outcome.raw
        && f == g.(artifactSha256 := sha256)
  {
    var es := Executions(ds, kind, sha256);
    ExecutionMembers(ds, kind, sha256);
    FindingMembers(es);
    if f in AllFindings(es) {
      var e :| e in es && f in e.findings;
      var d :| d in ds && Supports(d, kind) && e == RunDetector(d, sha256);
      RewriteMembers(d.outcome.raw, sha256);
    }
    forall d, g | d in ds && Supports(d, kind) && d.outcome.Findings? && g in d.outcome.raw
                  && f == g.(artifactSha256 := sha256)
      ensures f in AllFindings(es)
    {
      RewriteMembers(d.outcome.raw, sha256);
      assert RunDetector(d, sha256) in es;
    }
  }

  lemma DigestIsOfThisArtifact(ds: seq<Detector>, kind: ArtifactKind, sha256: string)
    ensures forall f :: f in Analysis(ds, kind, sha256).findings ==> f.artifactSha256 == sha256
  {
    var es := Executions(ds, kind, sha256);
    CoverageMembers(MandatoryDetectors(kind), AllResults(es), sha256);
    forall f | f in AllFindings(es) ensures f.artifactSha256 == sha256 {
      FindingsAreExactlyTheDelivered(ds, kind, sha256, f);
    }
  }

  lemma SeverityIsReported(ds: seq<Detector>, kind: ArtifactKind, sha256: string, severity: Severity)
    ensures HasSeverity(AllFindings(Executions(ds, kind, sha256)), severity) <==> Reported(ds, kind, severity)
  {
    var findings := AllFindings(Executions(ds, kind, sha256));
    if HasSeverity(findings, severity) {
      var f :| f in findings && f.severity == severity;
      FindingsAreExactlyTheDelivered(ds, kind, sha256, f);
    }
    if Reported(ds, kind, severity) {
      var d :| d in ds && Supports(d, kind) && d.outcome.Findings? && HasSeverity(d.outcome.raw, severity);
      var g :| g in d.outcome.raw && g.severity == severity;
      FindingsAreExactlyTheDelivered(ds, kind, sha256, g.(artifactSha256 := sha256));
    }
  }

  lemma StatusesAreOkExactly(ds: seq<Detector>, kind: ArtifactKind, sha256: string)
    ensures (forall r :: r in Analysis(ds, kind, sha256).results ==> r.status == Ok) <==> AllDelivered(ds, kind)
  {
    var es := Executions(ds, kind, sha256);
    ExecutionMembers(ds, kind, sha256);
    ResultMembers(es);
    if forall r :: r in AllResults(es) ==> r.status == Ok {
      forall d | d in ds && Supports(d, kind) ensures d.outcome.Findings? {
        assert RunDetector(d, sha256) in es;
      }
    }
  }

  lemma RanExactly(ds: seq<Detector>, kind: ArtifactKind, sha256: string, id: string)
    ensures Ran(AllResults(Executions(ds, kind, sha256)), id) <==>
      exists d :: d in ds && d.id == id && Supports(d, kind)
  {
    var es := Executions(ds, kind, sha256);
    ExecutionMembers(ds, kind, sha256);
    ResultMembers(es);
    forall d | d in ds && d.id == id && Supports(d, kind) ensures Ran(AllResults(es), id) {
      assert RunDetector(d, sha256) in es;
      assert RunDetector(d, sha256).result in AllResults(es);
    }
  }

  lemma CoverageIsCompleteExactly(ds: seq<Detector>, kind: ArtifactKind, sha256: string)
    ensures CoverageFindings(MandatoryDetectors(kind), AllResults(Executions(ds, kind, sha256)), sha256) == [] <==>
      Covered(ds, kind)
  {
    var results := AllResults(Executions(ds, kind, sha256));
    CoverageMembers(MandatoryDetectors(kind), results, sha256);
    forall id | id in MandatoryDetectors(kind)
      ensures Ran(results, id) <==> exists d :: d in ds && d.id == id && Supports(d, kind)
    {
      RanExactly(ds, kind, sha256, id);
    }
  }

  /** Severities in the whole result: coverage can only add a critical one. */
  lemma SeveritiesOfTheResult(ds: seq<Detector>, kind: ArtifactKind, sha256: string, severity: Severity)
    ensures HasSeverity(Analysis(ds, kind, sha256).findings, severity) <==>
      Reported(ds, kind, severity) || (severity == Critical && !Covered(ds, kind))
  {
    var es := Executions(ds, kind, sha256);
    var own, missing := AllFindings(es), CoverageFindings(MandatoryDetectors(kind), AllResults(es), sha256);
    assert Analysis(ds, kind, sha256).findings == own + missing;
    CoverageMembers(MandatoryDetectors(kind), AllResults(es), sha256);
    CoverageIsCompleteExactly(ds, kind, sha256);
    SeverityIsReported(ds, kind, sha256, severity);
    assert HasSeverity(own + missing, severity) <==> HasSeverity(own, severity) || HasSeverity(missing, severity);
    if missing != [] {
      assert missing[0] in missing;
    }
  }

  /** The verdict in terms of what is registered and what it delivered. */
  lemma VerdictIsExact(ds: seq<Detector>, kind: ArtifactKind, sha256: string)
    ensures Analysis(ds, kind, sha256).verdict ==
      if !AllDelivered(ds, kind) then Incomplete
      else if !Covered(ds, kind) || Reported(ds, kind, Critical) then Block
      else if Reported(ds, kind, High) then Prompt
      else if Reported(ds, kind, Medium) || Reported(ds, kind, Low) then Warn
      else Pass
  {
    StatusesAreOkExactly(ds, kind, sha256);
    SeveritiesOfTheResult(ds, kind, sha256, Critical);
    SeveritiesOfTheResult(ds, kind, sha256, High);
    SeveritiesOfTheResult(ds, kind, sha256, Medium);
    SeveritiesOfTheResult(ds, kind, sha256, Low);
  }

  /** `Pass` holds exactly when every status is `Ok` and every finding, coverage included, is informational. */
  lemma PassExactly(ds: seq<Detector>, kind: ArtifactKind, sha256: string)
    ensures var a := Analysis(ds, kind, sha256);
      a.verdict == Pass <==>
        && (forall r :: r in a.results ==> r.status == Ok)
        && (forall f :: f in a.findings ==> f.severity == Informational)
  {
    var a := Analysis(ds, kind, sha256);
    if a.verdict == Pass {
      forall f | f in a.findings ensures f.severity == Informational {
        assert HasSeverity(a.findings, f.severity);
      }
    }
  }

  /** Fail closed: unless the verdict is `Block` or `Incomplete`, every mandatory detector ran and delivered. */
  lemma ReleaseNeedsEveryMandatoryDetector(ds: seq<Detector>, kind: ArtifactKind, sha256: string, id: string)
    requires Analysis(ds, kind, sha256).verdict != Block && Analysis(ds, kind, sha256).verdict != Incomplete
    requires id in MandatoryDetectors(kind)
    ensures exists d :: d in ds && d.id == id && Supports(d, kind) && d.outcome.Findings?
  {
    VerdictIsExact(ds, kind, sha256);
    var d :| d in ds && d.id == id && Supports(d, kind);
  }

  /** A registered detector with this id supports the kind and delivered its findings. */
  ghost predicate Delivered(ds: seq<Detector>, kind: ArtifactKind, id: string) {
    exists d :: d in ds && d.id == id && Supports(d, kind) && d.outcome.Findings?
  }

  /** The detector each kind cannot do without, among ids that may be any. */
  lemma NeedsAmong(ds: seq<Detector>, kind: ArtifactKind, ids: DetectorIds)
    requires AllDelivered(ds, kind) && CoveredFor(ds, kind, MandatoryAmong(ids, kind))
    ensures kind.ShellScript? ==> Delivered(ds, kind, ids.shell)
    ensures kind.PythonScript? || kind.JavaScript? ==> Delivered(ds, kind, ids.pyjs)
    ensures kind.ElfExecutable? || kind.PeExecutable? || kind.MachOExecutable? || kind.WindowsShortcut? ==>
      Delivered(ds, kind, ids.artifact)
    ensures kind.Zip? || kind.Tar? || kind.Gzip? || kind.Bzip2? || kind.Xz? || kind.Zstd? ==>
      Delivered(ds, kind, ids.archive)
    ensures kind.Html? || kind.Json? ==> Delivered(ds, kind, ids.urls)
  {
    forall id | id in MandatoryAmong(ids, kind) ensures Delivered(ds, kind, id) {
      var d :| d in ds && d.id == id && Supports(d, kind);
    }
    assert MandatoryAmong(ids, kind) != [] ==> MandatoryAmong(ids, kind)[0] in MandatoryAmong(ids, kind);
  }

  /**
    Fail closed, kind by kind: a verdict other than `Block` or `Incomplete` means
    that the detector named for the kind is registered, supports it and delivered.
   */
  lemma ReleaseNeedsNamedDetector(ds: seq<Detector>, kind: ArtifactKind, sha256: string)
    requires Analysis(ds, kind, sha256).verdict != Block && Analysis(ds, kind, sha256).verdict != Incomplete
    ensures kind.ShellScript? ==> Delivered(ds, kind, "arbitraitor-analysis.shell")
    ensures kind.PythonScript? || kind.JavaScript? ==> Delivered(ds, kind, "arbitraitor-analysis.python-js")
    ensures kind.ElfExecutable? || kind.PeExecutable? || kind.MachOExecutable? || kind.WindowsShortcut? ==>
      Delivered(ds, kind, "arbitraitor-analysis.artifact")
    ensures kind.Zip? || kind.Tar? || kind.Gzip? || kind.Bzip2? || kind.Xz? || kind.Zstd? ==>
      Delivered(ds, kind, "arbitraitor-analysis.archive-hazards")
    ensures kind.Html? || kind.Json? ==> Delivered(ds, kind, "arbitraitor-analysis.url-discovery")
  {
    VerdictIsExact(ds, kind, sha256);
    NeedsAmong(ds, kind, BUILT_IN);
  }

  /** The kinds the coverage table has a row for. */
  predicate HasMandatoryDetector(kind: ArtifactKind) {
    || kind.ShellScript? || kind.PythonScript? || kind.JavaScript?
    || kind.ElfExecutable? || kind.PeExecutable? || kind.MachOExecutable? || kind.WindowsShortcut?
    || kind.Zip? || kind.Tar? || kind.Gzip? || kind.Bzip2? || kind.Xz? || kind.Zstd?
    || kind.Html? || kind.Json?
  }

  /**
    With nothing registered, the kinds of the table are blocked and all others pass;
    the one finding says that the mandatory detector is missing.
   */
  lemma NothingRegistered(kind: ArtifactKind, sha256: string)
    ensures Analysis([], kind, sha256) ==
      if HasMandatoryDetector(kind) then
        AnalysisResult(
          [Finding("mandatory-detector.missing", "arbitraitor-analysis.mandatory-coverage", Critical, sha256)],
          [], Block)
      else AnalysisResult([], [], Pass)
  {
    MandatoryIsOneOrNone(BUILT_IN, kind);
    assert Executions([], kind, sha256) == [];
    NothingCovered(MandatoryDetectors(kind), sha256);
  }

  lemma MandatoryIsOneOrNone(ids: DetectorIds, kind: ArtifactKind)
    ensures |MandatoryAmong(ids, kind)| == if HasMandatoryDetector(kind) then 1 else 0
  {
  }

  /** The verdict when no detector has run. */
  lemma NothingCovered(mandatory: seq<string>, sha256: string)
    requires |mandatory| <= 1
    ensures var findings := AllFindings([]) + CoverageFindings(mandatory, AllResults([]), sha256);
      if mandatory == [] then findings == [] && DeriveVerdict(findings, AllResults([])) == Pass
      else findings == [MissingDetectorFinding(sha256)] && DeriveVerdict(findings, AllResults([])) == Block
  {
    if mandatory != [] {
      var missing := MissingDetectorFinding(sha256);
      assert mandatory[1..] == [] && [missing] + [] == [missing];
      assert CoverageFindings(mandatory, [], sha256) == [missing];
      assert [missing][0] == missing;
    }
  }

  /** Every detector that supports the kind leaves a result: its id, what happened, and how many findings it has. */
  lemma ResultsAreExactlyTheSupporting(ds: seq<Detector>, kind: ArtifactKind, sha256: string, r: DetectorResult)
    ensures r in Analysis(ds, kind, sha256).results <==>
      exists d :: d in ds && (d.supportedKinds == [] || kind in d.supportedKinds) && r.id == d.id &&
        match d.outcome
        case Findings(raw) => r.status == Ok && r.findingCount == |raw|
        case Failed(message) => r.status == Error(message) && r.findingCount == 0
        case Panicked(message) => r.status == Error(message) && r.findingCount == 0
        case TimedOut => r.status == Timeout && r.findingCount == 0
        case Disconnected => r.status == Error("detector thread disconnected") && r.findingCount == 0
  {
    var es := Executions(ds, kind, sha256);
    ExecutionMembers(ds, kind, sha256);
    ResultMembers(es);
    if r in AllResults(es) {
      var e :| e in es && e.result == r;
      var d :| d in ds && Supports(d, kind) && e == RunDetector(d, sha256);
    }
    forall d | d in ds && Supports(d, kind) && r == RunDetector(d, sha256).result ensures r in AllResults(es) {
      assert RunDetector(d, sha256) in es;
    }
  }

  /** The verdict depends on the set of detectors only: not on their order, nor on repetitions. */
  lemma VerdictIgnoresOrder(a: seq<Detector>, b: seq<Detector>, kind: ArtifactKind, sha256: string)
    requires forall d :: d in a <==> d in b
    ensures Analysis(a, kind, sha256).verdict == Analysis(b, kind, sha256).verdict
  {
    VerdictIsExact(a, kind, sha256);
    VerdictIsExact(b, kind, sha256);
    SameConditions(a, b, kind);
    SameConditions(b, a, kind);
  }

  lemma SameConditions(a: seq<Detector>, b: seq<Detector>, kind: ArtifactKind)
    requires forall d :: d in a <==> d in b
    ensures AllDelivered(a, kind) ==> AllDelivered(b, kind)
    ensures Covered(a, kind) ==> Covered(b, kind)
    ensures forall severity :: Reported(a, kind, severity) ==> Reported(b, kind, severity)
  {
    if Covered(a, kind) {
      forall id | id in MandatoryDetectors(kind) ensures exists d :: d in b && d.id == id && Supports(d, kind) {
        var d :| d in a && d.id == id && Supports(d, kind);
        assert d in b;
      }
    }
    forall severity | Reported(a, kind, severity) ensures Reported(b, kind, severity) {
      var d :| d in a && Supports(d, kind) && d.outcome.Findings? && HasSeverity(d.outcome.raw, severity);
      assert d in b;
    }
  }

  /** With distinct ids, any permutation of the registration gives the same findings, results and verdict. */
  lemma AnalysisIgnoresRegistrationOrder(a: seq<Detector>, b: seq<Detector>, kind: ArtifactKind, sha256: string)
    requires DistinctIds(a) && DistinctIds(b) && multiset(a) == multiset(b)
    ensures Analysis(WithDetectors(a), kind, sha256) == Analysis(WithDetectors(b), kind, sha256)
  {
    RegistrationOrderIsIrrelevant(a, b);
  }

  // ----- the built-in detectors

  const ARCHIVE_KINDS: seq<ArtifactKind> := [Zip, Tar(Plain), Gzip, Bzip2, Xz, Zstd]
  const SHELL_KINDS: seq<ArtifactKind> := [ShellScript(Posix), ShellScript(Bash), ShellScript(Zsh)]
  const URL_KINDS: seq<ArtifactKind> := [Html, Json, PythonScript, JavaScript]

  /** What each built-in detector does on the artifact. */
  datatype Outcomes = Outcomes(archive: Outcome, artifact: Outcome, pyjs: Outcome, shell: Outcome, urls: Outcome)

  /** `default_detectors`. */
  function DefaultDetectors(ids: DetectorIds, o: Outcomes): seq<Detector> {
    [Detector(ids.archive, ARCHIVE_KINDS, o.archive), Detector(ids.artifact, [], o.artifact),
     Detector(ids.pyjs, [PythonScript, JavaScript], o.pyjs), Detector(ids.shell, SHELL_KINDS, o.shell),
     Detector(ids.urls, URL_KINDS, o.urls)]
  }

  lemma CoveredBy(ds: seq<Detector>, k: nat, kind: ArtifactKind)
    requires k < |ds| && Supports(ds[k], kind)
    ensures CoveredFor(ds, kind, [ds[k].id])
  {
    assert ds[k] in ds;
  }

  lemma CoverageOfIds(kind: ArtifactKind, ids: DetectorIds, o: Outcomes)
    requires ids.archive != ids.artifact && ids.archive != ids.pyjs
    requires ids.archive != ids.shell && ids.archive != ids.urls
    ensures CoveredFor(DefaultDetectors(ids, o), kind, MandatoryAmong(ids, kind)) <==>
      !(kind.Tar? && kind.compression != Plain)
  {
    var ds := DefaultDetectors(ids, o);
    SupportedKinds(kind);
    if kind.Tar? && kind.compression != Plain {
      assert ids.archive in MandatoryAmong(ids, kind);
      assert forall d :: d in ds && d.id == ids.archive ==> d == ds[0];
    } else if kind in ARCHIVE_KINDS {
      CoveredBy(ds, 0, kind);
    } else if kind.PeExecutable? || kind.ElfExecutable? || kind.MachOExecutable? || kind.WindowsShortcut? {
      CoveredBy(ds, 1, kind);
    } else if kind.PythonScript? || kind.JavaScript? {
      CoveredBy(ds, 2, kind);
    } else if kind.ShellScript? {
      CoveredBy(ds, 3, kind);
    } else if kind.Html? || kind.Json? {
      CoveredBy(ds, 4, kind);
    }
  }

  /**
    The built-in set covers every kind but the compressed tars, which the
    coverage table names and no built-in supports.
   */
  lemma DefaultsCoverExactly(kind: ArtifactKind, o: Outcomes)
    ensures Covered(DefaultDetectors(BUILT_IN, o), kind) <==> !(kind.Tar? && kind.compression != Plain)
  {
    IdsDiffer();
    CoverageOfIds(kind, BUILT_IN, o);
  }

  lemma RunsIfSupported(ds: seq<Detector>, k: nat, kind: ArtifactKind)
    requires k < |ds| && forall j :: 0 <= j < |ds| && j != k ==> ds[j].id != ds[k].id
    ensures (exists d :: d in ds && d.id == ds[k].id && Supports(d, kind)) <==> Supports(ds[k], kind)
  {
    if Supports(ds[k], kind) {
      assert ds[k] in ds;
    }
  }

  predicate AllDiffer(ids: DetectorIds) {
    && ids.archive != ids.artifact && ids.archive != ids.pyjs && ids.archive != ids.shell && ids.archive != ids.urls
    && ids.artifact != ids.pyjs && ids.artifact != ids.shell && ids.artifact != ids.urls
    && ids.pyjs != ids.shell && ids.pyjs != ids.urls && ids.shell != ids.urls
  }

  /** Which built-in detectors leave a result, by kind. */
  lemma BuiltInsRunExactly(kind: ArtifactKind, sha256: string, ids: DetectorIds, o: Outcomes)
    requires AllDiffer(ids)
    ensures var results := AllResults(Executions(DefaultDetectors(ids, o), kind, sha256));
      && (Ran(results, ids.archive) <==>
            kind.Zip? || kind == Tar(Plain) || kind.Gzip? || kind.Bzip2? || kind.Xz? || kind.Zstd?)
      && Ran(results, ids.artifact)
      && (Ran(results, ids.pyjs) <==> kind.PythonScript? || kind.JavaScript?)
      && (Ran(results, ids.shell) <==> kind.ShellScript?)
      && (Ran(results, ids.urls) <==> kind.Html? || kind.Json? || kind.PythonScript? || kind.JavaScript?)
  {
    var ds := DefaultDetectors(ids, o);
    SupportedKinds(kind);
    forall k: nat | k < |ds|
      ensures Ran(AllResults(Executions(ds, kind, sha256)), ds[k].id) <==> Supports(ds[k], kind)
    {
      RanExactly(ds, kind, sha256, ds[k].id);
      RunsIfSupported(ds, k, kind);
    }
    assert ds[0].id == ids.archive && ds[1].id == ids.artifact && ds[2].id == ids.pyjs;
    assert ds[3].id == ids.shell && ds[4].id == ids.urls;
  }

  lemma SupportedKinds(kind: ArtifactKind)
    ensures kind in ARCHIVE_KINDS <==>
      kind.Zip? || kind == Tar(Plain) || kind.Gzip? || kind.Bzip2? || kind.Xz? || kind.Zstd?
    ensures kind in [PythonScript, JavaScript] <==> kind.PythonScript? || kind.JavaScript?
    ensures kind in SHELL_KINDS <==> kind.ShellScript?
    ensures kind in URL_KINDS <==> kind.Html? || kind.Json? || kind.PythonScript? || kind.JavaScript?
  {
    ArchiveKinds(kind);
    ShellKinds(kind);
  }

  lemma ArchiveKinds(kind: ArtifactKind)
    ensures kind in ARCHIVE_KINDS <==>
      kind.Zip? || kind == Tar(Plain) || kind.Gzip? || kind.Bzip2? || kind.Xz? || kind.Zstd?
  {
    assert ARCHIVE_KINDS[0] == Zip && ARCHIVE_KINDS[1] == Tar(Plain) && ARCHIVE_KINDS[2] == Gzip;
    assert ARCHIVE_KINDS[3] == Bzip2 && ARCHIVE_KINDS[4] == Xz && ARCHIVE_KINDS[5] == Zstd;
  }

  lemma ShellKinds(kind: ArtifactKind)
    ensures kind in SHELL_KINDS <==> kind.ShellScript?
  {
    if kind.ShellScript? {
      var k := if kind.dialect.Posix? then 0 else if kind.dialect.Bash? then 1 else 2;
      assert SHELL_KINDS[k] == kind;
    }
  }

  lemma IdsDiffer()
    ensures ARCHIVE_DETECTOR_ID != ARTIFACT_DETECTOR_ID && ARCHIVE_DETECTOR_ID != PYJS_DETECTOR_ID
    ensures ARCHIVE_DETECTOR_ID != SHELL_DETECTOR_ID && ARCHIVE_DETECTOR_ID != URL_DISCOVERY_DETECTOR_ID
    ensures AllDiffer(BUILT_IN)
  {
    assert |ARCHIVE_DETECTOR_ID| == 36 && |ARTIFACT_DETECTOR_ID| == 29 && |PYJS_DETECTOR_ID| == 30;
    assert |SHELL_DETECTOR_ID| == 26 && |URL_DISCOVERY_DETECTOR_ID| == 34;
  }
}
