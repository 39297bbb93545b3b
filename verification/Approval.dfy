/** The plan-bound approval file: its canonical encoding, `verify` and `for_bash_execution`. */
module Approval {
  import opened Common
  import opened Text

  const APPROVAL_SCHEMA_VERSION: u32 := 2

  datatype ApprovalFile = ApprovalFile(
    schemaVersion: u32,
    artifactSha256: string, operation: string, releaseMode: string, interpreter: string,
    interpreterArguments: seq<string>, environmentProfileDigest: string, workingDirectoryPolicy: string,
    filesystemGrants: seq<string>, networkIsolated: bool, sandboxCapabilities: string, releaseDestination: string,
    policySnapshotDigest: string, detectorSnapshotDigest: string,
    planDigest: string, nonce: string, approver: string, approvedAt: u64, expiresAt: u64, verdict: string)

  datatype ApprovalError = UnsupportedSchema(version: u32) | PlanDigestMismatch | Expired | MissingField(field: string)

  // ----- encoding

  function DigitChar(d: nat): char
    requires d < 10
  {
    (d + '0' as int) as char
  }

  /** A number in decimal, as `{}` formats it. */
  function Decimal(n: nat): string {
    if n < 10 then [DigitChar(n)] else Decimal(n / 10) + [DigitChar(n % 10)]
  }

  function BoolText(b: bool): string {
    if b then "true" else "false"
  }

  /** What each line starts with, by line number. */
  function LineStart(k: nat): string {
    if k < 5 then LineStartOfFirstFive(k)
    else if k < 10 then LineStartOfNextFive(k)
    else if k == 10 then "release_destination="
    else if k == 11 then "policy_snapshot_digest="
    else if k == 12 then "detector_snapshot_digest="
    else if k == 13 then "nonce="
    else "expires_at="
  }

  function LineStartOfFirstFive(k: nat): string {
    if k == 0 then "artifact_sha256="
    else if k == 1 then OPERATION_START
    else if k == 2 then "release_mode="
    else if k == 3 then "interpreter="
    else "interpreter_arguments="
  }

  const OPERATION_START := "operation="

  function LineStartOfNextFive(k: nat): string {
    if k == 5 then "environment_profile_digest="
    else if k == 6 then "working_directory_policy="
    else if k == 7 then "filesystem_grants="
    else if k == 8 then "network_isolated="
    else "sandbox_capabilities="
  }

  /** The fifteen bound fields as text, in the order of their lines. */
  function BoundTexts(f: ApprovalFile): seq<string> {
    [f.artifactSha256, f.operation, f.releaseMode, f.interpreter, Join(f.interpreterArguments, ','),
     f.environmentProfileDigest, f.workingDirectoryPolicy, Join(f.filesystemGrants, ','), BoolText(f.networkIsolated),
     f.sandboxCapabilities, f.releaseDestination, f.policySnapshotDigest, f.detectorSnapshotDigest,
     f.nonce, Decimal(f.expiresAt)]
  }

  /** One line per text, numbered from `k`. */
  function Lines(start: nat -> string, k: nat, texts: seq<string>): string
    decreases texts
  {
    if texts == [] then "" else start(k) + (texts[0] + "\n" + Lines(start, k + 1, texts[1..]))
  }

  /** The buffer `compute_plan_digest` hashes. */
  function CanonicalBuffer(f: ApprovalFile): string {
    Lines(LineStart, 0, BoundTexts(f))
  }

  type DigestFunction = string -> string

  lemma {:induction false} LinesAppend(start: nat -> string, k: nat, texts: seq<string>, text: string)
    ensures Lines(start, k, texts + [text]) == Lines(start, k, texts) + (start(k + |texts|) + text + "\n")
    decreases texts
  {
    if texts == [] {
      assert [text][1..] == [];
      assert start(k) + (text + "\n" + "") == "" + (start(k) + text + "\n");
    } else {
      LinesAppend(start, k + 1, texts[1..], text);
      assert (texts + [text])[0] == texts[0] && (texts + [text])[1..] == texts[1..] + [text];
      var line, rest, last := texts[0] + "\n", Lines(start, k + 1, texts[1..]), start(k + |texts|) + text + "\n";
      Regroup(line, rest, last);
      Regroup(start(k), line + rest, last);
    }
  }

  /** `writeln!` of one field; the first `k` lines are already in the buffer. */
  method WriteLine(start: nat -> string, buf: string, k: nat, text: string, ghost texts: seq<string>)
    returns (longer: string)
    requires k < |texts| && text == texts[k] && buf == Lines(start, 0, texts[..k])
    ensures longer == Lines(start, 0, texts[..k + 1])
  {
    LinesAppend(start, 0, texts[..k], text);
    assert texts[..k] + [text] == texts[..k + 1];
    longer := buf + (start(k) + text + "\n");
  }

  /** The buffer is filled one line after the other: what runs, and how. */
  method WriteProgramLines(start: nat -> string, f: ApprovalFile, ghost t: seq<string>) returns (buf: string)
    requires t == BoundTexts(f)
    ensures buf == Lines(start, 0, t[..5])
  {
    buf := "";
    buf := WriteLine(start, buf, 0, f.artifactSha256, t);
    buf := WriteLine(start, buf, 1, f.operation, t);
    buf := WriteLine(start, buf, 2, f.releaseMode, t);
    buf := WriteLine(start, buf, 3, f.interpreter, t);
    buf := WriteLine(start, buf, 4, Join(f.interpreterArguments, ','), t);
  }

  /** In which environment. */
  method WriteEnvironmentLines(start: nat -> string, f: ApprovalFile, buffer: string, ghost t: seq<string>)
    returns (buf: string)
    requires t == BoundTexts(f) && buffer == Lines(start, 0, t[..5])
    ensures buf == Lines(start, 0, t[..10])
  {
    buf := buffer;
    buf := WriteLine(start, buf, 5, f.environmentProfileDigest, t);
    buf := WriteLine(start, buf, 6, f.workingDirectoryPolicy, t);
    buf := WriteLine(start, buf, 7, Join(f.filesystemGrants, ','), t);
    buf := WriteLine(start, buf, 8, BoolText(f.networkIsolated), t);
    buf := WriteLine(start, buf, 9, f.sandboxCapabilities, t);
  }

  /** For which release, under which policy, and until when. */
  method WriteReleaseLines(start: nat -> string, f: ApprovalFile, buffer: string, ghost t: seq<string>)
    returns (buf: string)
    requires t == BoundTexts(f) && buffer == Lines(start, 0, t[..10])
    ensures buf == Lines(start, 0, t)
  {
    buf := buffer;
    buf := WriteLine(start, buf, 10, f.releaseDestination, t);
    buf := WriteLine(start, buf, 11, f.policySnapshotDigest, t);
    buf := WriteLine(start, buf, 12, f.detectorSnapshotDigest, t);
    buf := WriteLine(start, buf, 13, f.nonce, t);
    buf := WriteLine(start, buf, 14, Decimal(f.expiresAt), t);
    assert t[..15] == t;
  }

  method ComputePlanDigest(f: ApprovalFile, sha256: DigestFunction) returns (digest: string)
    ensures digest == sha256(CanonicalBuffer(f))
  {
    ghost var texts := BoundTexts(f);
    var buf := WriteProgramLines(LineStart, f, texts);
    buf := WriteEnvironmentLines(LineStart, f, buf, texts);
    buf := WriteReleaseLines(LineStart, f, buf, texts);
    digest := sha256(buf);
  }

  /** What `verify` accepts. */
  function Verified(f: ApprovalFile, sha256: DigestFunction, now: u64): Option<ApprovalError> {
    if f.schemaVersion != APPROVAL_SCHEMA_VERSION then Some(UnsupportedSchema(f.schemaVersion))
    else if sha256(CanonicalBuffer(f)) != f.planDigest then Some(PlanDigestMismatch)
    else if now >= f.expiresAt then Some(Expired)
    else None
  }

  method Verify(f: ApprovalFile, sha256: DigestFunction, now: u64) returns (error: Option<ApprovalError>)
    ensures error == Verified(f, sha256, now)
  {
    if f.schemaVersion != APPROVAL_SCHEMA_VERSION {
      return Some(UnsupportedSchema(f.schemaVersion));
    }
    var recomputed := ComputePlanDigest(f, sha256);
    if recomputed != f.planDigest {
      return Some(PlanDigestMismatch);
    }
    if now >= f.expiresAt {
      return Some(Expired);
    }
    error := None;
  }

  // The fixed execution profile.
  const BASH_ARGUMENTS: seq<string> := ["--noprofile", "--norc"]
  const ENVIRONMENT_PROFILE_DIGEST := "mvp ExecutionContext allowlist v1"
  const WORKING_DIRECTORY_POLICY := "sandbox-root-stdin-fed"
  const SANDBOX_CAPABILITIES := "prctl NoNewPrivs + close_range fd closure"
  const RELEASE_DESTINATION := "inline-execute"

  datatype PlanInputs = PlanInputs(
    artifactSha256: string, networkIsolated: bool, policySnapshotDigest: string, detectorSnapshotDigest: string)

  /** `for_bash_execution`; the digest is filled in after construction and `nonce` is the fresh UUID. */
  method ForBashExecution(inputs: PlanInputs, approver: string, approvedAt: u64, expiresAt: u64, verdict: string,
                          nonce: string, sha256: DigestFunction)
    returns (r: Result<ApprovalFile, ApprovalError>)
    ensures approver == "" ==> r == Err(MissingField("approver"))
    ensures approver != "" ==>
      && r.Ok?
      && r.value.artifactSha256 == inputs.artifactSha256 && r.value.networkIsolated == inputs.networkIsolated
      && r.value.policySnapshotDigest == inputs.policySnapshotDigest
      && r.value.detectorSnapshotDigest == inputs.detectorSnapshotDigest
      && r.value.operation == "execute" && r.value.releaseMode == "execute" && r.value.interpreter == "/bin/bash"
      && r.value.schemaVersion == 2
      && r.value.interpreterArguments == BASH_ARGUMENTS && r.value.filesystemGrants == []
      && r.value.environmentProfileDigest == ENVIRONMENT_PROFILE_DIGEST
      && r.value.workingDirectoryPolicy == WORKING_DIRECTORY_POLICY
      && r.value.sandboxCapabilities == SANDBOX_CAPABILITIES && r.value.releaseDestination == RELEASE_DESTINATION
      && r.value.nonce == nonce && r.value.approver == approver
      && r.value.approvedAt == approvedAt && r.value.expiresAt == expiresAt && r.value.verdict == verdict
      && forall now: u64 :: Verified(r.value, sha256, now) == (if now < expiresAt then None else Some(Expired))
  {
    if approver == "" {
      return Err(MissingField("approver"));
    }
    var file := ApprovalFile(
      APPROVAL_SCHEMA_VERSION, inputs.artifactSha256, "execute", "execute", "/bin/bash", BASH_ARGUMENTS,
      ENVIRONMENT_PROFILE_DIGEST, WORKING_DIRECTORY_POLICY, [], inputs.networkIsolated,
      SANDBOX_CAPABILITIES, RELEASE_DESTINATION, inputs.policySnapshotDigest, inputs.detectorSnapshotDigest,
      "", nonce, approver, approvedAt, expiresAt, verdict);
    var digest := ComputePlanDigest(file, sha256);
    DigestIsNotBound(file, digest);
    r := Ok(file.(planDigest := digest));
  }

  /** The stored digest is not one of the bound fields, so filling it in keeps the buffer. */
  lemma DigestIsNotBound(f: ApprovalFile, digest: string)
    ensures CanonicalBuffer(f.(planDigest := digest)) == CanonicalBuffer(f)
  {
  }
}
