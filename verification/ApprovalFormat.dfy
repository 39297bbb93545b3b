/** The buffer that is hashed, written out: the fifteen labelled lines in their order. */
module ApprovalFormat {
  import opened Common
  import opened Text
  import opened Approval

  function Line(name: string, text: string): string {
    name + text + "\n"
  }

  lemma LineInFront(start: string, text: string, rest: string, more: string)
    ensures start + (text + "\n" + (rest + more)) == (start + (text + "\n" + rest)) + more
  {
    Regroup(text + "\n", rest, more);
    Regroup(start, text + "\n" + rest, more);
  }

  lemma LinesNext(start: nat -> string, k: nat, texts: seq<string>, rest: seq<string>)
    requires texts != [] && rest == texts[1..]
    ensures Lines(start, k, texts) == start(k) + (texts[0] + "\n" + Lines(start, k + 1, rest))
  {
  }

  lemma {:induction false} LinesSplit(start: nat -> string, k: nat, a: seq<string>, b: seq<string>)
    ensures Lines(start, k, a + b) == Lines(start, k, a) + Lines(start, k + |a|, b)
    decreases |a|
  {
    if a == [] {
      assert a + b == b;
    } else {
      LinesSplit(start, k + 1, a[1..], b);
      LinesNext(start, k, a + b, a[1..] + b);
      LinesNext(start, k, a, a[1..]);
      LineInFront(start(k), a[0], Lines(start, k + 1, a[1..]), Lines(start, k + |a|, b));
    }
  }

  lemma OneLine(start: nat -> string, k: nat, text: string)
    ensures Lines(start, k, [text]) == Line(start(k), text)
  {
    assert [text][1..] == [];
    assert text + "\n" + "" == text + "\n";
    Regroup(start(k), text, "\n");
  }

  lemma FiveLines(start: nat -> string, k: nat, t: seq<string>)
    requires |t| == 5
    ensures Lines(start, k, t) ==
      Line(start(k), t[0]) + Line(start(k + 1), t[1]) + Line(start(k + 2), t[2])
      + Line(start(k + 3), t[3]) + Line(start(k + 4), t[4])
  {
    OneLine(start, k, t[0]);
    OneLine(start, k + 1, t[1]);
    OneLine(start, k + 2, t[2]);
    OneLine(start, k + 3, t[3]);
    OneLine(start, k + 4, t[4]);
    LinesSplit(start, k, t[..1], t[1..2]);
    LinesSplit(start, k, t[..2], t[2..3]);
    LinesSplit(start, k, t[..3], t[3..4]);
    LinesSplit(start, k, t[..4], t[4..5]);
    assert t[..1] == [t[0]] && t[1..2] == [t[1]] && t[2..3] == [t[2]] && t[3..4] == [t[3]] && t[4..5] == [t[4]];
    assert t[..1] + t[1..2] == t[..2] && t[..2] + t[2..3] == t[..3] && t[..3] + t[3..4] == t[..4];
    assert t[..4] + t[4..5] == t;
  }

  lemma ThreeParts(start: nat -> string, a: seq<string>, b: seq<string>, c: seq<string>)
    requires |a| == 5 && |b| == 5
    ensures Lines(start, 0, (a + b) + c) == Lines(start, 0, a) + Lines(start, 5, b) + Lines(start, 10, c)
  {
    LinesSplit(start, 0, a, b);
    LinesSplit(start, 0, a + b, c);
  }

  /** What runs, and how. */
  function ProgramPart(f: ApprovalFile): string {
    Line("artifact_sha256=", f.artifactSha256) + Line("operation=", f.operation)
    + Line("release_mode=", f.releaseMode) + Line("interpreter=", f.interpreter)
    + Line("interpreter_arguments=", Join(f.interpreterArguments, ','))
  }

  /** In which environment. */
  function EnvironmentPart(f: ApprovalFile): string {
    Line("environment_profile_digest=", f.environmentProfileDigest)
    + Line("working_directory_policy=", f.workingDirectoryPolicy)
    + Line("filesystem_grants=", Join(f.filesystemGrants, ','))
    + Line("network_isolated=", if f.networkIsolated then "true" else "false")
    + Line("sandbox_capabilities=", f.sandboxCapabilities)
  }

  /** For which release, under which policy, and until when. */
  function ReleasePart(f: ApprovalFile): string {
    Line("release_destination=", f.releaseDestination)
    + Line("policy_snapshot_digest=", f.policySnapshotDigest)
    + Line("detector_snapshot_digest=", f.detectorSnapshotDigest)
    + Line("nonce=", f.nonce) + Line("expires_at=", Decimal(f.expiresAt))
  }

  lemma ProgramLines(f: ApprovalFile, t: seq<string>)
    requires t == BoundTexts(f)
    ensures Lines(LineStart, 0, t[..5]) == ProgramPart(f)
  {
    FiveLines(LineStart, 0, t[..5]);
  }

  lemma EnvironmentLines(f: ApprovalFile, t: seq<string>)
    requires t == BoundTexts(f)
    ensures Lines(LineStart, 5, t[5..10]) == EnvironmentPart(f)
  {
    FiveLines(LineStart, 5, t[5..10]);
  }

  lemma ReleaseLines(f: ApprovalFile, t: seq<string>)
    requires t == BoundTexts(f)
    ensures Lines(LineStart, 10, t[10..15]) == ReleasePart(f)
  {
    FiveLines(LineStart, 10, t[10..15]);
  }

  /** The plan digest is that of these fifteen lines. */
  lemma BufferIsTheLines(f: ApprovalFile)
    ensures CanonicalBuffer(f) == ProgramPart(f) + EnvironmentPart(f) + ReleasePart(f)
  {
    var t := BoundTexts(f);
    ThreeParts(LineStart, t[..5], t[5..10], t[10..15]);
    assert (t[..5] + t[5..10]) + t[10..15] == t;
    ProgramLines(f, t);
    EnvironmentLines(f, t);
    ReleaseLines(f, t);
  }
}
