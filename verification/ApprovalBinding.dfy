/** Which edits of an approval file `verify` detects. */
module ApprovalBinding {
  import opened Common
  import opened Text
  import opened Grouping
  import opened Approval
  import opened CanonicalLines

  // ----- the line starts and the last two texts

  lemma DecimalIsDigits(n: nat)
    ensures |Decimal(n)| >= 1 && (|Decimal(n)| == 1 <==> n < 10)
    ensures forall c :: c in Decimal(n) ==> '0' <= c <= '9'
  {
    if n < 10 {
    } else {
      DecimalIsDigits(n / 10);
    }
  }

  /** The number that decimal digits stand for. */
  function DecimalValue(digits: string): int {
    if digits == [] then 0
    else DecimalValue(digits[..|digits| - 1]) * 10 + (digits[|digits| - 1] as int - '0' as int)
  }

  /** A number is printed by its own digits, without leading zeros. */
  lemma {:induction false} DecimalIsRead(n: nat)
    ensures DecimalValue(Decimal(n)) == n
    ensures (forall c :: c in Decimal(n) ==> '0' <= c <= '9') && |Decimal(n)| >= 1
    ensures n > 0 ==> Decimal(n)[0] != '0'
  {
    DecimalIsDigits(n);
    if n < 10 {
      assert Decimal(n)[..0] == [];
    } else {
      DecimalIsRead(n / 10);
      assert Decimal(n)[..|Decimal(n)| - 1] == Decimal(n / 10);
    }
  }

  lemma {:induction false} DecimalIsInjective(m: nat, n: nat)
    requires Decimal(m) == Decimal(n)
    ensures m == n
  {
    var a, b := Decimal(m), Decimal(n);
    DecimalIsDigits(m);
    DecimalIsDigits(n);
    assert a[|a| - 1] == DigitChar(m % 10) && b[|b| - 1] == DigitChar(n % 10);
    if m < 10 || n < 10 {
    } else {
      assert Decimal(m / 10) == a[..|a| - 1] && Decimal(n / 10) == b[..|b| - 1];
      DecimalIsInjective(m / 10, n / 10);
    }
  }

  lemma BoundTextsAreValid(f: ApprovalFile)
    ensures ValidTexts(BoundTexts(f))
  {
    DecimalIsDigits(f.expiresAt);
    var last := BoundTexts(f)[14];
    assert last == Decimal(f.expiresAt);
    forall i | 0 <= i < |last| ensures !IsBreak()(last[i]) {
      assert last[i] in last;
    }
  }

  // Line starts hold no line feed; a few at a time.

  lemma ProgramStarts(k: nat)
    requires k < 5
    ensures BreakFree(LineStart(k))
  {
  }

  lemma EnvironmentStarts(k: nat)
    requires 5 <= k < 7
    ensures BreakFree(LineStart(k))
  {
  }

  lemma IsolationStarts(k: nat)
    requires 7 <= k < 10
    ensures BreakFree(LineStart(k))
  {
  }

  lemma PolicyStarts(k: nat)
    requires 10 <= k < 12
    ensures BreakFree(LineStart(k))
  {
  }

  lemma LastStarts(k: nat)
    requires 12 <= k
    ensures BreakFree(LineStart(k))
  {
  }

  lemma StartsAreSeparable()
    ensures Separable(LineStart)
  {
    forall k: nat | k <= 14 ensures BreakFree(LineStart(k)) {
      if k < 5 {
        ProgramStarts(k);
      } else if k < 7 {
        EnvironmentStarts(k);
      } else if k < 10 {
        IsolationStarts(k);
      } else if k < 12 {
        PolicyStarts(k);
      } else {
        LastStarts(k);
      }
    }
    assert LineStart(8)[0] == 'n' && LineStart(9)[0] == 's' && LineStart(10)[0] == 'r';
  }

  // ----- lists

  function IsComma(): char -> bool {
    c => c == ','
  }

  /** A list of one non-empty element without a comma. */
  ghost predicate Indivisible(list: seq<string>) {
    |list| == 1 && list[0] != "" && Free(list[0], IsComma())
  }

  /** The comma-separated atoms a list is joined from; the empty list joins like one empty element. */
  function Atoms(list: seq<string>): seq<string> {
    if list == [] then [""] else Flatten(Splits(list, IsComma()))
  }

  lemma EmptyJoinsLikeBlank()
    ensures Join([], ',') == Join([""], ',') && Atoms([]) == Atoms([""])
  {
    assert Splits([""], IsComma())[1..] == [] && Split("", IsComma()) == [""];
    assert [""] + [] == [""];
  }

  /** Lists join to the same text exactly when they have the same atoms. */
  lemma JoinsAlikeExactly(a: seq<string>, b: seq<string>)
    ensures Join(a, ',') == Join(b, ',') <==> Atoms(a) == Atoms(b)
  {
    EmptyJoinsLikeBlank();
    JoinsAlike(if a == [] then [""] else a, if b == [] then [""] else b, ',', IsComma());
  }

  lemma JoinOfManyHoldsComma(b: seq<string>)
    requires |b| >= 2
    ensures !Free(Join(b, ','), IsComma())
  {
    var text := b[0] + [','] + Join(b[1..], ',');
    assert text[|b[0]|] == ',' && IsComma()(text[|b[0]|]);
  }

  lemma MergedJoinsAlike(a: seq<string>)
    requires |a| >= 2
    ensures exists b :: Join(b, ',') == Join(a, ',') && b != a
  {
    var merged := [Join(a, ',')];
    assert |merged| != |a|;
    assert Join(merged, ',') == merged[0];
  }

  /** A list is the only one with its joined text exactly when it is indivisible. */
  lemma OnlyListExactly(a: seq<string>)
    ensures (forall b :: Join(b, ',') == Join(a, ',') ==> b == a) <==> Indivisible(a)
  {
    EmptyJoinsLikeBlank();
    if Indivisible(a) {
      forall b | Join(b, ',') == Join(a, ',') ensures b == a {
        if |b| >= 2 {
          JoinOfManyHoldsComma(b);
        }
      }
    } else if a == [] {
      assert [""] != a && Join([""], ',') == Join(a, ',');
    } else if |a| >= 2 {
      MergedJoinsAlike(a);
    } else if a[0] == "" {
      assert a == [""];
      assert [] != a && Join([], ',') == Join(a, ',');
    } else {
      var parts := Split(a[0], IsComma());
      JoinOfSplit(a[0], ',', IsComma());
      SplitPartsFree(a[0], IsComma());
      assert parts[0] in parts;
      assert Join(parts, ',') == Join(a, ',') && parts != a;
    }
  }

  // ----- fields

  /** The fields whose texts are not joined lists. */
  predicate SameScalars(f: ApprovalFile, g: ApprovalFile) {
    && f.artifactSha256 == g.artifactSha256 && f.operation == g.operation && f.releaseMode == g.releaseMode
    && f.interpreter == g.interpreter
    && f.environmentProfileDigest == g.environmentProfileDigest && f.workingDirectoryPolicy == g.workingDirectoryPolicy
    && f.networkIsolated == g.networkIsolated
    && f.sandboxCapabilities == g.sandboxCapabilities && f.releaseDestination == g.releaseDestination
    && f.policySnapshotDigest == g.policySnapshotDigest && f.detectorSnapshotDigest == g.detectorSnapshotDigest
    && f.nonce == g.nonce && f.expiresAt == g.expiresAt
  }

  /** All fifteen bound fields. */
  predicate SameBoundFields(f: ApprovalFile, g: ApprovalFile) {
    SameScalars(f, g) && f.interpreterArguments == g.interpreterArguments && f.filesystemGrants == g.filesystemGrants
  }

  /** The bound fields, up to how the lists are cut at commas. */
  predicate SameBoundAtoms(f: ApprovalFile, g: ApprovalFile) {
    SameScalars(f, g) && Atoms(f.interpreterArguments) == Atoms(g.interpreterArguments)
    && Atoms(f.filesystemGrants) == Atoms(g.filesystemGrants)
  }

  lemma TextsAreFields(f: ApprovalFile, g: ApprovalFile)
    ensures BoundTexts(f) == BoundTexts(g) <==>
      SameScalars(f, g) && Join(f.interpreterArguments, ',') == Join(g.interpreterArguments, ',')
      && Join(f.filesystemGrants, ',') == Join(g.filesystemGrants, ',')
  {
    var a, b := BoundTexts(f), BoundTexts(g);
    if a == b {
      assert a[0] == b[0] && a[1] == b[1] && a[2] == b[2] && a[3] == b[3] && a[4] == b[4];
      assert a[5] == b[5] && a[6] == b[6] && a[7] == b[7] && a[8] == b[8] && a[9] == b[9];
      assert a[10] == b[10] && a[11] == b[11] && a[12] == b[12] && a[13] == b[13] && a[14] == b[14];
      DecimalIsInjective(f.expiresAt, g.expiresAt);
      assert |BoolText(f.networkIsolated)| == |BoolText(g.networkIsolated)|;
    }
  }

  /** Equal texts are equal fields up to the cuts of the two lists. */
  lemma TextsAreAtoms(f: ApprovalFile, g: ApprovalFile)
    ensures BoundTexts(f) == BoundTexts(g) <==> SameBoundAtoms(f, g)
  {
    TextsAreFields(f, g);
    JoinsAlikeExactly(f.interpreterArguments, g.interpreterArguments);
    JoinsAlikeExactly(f.filesystemGrants, g.filesystemGrants);
  }

  // ----- what the buffer binds

  /**
    No line inside a text of the file, after its first, begins like the line of its
    own field or of the next one.  The network flag and the field after it count as
    one field, and the last line, the expiry, cannot be imitated.
   */
  ghost predicate Unambiguous(f: ApprovalFile) {
    Clean(BeginsAt(LineStart), 0, Groups(LineStart, BoundTexts(f)))
  }

  lemma BeginsAtIsMark(start: Starts)
    ensures IsMark(BeginsAt(start), start)
  {
  }

  /** Whatever the two files hold, equal buffers have the same expiry. */
  lemma ExpiryIsBound(f: ApprovalFile, g: ApprovalFile)
    requires CanonicalBuffer(f) == CanonicalBuffer(g)
    ensures f.expiresAt == g.expiresAt
  {
    StartsAreSeparable();
    BoundTextsAreValid(f);
    BoundTextsAreValid(g);
    SameBufferSameGroups(LineStart, BoundTexts(f), BoundTexts(g));
    DecimalIsInjective(f.expiresAt, g.expiresAt);
  }

  /** The file with other texts and the same expiry. */
  function WithTexts(f: ApprovalFile, b: seq<string>): ApprovalFile
    requires |b| == 15
  {
    f.(artifactSha256 := b[0], operation := b[1], releaseMode := b[2],
       interpreter := b[3], interpreterArguments := [b[4]],
       environmentProfileDigest := b[5], workingDirectoryPolicy := b[6], filesystemGrants := [b[7]],
       networkIsolated := b[8] == "true", sandboxCapabilities := b[9], releaseDestination := b[10],
       policySnapshotDigest := b[11], detectorSnapshotDigest := b[12], nonce := b[13])
  }

  lemma WithTextsHasThem(f: ApprovalFile, b: seq<string>)
    requires ValidTexts(b) && b[14] == Decimal(f.expiresAt)
    ensures BoundTexts(WithTexts(f, b)) == b
  {
  }

  /** The buffer determines the texts of a file exactly when the file is unambiguous. */
  lemma BufferBindsTextsExactly(f: ApprovalFile)
    ensures (forall g :: CanonicalBuffer(g) == CanonicalBuffer(f) ==> SameBoundAtoms(f, g)) <==> Unambiguous(f)
  {
    var a := BoundTexts(f);
    StartsAreSeparable();
    BeginsAtIsMark(LineStart);
    BoundTextsAreValid(f);
    TextsAreDeterminedExactly(BeginsAt(LineStart), LineStart, a);
    if Unambiguous(f) {
      forall g | CanonicalBuffer(g) == CanonicalBuffer(f) ensures SameBoundAtoms(f, g) {
        BoundTextsAreValid(g);
        TextsAreAtoms(f, g);
      }
    } else {
      var b :| ValidTexts(b) && Lines(LineStart, 0, b) == Lines(LineStart, 0, a) && b != a;
      SameBufferSameGroups(LineStart, a, b);
      WithTextsHasThem(f, b);
      TextsAreAtoms(f, WithTexts(f, b));
    }
  }

  /** A file whose texts are all on one line is unambiguous. */
  lemma OneLinersAreUnambiguous(f: ApprovalFile)
    requires OneLiners(BoundTexts(f))
    ensures Unambiguous(f)
  {
    StartsAreSeparable();
    BeginsAtIsMark(LineStart);
    BoundTextsAreValid(f);
    OneLinersAreClean(BeginsAt(LineStart), LineStart, BoundTexts(f));
  }

  /** All fifteen bound fields are determined exactly when, besides, neither list can be cut differently. */
  lemma BufferBindsFieldsExactly(f: ApprovalFile)
    ensures (forall g :: CanonicalBuffer(g) == CanonicalBuffer(f) ==> SameBoundFields(f, g))
      <==> Unambiguous(f) && Indivisible(f.interpreterArguments) && Indivisible(f.filesystemGrants)
  {
    BufferBindsTextsExactly(f);
    OnlyListExactly(f.interpreterArguments);
    OnlyListExactly(f.filesystemGrants);
    if Unambiguous(f) && Indivisible(f.interpreterArguments) && Indivisible(f.filesystemGrants) {
      forall g | CanonicalBuffer(g) == CanonicalBuffer(f) ensures SameBoundFields(f, g) {
        TextsAreAtoms(f, g);
        TextsAreFields(f, g);
      }
    } else if !Unambiguous(f) {
      var g :| CanonicalBuffer(g) == CanonicalBuffer(f) && !SameBoundAtoms(f, g);
      assert !SameBoundFields(f, g);
    } else if !Indivisible(f.interpreterArguments) {
      var list :| Join(list, ',') == Join(f.interpreterArguments, ',') && list != f.interpreterArguments;
      var g := f.(interpreterArguments := list);
      TextsAreFields(f, g);
      assert CanonicalBuffer(g) == CanonicalBuffer(f) && !SameBoundFields(f, g);
    } else {
      var list :| Join(list, ',') == Join(f.filesystemGrants, ',') && list != f.filesystemGrants;
      var g := f.(filesystemGrants := list);
      TextsAreFields(f, g);
      assert CanonicalBuffer(g) == CanonicalBuffer(f) && !SameBoundFields(f, g);
    }
  }

  // ----- what `verify` detects

  ghost predicate Injective(sha256: DigestFunction) {
    forall a, b :: sha256(a) == sha256(b) ==> a == b
  }

  /** A copy that keeps the stored digest, whatever else was edited in it. */
  predicate IsEdit(f: ApprovalFile, edited: ApprovalFile) {
    edited.planDigest == f.planDigest
  }

  lemma EditVerifiesAsItsBuffer(f: ApprovalFile, edited: ApprovalFile, sha256: DigestFunction, approvedNow: u64,
                                now: u64)
    requires Injective(sha256) && Verified(f, sha256, approvedNow).None? && IsEdit(f, edited)
    ensures Verified(edited, sha256, now).None? <==>
      && edited.schemaVersion == APPROVAL_SCHEMA_VERSION
      && CanonicalBuffer(edited) == CanonicalBuffer(f) && now < f.expiresAt
  {
    if CanonicalBuffer(edited) == CanonicalBuffer(f) {
      ExpiryIsBound(f, edited);
    }
    if Verified(edited, sha256, now).None? {
      assert sha256(CanonicalBuffer(edited)) == sha256(CanonicalBuffer(f));
    }
  }

  /**
    With a collision-free digest, any edited copy of a valid unambiguous approval
    verifies exactly when the schema is current, it has not expired, and every bound
    field is unchanged up to how the two lists are cut at commas.
   */
  lemma EditedFileVerifiesExactly(f: ApprovalFile, edited: ApprovalFile, sha256: DigestFunction, approvedNow: u64,
                                  now: u64)
    requires Injective(sha256) && Verified(f, sha256, approvedNow).None? && IsEdit(f, edited)
    requires Unambiguous(f)
    ensures Verified(edited, sha256, now).None? <==>
      edited.schemaVersion == APPROVAL_SCHEMA_VERSION && SameBoundAtoms(f, edited) && now < f.expiresAt
  {
    EditVerifiesAsItsBuffer(f, edited, sha256, approvedNow, now);
    BufferBindsTextsExactly(f);
    TextsAreAtoms(f, edited);
  }

  /**
    `verify` detects every edit of a bound field of a valid approval exactly when
    the file is unambiguous and each of its lists is one non-empty element without
    a comma.
   */
  lemma EveryEditIsDetectedExactly(f: ApprovalFile, sha256: DigestFunction, approvedNow: u64)
    requires Injective(sha256) && Verified(f, sha256, approvedNow).None?
    ensures (forall edited, now: u64 ::
              IsEdit(f, edited) && Verified(edited, sha256, now).None? ==> SameBoundFields(f, edited))
      <==> Unambiguous(f) && Indivisible(f.interpreterArguments) && Indivisible(f.filesystemGrants)
  {
    BufferBindsFieldsExactly(f);
    if Unambiguous(f) && Indivisible(f.interpreterArguments) && Indivisible(f.filesystemGrants) {
      forall edited, now: u64 | IsEdit(f, edited) && Verified(edited, sha256, now).None?
        ensures SameBoundFields(f, edited)
      {
        EditVerifiesAsItsBuffer(f, edited, sha256, approvedNow, now);
      }
    } else {
      var g :| CanonicalBuffer(g) == CanonicalBuffer(f) && !SameBoundFields(f, g);
      var edited := g.(planDigest := f.planDigest, schemaVersion := APPROVAL_SCHEMA_VERSION);
      DigestIsNotBound(g.(schemaVersion := APPROVAL_SCHEMA_VERSION), f.planDigest);
      assert BoundTexts(edited) == BoundTexts(g);
      EditVerifiesAsItsBuffer(f, edited, sha256, approvedNow, approvedNow);
      assert IsEdit(f, edited) && Verified(edited, sha256, approvedNow).None? && !SameBoundFields(f, edited);
    }
  }

  /** Merging each list into one element is never detected. */
  lemma MergedListsVerifyAlike(f: ApprovalFile, sha256: DigestFunction, now: u64)
    ensures var edited :=
      f.(interpreterArguments := [Join(f.interpreterArguments, ',')],
         filesystemGrants := [Join(f.filesystemGrants, ',')]);
      Verified(edited, sha256, now) == Verified(f, sha256, now)
  {
  }

  /** So in every file with the arguments and grants of the bash profile, this edit goes undetected. */
  lemma BashArgumentsCanBeMerged(f: ApprovalFile, sha256: DigestFunction, now: u64)
    requires f.interpreterArguments == BASH_ARGUMENTS && f.filesystemGrants == []
    ensures var edited := f.(interpreterArguments := ["--noprofile,--norc"], filesystemGrants := [""]);
      Verified(edited, sha256, now) == Verified(f, sha256, now) && !SameBoundFields(f, edited)
  {
    assert Join(BASH_ARGUMENTS, ',') == "--noprofile" + [','] + "--norc" == "--noprofile,--norc" by {
      assert BASH_ARGUMENTS[1..] == ["--norc"];
    }
    MergedListsVerifyAlike(f, sha256, now);
  }

  // ----- texts with line feeds

  /** The line break may be read as part of either field. */
  lemma BreakFitsEitherField(p: string, q: string, x: string, y: string, z: string, rest: string)
    ensures p + (x + "\n" + (q + ((y + "\n" + q + z) + "\n" + rest)))
         == p + ((x + "\n" + q + y) + "\n" + (q + (z + "\n" + rest)))
  {
  }

  /** A family of ambiguous files: two that differ in two bound fields and encode alike. */
  lemma FilesThatEncodeAlike(f: ApprovalFile, x: string, y: string, z: string)
    ensures var a := f.(artifactSha256 := x, operation := y + "\n" + OPERATION_START + z);
      var b := f.(artifactSha256 := x + "\n" + OPERATION_START + y, operation := z);
      CanonicalBuffer(a) == CanonicalBuffer(b) && a != b
  {
    var a := f.(artifactSha256 := x, operation := y + "\n" + OPERATION_START + z);
    var b := f.(artifactSha256 := x + "\n" + OPERATION_START + y, operation := z);
    SharedTail(LineStart, a, b);
    BreakFitsEitherField(LineStart(0), OPERATION_START, x, y, z, Lines(LineStart, 2, BoundTexts(a)[2..]));
    assert |a.artifactSha256| < |b.artifactSha256|;
  }

  lemma SharedTail(start: nat -> string, a: ApprovalFile, b: ApprovalFile)
    requires b == a.(artifactSha256 := b.artifactSha256, operation := b.operation)
    ensures Lines(start, 2, BoundTexts(a)[2..]) == Lines(start, 2, BoundTexts(b)[2..])
    ensures Lines(start, 0, BoundTexts(a)) ==
      start(0) + (a.artifactSha256 + "\n" + (start(1) + (a.operation + "\n" + Lines(start, 2, BoundTexts(a)[2..]))))
    ensures Lines(start, 0, BoundTexts(b)) ==
      start(0) + (b.artifactSha256 + "\n" + (start(1) + (b.operation + "\n" + Lines(start, 2, BoundTexts(b)[2..]))))
  {
    assert BoundTexts(a)[1..][1..] == BoundTexts(a)[2..] == BoundTexts(b)[2..] == BoundTexts(b)[1..][1..];
  }
}
