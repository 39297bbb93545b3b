/**
  `UrlDiscoveryDetector::analyze`: large sources are scanned in overlapping,
  boundary-adjusted windows.  The theorems say that this finds what a scan of
  the whole source would find.
 */
module UrlWindows {
  import opened Common
  import opened Utf8
  import opened UrlScan

  const SCAN_WINDOW_OVERLAP_BYTES: nat := 2 * MAX_URL_LENGTH
  const WINDOW_STRIDE: nat := MAX_SOURCE_SIZE - SCAN_WINDOW_OVERLAP_BYTES

  /** What the artifact is: a script, a data document, or nothing this detector reads. */
  datatype SourceKind = Script | Document | Unsupported

  datatype Severity = Informational | Medium

  datatype DynamicUrlFinding = DynamicUrlFinding(template: seq<byte>, severity: Severity)

  datatype DetectorError = NotUtf8

  /** The least boundary at or after `i`. */
  function AdvanceToBoundary(s: seq<byte>, i: nat): (r: nat)
    requires i <= |s|
    ensures i <= r <= |s| && IsBoundary(s, r)
    decreases |s| - i
  {
    if i < |s| && !IsBoundary(s, i) then AdvanceToBoundary(s, i + 1) else i
  }

  /** The last boundary at or before `i`, but not before `start`. */
  function BackToBoundary(s: seq<byte>, start: nat, i: nat): (r: nat)
    requires start <= i <= |s| && IsBoundary(s, start)
    ensures start <= r <= i && IsBoundary(s, r)
    decreases i
  {
    if i > start && !IsBoundary(s, i) then BackToBoundary(s, start, i - 1) else i
  }

  /** Where the window that starts at `start` ends. */
  function WindowEnd(s: seq<byte>, start: nat): nat
    requires start <= |s| && IsBoundary(s, start)
  {
    BackToBoundary(s, start, Min(start + MAX_SOURCE_SIZE, |s|))
  }

  function NextStart(s: seq<byte>, start: nat): nat {
    AdvanceToBoundary(s, Min(start + WINDOW_STRIDE, |s|))
  }

  function Window(s: seq<byte>, start: nat): seq<byte>
    requires start <= |s| && IsBoundary(s, start)
  {
    s[start..WindowEnd(s, start)]
  }

  /** Appends the expressions not seen before, stopping at MAX_URLS of them. */
  function Record(seen: seq<Expression>, found: seq<Expression>): seq<Expression>
    decreases |found|
  {
    if found == [] then seen
    else if found[0] in seen then Record(seen, found[1..])
    else if |seen| + 1 >= MAX_URLS then seen + [found[0]]
    else Record(seen + [found[0]], found[1..])
  }

  /** What one extractor call returns for a window. */
  type Extractor = seq<byte> -> seq<Expression>

  /** The expressions the window loop has seen at the end, from the window at `start` on. */
  function SeenFrom(extract: Extractor, s: seq<byte>, start: nat, seen: seq<Expression>): seq<Expression>
    requires start <= |s| && IsBoundary(s, start)
    decreases |s| - start
  {
    if start >= |s| || |seen| >= MAX_URLS then seen
    else SeenFrom(extract, s, NextStart(s, start), Record(seen, extract(Window(s, start))))
  }

  /** No window from `start` on holds more expressions than one extractor call reports. */
  predicate Unsaturated(s: seq<byte>, start: nat)
    requires start <= |s| && IsBoundary(s, start)
    decreases |s| - start
  {
    start >= |s| || (|Expressions(Window(s, start))| <= MAX_URLS && Unsaturated(s, NextStart(s, start)))
  }

  function FindingFor(e: Expression, kind: SourceKind): DynamicUrlFinding {
    DynamicUrlFinding(e.template, if kind.Script? then Medium else Informational)
  }

  method NextWindowStart(s: seq<byte>, candidate: nat) returns (start: nat)
    ensures start == AdvanceToBoundary(s, Min(candidate, |s|))
  {
    start := Min(candidate, |s|);
    while start < |s| && !IsBoundary(s, start)
      invariant start <= |s|
      invariant AdvanceToBoundary(s, start) == AdvanceToBoundary(s, Min(candidate, |s|))
    {
      start := start + 1;
    }
  }

  /** The window end is found by stepping back from the clamped end. */
  method FindWindowEnd(s: seq<byte>, start: nat) returns (windowEnd: nat)
    requires start <= |s| && IsBoundary(s, start)
    ensures windowEnd == WindowEnd(s, start) <= |s|
    ensures start <= windowEnd <= start + MAX_SOURCE_SIZE && IsBoundary(s, windowEnd)
  {
    windowEnd := Min(start + MAX_SOURCE_SIZE, |s|);
    while windowEnd > start && !IsBoundary(s, windowEnd)
      invariant start <= windowEnd <= Min(start + MAX_SOURCE_SIZE, |s|)
      invariant BackToBoundary(s, start, windowEnd) == WindowEnd(s, start)
    {
      windowEnd := windowEnd - 1;
    }
  }

  /** The loop over one window's expressions. */
  method RecordWindow(found: seq<Expression>, kind: SourceKind, seen0: seq<Expression>,
                      findings0: seq<DynamicUrlFinding>)
    returns (seen: seq<Expression>, findings: seq<DynamicUrlFinding>)
    requires |findings0| == |seen0| < MAX_URLS
    requires forall i :: 0 <= i < |seen0| ==> findings0[i] == FindingFor(seen0[i], kind)
    ensures seen == Record(seen0, found)
    ensures |findings| == |seen|
    ensures forall i :: 0 <= i < |seen| ==> findings[i] == FindingFor(seen[i], kind)
  {
    seen, findings := seen0, findings0;
    for i := 0 to |found|
      invariant |findings| == |seen| < MAX_URLS
      invariant forall k :: 0 <= k < |seen| ==> findings[k] == FindingFor(seen[k], kind)
      invariant Record(seen, found[i..]) == Record(seen0, found)
    {
      assert found[i..][1..] == found[i + 1..];
      if found[i] in seen {
        continue;
      }
      seen := seen + [found[i]];
      findings := findings + [FindingFor(found[i], kind)];
      if |findings| >= MAX_URLS {
        return;
      }
    }
  }

  ghost predicate IsTheExtractor(extract: Extractor) {
    forall w: seq<byte> {:trigger Detected(w)} :: extract(w) == Detected(w)
  }

  method ExtractWindow(bytes: seq<byte>, start: nat, ghost extract: Extractor) returns (found: seq<Expression>)
    requires start < |bytes| && IsBoundary(bytes, start) && IsTheExtractor(extract)
    ensures found == extract(Window(bytes, start))
  {
    var windowEnd := FindWindowEnd(bytes, start);
    found := DetectDynamicUrlExpressions(bytes[start..windowEnd]);
  }

  /** One turn of the window loop. */
  method ScanWindow(bytes: seq<byte>, kind: SourceKind, start: nat, seen0: seq<Expression>,
                    findings0: seq<DynamicUrlFinding>,
                    ghost extract: Extractor)
    returns (seen: seq<Expression>, findings: seq<DynamicUrlFinding>, next: nat)
    requires start < |bytes| && IsBoundary(bytes, start) && IsTheExtractor(extract)
    requires |findings0| == |seen0| < MAX_URLS
    requires forall i :: 0 <= i < |seen0| ==> findings0[i] == FindingFor(seen0[i], kind)
    ensures |findings| == |seen|
    ensures forall i :: 0 <= i < |seen| ==> findings[i] == FindingFor(seen[i], kind)
    ensures start < next <= |bytes| && IsBoundary(bytes, next)
    ensures SeenFrom(extract, bytes, start, seen0) == SeenFrom(extract, bytes, next, seen)
  {
    var found := ExtractWindow(bytes, start, extract);
    seen, findings := RecordWindow(found, kind, seen0, findings0);
    next := NextWindowStart(bytes, start + WINDOW_STRIDE);
  }

  /**
    The detector.  `seen` is its local list of recorded (URL, template) pairs.
    The fallback of the source for a window that is not on boundaries cannot be
    taken, since both ends are boundaries here.
   */
  method Analyze(bytes: seq<byte>, kind: SourceKind)
    returns (r: Result<seq<DynamicUrlFinding>, DetectorError>, seen: seq<Expression>)
    ensures !Valid(bytes) ==> r == Err(NotUtf8)
    ensures Valid(bytes) && kind.Unsupported? ==> r == Ok([])
    ensures Valid(bytes) && !kind.Unsupported? ==>
      && seen == SeenFrom(Detected, bytes, 0, [])
      && r.Ok? && |r.value| == |seen|
      && forall i :: 0 <= i < |seen| ==>
           r.value[i] == DynamicUrlFinding(seen[i].template, if kind == Script then Medium else Informational)
  {
    seen := [];
    if !Valid(bytes) {
      return Err(NotUtf8), seen;
    }
    if kind.Unsupported? {
      return Ok([]), seen;
    }
    var findings := [];
    var start := 0;
    while start < |bytes| && |findings| < MAX_URLS
      invariant start <= |bytes| && IsBoundary(bytes, start)
      invariant |findings| == |seen|
      invariant forall i :: 0 <= i < |seen| ==> findings[i] == FindingFor(seen[i], kind)
      invariant SeenFrom(Detected, bytes, start, seen) == SeenFrom(Detected, bytes, 0, [])
      decreases |bytes| - start
    {
      seen, findings, start := ScanWindow(bytes, kind, start, seen, findings, Detected);
    }
    r := Ok(findings);
  }

  // ----- the shape of the windows

  lemma {:induction false} AdvanceAtMostThree(s: seq<byte>, i: nat)
    requires Valid(s) && i <= |s|
    ensures AdvanceToBoundary(s, i) <= i + 3
  {
    if i + 3 < |s| {
      BoundaryWithinThree(s, i);
      var j :| i <= j <= i + 3 && !IsContinuation(s[j]);
      AdvanceStopsBy(s, i, j);
    }
  }

  lemma {:induction false} AdvanceStopsBy(s: seq<byte>, i: nat, j: nat)
    requires i <= j <= |s| && IsBoundary(s, j)
    ensures AdvanceToBoundary(s, i) <= j
    decreases j - i
  {
    if i == j {
    } else {
      AdvanceStopsBy(s, i + 1, j);
    }
  }

  lemma {:induction false} BackStopsBy(s: seq<byte>, start: nat, i: nat, j: nat)
    requires start <= j <= i <= |s| && IsBoundary(s, start) && IsBoundary(s, j)
    ensures BackToBoundary(s, start, i) >= j
    decreases i
  {
    if j == i {
    } else {
      BackStopsBy(s, start, i - 1, j);
    }
  }

  lemma BackAtMostThree(s: seq<byte>, start: nat, i: nat)
    requires Valid(s) && start <= i <= |s| && IsBoundary(s, start)
    ensures BackToBoundary(s, start, i) + 3 >= i
  {
    if i < |s| && start + 3 < i {
      BoundaryWithinThree(s, i - 3);
      var j :| i - 3 <= j <= i && !IsContinuation(s[j]);
      BackStopsBy(s, start, i, j);
    }
  }

  /**
    A window holds at most MAX_SOURCE_SIZE bytes, the next one starts later, and
    the two boundary shifts cost the overlap at most six bytes.
   */
  lemma WindowsOverlap(s: seq<byte>, start: nat)
    requires Valid(s) && start < |s| && IsBoundary(s, start)
    ensures start < NextStart(s, start) <= |s|
    ensures |Window(s, start)| <= MAX_SOURCE_SIZE
    ensures WindowEnd(s, start) == |s| || WindowEnd(s, start) >= NextStart(s, start) + SCAN_WINDOW_OVERLAP_BYTES - 6
  {
    AdvanceAtMostThree(s, Min(start + WINDOW_STRIDE, |s|));
    BackAtMostThree(s, start, Min(start + MAX_SOURCE_SIZE, |s|));
  }

  /** In ASCII text every window but the last is one mebibyte and the next one starts 4 KiB before its end. */
  lemma AsciiWindows(s: seq<byte>, start: nat)
    requires start <= |s| && IsAscii(s)
    ensures IsBoundary(s, start)
    ensures Window(s, start) == s[start..if start + 0x10_0000 <= |s| then start + 0x10_0000 else |s|]
    ensures NextStart(s, start) == if start + 0xF_F000 <= |s| then start + 0xF_F000 else |s|
  {
    assert IsBoundary(s, Min(start + MAX_SOURCE_SIZE, |s|)) && IsBoundary(s, Min(start + WINDOW_STRIDE, |s|));
  }

  // ----- a token is the same in a window as in the whole source

  lemma {:induction false} CutDependsOnPrefix(u: seq<byte>, v: seq<byte>, cut: nat)
    requires cut < |u| && cut < |v| && u[..cut + 1] == v[..cut + 1]
    ensures CutAt(u, cut) == CutAt(v, cut)
  {
    if cut > 0 && !IsBoundary(u, cut) {
      assert u[cut] == u[..cut + 1][cut] && v[cut] == v[..cut + 1][cut];
      assert u[..cut + 1][..cut] == u[..cut] && v[..cut + 1][..cut] == v[..cut];
      CutDependsOnPrefix(u, v, cut - 1);
    } else if cut > 0 {
      assert u[cut] == u[..cut + 1][cut] && v[cut] == v[..cut + 1][cut];
    }
  }

  /** A prefix that ends on a boundary never splits a delimiter. */
  lemma DelimiterInPrefix(rest: seq<byte>, n: nat, i: nat)
    requires i < n <= |rest| && IsBoundary(rest, n)
    ensures DelimiterAt(rest[..n], i) <==> DelimiterAt(rest, i)
  {
  }

  /** So the token of the prefix stops at the same place, or at the end of the prefix. */
  lemma TokenEndInPrefix(rest: seq<byte>, n: nat)
    requires n <= |rest| && IsBoundary(rest, n)
    ensures TokenEnd(rest[..n], 0) == Min(TokenEnd(rest, 0), n)
  {
    SameTokenEnd(rest, n, 0);
  }

  lemma {:induction false} SameTokenEnd(rest: seq<byte>, n: nat, i: nat)
    requires i <= n <= |rest| && IsBoundary(rest, n)
    ensures TokenEnd(rest[..n], i) == Min(TokenEnd(rest, i), n)
    decreases n - i
  {
    if i == n {
    } else {
      DelimiterInPrefix(rest, n, i);
      SameTokenEnd(rest, n, i + 1);
    }
  }

  lemma TruncationDependsOnPrefix(u: seq<byte>, v: seq<byte>)
    requires |u| > MAX_URL_LENGTH && |v| > MAX_URL_LENGTH
    requires u[..MAX_URL_LENGTH + 1] == v[..MAX_URL_LENGTH + 1]
    ensures Truncated(u) == Truncated(v)
  {
    CutDependsOnPrefix(u, v, MAX_URL_LENGTH);
    var cut := CutAt(u, MAX_URL_LENGTH);
    assert u[..cut] == u[..MAX_URL_LENGTH + 1][..cut] == v[..cut];
  }

  /** With more than MAX_URL_LENGTH bytes left, a prefix yields the same truncated token. */
  lemma SameTokenInPrefix(rest: seq<byte>, n: nat)
    requires n == |rest| || MAX_URL_LENGTH < n <= |rest|
    requires IsBoundary(rest, n)
    ensures BoundedToken(rest[..n]) == BoundedToken(rest)
  {
    BoundedTokenIsTruncated(rest);
    BoundedTokenIsTruncated(rest[..n]);
    TokenEndInPrefix(rest, n);
    var u, v := LeadingToken(rest), LeadingToken(rest[..n]);
    if TokenEnd(rest, 0) <= n {
      assert u == v;
    } else {
      assert v == rest[..n];
      assert u[..MAX_URL_LENGTH + 1] == v[..MAX_URL_LENGTH + 1];
      TruncationDependsOnPrefix(u, v);
    }
  }

  lemma SchemeInWindow(s: seq<byte>, a: nat, b: nat, o: nat)
    requires a <= o <= b <= |s|
    ensures SchemeAt(s[a..b], o - a) ==> SchemeAt(s, o)
    ensures SchemeAt(s, o) && (b == |s| || o + 8 <= b) ==> SchemeAt(s[a..b], o - a)
  {
    var w := s[a..b];
    assert forall k :: 0 <= k < |w| ==> w[k] == s[a + k];
  }

  lemma SameUrlTokenInWindow(s: seq<byte>, a: nat, b: nat, o: nat)
    requires a <= o <= b <= |s| && IsBoundary(s, b) && IsBoundary(s, o)
    requires b == |s| || o + MAX_URL_LENGTH < b
    ensures UrlToken(s[a..b], o - a) == UrlToken(s, o)
  {
    var rest, n := s[o..], b - o;
    assert s[a..b][o - a..] == rest[..n];
    assert UrlToken(s[a..b], o - a) == BoundedToken(rest[..n]);
    SameTokenInPrefix(rest, n);
  }

  /** A scheme far enough from the end of a window yields the same expression there as in the whole source. */
  lemma SameExpressionInWindow(s: seq<byte>, a: nat, b: nat, o: nat)
    requires a <= o <= b <= |s| && IsBoundary(s, b) && SchemeAt(s, o)
    requires b == |s| || o + MAX_URL_LENGTH < b
    ensures o < b && Finder(s[a..b])(o - a) == ExpressionAt(s, o)
  {
    SchemeThenBoundary(s, o);
    var token := UrlToken(s, o);
    assert UrlToken(s[a..b], o - a) == token by { SameUrlTokenInWindow(s, a, b, o); }
    assert SchemeAt(s[a..b], o - a) by { SchemeInWindow(s, a, b, o); }
  }

  // ----- recording

  lemma {:induction false} RecordKeeps(seen: seq<Expression>, found: seq<Expression>)
    requires |seen| < MAX_URLS && NoDuplicates(seen)
    ensures seen <= Record(seen, found)
    ensures |Record(seen, found)| <= MAX_URLS && NoDuplicates(Record(seen, found))
    decreases |found|
  {
    if found == [] {
    } else {
      if found[0] in seen {
        RecordKeeps(seen, found[1..]);
      } else if |seen| + 1 >= MAX_URLS {
      } else {
        RecordKeeps(seen + [found[0]], found[1..]);
      }
    }
  }

  /** What is recorded was seen or found, and below the cap everything found is recorded. */
  lemma {:induction false} RecordHolds(seen: seq<Expression>, found: seq<Expression>, e: Expression)
    requires |seen| < MAX_URLS && NoDuplicates(seen)
    ensures e in Record(seen, found) ==> e in seen || e in found
    ensures |Record(seen, found)| < MAX_URLS && e in found ==> e in Record(seen, found)
    decreases |found|
  {
    if found == [] {
    } else {
      RecordKeeps(seen, found);
      if found[0] in seen {
        RecordHolds(seen, found[1..], e);
      } else if |seen| + 1 >= MAX_URLS {
      } else {
        var more := seen + [found[0]];
        RecordKeeps(more, found[1..]);
        RecordHolds(more, found[1..], e);
        assert more[|seen|] == found[0] && Record(more, found[1..])[..|more|] == more;
        assert Record(more, found[1..])[|seen|] == found[0];
      }
    }
  }

  /** Later windows only add to what was seen, never a second copy and never past the cap. */
  lemma {:induction false} SeenGrows(extract: Extractor, s: seq<byte>, start: nat, seen: seq<Expression>)
    requires start <= |s| && IsBoundary(s, start)
    requires |seen| <= MAX_URLS && NoDuplicates(seen)
    ensures seen <= SeenFrom(extract, s, start, seen)
    ensures |SeenFrom(extract, s, start, seen)| <= MAX_URLS && NoDuplicates(SeenFrom(extract, s, start, seen))
    decreases |s| - start
  {
    if start == |s| || |seen| >= MAX_URLS {
    } else {
      var found := extract(Window(s, start));
      RecordKeeps(seen, found);
      SeenGrows(extract, s, NextStart(s, start), Record(seen, found));
    }
  }

  // ----- the theorems

  /** A window finds what starts before the next window. */
  lemma WindowFinds(s: seq<byte>, start: nat, o: nat)
    requires Valid(s) && start <= o < NextStart(s, start) && start < |s| && IsBoundary(s, start)
    requires SchemeAt(s, o) && ExpressionAt(s, o).Some? && |Expressions(Window(s, start))| <= MAX_URLS
    ensures ExpressionAt(s, o).value in Detected(Window(s, start))
  {
    WindowsOverlap(s, start);
    var w, e := Window(s, start), ExpressionAt(s, o).value;
    SameExpressionInWindow(s, start, WindowEnd(s, start), o);
    ExpressionsExact(w, e);
    assert Detected(w) == Expressions(w);
  }

  lemma {:induction false} ScanFromIsComplete(s: seq<byte>, start: nat, seen: seq<Expression>, o: nat)
    requires Valid(s) && start <= o && start <= |s| && IsBoundary(s, start)
    requires |seen| <= MAX_URLS && NoDuplicates(seen)
    requires SchemeAt(s, o) && ExpressionAt(s, o).Some?
    requires Unsaturated(s, start) && |SeenFrom(Detected, s, start, seen)| < MAX_URLS
    ensures ExpressionAt(s, o).value in SeenFrom(Detected, s, start, seen)
    decreases |s| - start
  {
    SeenGrows(Detected, s, start, seen);
    SchemeThenBoundary(s, o);
    WindowsOverlap(s, start);
    var found, e, next := Detected(Window(s, start)), ExpressionAt(s, o).value, NextStart(s, start);
    var recorded := Record(seen, found);
    RecordKeeps(seen, found);
    SeenGrows(Detected, s, next, recorded);
    if o < next {
      WindowFinds(s, start, o);
      RecordHolds(seen, found, e);
    } else {
      ScanFromIsComplete(s, next, recorded, o);
    }
  }

  /**
    Completeness: whatever the length of the source, a template URL that a scan
    of the whole source finds at `o` is seen by the windowed scan with the same
    truncated token and the same template, unless a cap of MAX_URLS was hit.
   */
  lemma WindowedScanIsComplete(s: seq<byte>, o: nat)
    requires Valid(s) && SchemeAt(s, o)
    requires Unsaturated(s, 0) && |SeenFrom(Detected, s, 0, [])| < MAX_URLS
    ensures ExpressionAt(s, o).Some? ==> ExpressionAt(s, o).value in SeenFrom(Detected, s, 0, [])
  {
    if ExpressionAt(s, o).Some? {
      ScanFromIsComplete(s, 0, [], o);
    }
  }

  lemma WindowTokenIsPrefix(s: seq<byte>, a: nat, b: nat, o: nat)
    requires a <= o <= b <= |s| && IsBoundary(s, b) && IsBoundary(s, o)
    ensures LeadingToken(s[a..b][o - a..]) <= LeadingToken(s[o..])
  {
    assert s[a..b][o - a..] == s[o..][..b - o];
    TokenEndInPrefix(s[o..], b - o);
  }

  lemma TokenInWindowIsReal(s: seq<byte>, a: nat, b: nat, k: nat, url: seq<byte>)
    requires a + k <= b <= |s| && IsBoundary(s, b) && BeginsToken(s[a..b], k, url)
    ensures BeginsToken(s, a + k, url)
  {
    assert SchemeAt(s, a + k) by { SchemeInWindow(s, a, b, a + k); }
    SchemeThenBoundary(s, a + k);
    WindowTokenIsPrefix(s, a, b, a + k);
  }

  lemma WindowExpressionIsReal(s: seq<byte>, start: nat, e: Expression)
    requires start <= |s| && IsBoundary(s, start) && e in Expressions(Window(s, start))
    ensures FindTemplate(e.url) == Some(e.template) && exists o: nat :: BeginsToken(s, o, e.url)
  {
    ExpressionsExact(Window(s, start), e);
    var k: nat :| k < |Window(s, start)| && Finder(Window(s, start))(k) == Some(e);
    FoundIsReal(Window(s, start), k, e);
    TokenInWindowIsReal(s, start, WindowEnd(s, start), k, e.url);
  }

  lemma {:induction false} ScanFromIsSound(s: seq<byte>, start: nat, seen: seq<Expression>, e: Expression)
    requires start <= |s| && IsBoundary(s, start)
    requires |seen| <= MAX_URLS && NoDuplicates(seen)
    requires e in SeenFrom(Detected, s, start, seen) && e !in seen
    ensures FindTemplate(e.url) == Some(e.template) && exists o: nat :: BeginsToken(s, o, e.url)
    decreases |s| - start
  {
    var found := Detected(Window(s, start));
    RecordKeeps(seen, found);
    RecordHolds(seen, found, e);
    if e in Record(seen, found) {
      WindowExpressionIsReal(s, start, e);
    } else {
      ScanFromIsSound(s, NextStart(s, start), Record(seen, found), e);
    }
  }

  /**
    Soundness: every recorded pair is a prefix of a real token and its first
    template; no pair is recorded twice; at most MAX_URLS are recorded.
   */
  lemma WindowedScanIsSound(s: seq<byte>)
    ensures NoDuplicates(SeenFrom(Detected, s, 0, [])) && |SeenFrom(Detected, s, 0, [])| <= MAX_URLS
    ensures forall e :: e in SeenFrom(Detected, s, 0, []) ==>
      FindTemplate(e.url) == Some(e.template) && exists o: nat :: BeginsToken(s, o, e.url)
  {
    SeenGrows(Detected, s, 0, []);
    forall e | e in SeenFrom(Detected, s, 0, [])
      ensures FindTemplate(e.url) == Some(e.template) && exists o: nat :: BeginsToken(s, o, e.url)
    {
      ScanFromIsSound(s, 0, [], e);
    }
  }
}
