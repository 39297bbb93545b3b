/**
  What the windowed scan sees when one extractor call is not enough for a
  window: repetitions use up the call although they are recorded once.
 */
module UrlSaturation {
  import opened Common
  import opened Utf8
  import opened UrlScan
  import opened UrlWindows

  // ----- exactly what is seen

  /** Some window from `start` on reports `e`. */
  predicate ReportedFrom(extract: Extractor, s: seq<byte>, start: nat, e: Expression)
    requires start <= |s| && IsBoundary(s, start)
    decreases |s| - start
  {
    start < |s| && (e in extract(Window(s, start)) || ReportedFrom(extract, s, NextStart(s, start), e))
  }

  /** As long as the scan has room left, it has seen what its windows report and nothing else. */
  lemma {:induction false} SeenExactly(extract: Extractor, s: seq<byte>, start: nat, seen: seq<Expression>,
                                       e: Expression)
    requires start <= |s| && IsBoundary(s, start)
    requires |seen| < MAX_URLS && NoDuplicates(seen) && |SeenFrom(extract, s, start, seen)| < MAX_URLS
    ensures e in SeenFrom(extract, s, start, seen) <==> e in seen || ReportedFrom(extract, s, start, e)
    decreases |s| - start
  {
    if start == |s| {
    } else {
      var found, next := extract(Window(s, start)), NextStart(s, start);
      var recorded := Record(seen, found);
      RecordKeeps(seen, found);
      SeenGrows(extract, s, next, recorded);
      RecordHolds(seen, found, e);
      SeenExactly(extract, s, next, recorded, e);
    }
  }

  // ----- a page that repeats one template URL

  predicate IsLetter(c: byte) {
    0x61 <= c <= 0x7A
  }

  /** "ftp://${c} ". */
  function Link(c: byte): (link: seq<byte>)
    ensures |link| == 11
  {
    [0x66, 0x74, 0x70, 0x3A, 0x2F, 0x2F, 0x24, 0x7B, c, 0x7D, 0x20]
  }

  /** The URL "ftp://${c}" with its template "${c}". */
  function LinkExpression(c: byte): Expression {
    Expression(Link(c)[..10], Link(c)[6..10])
  }

  /** The first link `n` times, and then the second. */
  function Page(first: byte, n: nat, second: byte): (page: seq<byte>)
    ensures |page| == 11 * n + 11
  {
    if n == 0 then Link(second) else Link(first) + Page(first, n - 1, second)
  }

  predicate LinkAt(s: seq<byte>, o: nat, c: byte) {
    o + 11 <= |s| && s[o..o + 11] == Link(c)
  }

  /** One byte that differs rules the pattern out. */
  lemma DiffersAt(s: seq<byte>, p: seq<byte>, i: nat, k: nat)
    requires k < |p| && i + k < |s| && s[i + k] != p[k]
    ensures !StartsAt(s, p, i)
  {
  }

  lemma NoSchemeInsideLink(s: seq<byte>, o: nat, c: byte, k: nat)
    requires LinkAt(s, o, c) && IsLetter(c) && 0 < k < 11
    ensures !SchemeAt(s, o + k)
  {
    assert s[o + k] == Link(c)[k];
    if k == 8 {
      assert s[o + 9] == Link(c)[9];
      DiffersAt(s, HTTPS, o + k, 1);
      DiffersAt(s, HTTP, o + k, 1);
      DiffersAt(s, FTP, o + k, 1);
    } else {
      DiffersAt(s, HTTPS, o + k, 0);
      DiffersAt(s, HTTP, o + k, 0);
      DiffersAt(s, FTP, o + k, 0);
    }
  }

  lemma LinkTokenEnd(rest: seq<byte>, c: byte)
    requires LinkAt(rest, 0, c) && IsLetter(c)
    ensures TokenEnd(rest, 0) == 10
  {
    forall i | 0 <= i < 11 ensures rest[i] == Link(c)[i] {
      assert rest[0..11][i] == rest[i];
    }
    assert forall i :: 0 <= i < 10 ==> !DelimiterAt(rest, i);
    assert DelimiterAt(rest, 10);
    TokenEndIsFirstDelimiter(rest, 0);
  }

  lemma LinkTemplate(c: byte)
    requires IsLetter(c)
    ensures FindTemplate(Link(c)[..10]) == Some(Link(c)[6..10])
  {
    var url := Link(c)[..10];
    assert StartsAt(url, DOLLAR_OPEN, 6);
    assert StartsAt(url, CLOSE, 9);
    forall j | 0 <= j < 6 ensures !StartsAt(url, DOLLAR_OPEN, j) {
      DiffersAt(url, DOLLAR_OPEN, j, 0);
    }
    forall j | 6 <= j < 9 ensures !StartsAt(url, CLOSE, j) {
      DiffersAt(url, CLOSE, j, 0);
    }
    PairIsExact(url, DOLLAR_OPEN, CLOSE, 6, 9);
    assert url[6..10] == Link(c)[6..10];
  }

  lemma LinkIsFound(s: seq<byte>, o: nat, c: byte)
    requires LinkAt(s, o, c) && IsLetter(c)
    ensures SchemeAt(s, o) && ExpressionAt(s, o) == Some(LinkExpression(c))
  {
    forall k | 0 <= k < 6 ensures s[o + k] == FTP[k] {
      assert s[o..o + 11][k] == s[o + k];
    }
    assert StartsAt(s, FTP, o);
    SchemeThenBoundary(s, o);
    var rest := s[o..];
    assert rest[0..11] == s[o..o + 11];
    LinkTokenEnd(rest, c);
    BoundedTokenIsTruncated(rest);
    assert rest[..10] == Link(c)[..10];
    LinkTemplate(c);
  }

  /** A link adds its expression and nothing else. */
  lemma LinkIsCollected(s: seq<byte>, f: nat -> Option<Expression>, o: nat, c: byte)
    requires LinkAt(s, o, c) && IsLetter(c) && f == Finder(s)
    ensures Collect(|s|, f, o) == [LinkExpression(c)] + Collect(|s|, f, o + 11)
  {
    LinkIsFound(s, o, c);
    assert f(o) == Some(LinkExpression(c));
    forall j: nat | o + 1 <= j < o + 11 ensures f(j).None? {
      NoSchemeInsideLink(s, o, c, j - o);
    }
    CollectSkips(|s|, f, o + 1, o + 11);
  }

  function Copies(e: Expression, n: nat): (copies: seq<Expression>)
    ensures |copies| == n && forall i :: 0 <= i < n ==> copies[i] == e
  {
    if n == 0 then [] else [e] + Copies(e, n - 1)
  }

  lemma LinkThenRest(s: seq<byte>, o: nat, first: byte, n: nat, second: byte)
    requires n > 0 && o <= |s| && s[o..] == Page(first, n, second)
    ensures LinkAt(s, o, first) && s[o + 11..] == Page(first, n - 1, second)
  {
    assert s[o..o + 11] == s[o..][..11];
    assert s[o + 11..] == s[o..][11..];
  }

  /** `f` collects `expression(c)` at every link to `c`, and nothing more inside the link. */
  ghost predicate CollectsLinks(s: seq<byte>, f: nat -> Option<Expression>, expression: byte -> Expression) {
    forall o: nat, c: byte {:trigger LinkAt(s, o, c)} :: LinkAt(s, o, c) && IsLetter(c) ==>
      Collect(|s|, f, o) == [expression(c)] + Collect(|s|, f, o + 11)
  }

  /** The expressions of the rest of a page. */
  lemma {:induction false} PageIsCollected(s: seq<byte>, f: nat -> Option<Expression>, expression: byte -> Expression,
                                           o: nat, first: byte, n: nat, second: byte)
    requires o <= |s| && s[o..] == Page(first, n, second)
    requires IsLetter(first) && IsLetter(second) && CollectsLinks(s, f, expression)
    ensures Collect(|s|, f, o) == Copies(expression(first), n) + [expression(second)]
    decreases n
  {
    if n == 0 {
      assert s[o..o + 11] == Link(second);
      assert LinkAt(s, o, second);
      assert Collect(|s|, f, o + 11) == [];
      assert Copies(expression(first), 0) + [expression(second)] == [expression(second)] + [];
    } else {
      LinkThenRest(s, o, first, n, second);
      assert LinkAt(s, o, first);
      PageIsCollected(s, f, expression, o + 11, first, n - 1, second);
      Regroup([expression(first)], Copies(expression(first), n - 1), [expression(second)]);
    }
  }

  lemma PageExpressions(first: byte, n: nat, second: byte)
    requires IsLetter(first) && IsLetter(second)
    ensures Expressions(Page(first, n, second)) == Copies(LinkExpression(first), n) + [LinkExpression(second)]
  {
    var page := Page(first, n, second);
    forall o: nat, c: byte | LinkAt(page, o, c) && IsLetter(c)
      ensures Collect(|page|, Finder(page), o) == [LinkExpression(c)] + Collect(|page|, Finder(page), o + 11)
    {
      LinkIsCollected(page, Finder(page), o, c);
    }
    assert page[0..] == page;
    PageIsCollected(page, Finder(page), LinkExpression, 0, first, n, second);
  }

  lemma AsciiCharLength(s: seq<byte>)
    requires s != [] && s[0] < 0x80
    ensures CharLength(s) == 1
  {
  }

  lemma {:induction false} AsciiIsValid(s: seq<byte>)
    requires IsAscii(s)
    ensures Valid(s)
  {
    if s == [] {
    } else {
      AsciiCharLength(s);
      AsciiIsValid(s[1..]);
    }
  }

  lemma {:induction false} PageIsAscii(first: byte, n: nat, second: byte)
    requires IsLetter(first) && IsLetter(second)
    ensures IsAscii(Page(first, n, second))
  {
    if n == 0 {
    } else {
      PageIsAscii(first, n - 1, second);
    }
  }

  /** The last link of a page is where the copies end. */
  lemma {:induction false} LastLink(first: byte, n: nat, second: byte)
    ensures LinkAt(Page(first, n, second), 11 * n, second)
  {
    if n == 0 {
    } else {
      LastLink(first, n - 1, second);
      var page, rest := Page(first, n, second), Page(first, n - 1, second);
      assert page[11..] == rest;
      assert page[11 * n..11 * n + 11] == rest[11 * n - 11..11 * n];
    }
  }

  lemma {:induction false} CopiesAreRecordedOnce(seen: seq<Expression>, e: Expression, n: nat, more: seq<Expression>)
    requires e in seen
    ensures Record(seen, Copies(e, n) + more) == Record(seen, more)
  {
    if n == 0 {
      assert Copies(e, n) + more == more;
    } else {
      CopiesAreRecordedOnce(seen, e, n - 1, more);
      assert (Copies(e, n) + more)[1..] == Copies(e, n - 1) + more;
    }
  }

  lemma CopiesAreRecorded(e: Expression, n: nat)
    requires n > 0
    ensures Record([], Copies(e, n)) == [e]
  {
    var found := Copies(e, n);
    assert found[1..] == Copies(e, n - 1) + [];
    CopiesAreRecordedOnce([e], e, n - 1, []);
    assert [] + [found[0]] == [e];
  }

  /** A source shorter than the stride is one window. */
  lemma OneWindow(extract: Extractor, s: seq<byte>)
    requires 0 < |s| <= WINDOW_STRIDE
    ensures SeenFrom(extract, s, 0, []) == Record([], extract(s))
  {
    assert Window(s, 0) == s;
    assert NextStart(s, 0) == |s|;
  }

  /** What is recorded of a page, from what its one extractor call returns. */
  lemma PageIsRecorded(first: Expression, n: nat, second: Expression)
    requires n > 0 && first != second
    ensures Record([], Take(Copies(first, n) + [second], MAX_URLS)) == if n < MAX_URLS then [first, second] else [first]
  {
    if n < MAX_URLS {
      var found := Copies(first, n) + [second];
      assert found[1..] == Copies(first, n - 1) + [second];
      CopiesAreRecordedOnce([first], first, n - 1, [second]);
      assert Take(found, MAX_URLS) == found && [] + [found[0]] == [first];
      assert [second][1..] == [] && Record([first], [second]) == [first] + [second];
    } else {
      var found := Take(Copies(first, n) + [second], MAX_URLS);
      CopiesAreRecorded(first, MAX_URLS);
      assert found == Copies(first, MAX_URLS);
    }
  }

  /**
    A page of at most one window that repeats a template URL `n` times before a
    different one: the different one is seen exactly when the copies leave room
    for it in the extractor call.  Otherwise it is lost, although a scan of the
    page finds it and only one pair has been recorded.
   */
  lemma RepetitionsHideWhatFollowsExactly(first: byte, n: nat, second: byte)
    requires IsLetter(first) && IsLetter(second) && first != second
    requires n > 0 && 11 * n + 11 <= WINDOW_STRIDE
    ensures var page := Page(first, n, second);
      && Valid(page) && SchemeAt(page, 11 * n) && ExpressionAt(page, 11 * n) == Some(LinkExpression(second))
      && SeenFrom(Detected, page, 0, []) ==
        (if n < 1000 then [LinkExpression(first), LinkExpression(second)] else [LinkExpression(first)])
      && (LinkExpression(second) in SeenFrom(Detected, page, 0, []) <==> n < 1000)
  {
    var page := Page(first, n, second);
    PageIsAscii(first, n, second);
    AsciiIsValid(page);
    LastLink(first, n, second);
    LinkIsFound(page, 11 * n, second);
    PageExpressions(first, n, second);
    assert LinkExpression(first).url[8] != LinkExpression(second).url[8];
    PageIsRecorded(LinkExpression(first), n, LinkExpression(second));
    OneWindow(Detected, page);
  }
}
