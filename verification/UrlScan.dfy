/**
  The dynamic-URL scanner of `url_discovery.rs`, on UTF-8 bytes: one bounded
  extractor call (`detect_dynamic_url_expressions`) and its helpers.
 */
module UrlScan {
  import opened Common
  import opened Utf8

  const MAX_SOURCE_SIZE: nat := 1_048_576
  const MAX_URLS: nat := 1000
  const MAX_URL_LENGTH: nat := 2048

  // "https://", "http://", "ftp://"
  const HTTPS: seq<byte> := [0x68, 0x74, 0x74, 0x70, 0x73, 0x3A, 0x2F, 0x2F]
  const HTTP: seq<byte> := [0x68, 0x74, 0x74, 0x70, 0x3A, 0x2F, 0x2F]
  const FTP: seq<byte> := [0x66, 0x74, 0x70, 0x3A, 0x2F, 0x2F]

  // "${", "{{", "#{", "}", "}}"
  const DOLLAR_OPEN: seq<byte> := [0x24, 0x7B]
  const DOUBLE_OPEN: seq<byte> := [0x7B, 0x7B]
  const HASH_OPEN: seq<byte> := [0x23, 0x7B]
  const CLOSE: seq<byte> := [0x7D]
  const DOUBLE_CLOSE: seq<byte> := [0x7D, 0x7D]

  /** A URL token together with the first unresolved template in it. */
  datatype Expression = Expression(url: seq<byte>, template: seq<byte>)

  predicate StartsAt(s: seq<byte>, p: seq<byte>, i: nat) {
    i + |p| <= |s| && forall k :: 0 <= k < |p| ==> s[i + k] == p[k]
  }

  predicate SchemeAt(s: seq<byte>, i: nat) {
    StartsAt(s, HTTPS, i) || StartsAt(s, HTTP, i) || StartsAt(s, FTP, i)
  }

  /** `str::find` for a fixed pattern, from index `i` on: the least occurrence. */
  function FindFrom(s: seq<byte>, p: seq<byte>, i: nat): (r: Option<nat>)
    requires i <= |s|
    ensures r.Some? ==> i <= r.value && r.value + |p| <= |s|
    decreases |s| - i
  {
    if StartsAt(s, p, i) then Some(i)
    else if i == |s| then None
    else FindFrom(s, p, i + 1)
  }

  lemma {:induction false} FindFromIsLeast(s: seq<byte>, p: seq<byte>, i: nat)
    requires i <= |s|
    ensures var r := FindFrom(s, p, i);
      && (r.Some? ==> StartsAt(s, p, r.value) && forall j :: i <= j < r.value ==> !StartsAt(s, p, j))
      && (r.None? ==> forall j :: i <= j ==> !StartsAt(s, p, j))
    decreases |s| - i
  {
    if StartsAt(s, p, i) || i == |s| {
    } else {
      FindFromIsLeast(s, p, i + 1);
    }
  }

  function Earlier(a: Option<nat>, b: Option<nat>): Option<nat> {
    if a.None? then b
    else if b.None? || a.value <= b.value then a
    else b
  }

  /** The first match of any of three patterns. */
  function FindAny(s: seq<byte>, p: seq<byte>, q: seq<byte>, r: seq<byte>): Option<nat> {
    Earlier(FindFrom(s, p, 0), Earlier(FindFrom(s, q, 0), FindFrom(s, r, 0)))
  }

  /** `find_next_scheme`: the first match of any scheme at or after `from`. */
  function FindNextScheme(source: seq<byte>, from: nat): Option<nat> {
    match GetFrom(source, from)
    case None => None
    case Some(rest) =>
      match FindAny(rest, HTTPS, HTTP, FTP)
      case None => None
      case Some(p) => Some(from + p)
  }

  /** Searching the text from `from` on is searching the whole text from there. */
  lemma FindInSuffix(s: seq<byte>, p: seq<byte>, from: nat)
    requires from <= |s|
    ensures var r := FindFrom(s[from..], p, 0);
      && (r.Some? ==> StartsAt(s, p, from + r.value) && forall j :: from <= j < from + r.value ==> !StartsAt(s, p, j))
      && (r.None? ==> forall j :: from <= j ==> !StartsAt(s, p, j))
  {
    FindFromIsLeast(s[from..], p, 0);
    assert forall j: nat :: from <= j ==> (StartsAt(s, p, j) <==> StartsAt(s[from..], p, j - from));
  }

  lemma FindAnyIsLeast(s: seq<byte>, p: seq<byte>, q: seq<byte>, r: seq<byte>, from: nat)
    requires from <= |s|
    ensures var found := FindAny(s[from..], p, q, r);
      && (found.Some? ==>
            var at := from + found.value;
            && (StartsAt(s, p, at) || StartsAt(s, q, at) || StartsAt(s, r, at))
            && forall j :: from <= j < at ==> !StartsAt(s, p, j) && !StartsAt(s, q, j) && !StartsAt(s, r, j))
      && (found.None? ==> forall j :: from <= j ==> !StartsAt(s, p, j) && !StartsAt(s, q, j) && !StartsAt(s, r, j))
  {
    FindInSuffix(s, p, from);
    FindInSuffix(s, q, from);
    FindInSuffix(s, r, from);
  }

  /** `next` is the first offset from `from` on where a scheme starts, if there is one. */
  ghost predicate IsNextScheme(source: seq<byte>, from: nat, next: Option<nat>) {
    && (next.Some? ==>
          && from <= next.value && SchemeAt(source, next.value)
          && forall j :: from <= j < next.value ==> !SchemeAt(source, j))
    && (next.None? ==> forall j :: from <= j ==> !SchemeAt(source, j))
  }

  lemma FindNextSchemeIsLeast(source: seq<byte>, from: nat)
    requires from <= |source| && IsBoundary(source, from)
    ensures IsNextScheme(source, from, FindNextScheme(source, from))
  {
    FindAnyIsLeast(source, HTTPS, HTTP, FTP, from);
  }

  /** ASCII white space, or one of a quote, backtick, angle bracket or bar. */
  predicate AsciiDelimiter(b: byte) {
    || 0x09 <= b <= 0x0D
    || b == 0x20 || b == 0x22 || b == 0x27 || b == 0x3C || b == 0x3E || b == 0x60 || b == 0x7C
  }

  /** U+0085 and U+00A0. */
  predicate WideSpace2(b: byte, c: byte) {
    b == 0xC2 && (c == 0x85 || c == 0xA0)
  }

  /** U+1680, U+2000 to U+200A, U+2028, U+2029, U+202F, U+205F and U+3000. */
  predicate WideSpace3(b: byte, c: byte, d: byte) {
    || (b == 0xE1 && c == 0x9A && d == 0x80)
    || (b == 0xE2 && c == 0x80 && (0x80 <= d <= 0x8A || d == 0xA8 || d == 0xA9 || d == 0xAF))
    || (b == 0xE2 && c == 0x81 && d == 0x9F)
    || (b == 0xE3 && c == 0x80 && d == 0x80)
  }

  /** `is_url_delimiter` for the character starting at byte `i`. */
  predicate DelimiterAt(s: seq<byte>, i: nat)
    requires i < |s|
  {
    || AsciiDelimiter(s[i])
    || (i + 1 < |s| && WideSpace2(s[i], s[i + 1]))
    || (i + 2 < |s| && WideSpace3(s[i], s[i + 1], s[i + 2]))
  }

  /** The first delimiter at or after `i`, or the end. */
  function TokenEnd(s: seq<byte>, i: nat): (r: nat)
    requires i <= |s|
    ensures i <= r <= |s|
    decreases |s| - i
  {
    if i == |s| || DelimiterAt(s, i) then i else TokenEnd(s, i + 1)
  }

  lemma {:induction false} TokenEndIsFirstDelimiter(s: seq<byte>, i: nat)
    requires i <= |s|
    ensures TokenEnd(s, i) < |s| ==> DelimiterAt(s, TokenEnd(s, i))
    ensures forall j :: i <= j < TokenEnd(s, i) ==> !DelimiterAt(s, j)
    decreases |s| - i
  {
    if i == |s| || DelimiterAt(s, i) {
    } else {
      TokenEndIsFirstDelimiter(s, i + 1);
    }
  }

  /** The last boundary at or before `cut`. */
  function CutAt(url: seq<byte>, cut: nat): (r: nat)
    ensures r <= cut && IsBoundary(url, r)
  {
    if cut > 0 && !IsBoundary(url, cut) then CutAt(url, cut - 1) else cut
  }

  lemma {:induction false} CutAtIsLastBoundary(url: seq<byte>, cut: nat)
    ensures forall j :: CutAt(url, cut) < j <= cut ==> !IsBoundary(url, j)
  {
    if cut == 0 || IsBoundary(url, cut) {
    } else {
      CutAtIsLastBoundary(url, cut - 1);
    }
  }

  /** The longest prefix of at most MAX_URL_LENGTH bytes that ends on a boundary. */
  function Truncated(url: seq<byte>): (r: seq<byte>)
    ensures r <= url && |r| <= MAX_URL_LENGTH
  {
    if |url| <= MAX_URL_LENGTH then url else url[..CutAt(url, MAX_URL_LENGTH)]
  }

  method TruncateUrl(url: seq<byte>) returns (r: seq<byte>)
    ensures r == Truncated(url)
    ensures r <= url && |r| <= MAX_URL_LENGTH && IsBoundary(url, |r|)
    ensures forall j :: |r| < j <= MAX_URL_LENGTH && j <= |url| ==> !IsBoundary(url, j)
  {
    if |url| <= MAX_URL_LENGTH {
      return url;
    }
    var cut := MAX_URL_LENGTH;
    while cut > 0 && !IsBoundary(url, cut)
      invariant 0 <= cut <= MAX_URL_LENGTH
      invariant CutAt(url, MAX_URL_LENGTH) == CutAt(url, cut)
    {
      cut := cut - 1;
    }
    CutAtIsLastBoundary(url, MAX_URL_LENGTH);
    r := url[..cut];
  }

  /** The text up to the first delimiter, before truncation. */
  function LeadingToken(rest: seq<byte>): seq<byte> {
    rest[..TokenEnd(rest, 0)]
  }

  /** The token at the start of `rest`, as the extractor returns it. */
  function BoundedToken(rest: seq<byte>): Option<seq<byte>> {
    match GetRange(rest, 0, TokenEnd(rest, 0))
    case None => None
    case Some(url) => Some(Truncated(url))
  }

  /** `extract_url_token`. */
  function UrlToken(source: seq<byte>, start: nat): Option<seq<byte>> {
    match GetFrom(source, start)
    case None => None
    case Some(rest) => BoundedToken(rest)
  }

  method ExtractUrlToken(source: seq<byte>, start: nat) returns (r: Option<seq<byte>>)
    ensures r == UrlToken(source, start)
    ensures r.Some? ==> start <= |source| && r.value <= LeadingToken(source[start..]) && |r.value| <= MAX_URL_LENGTH
  {
    var rest := GetFrom(source, start);
    if rest.None? {
      return None;
    }
    var url := GetRange(rest.value, 0, TokenEnd(rest.value, 0));
    if url.None? {
      return None;
    }
    var cut := TruncateUrl(url.value);
    r := Some(cut);
  }

  /** A delimiter starts a character, so the token is always on boundaries and never lost. */
  lemma BoundedTokenIsTruncated(rest: seq<byte>)
    ensures BoundedToken(rest) == Some(Truncated(LeadingToken(rest)))
  {
    TokenEndIsFirstDelimiter(rest, 0);
  }

  /** One (open, close) pair: from the first `open` to the first `close` after it. */
  function FindPair(url: seq<byte>, open: seq<byte>, close: seq<byte>): Option<seq<byte>> {
    match FindFrom(url, open, 0)
    case None => None
    case Some(start) =>
      match FindFrom(url, close, start)
      case None => None
      case Some(end) => GetRange(url, start, end + |close|)
  }

  /** `start` and `end` are where the first `open` and the first `close` after it begin. */
  predicate IsPair(url: seq<byte>, open: seq<byte>, close: seq<byte>, start: nat, end: nat) {
    && StartsAt(url, open, start) && (forall j :: 0 <= j < start ==> !StartsAt(url, open, j))
    && start <= end && StartsAt(url, close, end) && (forall j :: start <= j < end ==> !StartsAt(url, close, j))
  }

  predicate IsAscii(s: seq<byte>) {
    forall i :: 0 <= i < |s| ==> s[i] < 0x80
  }

  /** ASCII marks in well-formed text begin and end on character boundaries. */
  lemma AsciiMarksAreOnBoundaries(url: seq<byte>, mark: seq<byte>, at: nat)
    requires Valid(url) && mark != [] && IsAscii(mark) && StartsAt(url, mark, at)
    ensures IsBoundary(url, at) && IsBoundary(url, at + |mark|)
  {
    var last := |mark| - 1;
    assert url[at + 0] == mark[0] && url[at + last] == mark[last];
    AsciiIsOneChar(url, at);
    AsciiIsOneChar(url, at + last);
  }

  /**
    A template runs from the first `open` to the first `close` after it.  In
    well-formed text with ASCII marks it is found whenever there is one: both of
    its ends are character boundaries.
   */
  lemma PairIsExact(url: seq<byte>, open: seq<byte>, close: seq<byte>, start: nat, end: nat)
    requires IsPair(url, open, close, start, end)
    ensures FindPair(url, open, close) == GetRange(url, start, end + |close|)
    ensures Valid(url) && open != [] && close != [] && IsAscii(open) && IsAscii(close) ==>
      FindPair(url, open, close) == Some(url[start..end + |close|])
  {
    FindFromIsLeast(url, open, 0);
    FindFromIsLeast(url, close, start);
    assert FindPair(url, open, close) == GetRange(url, start, end + |close|);
    if Valid(url) && open != [] && close != [] && IsAscii(open) && IsAscii(close) {
      AsciiMarksAreOnBoundaries(url, open, start);
      AsciiMarksAreOnBoundaries(url, close, end);
    }
  }

  lemma TemplateIsAPair(url: seq<byte>, open: seq<byte>, close: seq<byte>)
    requires FindPair(url, open, close).Some?
    ensures exists start: nat, end: nat ::
              IsPair(url, open, close, start, end) && FindPair(url, open, close) == Some(url[start..end + |close|])
  {
    FindFromIsLeast(url, open, 0);
    var start := FindFrom(url, open, 0).value;
    FindFromIsLeast(url, close, start);
    assert IsPair(url, open, close, start, FindFrom(url, close, start).value);
  }

  datatype Marks = Marks(open: seq<byte>, close: seq<byte>)

  const TEMPLATE_MARKS: seq<Marks> :=
    [Marks(DOLLAR_OPEN, CLOSE), Marks(DOUBLE_OPEN, DOUBLE_CLOSE), Marks(HASH_OPEN, CLOSE)]

  /** The template of the first pair of marks that has one. */
  function FirstTemplate(url: seq<byte>, marks: seq<Marks>): Option<seq<byte>> {
    if marks == [] then None
    else
      var found := FindPair(url, marks[0].open, marks[0].close);
      if found.Some? then found else FirstTemplate(url, marks[1..])
  }

  /** An earlier pair of marks wins over a later one, wherever their templates are; without any there is none. */
  lemma {:induction false} FirstMarksWin(url: seq<byte>, marks: seq<Marks>, k: nat)
    requires k <= |marks|
    requires forall j :: 0 <= j < k ==> FindPair(url, marks[j].open, marks[j].close).None?
    ensures FirstTemplate(url, marks) == FirstTemplate(url, marks[k..])
    ensures k < |marks| && FindPair(url, marks[k].open, marks[k].close).Some? ==>
      FirstTemplate(url, marks) == FindPair(url, marks[k].open, marks[k].close)
    ensures k == |marks| ==> FirstTemplate(url, marks).None?
  {
    if k == 0 {
      assert marks[0..] == marks;
    } else {
      FirstMarksWin(url, marks[1..], k - 1);
      assert marks[1..][k - 1..] == marks[k..];
    }
  }

  /** `find_template_expression`: the three pairs are tried in this order. */
  function FindTemplate(url: seq<byte>): Option<seq<byte>> {
    FirstTemplate(url, TEMPLATE_MARKS)
  }

  /** What is reported for a token: nothing without a template. */
  function Templated(url: Option<seq<byte>>): Option<Expression> {
    if url.None? then None
    else
      match FindTemplate(url.value)
      case None => None
      case Some(template) => Some(Expression(url.value, template))
  }

  function ExpressionAt(source: seq<byte>, offset: nat): Option<Expression> {
    Templated(UrlToken(source, offset))
  }

  function Listed<E>(e: Option<E>): seq<E> {
    if e.Some? then [e.value] else []
  }

  /** The values a partial function takes on `from..n`, in order. */
  function Collect<E>(n: nat, f: nat -> Option<E>, from: nat): seq<E>
    decreases n - from
  {
    if from >= n then [] else Listed(f(from)) + Collect(n, f, from + 1)
  }

  lemma {:induction false} CollectExact<E>(n: nat, f: nat -> Option<E>, from: nat, e: E)
    ensures e in Collect(n, f, from) <==> exists o: nat :: from <= o < n && f(o) == Some(e)
    decreases n - from
  {
    if from >= n {
    } else {
      CollectExact(n, f, from + 1, e);
    }
  }

  lemma {:induction false} CollectSkips<E>(n: nat, f: nat -> Option<E>, from: nat, to: nat)
    requires from <= to && forall j: nat :: from <= j < to ==> f(j).None?
    ensures Collect(n, f, from) == Collect(n, f, to)
    decreases n - from
  {
    if from == to || from >= n {
    } else {
      CollectSkips(n, f, from + 1, to);
    }
  }

  /** The expression at an offset, if a scheme starts there. */
  function Finder(source: seq<byte>): nat -> Option<Expression> {
    (o: nat) => if SchemeAt(source, o) then ExpressionAt(source, o) else None
  }

  /** The URL is a prefix of the token at a scheme. */
  predicate BeginsToken(s: seq<byte>, o: nat, url: seq<byte>) {
    o < |s| && SchemeAt(s, o) && url <= LeadingToken(s[o..])
  }

  /** A found expression begins the token at a scheme, and its template is the first one in it. */
  lemma FoundIsReal(source: seq<byte>, o: nat, e: Expression)
    requires Finder(source)(o) == Some(e)
    ensures BeginsToken(source, o, e.url) && FindTemplate(e.url) == Some(e.template)
  {
    SchemeThenBoundary(source, o);
    BoundedTokenIsTruncated(source[o..]);
  }

  /** Every expression at a scheme offset, offset by offset and with no cap. */
  function Expressions(source: seq<byte>): seq<Expression> {
    Collect(|source|, Finder(source), 0)
  }

  /** What one extractor call returns. */
  function Detected(source: seq<byte>): seq<Expression> {
    if |source| > MAX_SOURCE_SIZE then [] else Take(Expressions(source), MAX_URLS)
  }

  /** Offsets without a value contribute nothing. */
  lemma CollectFromNext<E>(n: nat, f: nat -> Option<E>, from: nat, next: Option<nat>)
    requires from <= n
    requires next.Some? ==> from <= next.value < n
    requires forall j: nat :: from <= j < n && (next.None? || j < next.value) ==> f(j).None?
    ensures next.None? ==> Collect(n, f, from) == []
    ensures next.Some? ==> Collect(n, f, from) == Listed(f(next.value)) + Collect(n, f, next.value + 1)
  {
    if next.None? {
      CollectSkips(n, f, from, n);
    } else {
      CollectSkips(n, f, from, next.value);
    }
  }

  /** `f` stands for the expression at each offset where a scheme starts, and for nothing elsewhere. */
  ghost predicate FindsAtSchemes(f: nat -> Option<Expression>, source: seq<byte>) {
    && (forall o: nat {:trigger ExpressionAt(source, o)} :: SchemeAt(source, o) ==> f(o) == ExpressionAt(source, o))
    && (forall o: nat {:trigger SchemeAt(source, o)} :: !SchemeAt(source, o) ==> f(o).None?)
  }

  method FindExpression(source: seq<byte>, offset: nat) returns (r: Option<Expression>)
    ensures r == ExpressionAt(source, offset)
  {
    r := None;
    var url := ExtractUrlToken(source, offset);
    if url.Some? {
      var template := FindTemplate(url.value);
      if template.Some? {
        r := Some(Expression(url.value, template.value));
      }
    }
  }

  method ExpressionAtScheme(source: seq<byte>, offset: nat, ghost f: nat -> Option<Expression>)
    returns (r: Option<Expression>)
    requires FindsAtSchemes(f, source) && SchemeAt(source, offset)
    ensures r == f(offset)
  {
    r := FindExpression(source, offset);
  }

  lemma NothingBetween(source: seq<byte>, f: nat -> Option<Expression>, from: nat, to: nat)
    requires FindsAtSchemes(f, source) && forall j :: from <= j < to ==> !SchemeAt(source, j)
    ensures forall j: nat :: from <= j < to ==> f(j).None?
  {
    forall j: nat | from <= j < to ensures f(j).None? {
      assert !SchemeAt(source, j);
    }
  }

  /** Up to the next scheme there is nothing to collect. */
  lemma CollectFromScheme(source: seq<byte>, f: nat -> Option<Expression>, from: nat, next: Option<nat>)
    requires from <= |source| && FindsAtSchemes(f, source) && IsNextScheme(source, from, next)
    ensures next.None? ==> Collect(|source|, f, from) == []
    ensures next.Some? ==>
      && next.value + 1 < |source| && IsBoundary(source, next.value + 1)
      && Collect(|source|, f, from) == Listed(f(next.value)) + Collect(|source|, f, next.value + 1)
  {
    if next.Some? {
      SchemeThenBoundary(source, next.value);
    }
    NothingBetween(source, f, from, if next.None? then |source| else next.value);
    CollectFromNext(|source|, f, from, next);
  }

  /** The next scheme; nothing before it counts, and the search may resume after its first byte. */
  method SearchScheme(source: seq<byte>, from: nat, ghost f: nat -> Option<Expression>) returns (next: Option<nat>)
    requires from <= |source| && IsBoundary(source, from) && FindsAtSchemes(f, source)
    ensures next.None? ==> Collect(|source|, f, from) == []
    ensures next.Some? ==>
      && from <= next.value && next.value + 1 < |source|
      && IsBoundary(source, next.value + 1) && SchemeAt(source, next.value)
      && Collect(|source|, f, from) == Listed(f(next.value)) + Collect(|source|, f, next.value + 1)
  {
    next := FindNextScheme(source, from);
    FindNextSchemeIsLeast(source, from);
    CollectFromScheme(source, f, from, next);
  }

  /** One turn of the search: the next scheme, its expression if any, and where to resume. */
  method ScanStep(source: seq<byte>, from: nat, ghost f: nat -> Option<Expression>)
    returns (found: Option<Expression>, resume: Option<nat>)
    requires from <= |source| && IsBoundary(source, from) && FindsAtSchemes(f, source)
    ensures resume.None? ==> Collect(|source|, f, from) == []
    ensures resume.Some? ==> from < resume.value <= |source| && IsBoundary(source, resume.value)
    ensures resume.Some? ==>
      Collect(|source|, f, from) == Listed(found) + Collect(|source|, f, resume.value)
  {
    found, resume := None, None;
    var next := SearchScheme(source, from, f);
    if next.Some? {
      found := ExpressionAtScheme(source, next.value, f);
      resume := Some(next.value + 1);
    }
  }

  method DetectDynamicUrlExpressions(source: seq<byte>) returns (expressions: seq<Expression>)
    ensures expressions == Detected(source)
    ensures |expressions| <= MAX_URLS
  {
    expressions := [];
    if |source| > MAX_SOURCE_SIZE {
      return;
    }
    var searchFrom := 0;
    while |expressions| < MAX_URLS
      invariant |expressions| <= MAX_URLS
      invariant 0 <= searchFrom <= |source| && IsBoundary(source, searchFrom)
      invariant Expressions(source) == expressions + Collect(|source|, Finder(source), searchFrom)
      decreases |source| - searchFrom
    {
      var found, resume := ScanStep(source, searchFrom, Finder(source));
      if resume.None? {
        break;
      }
      Regroup(expressions, Listed(found), Collect(|source|, Finder(source), resume.value));
      expressions := expressions + Listed(found);
      searchFrom := resume.value;
    }
  }

  /** The byte after the first byte of a scheme starts a character, so the search never loses its place. */
  lemma SchemeThenBoundary(s: seq<byte>, o: nat)
    requires SchemeAt(s, o)
    ensures o + 1 < |s| && IsBoundary(s, o) && IsBoundary(s, o + 1)
  {
    var p := if StartsAt(s, HTTPS, o) then HTTPS else if StartsAt(s, HTTP, o) then HTTP else FTP;
    assert s[o..o + |p|][0] == p[0] && s[o..o + |p|][1] == p[1];
  }

  /** The uncapped list holds exactly the expressions found at scheme offsets. */
  lemma ExpressionsExact(source: seq<byte>, e: Expression)
    ensures e in Expressions(source) <==> exists o: nat :: o < |source| && Finder(source)(o) == Some(e)
  {
    CollectExact(|source|, Finder(source), 0, e);
  }
}
