/**
  The extractor's tokens, schemes and templates on characters: what it does to
  the UTF-8 bytes is what the text itself says.
 */
module UrlCharacters {
  import opened Common
  import opened Utf8
  import opened UrlScan

  // ----- delimiters

  /** `char::is_whitespace`: the White_Space property of the Unicode Standard. */
  predicate IsWhiteSpace(c: Scalar) {
    || 0x09 <= c <= 0x0D || c == 0x20 || c == 0x85 || c == 0xA0 || c == 0x1680 || 0x2000 <= c <= 0x200A
    || c == 0x2028 || c == 0x2029 || c == 0x202F || c == 0x205F || c == 0x3000
  }

  /** White space, a quote, a backtick, an angle bracket or a bar. */
  predicate IsUrlDelimiter(c: Scalar) {
    || IsWhiteSpace(c)
    || c == '\'' as int || c == '"' as int || c == '`' as int || c == '<' as int || c == '>' as int || c == '|' as int
  }

  lemma DelimiterOfOneByte(c: Scalar, rest: seq<byte>)
    requires c < 0x80
    ensures DelimiterAt(EncodeScalar(c) + rest, 0) <==> IsUrlDelimiter(c)
  {
  }

  lemma DelimiterOfTwoBytes(c: Scalar, rest: seq<byte>)
    requires 0x80 <= c < 0x800
    ensures DelimiterAt(EncodeScalar(c) + rest, 0) <==> IsUrlDelimiter(c)
  {
    var s, lead, last := EncodeScalar(c) + rest, c / 0x40, c % 0x40;
    assert c == 0x40 * lead + last;
    assert s[0] == 0xC0 + lead && s[1] == 0x80 + last;
  }

  lemma DelimiterOfThreeBytes(c: Scalar, rest: seq<byte>)
    requires 0x800 <= c < 0x1_0000
    ensures DelimiterAt(EncodeScalar(c) + rest, 0) <==> IsUrlDelimiter(c)
  {
    var s, lead, middle, last := EncodeScalar(c) + rest, c / 0x1000, c / 0x40 % 0x40, c % 0x40;
    assert c / 0x40 == 0x40 * lead + middle && c == 0x1000 * lead + 0x40 * middle + last;
    assert s[0] == 0xE0 + lead && s[1] == 0x80 + middle && s[2] == 0x80 + last;
  }

  lemma DelimiterOfFourBytes(c: Scalar, rest: seq<byte>)
    requires 0x1_0000 <= c
    ensures DelimiterAt(EncodeScalar(c) + rest, 0) <==> IsUrlDelimiter(c)
  {
    var s := EncodeScalar(c) + rest;
    assert s[0] == 0xF0 + c / 0x4_0000;
  }

  /** The bytes of a character begin a delimiter exactly when the character is one. */
  lemma DelimiterIsByCharacter(c: Scalar, rest: seq<byte>)
    ensures DelimiterAt(EncodeScalar(c) + rest, 0) <==> IsUrlDelimiter(c)
  {
    if c < 0x80 {
      DelimiterOfOneByte(c, rest);
    } else if c < 0x800 {
      DelimiterOfTwoBytes(c, rest);
    } else if c < 0x1_0000 {
      DelimiterOfThreeBytes(c, rest);
    } else {
      DelimiterOfFourBytes(c, rest);
    }
  }

  /** No delimiter begins inside a character. */
  lemma NoDelimiterInside(c: Scalar, rest: seq<byte>, k: nat)
    requires 0 < k < |EncodeScalar(c)|
    ensures !DelimiterAt(EncodeScalar(c) + rest, k)
  {
    var s := EncodeScalar(c) + rest;
    EncodedTail(c, k);
    assert s[k] == EncodeScalar(c)[k];
  }

  lemma EncodedTail(c: Scalar, k: nat)
    requires 0 < k < |EncodeScalar(c)|
    ensures IsContinuation(EncodeScalar(c)[k])
  {
  }

  /** How many characters of the text come before the first delimiter. */
  function TokenLength(text: seq<Scalar>): (n: nat)
    ensures n <= |text|
  {
    if text == [] || IsUrlDelimiter(text[0]) then 0 else 1 + TokenLength(text[1..])
  }

  /** Skipping bytes that begin no delimiter. */
  lemma {:induction false} TokenEndSkips(s: seq<byte>, i: nat, j: nat)
    requires i <= j <= |s| && forall k :: i <= k < j ==> !DelimiterAt(s, k)
    ensures TokenEnd(s, i) == TokenEnd(s, j)
    decreases j - i
  {
    if i == j {
    } else {
      TokenEndSkips(s, i + 1, j);
    }
  }

  /** Where a token ends does not depend on what stands before it. */
  lemma {:induction false} TokenEndInSuffix(front: seq<byte>, s: seq<byte>, i: nat)
    requires i <= |s|
    ensures TokenEnd(front + s, |front| + i) == |front| + TokenEnd(s, i)
    decreases |s| - i
  {
    if i == |s| {
    } else {
      assert (front + s)[|front| + i] == s[i];
      assert i + 1 < |s| ==> (front + s)[|front| + i + 1] == s[i + 1];
      assert i + 2 < |s| ==> (front + s)[|front| + i + 2] == s[i + 2];
      TokenEndInSuffix(front, s, i + 1);
    }
  }

  lemma FirstCharacterSkipped(c: Scalar, rest: seq<byte>)
    requires !IsUrlDelimiter(c)
    ensures TokenEnd(EncodeScalar(c) + rest, 0) == |EncodeScalar(c)| + TokenEnd(rest, 0)
  {
    var one, s := EncodeScalar(c), EncodeScalar(c) + rest;
    forall k | 0 <= k < |one| ensures !DelimiterAt(s, k) {
      if k == 0 {
        DelimiterIsByCharacter(c, rest);
      } else {
        NoDelimiterInside(c, rest, k);
      }
    }
    TokenEndSkips(s, 0, |one|);
    TokenEndInSuffix(one, rest, 0);
  }

  /** A token is the text up to its first delimiter, character by character. */
  lemma {:induction false} TokenIsByCharacter(text: seq<Scalar>)
    ensures LeadingToken(EncodeUtf8(text)) == EncodeUtf8(text[..TokenLength(text)])
  {
    if text == [] {
    } else {
      var one, rest := EncodeScalar(text[0]), EncodeUtf8(text[1..]);
      if IsUrlDelimiter(text[0]) {
        DelimiterIsByCharacter(text[0], rest);
      } else {
        TokenIsByCharacter(text[1..]);
        FirstCharacterSkipped(text[0], rest);
        var n := TokenLength(text[1..]);
        assert text[..n + 1][1..] == text[1..][..n];
        TokenOfBoth(one, rest, TokenEnd(rest, 0));
      }
    }
  }

  lemma TokenOfBoth(one: seq<byte>, rest: seq<byte>, n: nat)
    requires n <= |rest|
    ensures (one + rest)[..|one| + n] == one + rest[..n]
  {
  }

  // ----- schemes

  /** A scheme starts at an offset exactly when one of the three texts stands there. */
  lemma SchemesAreTexts(s: seq<byte>, o: nat)
    ensures SchemeAt(s, o) <==>
      || (o + 8 <= |s| && s[o..o + 8] == Ascii("https://"))
      || (o + 7 <= |s| && s[o..o + 7] == Ascii("http://"))
      || (o + 6 <= |s| && s[o..o + 6] == Ascii("ftp://"))
  {
    StandsAt(s, HTTPS, o);
    StandsAt(s, HTTP, o);
    StandsAt(s, FTP, o);
    assert Ascii("https://") == HTTPS && Ascii("http://") == HTTP && Ascii("ftp://") == FTP;
  }

  lemma StandsAt(s: seq<byte>, p: seq<byte>, o: nat)
    ensures StartsAt(s, p, o) <==> o + |p| <= |s| && s[o..o + |p|] == p
  {
    if o + |p| <= |s| {
      var t := s[o..o + |p|];
      assert forall k :: 0 <= k < |t| ==> t[k] == s[o + k];
    }
  }

  // ----- templates

  predicate IsUnmarked(b: byte) {
    b < 0x80 && b != '$' as int && b != '#' as int && b != '{' as int && b != '}' as int
  }

  /** The only marks in the token are an opening pair at `start` and what closes it at `end`. */
  predicate HasOneTemplate(url: seq<byte>, open: seq<byte>, close: seq<byte>, start: nat, end: nat) {
    && start + |open| <= end && end + |close| <= |url|
    && url[start..start + |open|] == open && url[end..end + |close|] == close
    && forall i :: 0 <= i < |url| && !(start <= i < start + |open|) && !(end <= i < end + |close|) ==>
         IsUnmarked(url[i])
  }

  lemma StartsNowhere(url: seq<byte>, open: seq<byte>, close: seq<byte>)
    requires forall j: nat :: j <= |url| ==> !StartsAt(url, open, j)
    ensures FindPair(url, open, close).None?
  {
    FindFromIsLeast(url, open, 0);
  }

  lemma OneTemplateIsAPair(url: seq<byte>, open: seq<byte>, close: seq<byte>, start: nat, end: nat)
    requires HasOneTemplate(url, open, close, start, end)
    requires open == DOLLAR_OPEN || open == DOUBLE_OPEN || open == HASH_OPEN
    requires close == CLOSE || close == DOUBLE_CLOSE
    ensures FindPair(url, open, close) == Some(url[start..end + |close|])
  {
    StandsAt(url, open, start);
    StandsAt(url, close, end);
    forall j | 0 <= j < start ensures !StartsAt(url, open, j) {
      DiffersFrom(url, open, j, 0);
    }
    forall j | start <= j < end ensures !StartsAt(url, close, j) {
      if j < start + 2 {
        assert url[j] == url[start..start + 2][j - start];
      }
      DiffersFrom(url, close, j, 0);
    }
    PairIsExact(url, open, close, start, end);
    assert url[start] == url[start..start + |open|][0];
    assert url[end + |close| - 1] == url[end..end + |close|][|close| - 1];
  }

  lemma DiffersFrom(s: seq<byte>, p: seq<byte>, i: nat, k: nat)
    requires k < |p| && i + k < |s| && s[i + k] != p[k]
    ensures !StartsAt(s, p, i)
  {
  }

  /** With no dollar sign there is no `${`, and with single braces no `{{`. */
  lemma OtherMarksAreAbsent(url: seq<byte>, open: seq<byte>, close: seq<byte>, start: nat, end: nat)
    requires HasOneTemplate(url, open, close, start, end)
    requires (open == DOUBLE_OPEN && close == DOUBLE_CLOSE) || (open == HASH_OPEN && close == CLOSE)
    ensures FindPair(url, DOLLAR_OPEN, CLOSE).None?
    ensures open == HASH_OPEN ==> FindPair(url, DOUBLE_OPEN, DOUBLE_CLOSE).None?
  {
    assert forall i :: start <= i < start + 2 ==> url[i] == url[start..start + 2][i - start];
    assert forall i :: end <= i < end + |close| ==> url[i] == url[end..end + |close|][i - end];
    forall j: nat | j <= |url| ensures !StartsAt(url, DOLLAR_OPEN, j) {
      if j < |url| {
        DiffersFrom(url, DOLLAR_OPEN, j, 0);
      }
    }
    StartsNowhere(url, DOLLAR_OPEN, CLOSE);
    if open == HASH_OPEN {
      forall j: nat | j <= |url| ensures !StartsAt(url, DOUBLE_OPEN, j) {
        if j < |url| {
          if j == start + 1 {
            DiffersFrom(url, DOUBLE_OPEN, j, 1);
          } else {
            DiffersFrom(url, DOUBLE_OPEN, j, 0);
          }
        }
      }
      StartsNowhere(url, DOUBLE_OPEN, DOUBLE_CLOSE);
    }
  }

  /** The first of the three pairs of marks that matches gives the template. */
  lemma OneTemplateIsFound(url: seq<byte>, k: nat, start: nat, end: nat)
    requires k < 3
    requires HasOneTemplate(url, TEMPLATE_MARKS[k].open, TEMPLATE_MARKS[k].close, start, end)
    ensures FindTemplate(url) == Some(url[start..end + |TEMPLATE_MARKS[k].close|])
  {
    OneTemplateIsAPair(url, TEMPLATE_MARKS[k].open, TEMPLATE_MARKS[k].close, start, end);
    if k > 0 {
      OtherMarksAreAbsent(url, TEMPLATE_MARKS[k].open, TEMPLATE_MARKS[k].close, start, end);
    }
    FirstMarksWin(url, TEMPLATE_MARKS, k);
  }

  lemma MarksAreTexts()
    ensures TEMPLATE_MARKS[0] == Marks(Ascii("${"), Ascii("}"))
    ensures TEMPLATE_MARKS[1] == Marks(Ascii("{{"), Ascii("}}"))
    ensures TEMPLATE_MARKS[2] == Marks(Ascii("#{"), Ascii("}"))
  {
    assert Ascii("${") == DOLLAR_OPEN && Ascii("{{") == DOUBLE_OPEN && Ascii("#{") == HASH_OPEN;
    assert Ascii("}") == CLOSE && Ascii("}}") == DOUBLE_CLOSE;
  }

  /** The three kinds of template: `${...}`, `{{...}}` and `#{...}`, from the opening to the closing mark. */
  lemma TemplatesAreFound(url: seq<byte>, start: nat, end: nat)
    ensures HasOneTemplate(url, Ascii("${"), Ascii("}"), start, end) ==> FindTemplate(url) == Some(url[start..end + 1])
    ensures HasOneTemplate(url, Ascii("{{"), Ascii("}}"), start, end) ==> FindTemplate(url) == Some(url[start..end + 2])
    ensures HasOneTemplate(url, Ascii("#{"), Ascii("}"), start, end) ==> FindTemplate(url) == Some(url[start..end + 1])
  {
    MarksAreTexts();
    forall k: nat | k < 3 && HasOneTemplate(url, TEMPLATE_MARKS[k].open, TEMPLATE_MARKS[k].close, start, end)
      ensures FindTemplate(url) == Some(url[start..end + |TEMPLATE_MARKS[k].close|])
    {
      OneTemplateIsFound(url, k, start, end);
    }
    assert |Ascii("}")| == 1 && |Ascii("}}")| == 2;
  }

  /** A token without opening marks has no template. */
  lemma NoTemplateWithoutMarks(url: seq<byte>)
    requires forall i :: 0 <= i < |url| ==> IsUnmarked(url[i])
    ensures FindTemplate(url).None?
  {
    forall p: seq<byte>, j: nat | (p == DOLLAR_OPEN || p == DOUBLE_OPEN || p == HASH_OPEN) && j <= |url|
      ensures !StartsAt(url, p, j)
    {
      if j < |url| {
        DiffersFrom(url, p, j, 0);
      }
    }
    StartsNowhere(url, DOLLAR_OPEN, CLOSE);
    StartsNowhere(url, DOUBLE_OPEN, DOUBLE_CLOSE);
    StartsNowhere(url, HASH_OPEN, CLOSE);
    FirstMarksWin(url, TEMPLATE_MARKS, 3);
  }
}
