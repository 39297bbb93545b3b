/** Which PAX headers set the size of the next member: the records in their content, line by line. */
module TarPax {
  import opened Common
  import opened Text
  import opened TarScan

  function IsLineFeed(): byte -> bool {
    b => b == 0x0A
  }

  /** Behind the first space of the line comes `size=`. */
  predicate IsSizeLine(line: seq<byte>) {
    exists p :: 0 <= p < |line| && IsFirstSpace(line, p) && Ascii("size=") <= line[p + 1..]
  }

  predicate IsFirstSpace(line: seq<byte>, p: nat) {
    p < |line| && line[p] == ' ' as int && forall i :: 0 <= i < p ==> line[i] != ' ' as int
  }

  /** A key without line feeds starts the text exactly when it starts its first line. */
  lemma {:induction false} KeyInFirstLine(key: seq<byte>, text: seq<byte>)
    requires Free(key, IsLineFeed())
    ensures key <= text <==> key <= Split(text, IsLineFeed())[0]
  {
    if key == [] || text == [] {
    } else {
      KeyInFirstLine(key[1..], text[1..]);
      var first, rest := Split(text, IsLineFeed())[0], Split(text[1..], IsLineFeed())[0];
      assert key <= text <==> key[0] == text[0] && key[1..] <= text[1..];
      if text[0] != 0x0A {
        assert first == [text[0]] + rest;
        assert key <= first <==> key[0] == text[0] && key[1..] <= rest;
      } else {
        assert first == [];
      }
    }
  }

  lemma SizeLineBegins(c: byte, rest: seq<byte>)
    ensures IsSizeLine([c] + rest) <==> if c == ' ' as int then Ascii("size=") <= rest else IsSizeLine(rest)
  {
    var line := [c] + rest;
    assert line[1..] == rest;
    if c == ' ' as int {
      assert IsFirstSpace(line, 0);
      assert forall p :: 0 < p < |line| ==> !IsFirstSpace(line, p);
    } else {
      forall p | 0 <= p < |rest|
        ensures IsFirstSpace(rest, p) <==> IsFirstSpace(line, p + 1)
        ensures rest[p + 1..] == line[p + 1 + 1..]
      {
        assert line[p + 1] == rest[p];
        assert forall i :: 0 <= i < p ==> rest[i] == line[i + 1];
        assert forall i :: 1 <= i < p + 1 ==> line[i] == rest[i - 1];
      }
      if IsSizeLine(rest) {
        var p :| 0 <= p < |rest| && IsFirstSpace(rest, p) && Ascii("size=") <= rest[p + 1..];
        assert IsFirstSpace(line, p + 1);
      }
      if IsSizeLine(line) {
        var p :| 0 <= p < |line| && IsFirstSpace(line, p) && Ascii("size=") <= line[p + 1..];
        assert p > 0 && IsFirstSpace(rest, p - 1);
      }
    }
  }

  lemma KeyIsText()
    ensures SIZE_KEY == Ascii("size=") && Free(SIZE_KEY, IsLineFeed())
  {
  }

  lemma {:induction false} FirstLineExactly(content: seq<byte>)
    ensures FirstLineIsSize(content) <==> IsSizeLine(Split(content, IsLineFeed())[0])
  {
    if content == [] || content[0] == 0x0A {
      assert Split(content, IsLineFeed())[0] == [];
    } else {
      FirstLineExactly(content[1..]);
      KeyIsText();
      KeyInFirstLine(SIZE_KEY, content[1..]);
      SizeLineBegins(content[0], Split(content[1..], IsLineFeed())[0]);
    }
  }

  /** What follows the first line is the other lines, if there are any. */
  lemma {:induction false} OtherLines(content: seq<byte>)
    ensures var lines := Split(content, IsLineFeed());
      if |lines| == 1 then AfterLine(content) == [] else Split(AfterLine(content), IsLineFeed()) == lines[1..]
  {
    if content == [] {
    } else {
      OtherLines(content[1..]);
    }
  }

  /** A PAX header sets a size exactly when one of its lines has `size=` behind its first space. */
  lemma {:induction false} SizeRecordExactly(content: seq<byte>)
    ensures HasSizeRecord(content) <==> exists line :: line in Split(content, IsLineFeed()) && IsSizeLine(line)
    decreases |content|
  {
    var lines := Split(content, IsLineFeed());
    if content == [] {
      assert lines == [[]];
    } else {
      FirstLineExactly(content);
      OtherLines(content);
      AfterLineShrinks(content);
      SizeRecordExactly(AfterLine(content));
      assert lines == [lines[0]] + lines[1..];
      if |lines| == 1 {
        assert Split([], IsLineFeed()) == [[]];
      }
    }
  }

  /** On what the scanner sees: the bytes of the content, whatever their encoding. */
  lemma PendingExactly(content: seq<byte>)
    ensures PaxContentHasSizeRecord(content) <==>
      exists line :: line in Split(content, IsLineFeed()) && IsSizeLine(line)
  {
    DecodingKeepsSizeRecords(content);
    SizeRecordExactly(content);
  }
}
