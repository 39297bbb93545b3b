/**
  When do labelled lines determine their texts?  A text may itself hold line
  feeds, and then the buffer can sometimes be cut into texts in another way.  The
  eighth text is `true` or `false` and the last one has no line feed, as in an
  approval file.
 */
module CanonicalLines {
  import opened Common
  import opened Text
  import opened Grouping
  import opened Approval

  function IsBreak(): char -> bool {
    c => c == '\n'
  }

  ghost predicate BreakFree(s: string) {
    Free(s, IsBreak())
  }

  type Starts = nat -> string

  /** Line starts hold no line feed, and those around the flag differ in their first character. */
  ghost predicate Separable(start: Starts) {
    && (forall k {:trigger BreakFree(start(k))} :: k <= 14 ==> BreakFree(start(k)))
    && start(8) != "" && start(9) != "" && start(10) != ""
    && start(8)[0] != start(9)[0] && start(9)[0] != start(10)[0]
  }

  predicate IsFlag(s: string) {
    s == "true" || s == "false"
  }

  ghost predicate ValidTexts(a: seq<string>) {
    |a| == 15 && IsFlag(a[8]) && BreakFree(a[14])
  }

  // ----- the buffer as a sequence of single lines

  /** Each text behind its line start. */
  function Fulls(start: Starts, k: nat, a: seq<string>): (r: seq<string>)
    ensures |r| == |a|
    decreases a
  {
    if a == [] then [] else [start(k) + a[0]] + Fulls(start, k + 1, a[1..])
  }

  lemma {:induction false} FullAt(start: Starts, k: nat, a: seq<string>, i: nat)
    requires i < |a|
    ensures Fulls(start, k, a)[i] == start(k + i) + a[i]
    decreases a
  {
    if i == 0 {
    } else {
      FullAt(start, k + 1, a[1..], i - 1);
    }
  }

  lemma {:induction false} LinesAreJoined(start: Starts, k: nat, a: seq<string>)
    requires a != []
    ensures Lines(start, k, a) == Join(Fulls(start, k, a), '\n') + "\n"
    decreases a
  {
    var full := start(k) + a[0];
    assert start(k) + (a[0] + "\n" + Lines(start, k + 1, a[1..])) == full + "\n" + Lines(start, k + 1, a[1..]);
    if |a| == 1 {
      assert a[1..] == [] && full + "\n" + "" == full + "\n";
    } else {
      LinesAreJoined(start, k + 1, a[1..]);
      var rest := Join(Fulls(start, k + 1, a[1..]), '\n');
      assert full + "\n" + (rest + "\n") == (full + ['\n'] + rest) + "\n";
    }
  }

  /** The single lines of each text. */
  function Blocks(start: Starts, a: seq<string>): (r: seq<seq<string>>)
    ensures |r| == |a|
  {
    Splits(Fulls(start, 0, a), IsBreak())
  }

  lemma SameWithoutEnd(x: string, y: string)
    requires x + "\n" == y + "\n"
    ensures x == y
  {
    assert x == (x + "\n")[..|x|] && y == (y + "\n")[..|y|];
  }

  /** Buffers are equal exactly when they have the same single lines. */
  lemma SameLinesExactly(start: Starts, a: seq<string>, b: seq<string>)
    requires a != [] && b != []
    ensures Lines(start, 0, a) == Lines(start, 0, b) <==> Flatten(Blocks(start, a)) == Flatten(Blocks(start, b))
  {
    LinesAreJoined(start, 0, a);
    LinesAreJoined(start, 0, b);
    JoinsAlike(Fulls(start, 0, a), Fulls(start, 0, b), '\n', IsBreak());
    if Lines(start, 0, a) == Lines(start, 0, b) {
      SameWithoutEnd(Join(Fulls(start, 0, a), '\n'), Join(Fulls(start, 0, b), '\n'));
    }
  }

  /** A block begins with its line start. */
  lemma BlockBegins(start: Starts, a: seq<string>, k: nat)
    requires k < |a| && BreakFree(start(k))
    ensures var block := Blocks(start, a)[k];
      && block == Split(start(k) + a[k], IsBreak()) && start(k) <= block[0]
      && (BreakFree(a[k]) ==> block == [start(k) + a[k]])
  {
    FullAt(start, 0, a, k);
    SplitFree(start(k), a[k], IsBreak());
    if BreakFree(a[k]) {
      SplitFree(a[k], [], IsBreak());
      assert a[k] + [] == a[k];
    }
  }

  // ----- the buffer as groups of lines

  function MergedGroup(x: seq<seq<string>>, m: nat): seq<string>
    requires |x| == 15 && m < 13
  {
    if m < 8 then x[m] else if m == 8 then x[8] + x[9] else x[m + 1]
  }

  /** The ninth and tenth block form one group; the last block is left off. */
  function Merged(x: seq<seq<string>>): (g: seq<seq<string>>)
    requires |x| == 15
    ensures |g| == 13
  {
    seq(13, (m: nat) requires |x| == 15 && m < 13 => MergedGroup(x, m))
  }

  lemma MergedAt(x: seq<seq<string>>, m: nat)
    requires |x| == 15 && m < 13
    ensures Merged(x)[m] == MergedGroup(x, m)
  {
  }

  /** The lines of the flag and of the text after it form one group. */
  function Groups(start: Starts, a: seq<string>): (g: seq<seq<string>>)
    requires |a| == 15
    ensures |g| == 13
  {
    Merged(Blocks(start, a))
  }

  lemma MergeFlattens(x: seq<seq<string>>)
    requires |x| == 15
    ensures Flatten(x) == Flatten(Merged(x)) + x[14]
  {
    var left, right := x[..8], x[10..14];
    assert Merged(x) == left + ([x[8] + x[9]] + right);
    FlattenAppend(left, [x[8] + x[9]] + right);
    FlattenAppend([x[8] + x[9]], right);
    assert x == left + (([x[8]] + [x[9]]) + (right + [x[14]]));
    FlattenAppend(left, ([x[8]] + [x[9]]) + (right + [x[14]]));
    FlattenAppend([x[8]] + [x[9]], right + [x[14]]);
    FlattenAppend([x[8]], [x[9]]);
    FlattenAppend(right, [x[14]]);
    FlattenSingle(x[8]);
    FlattenSingle(x[9]);
    FlattenSingle(x[8] + x[9]);
    FlattenSingle(x[14]);
    var a, b, c := Flatten(left), x[8] + x[9], Flatten(right);
    assert a + (b + (c + x[14])) == (a + (b + c)) + x[14];
  }

  lemma FlattenSingle(s: seq<string>)
    ensures Flatten([s]) == s
  {
    assert [s][1..] == [] && s + [] == s;
  }

  /** Where group `k` may begin. */
  predicate Begins(start: Starts, k: nat, lines: seq<string>) {
    && lines != []
    && if k < 8 then start(k) <= lines[0]
       else if k > 8 then start(k + 1) <= lines[0]
       else |lines| >= 2 && FlagLine(start, lines[0]) && start(9) <= lines[1]
  }

  function BeginsAt(start: Starts): Mark<string> {
    (k: nat, lines: seq<string>) => Begins(start, k, lines)
  }

  ghost predicate IsMark(mark: Mark<string>, start: Starts) {
    forall k: nat, lines: seq<string> {:trigger Begins(start, k, lines)} :: mark(k, lines) <==> Begins(start, k, lines)
  }

  predicate FlagLine(start: Starts, line: string) {
    line == start(8) + "true" || line == start(8) + "false"
  }

  /** The lines from a group on begin with the lines of the group. */
  lemma FlattenFrom(g: seq<seq<string>>, m: nat)
    requires m < |g|
    ensures |g[m]| <= |Flatten(g[m..])| && forall i :: 0 <= i < |g[m]| ==> Flatten(g[m..])[i] == g[m][i]
  {
    assert Flatten(g[m..]) == g[m] + Flatten(g[m..][1..]);
  }

  lemma FlattenNext(g: seq<seq<string>>, m: nat)
    requires m + 1 < |g| && |g[m]| == 1 && g[m + 1] != []
    ensures |Flatten(g[m..])| >= 2 && Flatten(g[m..])[1] == g[m + 1][0]
  {
    assert g[m..][1..] == g[m + 1..];
    FlattenFrom(g, m + 1);
    assert Flatten(g[m..]) == g[m] + Flatten(g[m + 1..]);
  }

  lemma GroupBegins(start: Starts, a: seq<string>, m: nat)
    requires Separable(start) && ValidTexts(a) && m < 13 && m != 8
    ensures Groups(start, a)[m] != [] && Begins(start, m, Flatten(Groups(start, a)[m..]))
  {
    BlockBegins(start, a, if m < 8 then m else m + 1);
    MergedAt(Blocks(start, a), m);
    FlattenFrom(Groups(start, a), m);
  }

  lemma FlagBlock(start: Starts, a: seq<string>)
    requires Separable(start) && ValidTexts(a)
    ensures |Blocks(start, a)[8]| == 1 && FlagLine(start, Blocks(start, a)[8][0])
  {
    BlockBegins(start, a, 8);
  }

  lemma FlagGroupBegins(start: Starts, a: seq<string>)
    requires Separable(start) && ValidTexts(a)
    ensures Groups(start, a)[8] != [] && Begins(start, 8, Flatten(Groups(start, a)[8..]))
  {
    FlagBlock(start, a);
    BlockBegins(start, a, 9);
    FlagPairBegins(start, Blocks(start, a)[8], Blocks(start, a)[9], Groups(start, a));
  }

  lemma FlagPairBegins(start: Starts, flag: seq<string>, next: seq<string>, g: seq<seq<string>>)
    requires |flag| == 1 && FlagLine(start, flag[0]) && next != [] && start(9) <= next[0]
    requires |g| == 13 && g[8] == flag + next
    ensures g[8] != [] && Begins(start, 8, Flatten(g[8..]))
  {
    FlattenFrom(g, 8);
    assert g[8][0] == flag[0] && g[8][1] == next[0];
  }

  lemma GroupsAreMarked(mark: Mark<string>, start: Starts, a: seq<string>)
    requires IsMark(mark, start) && Separable(start) && ValidTexts(a)
    ensures Marked(mark, 0, Groups(start, a))
  {
    var g := Groups(start, a);
    forall m | 0 <= m < |g| ensures g[m] != [] && mark(m, Flatten(g[m..])) {
      if m == 8 {
        FlagGroupBegins(start, a);
      } else {
        GroupBegins(start, a, m);
      }
    }
    MarkedFrom(mark, g, 0);
    assert g[0..] == g;
  }

  /** A block determines its text. */
  lemma BlockDetermines(start: Starts, a: seq<string>, b: seq<string>, k: nat)
    requires k < |a| && k < |b| && Blocks(start, a)[k] == Blocks(start, b)[k]
    ensures a[k] == b[k]
  {
    FullAt(start, 0, a, k);
    FullAt(start, 0, b, k);
    JoinOfSplit(start(k) + a[k], '\n', IsBreak());
    JoinOfSplit(start(k) + b[k], '\n', IsBreak());
    assert a[k] == (start(k) + a[k])[|start(k)|..] && b[k] == (start(k) + b[k])[|start(k)|..];
  }

  lemma MergedDetermines(x: seq<seq<string>>, y: seq<seq<string>>, k: nat)
    requires |x| == |y| == 15 && Merged(x) == Merged(y) && |x[8]| == |y[8]| && k < 14
    ensures x[k] == y[k]
  {
    var m := if k <= 8 then k else k - 1;
    MergedAt(x, m);
    MergedAt(y, m);
    if m == 8 {
      assert x[8] == (x[8] + x[9])[..|x[8]|] && y[8] == (y[8] + y[9])[..|y[8]|];
      assert x[9] == (x[8] + x[9])[|x[8]|..] && y[9] == (y[8] + y[9])[|y[8]|..];
    }
  }

  lemma GroupsDetermine(start: Starts, a: seq<string>, b: seq<string>)
    requires Separable(start) && ValidTexts(a) && ValidTexts(b)
    requires Groups(start, a) == Groups(start, b) && a[14] == b[14]
    ensures a == b
  {
    BlockBegins(start, a, 8);
    BlockBegins(start, b, 8);
    forall k | 0 <= k < 15 ensures a[k] == b[k] {
      if k < 14 {
        MergedDetermines(Blocks(start, a), Blocks(start, b), k);
        BlockDetermines(start, a, b, k);
      }
    }
  }

  /** Equal buffers have equal last texts and equal lines in their groups. */
  lemma SameBufferSameGroups(start: Starts, a: seq<string>, b: seq<string>)
    requires Separable(start) && ValidTexts(a) && ValidTexts(b)
    ensures Lines(start, 0, a) == Lines(start, 0, b) <==>
      a[14] == b[14] && Flatten(Groups(start, a)) == Flatten(Groups(start, b))
  {
    SameLinesExactly(start, a, b);
    MergeFlattens(Blocks(start, a));
    MergeFlattens(Blocks(start, b));
    BlockBegins(start, a, 14);
    BlockBegins(start, b, 14);
    var g, h, x, y := Flatten(Groups(start, a)), Flatten(Groups(start, b)), start(14) + a[14], start(14) + b[14];
    if g + [x] == h + [y] {
      assert (g + [x])[|g|] == x && (h + [y])[|h|] == y;
      assert g == (g + [x])[..|g|] == (h + [y])[..|h|] == h;
      assert a[14] == x[|start(14)|..] == y[|start(14)|..] == b[14];
    }
  }

  // ----- texts from other groups of the same lines

  /** The text a group stands for, behind its line start. */
  function TextOf(start: Starts, k: nat, lines: seq<string>): string {
    var full := Join(lines, '\n');
    if start(k) <= full then full[|start(k)|..] else ""
  }

  /** The lines that become text `k`. */
  function LinesFor(h: seq<seq<string>>, k: nat): seq<string>
    requires |h| == 13 && h[8] != [] && k < 14
  {
    if k < 8 then h[k] else if k == 8 then h[8][..1] else if k == 9 then h[8][1..] else h[k - 1]
  }

  function TextsOf(start: Starts, h: seq<seq<string>>, last: string): (b: seq<string>)
    requires |h| == 13 && h[8] != []
    ensures |b| == 15
  {
    seq(14, (k: nat) requires k < 14 && |h| == 13 && h[8] != [] => TextOf(start, k, LinesFor(h, k))) + [last]
  }

  ghost predicate AllBreakFree(lines: seq<string>) {
    forall l :: l in lines ==> BreakFree(l)
  }

  lemma JoinBegins(lines: seq<string>)
    requires lines != []
    ensures lines[0] <= Join(lines, '\n')
  {
  }

  /** A group that begins with a line start is the block of the text it stands for. */
  lemma BlockOfText(start: Starts, k: nat, lines: seq<string>)
    requires lines != [] && AllBreakFree(lines) && start(k) <= lines[0]
    ensures Split(start(k) + TextOf(start, k, lines), IsBreak()) == lines
  {
    JoinBegins(lines);
    assert start(k) + TextOf(start, k, lines) == Join(lines, '\n');
    SplitOfJoin(lines, '\n', IsBreak());
  }

  /** What the marks say about other groups. */
  lemma OtherGroup(mark: Mark<string>, start: Starts, h: seq<seq<string>>, m: nat)
    requires IsMark(mark, start) && |h| == 13 && Marked(mark, 0, h) && m < 13 && m != 8
    ensures h[m] != [] && start(if m < 8 then m else m + 1) <= h[m][0]
  {
    MarkedAt(mark, 0, h, m);
    assert Begins(start, m, Flatten(h[m..]));
    FlattenFrom(h, m);
  }

  lemma OtherFlagGroup(mark: Mark<string>, start: Starts, h: seq<seq<string>>)
    requires IsMark(mark, start) && Separable(start) && |h| == 13 && Marked(mark, 0, h)
    ensures |h[8]| >= 2 && FlagLine(start, h[8][0]) && start(9) <= h[8][1]
  {
    MarkedAt(mark, 0, h, 8);
    assert Begins(start, 8, Flatten(h[8..]));
    FlattenFrom(h, 8);
    OtherGroup(mark, start, h, 9);
    if |h[8]| == 1 {
      FlattenNext(h, 8);
      assert false;
    }
  }

  lemma LinesAreBreakFree(start: Starts, a: seq<string>, h: seq<seq<string>>, m: nat)
    requires |a| == 15 && m < |h| && Flatten(h) == Flatten(Groups(start, a))
    ensures AllBreakFree(h[m])
  {
    forall l | l in h[m] ensures BreakFree(l) {
      FlattenMembers(h, l);
      MergeFlattens(Blocks(start, a));
      assert l in Flatten(Blocks(start, a));
      FlattenMembers(Blocks(start, a), l);
      var i :| 0 <= i < |Blocks(start, a)| && l in Blocks(start, a)[i];
      SplitPartsFree(Fulls(start, 0, a)[i], IsBreak());
    }
  }

  /** The text of the flag line is a flag. */
  lemma FlagText(start: Starts, line: string)
    requires FlagLine(start, line)
    ensures IsFlag(TextOf(start, 8, [line]))
  {
    assert Join([line], '\n') == line;
    assert (start(8) + "true")[|start(8)|..] == "true";
    assert (start(8) + "false")[|start(8)|..] == "false";
  }

  lemma TextAt(start: Starts, h: seq<seq<string>>, last: string, k: nat)
    requires |h| == 13 && h[8] != [] && k < 14
    ensures TextsOf(start, h, last)[k] == TextOf(start, k, LinesFor(h, k))
  {
  }

  lemma LinesForBegin(mark: Mark<string>, start: Starts, a: seq<string>, h: seq<seq<string>>, k: nat)
    requires IsMark(mark, start) && Separable(start) && |a| == 15 && k < 14
    requires |h| == 13 && Marked(mark, 0, h) && Flatten(h) == Flatten(Groups(start, a)) && h[8] != []
    ensures var lines := LinesFor(h, k); lines != [] && start(k) <= lines[0] && AllBreakFree(lines)
  {
    if k == 8 || k == 9 {
      OtherFlagGroup(mark, start, h);
      LinesAreBreakFree(start, a, h, 8);
    } else {
      var m := if k < 8 then k else k - 1;
      OtherGroup(mark, start, h, m);
      LinesAreBreakFree(start, a, h, m);
    }
  }

  lemma BlockOfTexts(mark: Mark<string>, start: Starts, a: seq<string>, h: seq<seq<string>>, k: nat)
    requires IsMark(mark, start) && Separable(start) && ValidTexts(a) && k < 14
    requires |h| == 13 && Marked(mark, 0, h) && Flatten(h) == Flatten(Groups(start, a)) && h[8] != []
    ensures Blocks(start, TextsOf(start, h, a[14]))[k] == LinesFor(h, k)
  {
    LinesForBegin(mark, start, a, h, k);
    FullAt(start, 0, TextsOf(start, h, a[14]), k);
    TextAt(start, h, a[14], k);
    BlockOfText(start, k, LinesFor(h, k));
  }

  lemma GroupsOfTexts(mark: Mark<string>, start: Starts, a: seq<string>, h: seq<seq<string>>, m: nat)
    requires IsMark(mark, start) && Separable(start) && ValidTexts(a) && m < 13
    requires |h| == 13 && Marked(mark, 0, h) && Flatten(h) == Flatten(Groups(start, a)) && h[8] != []
    ensures Merged(Blocks(start, TextsOf(start, h, a[14])))[m] == h[m]
  {
    MergedAt(Blocks(start, TextsOf(start, h, a[14])), m);
    BlockOfTexts(mark, start, a, h, if m <= 8 then m else m + 1);
    if m == 8 {
      BlockOfTexts(mark, start, a, h, 9);
      assert h[8][..1] + h[8][1..] == h[8];
    }
  }

  /** Other groups of the same lines stand for other texts with the same buffer. */
  lemma Rebuild(mark: Mark<string>, start: Starts, a: seq<string>, h: seq<seq<string>>)
    requires IsMark(mark, start) && Separable(start) && ValidTexts(a)
    requires |h| == 13 && Marked(mark, 0, h) && Flatten(h) == Flatten(Groups(start, a))
    ensures h[8] != []
    ensures var b := TextsOf(start, h, a[14]);
      ValidTexts(b) && Groups(start, b) == h && Lines(start, 0, b) == Lines(start, 0, a) && b[14] == a[14]
  {
    OtherFlagGroup(mark, start, h);
    var b := TextsOf(start, h, a[14]);
    FlagText(start, h[8][0]);
    assert LinesFor(h, 8) == [h[8][0]];
    assert b[8] == TextOf(start, 8, LinesFor(h, 8));
    forall m | 0 <= m < 13 ensures Merged(Blocks(start, b))[m] == h[m] {
      GroupsOfTexts(mark, start, a, h, m);
    }
    assert Groups(start, b) == h;
    SameBufferSameGroups(start, a, b);
  }

  /**
    The texts can be read back from the buffer in one way only exactly when no line
    inside a text begins like the line of the next text, nor, after its first line,
    like its own.
   */
  lemma TextsAreDeterminedExactly(mark: Mark<string>, start: Starts, a: seq<string>)
    requires IsMark(mark, start) && Separable(start) && ValidTexts(a)
    ensures (forall b :: ValidTexts(b) && Lines(start, 0, b) == Lines(start, 0, a) ==> b == a)
      <==> Clean(mark, 0, Groups(start, a))
  {
    var g := Groups(start, a);
    GroupsAreMarked(mark, start, a);
    if Clean(mark, 0, g) {
      forall b | ValidTexts(b) && Lines(start, 0, b) == Lines(start, 0, a) ensures b == a {
        SameBufferSameGroups(start, a, b);
        GroupsAreMarked(mark, start, b);
        CleanIsUnique(mark, 0, g, Groups(start, b));
        GroupsDetermine(start, a, b);
      }
    } else {
      UncleanHasOther(mark, 0, g);
      var h :| IsOther(mark, 0, g, h);
      Rebuild(mark, start, a, h);
    }
  }

  // ----- texts of one line

  lemma {:induction false} CleanFrom(mark: Mark<string>, g: seq<seq<string>>, i: nat)
    requires i < |g| && forall m :: i <= m < |g| - 1 ==> CleanStart(mark, m, g[m], g[m + 1..])
    ensures Clean(mark, i, g[i..])
    decreases |g| - i
  {
    if i == |g| - 1 {
    } else {
      CleanFrom(mark, g, i + 1);
      assert g[i..][1..] == g[i + 1..] && g[i..][0] == g[i];
    }
  }

  ghost predicate OneLiners(a: seq<string>) {
    forall i :: 0 <= i < |a| ==> BreakFree(a[i])
  }

  lemma GroupOfOneLiners(start: Starts, a: seq<string>, m: nat)
    requires Separable(start) && ValidTexts(a) && OneLiners(a) && m < 13
    ensures |Groups(start, a)[m]| == if m == 8 then 2 else 1
    ensures m == 8 ==> Groups(start, a)[8][1] == start(9) + a[9]
  {
    MergedAt(Blocks(start, a), m);
    BlockBegins(start, a, if m <= 8 then m else m + 1);
    if m == 8 {
      BlockBegins(start, a, 9);
    }
  }

  /** The line after the flag begins neither like the flag nor like the text after it. */
  lemma NoMarkAfterFlag(start: Starts, lines: seq<string>, text: string)
    requires Separable(start) && lines != [] && lines[0] == start(9) + text
    ensures !Begins(start, 8, lines) && !Begins(start, 9, lines)
  {
    assert lines[0][0] == start(9)[0];
  }

  lemma FlagStartsClean(mark: Mark<string>, start: Starts, a: seq<string>, m: nat)
    requires IsMark(mark, start) && Separable(start) && ValidTexts(a) && OneLiners(a) && (m == 7 || m == 8)
    ensures var g := Groups(start, a); CleanStart(mark, m, g[m], g[m + 1..])
  {
    var g := Groups(start, a);
    GroupOfOneLiners(start, a, m);
    GroupOfOneLiners(start, a, m + 1);
    if m == 8 {
      NoMarkAfterFlag(start, (g[8] + Flatten(g[9..]))[1..], a[9]);
    } else {
      FlattenFrom(g, 8);
      NoMarkAfterFlag(start, Flatten(g[8..])[1..], a[9]);
    }
  }

  lemma OneLinersStart(mark: Mark<string>, start: Starts, a: seq<string>, m: nat)
    requires IsMark(mark, start) && Separable(start) && ValidTexts(a) && OneLiners(a) && m < 12
    ensures var g := Groups(start, a); CleanStart(mark, m, g[m], g[m + 1..])
  {
    if m == 7 || m == 8 {
      FlagStartsClean(mark, start, a, m);
    } else {
      GroupOfOneLiners(start, a, m);
      GroupOfOneLiners(start, a, m + 1);
    }
  }

  /** Texts of one line are always determined. */
  lemma OneLinersAreClean(mark: Mark<string>, start: Starts, a: seq<string>)
    requires IsMark(mark, start) && Separable(start) && ValidTexts(a) && OneLiners(a)
    ensures Clean(mark, 0, Groups(start, a))
  {
    var g := Groups(start, a);
    forall m | 0 <= m < 12 ensures CleanStart(mark, m, g[m], g[m + 1..]) {
      OneLinersStart(mark, start, a, m);
    }
    CleanFrom(mark, g, 0);
    assert g[0..] == g;
  }
}
