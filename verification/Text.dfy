/** Splitting and joining, generic in the element type. */
module Text {
  import opened Common

  /** `str::split`: always at least one part, possibly empty parts. */
  function Split<T>(s: seq<T>, isSep: T -> bool): (r: seq<seq<T>>)
    ensures |r| >= 1
  {
    if s == [] then [[]]
    else if isSep(s[0]) then [[]] + Split(s[1..], isSep)
    else
      var rest := Split(s[1..], isSep);
      [[s[0]] + rest[0]] + rest[1..]
  }

  /** `[String]::join` with a one-element separator. */
  function Join<T>(parts: seq<seq<T>>, sep: T): seq<T> {
    if parts == [] then []
    else if |parts| == 1 then parts[0]
    else parts[0] + [sep] + Join(parts[1..], sep)
  }

  ghost predicate Free<T>(part: seq<T>, isSep: T -> bool) {
    forall i :: 0 <= i < |part| ==> !isSep(part[i])
  }

  /** A separator-free text in front becomes the front of the first part. */
  lemma {:induction false} SplitFree<T>(p: seq<T>, s: seq<T>, isSep: T -> bool)
    requires Free(p, isSep)
    ensures Split(p + s, isSep) == [p + Split(s, isSep)[0]] + Split(s, isSep)[1..]
  {
    var rest := Split(s, isSep);
    if p == [] {
      assert p + s == s && p + rest[0] == rest[0];
    } else {
      SplitFree(p[1..], s, isSep);
      assert (p + s)[1..] == p[1..] + s;
      assert [p[0]] + (p[1..] + rest[0]) == p + rest[0];
    }
  }

  /** The parts of a split hold no separator. */
  lemma {:induction false} SplitPartsFree<T>(s: seq<T>, isSep: T -> bool)
    ensures forall p :: p in Split(s, isSep) ==> Free(p, isSep)
  {
    if s == [] {
    } else {
      SplitPartsFree(s[1..], isSep);
      var rest := Split(s[1..], isSep);
      assert rest[0] in rest;
      assert forall p :: p in rest[1..] ==> p in rest;
    }
  }

  /** Joining what was split gives the text back. */
  lemma {:induction false} JoinOfSplit<T>(s: seq<T>, sep: T, isSep: T -> bool)
    requires forall x :: isSep(x) <==> x == sep
    ensures Join(Split(s, isSep), sep) == s
  {
    if s == [] {
    } else {
      JoinOfSplit(s[1..], sep, isSep);
      var rest := Split(s[1..], isSep);
      assert s == [s[0]] + s[1..];
      if isSep(s[0]) {
        assert ([[]] + rest)[1..] == rest;
        assert [] + [sep] + Join(rest, sep) == s;
      } else {
        JoinGrows(s[0], rest, sep);
      }
    }
  }

  /** One more element at the front of the first part is one more at the front of the text. */
  lemma JoinGrows<T>(x: T, parts: seq<seq<T>>, sep: T)
    requires parts != []
    ensures Join([[x] + parts[0]] + parts[1..], sep) == [x] + Join(parts, sep)
  {
    var grown := [[x] + parts[0]] + parts[1..];
    if |parts| == 1 {
    } else {
      assert grown[1..] == parts[1..];
      assert ([x] + parts[0]) + [sep] + Join(parts[1..], sep) == [x] + (parts[0] + [sep] + Join(parts[1..], sep));
    }
  }

  function Flatten<T>(groups: seq<seq<T>>): seq<T> {
    if groups == [] then [] else groups[0] + Flatten(groups[1..])
  }

  lemma {:induction false} FlattenAppend<T>(a: seq<seq<T>>, b: seq<seq<T>>)
    ensures Flatten(a + b) == Flatten(a) + Flatten(b)
  {
    if a == [] {
      assert a + b == b;
    } else {
      FlattenAppend(a[1..], b);
      assert (a + b)[0] == a[0] && (a + b)[1..] == a[1..] + b;
      Regroup(a[0], Flatten(a[1..]), Flatten(b));
    }
  }

  lemma {:induction false} FlattenMembers<T>(groups: seq<seq<T>>, x: T)
    ensures x in Flatten(groups) <==> exists i :: 0 <= i < |groups| && x in groups[i]
  {
    if groups == [] {
    } else {
      FlattenMembers(groups[1..], x);
      if i :| 0 <= i < |groups| && x in groups[i] {
        assert i == 0 || x in groups[1..][i - 1];
      }
      if i :| 0 <= i < |groups| - 1 && x in groups[1..][i] {
        assert x in groups[i + 1];
      }
    }
  }

  function Splits<T>(parts: seq<seq<T>>, isSep: T -> bool): (r: seq<seq<seq<T>>>)
    ensures |r| == |parts| && forall i :: 0 <= i < |r| ==> r[i] == Split(parts[i], isSep)
  {
    if parts == [] then [] else [Split(parts[0], isSep)] + Splits(parts[1..], isSep)
  }

  /** A separator splits a text into the parts before it and the parts after it. */
  lemma {:induction false} SplitAtSeparator<T>(a: seq<T>, sep: T, b: seq<T>, isSep: T -> bool)
    requires isSep(sep)
    ensures Split(a + ([sep] + b), isSep) == Split(a, isSep) + Split(b, isSep)
  {
    var whole := a + ([sep] + b);
    if a == [] {
      assert whole == [sep] + b && ([sep] + b)[1..] == b;
    } else {
      SplitAtSeparator(a[1..], sep, b, isSep);
      assert whole[0] == a[0] && whole[1..] == a[1..] + ([sep] + b);
      SplitStep(a, Split(b, isSep), isSep);
    }
  }

  lemma SplitStep<T>(a: seq<T>, right: seq<seq<T>>, isSep: T -> bool)
    requires a != []
    ensures Split(a, isSep) + right ==
      var both := Split(a[1..], isSep) + right;
      if isSep(a[0]) then [[]] + both else [[a[0]] + both[0]] + both[1..]
  {
    var left := Split(a[1..], isSep);
    assert (left + right)[0] == left[0] && (left + right)[1..] == left[1..] + right;
    if isSep(a[0]) {
      Regroup([[]], left, right);
    } else {
      Regroup([[a[0]] + left[0]], left[1..], right);
    }
  }

  /** The parts of a joined text are the parts of what was joined, in order. */
  lemma {:induction false} SplitOfJoined<T>(parts: seq<seq<T>>, sep: T, isSep: T -> bool)
    requires parts != [] && isSep(sep)
    ensures Split(Join(parts, sep), isSep) == Flatten(Splits(parts, isSep))
  {
    if |parts| == 1 {
      assert Splits(parts, isSep)[1..] == [];
      assert Split(parts[0], isSep) + [] == Split(parts[0], isSep);
    } else {
      SplitOfJoined(parts[1..], sep, isSep);
      SplitAtSeparator(parts[0], sep, Join(parts[1..], sep), isSep);
      Regroup(parts[0], [sep], Join(parts[1..], sep));
      assert Splits(parts, isSep)[1..] == Splits(parts[1..], isSep);
    }
  }

  lemma {:induction false} SplitsOfFree<T>(parts: seq<seq<T>>, isSep: T -> bool)
    requires forall p :: p in parts ==> Free(p, isSep)
    ensures Flatten(Splits(parts, isSep)) == parts
  {
    if parts == [] {
    } else {
      SplitsOfFree(parts[1..], isSep);
      SplitFree(parts[0], [], isSep);
      assert parts[0] + [] == parts[0];
      assert Splits(parts, isSep)[1..] == Splits(parts[1..], isSep);
    }
  }

  /** Splitting what was joined from separator-free parts gives the parts back. */
  lemma SplitOfJoin<T>(parts: seq<seq<T>>, sep: T, isSep: T -> bool)
    requires parts != [] && isSep(sep)
    requires forall p :: p in parts ==> Free(p, isSep)
    ensures Split(Join(parts, sep), isSep) == parts
  {
    SplitOfJoined(parts, sep, isSep);
    SplitsOfFree(parts, isSep);
  }

  /** Joined texts are equal exactly when they have the same parts. */
  lemma JoinsAlike<T>(a: seq<seq<T>>, b: seq<seq<T>>, sep: T, isSep: T -> bool)
    requires a != [] && b != [] && forall x :: isSep(x) <==> x == sep
    ensures Join(a, sep) == Join(b, sep) <==> Flatten(Splits(a, isSep)) == Flatten(Splits(b, isSep))
  {
    SplitOfJoined(a, sep, isSep);
    SplitOfJoined(b, sep, isSep);
    JoinOfSplit(Join(a, sep), sep, isSep);
    JoinOfSplit(Join(b, sep), sep, isSep);
  }

  function Filter<T>(s: seq<T>, keep: T -> bool): seq<T> {
    if s == [] then [] else (if keep(s[0]) then [s[0]] else []) + Filter(s[1..], keep)
  }

  lemma {:induction false} FilterAll<T>(s: seq<T>, keep: T -> bool)
    requires forall x :: x in s ==> keep(x)
    ensures Filter(s, keep) == s
  {
    if s == [] {
    } else {
      FilterAll(s[1..], keep);
      assert s[0] in s && s == [s[0]] + s[1..];
    }
  }

  lemma {:induction false} FilterMembers<T>(s: seq<T>, keep: T -> bool)
    ensures forall x :: x in Filter(s, keep) <==> x in s && keep(x)
  {
    if s == [] {
    } else {
      FilterMembers(s[1..], keep);
      assert s == [s[0]] + s[1..];
    }
  }

  lemma {:induction false} FilterAppend<T>(a: seq<T>, b: seq<T>, keep: T -> bool)
    ensures Filter(a + b, keep) == Filter(a, keep) + Filter(b, keep)
  {
    if a == [] {
      assert a + b == b;
    } else {
      FilterAppend(a[1..], b, keep);
      assert (a + b)[0] == a[0] && (a + b)[1..] == a[1..] + b;
      Regroup(if keep(a[0]) then [a[0]] else [], Filter(a[1..], keep), Filter(b, keep));
    }
  }

  /** One more element at the end. */
  lemma FilterSnoc<T>(s: seq<T>, x: T, keep: T -> bool)
    ensures Filter(s + [x], keep) == Filter(s, keep) + (if keep(x) then [x] else [])
  {
    FilterAppend(s, [x], keep);
    assert [x][1..] == [];
  }
}
