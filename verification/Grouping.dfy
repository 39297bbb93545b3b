/**
  Cutting a sequence into consecutive groups, where each group must begin at a
  position its mark accepts.  When is there only one way?
 */
module Grouping {
  import opened Common
  import opened Text

  /** Whether group `k` may begin with this rest of the sequence. */
  type Mark<!T> = (nat, seq<T>) -> bool

  /** Every group is non-empty and begins where its mark allows; the first of them has number `k`. */
  predicate Marked<T(==)>(mark: Mark<T>, k: nat, g: seq<seq<T>>)
    decreases |g|
  {
    g == [] || (g[0] != [] && mark(k, Flatten(g)) && Marked(mark, k + 1, g[1..]))
  }

  /** Group `k + 1` could not begin inside the group before it, nor later inside itself. */
  ghost predicate CleanStart<T>(mark: Mark<T>, k: nat, before: seq<T>, g: seq<seq<T>>)
    requires g != []
  {
    && (forall j :: 1 <= j < |before| ==> !mark(k + 1, (before + Flatten(g))[j..]))
    && (forall j :: 1 <= j < |g[0]| ==> !mark(k + 1, Flatten(g)[j..]))
  }

  ghost predicate Clean<T>(mark: Mark<T>, k: nat, g: seq<seq<T>>)
    decreases |g|
  {
    |g| <= 1 || (CleanStart(mark, k, g[0], g[1..]) && Clean(mark, k + 1, g[1..]))
  }

  lemma {:induction false} MarkedAt<T>(mark: Mark<T>, k: nat, g: seq<seq<T>>, i: nat)
    requires Marked(mark, k, g) && i < |g|
    ensures g[i] != [] && mark(k + i, Flatten(g[i..]))
    decreases i
  {
    if i == 0 {
      assert g[0..] == g;
    } else {
      MarkedAt(mark, k + 1, g[1..], i - 1);
      assert g[1..][i - 1..] == g[i..];
    }
  }

  lemma {:induction false} MarkedFrom<T>(mark: Mark<T>, g: seq<seq<T>>, i: nat)
    requires i <= |g| && forall m :: i <= m < |g| ==> g[m] != [] && mark(m, Flatten(g[m..]))
    ensures Marked(mark, i, g[i..])
    decreases |g| - i
  {
    if i == |g| {
    } else {
      MarkedFrom(mark, g, i + 1);
      assert g[i..][1..] == g[i + 1..];
    }
  }

  lemma DropPrefix<T>(a: seq<T>, b: seq<T>)
    ensures (a + b)[|a|..] == b
  {
  }

  /** Once one grouping has fallen behind a clean one, it can never catch up. */
  lemma {:induction false} NeverCatchesUp<T>(mark: Mark<T>, k: nat, before: seq<T>, g: seq<seq<T>>, late: seq<T>,
                                             h: seq<seq<T>>)
    requires |g| == |h| && Marked(mark, k + 1, g) && Marked(mark, k + 1, h)
    requires g != [] ==> CleanStart(mark, k, before, g) && Clean(mark, k + 1, g)
    requires late != []
    ensures Flatten(g) != late + Flatten(h)
    decreases |g|
  {
    if g == [] {
    } else if Flatten(g) == late + Flatten(h) {
      DropPrefix(late, Flatten(h));
      if |late| < |g[0]| {
        assert false;
      } else {
        assert g[0] == Flatten(g)[..|g[0]|] == late[..|g[0]|];
        var more := late[|g[0]|..] + h[0];
        assert late == g[0] + late[|g[0]|..];
        assert Flatten(g[1..]) == more + Flatten(h[1..]) by {
          assert Flatten(g[1..]) == Flatten(g)[|g[0]|..];
          assert (late + Flatten(h))[|g[0]|..] == more + Flatten(h[1..]);
        }
        NeverCatchesUp(mark, k + 1, g[0], g[1..], more, h[1..]);
      }
    }
  }

  /** A clean grouping is the only one of its length. */
  lemma {:induction false} CleanIsUnique<T>(mark: Mark<T>, k: nat, g: seq<seq<T>>, h: seq<seq<T>>)
    requires |g| == |h| && Marked(mark, k, g) && Marked(mark, k, h) && Clean(mark, k, g)
    requires Flatten(g) == Flatten(h)
    ensures g == h
    decreases |g|
  {
    if g == [] {
    } else if |g| == 1 {
      assert g[1..] == [] && h[1..] == [];
      assert g[0] + [] == g[0] && h[0] + [] == h[0];
    } else {
      var s := Flatten(g);
      assert s == g[0] + Flatten(g[1..]) && s == h[0] + Flatten(h[1..]);
      DropPrefix(h[0], Flatten(h[1..]));
      if |h[0]| < |g[0]| {
        assert false;
      } else if |g[0]| < |h[0]| {
        var late := h[0][|g[0]|..];
        assert Flatten(g[1..]) == s[|g[0]|..] == late + Flatten(h[1..]);
        NeverCatchesUp(mark, k, g[0], g[1..], late, h[1..]);
      } else {
        assert g[0] == s[..|g[0]|] == h[0];
        assert Flatten(g[1..]) == s[|g[0]|..] == Flatten(h[1..]);
        CleanIsUnique(mark, k + 1, g[1..], h[1..]);
        assert g == [g[0]] + g[1..] && h == [h[0]] + h[1..];
      }
    }
  }

  /** Another grouping of the same sequence into as many groups. */
  ghost predicate IsOther<T>(mark: Mark<T>, k: nat, g: seq<seq<T>>, h: seq<seq<T>>) {
    |h| == |g| && h != g && Flatten(h) == Flatten(g) && Marked(mark, k, h)
  }

  /** Moving the border between the first two groups to another allowed place. */
  lemma MoveBorder<T>(mark: Mark<T>, k: nat, g: seq<seq<T>>, at: nat)
    requires |g| >= 2 && Marked(mark, k, g)
    requires 1 <= at < |g[0]| + |g[1]| && at != |g[0]|
    requires mark(k + 1, (g[0] + (g[1] + Flatten(g[2..])))[at..])
    ensures exists h :: IsOther(mark, k, g, h)
  {
    var rest := Flatten(g[2..]);
    var both := g[0] + g[1];
    var h := [both[..at], both[at..]] + g[2..];
    assert g[1..][1..] == g[2..];
    assert Flatten(g) == g[0] + (g[1] + rest);
    assert h[1..] == [both[at..]] + g[2..] && h[1..][1..] == g[2..];
    assert Flatten(h[1..]) == both[at..] + rest;
    assert Flatten(h) == both[..at] + (both[at..] + rest) == Flatten(g);
    assert both[at..] + rest == (g[0] + (g[1] + rest))[at..];
    assert |h[0]| != |g[0]|;
    assert IsOther(mark, k, g, h);
  }

  /** Without cleanness there is another grouping. */
  lemma {:induction false} UncleanHasOther<T>(mark: Mark<T>, k: nat, g: seq<seq<T>>)
    requires Marked(mark, k, g) && !Clean(mark, k, g)
    ensures exists h :: IsOther(mark, k, g, h)
    decreases |g|
  {
    var rest := Flatten(g[2..]);
    assert g[1..][1..] == g[2..];
    if j :| 1 <= j < |g[0]| && mark(k + 1, (g[0] + Flatten(g[1..]))[j..]) {
      MoveBorder(mark, k, g, j);
    } else if j :| 1 <= j < |g[1]| && mark(k + 1, Flatten(g[1..])[j..]) {
      assert (g[0] + (g[1] + rest))[|g[0]| + j..] == (g[1] + rest)[j..];
      MoveBorder(mark, k, g, |g[0]| + j);
    } else {
      UncleanHasOther(mark, k + 1, g[1..]);
      var t :| IsOther(mark, k + 1, g[1..], t);
      var h := [g[0]] + t;
      assert h[1..] == t && Flatten(h) == Flatten(g);
      assert IsOther(mark, k, g, h);
    }
  }

  /** There is only one grouping of a length exactly when it is clean. */
  lemma UniqueExactly<T>(mark: Mark<T>, g: seq<seq<T>>)
    requires Marked(mark, 0, g)
    ensures (forall h :: |h| == |g| && Flatten(h) == Flatten(g) && Marked(mark, 0, h) ==> h == g) <==> Clean(mark, 0, g)
  {
    if Clean(mark, 0, g) {
      forall h | |h| == |g| && Flatten(h) == Flatten(g) && Marked(mark, 0, h) ensures h == g {
        CleanIsUnique(mark, 0, g, h);
      }
    } else {
      UncleanHasOther(mark, 0, g);
    }
  }
}
