/** The order in which grouped rows come out: pandas `groupby` sorts the
    group labels, and Python compares strings code point by code point, a
    proper prefix coming first. */
module Order {

  /** Python's `a < b` on strings. */
  predicate StrLess(a: string, b: string)
    decreases |a|
  {
    |b| > 0 && (|a| == 0 || a[0] < b[0] || (a[0] == b[0] && StrLess(a[1..], b[1..])))
  }

  lemma {:induction false} StrLessIrreflexive(a: string)
    ensures !StrLess(a, a)
    decreases |a|
  {
    if |a| > 0 {
      StrLessIrreflexive(a[1..]);
    }
  }

  lemma {:induction false} StrLessTransitive(a: string, b: string, c: string)
    requires StrLess(a, b) && StrLess(b, c)
    ensures StrLess(a, c)
    decreases |a|
  {
    if |a| > 0 && a[0] == b[0] && b[0] == c[0] {
      StrLessTransitive(a[1..], b[1..], c[1..]);
    }
  }

  /** Two different strings are ordered one way or the other. */
  lemma {:induction false} StrLessTotal(a: string, b: string)
    requires a != b
    ensures StrLess(a, b) || StrLess(b, a)
    decreases |a|
  {
    if |a| > 0 && |b| > 0 && a[0] == b[0] {
      assert a == [a[0]] + a[1..] && b == [b[0]] + b[1..];
      StrLessTotal(a[1..], b[1..]);
    }
  }

  /** No element occurs twice. */
  predicate Distinct<T(==)>(xs: seq<T>)
  {
    forall i, j :: 0 <= i < j < |xs| ==> xs[i] != xs[j]
  }

  /** Strictly increasing, hence also free of repeats. */
  predicate Sorted(ls: seq<string>)
  {
    forall i, j :: 0 <= i < j < |ls| ==> StrLess(ls[i], ls[j])
  }

  lemma SortedDistinct(ls: seq<string>)
    requires Sorted(ls)
    ensures Distinct(ls)
  {
    forall i, j | 0 <= i < j < |ls|
      ensures ls[i] != ls[j]
    {
      if ls[i] == ls[j] {
        StrLessIrreflexive(ls[i]);
      }
    }
  }

  /** Where l goes in a sorted list: after the elements smaller than it. */
  function Position(l: string, s: seq<string>): (k: nat)
    ensures k <= |s|
    decreases |s|
  {
    if |s| == 0 || !StrLess(s[0], l) then 0 else 1 + Position(l, s[1..])
  }

  lemma {:induction false} PositionSplits(l: string, s: seq<string>)
    requires Sorted(s)
    ensures forall i :: 0 <= i < Position(l, s) ==> StrLess(s[i], l)
    ensures forall i :: Position(l, s) <= i < |s| ==> !StrLess(s[i], l)
    decreases |s|
  {
    if |s| > 0 {
      if StrLess(s[0], l) {
        assert Sorted(s[1..]) by {
          assert forall i :: 0 <= i < |s[1..]| ==> s[1..][i] == s[i + 1];
        }
        PositionSplits(l, s[1..]);
        forall i | 1 <= i < |s|
          ensures s[i] == s[1..][i - 1]
        {
        }
      } else {
        forall i | 0 < i < |s|
          ensures !StrLess(s[i], l)
        {
          if StrLess(s[i], l) {
            StrLessTransitive(s[0], s[i], l);
          }
        }
      }
    }
  }

  /** Insert one label into a sorted list. */
  function Insert(l: string, s: seq<string>): (r: seq<string>)
  {
    var k := Position(l, s);
    s[..k] + [l] + s[k..]
  }

  /** Insert splits the list at the insertion point. */
  lemma InsertParts(l: string, s: seq<string>)
    ensures Insert(l, s) == (s[..Position(l, s)] + [l]) + s[Position(l, s)..]
    ensures s == s[..Position(l, s)] + s[Position(l, s)..]
  {
  }

  lemma InsertSorted(l: string, s: seq<string>)
    requires Sorted(s) && l !in s
    ensures Sorted(Insert(l, s))
  {
    var k := Position(l, s);
    var r := Insert(l, s);
    PositionSplits(l, s);
    forall j | k < j < |r|
      ensures StrLess(l, r[j])
    {
      assert r[j] == s[j - 1];
      assert r[j] != l;
      StrLessTotal(l, r[j]);
    }
    forall i, j | 0 <= i < j < |r|
      ensures StrLess(r[i], r[j])
    {
      if j < k {
        assert r[i] == s[i] && r[j] == s[j];
      } else if j == k {
        assert r[i] == s[i];
      } else if i == k {
      } else if i < k {
        assert r[i] == s[i];
        StrLessTransitive(r[i], l, r[j]);
      } else {
        assert r[i] == s[i - 1] && r[j] == s[j - 1];
      }
    }
  }

  /** The labels in increasing order (insertion sort). */
  function SortKeys(ls: seq<string>): (r: seq<string>)
    ensures |r| == |ls|
    ensures forall l :: l in r <==> l in ls
    decreases |ls|
  {
    if |ls| == 0 then []
    else
      var s := SortKeys(ls[..|ls| - 1]);
      var l := ls[|ls| - 1];
      assert s == s[..Position(l, s)] + s[Position(l, s)..];
      assert ls == ls[..|ls| - 1] + [l];
      assert forall x :: x in Insert(l, s) <==> x in s || x == l;
      Insert(l, s)
  }

  /** Sorting labels that are all different gives a sorted list. */
  lemma {:induction false} SortKeysSorted(ls: seq<string>)
    requires Distinct(ls)
    ensures Sorted(SortKeys(ls))
    decreases |ls|
  {
    if |ls| > 0 {
      var init := ls[..|ls| - 1];
      SortKeysSorted(init);
      assert ls[|ls| - 1] !in init;
      InsertSorted(ls[|ls| - 1], SortKeys(init));
    }
  }

  /** Labels already in order are left where they are. */
  lemma {:induction false} SortKeysOfSorted(ls: seq<string>)
    requires Sorted(ls)
    ensures SortKeys(ls) == ls
    decreases |ls|
  {
    if |ls| > 0 {
      var init := ls[..|ls| - 1];
      var l := ls[|ls| - 1];
      assert Sorted(init);
      SortKeysOfSorted(init);
      PositionAtEnd(l, init);
      assert ls == init + [l];
    }
  }

  lemma {:induction false} PositionAtEnd(l: string, s: seq<string>)
    requires forall i :: 0 <= i < |s| ==> StrLess(s[i], l)
    ensures Position(l, s) == |s|
    decreases |s|
  {
    if |s| > 0 {
      PositionAtEnd(l, s[1..]);
    }
  }
}
