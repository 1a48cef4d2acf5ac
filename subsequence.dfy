/** Subsequence.java: find(x, y) is meant to tell whether x can be obtained from y by
    removing elements. It removes from y, in place, every element that x does not
    contain, drops repeated elements, and compares what is left with x. */
module Subsequence {
  import opened Outcomes
  import opened JavaLists

  /** stream().distinct(): the first occurrence of each element, in order. */
  function Distinct<T(==)>(s: seq<T>): (r: seq<T>)
    ensures |r| <= |s| && (r == [] <==> s == [])
  {
    if s == [] then []
    else
      var d := Distinct(s[..|s| - 1]);
      if s[|s| - 1] in d then d else d + [s[|s| - 1]]
  }

  predicate NoDuplicates<T(==)>(s: seq<T>) {
    forall a, b :: 0 <= a < b < |s| ==> s[a] != s[b]
  }

  /** x can be obtained from y by removing some of its elements: the last element of
      y is either kept, as the last element of x, or removed. */
  predicate IsSubseq<T(==)>(x: seq<T>, y: seq<T>)
    decreases |y|
  {
    if y == [] then x == []
    else
      || (x != [] && x[|x| - 1] == y[|y| - 1] && IsSubseq(x[..|x| - 1], y[..|y| - 1]))
      || IsSubseq(x, y[..|y| - 1])
  }

  /** What find returns for lists holding x and y, y as it was before the call. */
  function FindResult<T(==)>(x: seq<T>, y: seq<T>): bool {
    Distinct(Retained(y, x)) == x
  }

  /** find, lines 16-23. x and y may be null, and may be the same list. */
  method Find<T(==)>(x: JavaList?<T>, y: JavaList?<T>) returns (r: Result<bool>)
    modifies y
    ensures x == null || y == null ==> r == Failure(IllegalArgument)
    ensures x == null && y != null ==> y.elems == old(y.elems)
    ensures x != null && y != null ==>
      && y.elems == Retained(old(y.elems), old(x.elems))
      && x.elems == old(x.elems)
      && r == Success(FindResult(old(x.elems), old(y.elems)))
  {
    if x == null || y == null {
      return Failure(IllegalArgument);
    }
    if x == y {
      RetainedSelf(x.elems);
    }
    var _ := y.RetainAll(x);
    return Success(Distinct(y.elems) == x.elems);
  }

  // ---------------------------------------------------------------------------
  // Removing elements

  /** The empty list is obtained from any list. */
  lemma {:induction false} EmptySubseq<T>(y: seq<T>)
    ensures IsSubseq([], y)
  {
    if y != [] {
      EmptySubseq(y[..|y| - 1]);
    }
  }

  /** Removing the last element of x keeps it obtainable from y. */
  lemma {:induction false} SubseqInit<T>(x: seq<T>, y: seq<T>)
    requires x != [] && IsSubseq(x, y)
    ensures IsSubseq(x[..|x| - 1], y)
    decreases |y|
  {
    if !(x[|x| - 1] == y[|y| - 1] && IsSubseq(x[..|x| - 1], y[..|y| - 1])) {
      SubseqInit(x, y[..|y| - 1]);
    }
  }

  /** Removing elements twice is removing elements once. */
  lemma {:induction false} SubseqTrans<T>(a: seq<T>, b: seq<T>, c: seq<T>)
    requires IsSubseq(a, b) && IsSubseq(b, c)
    ensures IsSubseq(a, c)
    decreases |c|
  {
    if c == [] {
      assert b == [] && a == [];
    } else if b != [] && b[|b| - 1] == c[|c| - 1] && IsSubseq(b[..|b| - 1], c[..|c| - 1]) {
      if b == [] {
      } else if a != [] && a[|a| - 1] == b[|b| - 1] && IsSubseq(a[..|a| - 1], b[..|b| - 1]) {
        SubseqTrans(a[..|a| - 1], b[..|b| - 1], c[..|c| - 1]);
      } else {
        SubseqTrans(a, b[..|b| - 1], c[..|c| - 1]);
      }
    } else {
      SubseqTrans(a, b, c[..|c| - 1]);
    }
  }

  /** retainAll only removes elements. */
  lemma {:induction false} RetainedIsSubseq<T>(s: seq<T>, t: seq<T>)
    ensures IsSubseq(Retained(s, t), s)
  {
    if s != [] {
      var init := s[..|s| - 1];
      RetainedIsSubseq(init, t);
      var r := Retained(s, t);
      if s[|s| - 1] in t {
        assert r == Retained(init, t) + [s[|s| - 1]];
        assert r[..|r| - 1] == Retained(init, t) && r[|r| - 1] == s[|s| - 1];
      } else {
        assert r == Retained(init, t) + [];
        assert r == Retained(init, t);
      }
    }
  }

  /** distinct only removes elements, leaves no element twice, and keeps the first
      occurrence of each: what it makes of a prefix of s is a prefix of what it
      makes of s. */
  lemma {:induction false} DistinctSpec<T>(s: seq<T>)
    ensures IsSubseq(Distinct(s), s)
    ensures NoDuplicates(Distinct(s))
    ensures forall e :: e in Distinct(s) <==> e in s
    ensures forall k :: 0 <= k <= |s| ==> Distinct(s[..k]) <= Distinct(s)
  {
    if s != [] {
      var init, last := s[..|s| - 1], s[|s| - 1];
      DistinctSpec(init);
      assert s == init + [last];
      var d := Distinct(init);
      if last !in d {
        assert (d + [last])[..|d|] == d;
      }
      assert d <= Distinct(s);
      forall k | 0 <= k <= |s|
        ensures Distinct(s[..k]) <= Distinct(s)
      {
        if k < |s| {
          assert s[..k] == init[..k];
          var p, r := Distinct(init[..k]), Distinct(s);
          assert p == d[..|p|] && d == r[..|d|];
          assert r[..|d|][..|p|] == r[..|p|];
        } else {
          assert s[..k] == s;
        }
      }
    }
  }

  // ---------------------------------------------------------------------------
  // What find answers

  /** Soundness: when find says true, x can indeed be obtained from y by removing
      elements. */
  lemma FindSound<T>(x: seq<T>, y: seq<T>)
    requires FindResult(x, y)
    ensures IsSubseq(x, y)
  {
    DistinctSpec(Retained(y, x));
    RetainedIsSubseq(y, x);
    SubseqTrans(x, Retained(y, x), y);
  }

  /** A list with a repeated element is never found, whatever y holds. */
  lemma FindRejectsDuplicates<T>(x: seq<T>, y: seq<T>)
    requires !NoDuplicates(x)
    ensures !FindResult(x, y)
  {
    DistinctSpec(Retained(y, x));
  }

  /** The empty list is always found, and y is emptied on the way. */
  lemma FindEmpty<T>(y: seq<T>)
    ensures Retained(y, []) == [] && FindResult([], y)
  {
    RetainedSpec(y, []);
  }

  /** Incompleteness: [1, 2] is obtained from [2, 1, 2] by removing its first
      element, but find says false, because distinct keeps the first 2. */
  lemma FindIncomplete()
    ensures IsSubseq([1, 2], [2, 1, 2]) && !FindResult([1, 2], [2, 1, 2])
  {
    var y := [2, 1, 2];
    assert y[..2] == [2, 1] && y[..2][..1] == [2] && y[..2][..1][..0] == [];
    assert [1, 2][..1] == [1] && [1][..0] == [];
    EmptySubseq([2]);
    assert IsSubseq([1], [2, 1]);
    assert Retained(y, [1, 2]) == y;
    assert Distinct(y) == [2, 1];
  }

  // ---------------------------------------------------------------------------
  // The check the documentation describes

  /** With equal last elements, the last element of y may as well be the one kept. */
  lemma SubseqLastEqual<T>(x: seq<T>, y: seq<T>)
    requires x != [] && y != [] && x[|x| - 1] == y[|y| - 1]
    ensures IsSubseq(x, y) <==> IsSubseq(x[..|x| - 1], y[..|y| - 1])
  {
    if IsSubseq(x, y[..|y| - 1]) {
      SubseqInit(x, y[..|y| - 1]);
    }
  }

  /** Whether x can be obtained from y by removing elements, matching from the
      right: each element of y either supplies the last element of x not yet
      matched, or is removed. Neither list is changed. */
  method IsSubsequence<T(==)>(x: JavaList?<T>, y: JavaList?<T>) returns (r: Result<bool>)
    ensures x == null || y == null ==> r == Failure(IllegalArgument)
    ensures x != null && y != null ==> r == Success(IsSubseq(x.elems, y.elems))
  {
    if x == null || y == null {
      return Failure(IllegalArgument);
    }
    var xs, ys := x.elems, y.elems;
    var i, j := |xs|, |ys|;
    assert xs[..i] == xs && ys[..j] == ys;
    while i > 0 && j > 0
      invariant 0 <= i <= |xs| && 0 <= j <= |ys|
      invariant IsSubseq(xs, ys) == IsSubseq(xs[..i], ys[..j])
    {
      assert xs[..i][..i - 1] == xs[..i - 1] && ys[..j][..j - 1] == ys[..j - 1];
      if xs[i - 1] == ys[j - 1] {
        SubseqLastEqual(xs[..i], ys[..j]);
        i := i - 1;
      }
      j := j - 1;
    }
    if i == 0 {
      EmptySubseq(ys[..j]);
    }
    return Success(i == 0);
  }
}
