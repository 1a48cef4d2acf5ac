/** A java.util.List the caller owns and the modelled code may change in place. */
module JavaLists {

  /** The elements of s that t contains, in their order in s. */
  function Retained<T(==)>(s: seq<T>, t: seq<T>): (r: seq<T>)
    ensures |r| <= |s| && (t == [] ==> r == [])
  {
    if s == [] then []
    else Retained(s[..|s| - 1], t) + (if s[|s| - 1] in t then [s[|s| - 1]] else [])
  }

  /** What retainAll keeps: exactly the elements found in t, every occurrence of each,
      where it stood. */
  lemma RetainedSpec<T>(s: seq<T>, t: seq<T>)
    ensures forall e :: e in Retained(s, t) <==> e in s && e in t
    ensures |Retained(s, t)| <= |s|
    ensures |Retained(s, t)| == |s| <==> forall e :: e in s ==> e in t
    ensures forall e :: e in t ==> multiset(Retained(s, t))[e] == multiset(s)[e]
  {
    RetainedKeeps(s, t);
    forall e | e in t
      ensures multiset(Retained(s, t))[e] == multiset(s)[e]
    {
      RetainedCount(s, t, e);
    }
  }

  /** retainAll keeps only elements found in t, and keeps all of the list exactly
      when every element is found. */
  lemma {:induction false} RetainedKeeps<T>(s: seq<T>, t: seq<T>)
    ensures forall e :: e in Retained(s, t) <==> e in s && e in t
    ensures |Retained(s, t)| <= |s|
    ensures |Retained(s, t)| == |s| <==> forall e :: e in s ==> e in t
  {
    if s != [] {
      var init, last := s[..|s| - 1], s[|s| - 1];
      RetainedKeeps(init, t);
      assert s == init + [last];
      if last !in t {
        assert !(forall e :: e in s ==> e in t);
      }
    }
  }

  /** An element found in t is kept as often as it occurs. */
  lemma {:induction false} RetainedCount<T>(s: seq<T>, t: seq<T>, e: T)
    requires e in t
    ensures multiset(Retained(s, t))[e] == multiset(s)[e]
  {
    if s != [] {
      var init, last := s[..|s| - 1], s[|s| - 1];
      RetainedCount(init, t, e);
      assert s == init + [last];
      assert multiset(s) == multiset(init) + multiset{last};
    }
  }

  /** Retaining what a list itself contains keeps all of it. */
  lemma RetainedSelf<T>(s: seq<T>)
    ensures Retained(s, s) == s
  {
    RetainedSpec(s, s);
    RetainedAll(s, s);
  }

  /** Retaining with respect to a list that contains every element changes nothing. */
  lemma {:induction false} RetainedAll<T>(s: seq<T>, t: seq<T>)
    requires forall e :: e in s ==> e in t
    ensures Retained(s, t) == s
  {
    if s != [] {
      RetainedAll(s[..|s| - 1], t);
    }
  }

  class JavaList<T(==)> {
    var elems: seq<T>

    constructor (elems: seq<T>)
      ensures this.elems == elems
    {
      this.elems := elems;
    }

    /** retainAll(c): remove every element that c does not contain. The result says
        whether the list changed. c may be this very list. */
    method RetainAll(c: JavaList<T>) returns (changed: bool)
      modifies this
      ensures elems == Retained(old(elems), old(c.elems))
      ensures changed <==> elems != old(elems)
    {
      var source, keep := elems, c.elems;
      var kept: seq<T> := [];
      var i := 0;
      while i < |source|
        invariant 0 <= i <= |source|
        invariant kept == Retained(source[..i], keep)
      {
        assert source[..i + 1][..i] == source[..i];
        if source[i] in keep {
          kept := kept + [source[i]];
        }
        i := i + 1;
      }
      assert source[..i] == source;
      elems := kept;
      RetainedSpec(source, keep);
      changed := |kept| != |source|;
      if |kept| == |source| {
        RetainedAll(source, keep);
      }
    }
  }
}
