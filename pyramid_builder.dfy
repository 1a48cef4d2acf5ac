/** PyramidBuilder.java: lay the numbers of a list, sorted, into a triangle inside a
    zero-filled matrix. The floating-point square roots of numOfRows and numOfColumns
    are stated here as the integer triangular root they compute. */
module PyramidBuilder {
  import opened Outcomes
  import opened JavaLists

  // ---------------------------------------------------------------------------
  // Triangular numbers

  /** 1 + 2 + ... + k, the size of a pyramid of k rows. */
  function Tri(k: nat): nat {
    if k == 0 then 0 else Tri(k - 1) + k
  }

  /** The closed form k(k+1)/2. */
  lemma {:induction false} TriClosedForm(k: nat)
    ensures 2 * Tri(k) == k * (k + 1)
  {
    if k > 0 {
      TriClosedForm(k - 1);
    }
  }

  /** Tri grows strictly, so each size belongs to at most one number of rows. */
  lemma {:induction false} TriMonotonic(a: nat, b: nat)
    requires a < b
    ensures Tri(a) + a < Tri(b)
    decreases b
  {
    if a + 1 < b {
      TriMonotonic(a, b - 1);
    }
  }

  /** The largest k from k0 on whose Tri(k) does not exceed n. */
  function RootFrom(n: nat, k0: nat): (k: nat)
    requires Tri(k0) <= n
    ensures k0 <= k && Tri(k) <= n < Tri(k + 1)
    decreases n - Tri(k0)
  {
    if Tri(k0 + 1) > n then k0 else RootFrom(n, k0 + 1)
  }

  /** The whole number part of the root (sqrt(8n + 1) - 1) / 2 that numOfColumns
      computes, and that numOfRows computes exactly when n is triangular. */
  function TriangularRoot(n: nat): (k: nat)
    ensures Tri(k) <= n < Tri(k + 1)
  {
    RootFrom(n, 0)
  }

  /** The root of Tri(k) is k. */
  lemma RootOfTri(k: nat)
    ensures TriangularRoot(Tri(k)) == k
  {
    RootUnique(Tri(k), TriangularRoot(Tri(k)), k);
  }

  /** At most one k has Tri(k) <= n < Tri(k + 1). */
  lemma RootUnique(n: nat, r: nat, k: nat)
    requires Tri(r) <= n < Tri(r + 1) && Tri(k) <= n < Tri(k + 1)
    ensures r == k
  {
    if r < k {
      if r + 1 < k {
        TriMonotonic(r + 1, k);
      }
    } else if r > k {
      if k + 1 < r {
        TriMonotonic(k + 1, r);
      }
    }
  }

  /** A position below Tri(k) lies in one of the first k rows. */
  lemma RootBelow(m: nat, k: nat)
    requires m < Tri(k)
    ensures TriangularRoot(m) < k
  {
    var r := TriangularRoot(m);
    if r > k {
      TriMonotonic(k, r);
    }
    assert Tri(r) <= m;
  }

  /** isInputCorrect(numOfRows(n)): the root is a whole number, that is, n is
      triangular. */
  predicate IsInputCorrect(n: nat)
    ensures IsInputCorrect(n) <==> 2 * n == TriangularRoot(n) * (TriangularRoot(n) + 1)
  {
    TriClosedForm(TriangularRoot(n));
    Tri(TriangularRoot(n)) == n
  }

  /** The test accepts exactly the sizes of pyramids. */
  lemma IsInputCorrectIff(n: nat)
    ensures IsInputCorrect(n) <==> exists k: nat :: Tri(k) == n
  {
    if k: nat :| Tri(k) == n {
      RootOfTri(k);
    }
  }

  /** Every k whose triangle holds exactly n numbers is the root of n. */
  lemma RootOfEveryTri(n: nat)
    ensures forall k: nat :: Tri(k) == n ==> TriangularRoot(n) == k
  {
    forall k: nat | Tri(k) == n
      ensures TriangularRoot(n) == k
    {
      RootOfTri(k);
    }
  }

  /** numOfColumns: 2k - 1 for the root k, which is -1 exactly for an empty list
      and the width of the base row when the list fills a pyramid of k rows. */
  function NumOfColumns(n: nat): (cols: int)
    ensures cols >= -1 && (n > 0 ==> cols >= 1)
    ensures n == 0 <==> cols == -1
    ensures forall k: nat :: k >= 1 && Tri(k) == n ==> cols == 2 * k - 1
  {
    RootOfEveryTri(n);
    2 * TriangularRoot(n) - 1
  }

  // ---------------------------------------------------------------------------
  // The sorted copy

  predicate Sorted(s: seq<int>) {
    forall a, b :: 0 <= a < b < |s| ==> s[a] <= s[b]
  }

  /** v inserted into sorted s before the first larger element. */
  function Insert(v: int, s: seq<int>): seq<int> {
    if s == [] || v <= s[0] then [v] + s else [s[0]] + Insert(v, s[1..])
  }

  /** Insertion keeps the list sorted and adds v to its elements. */
  lemma {:induction false} InsertSpec(v: int, s: seq<int>)
    requires Sorted(s)
    ensures Sorted(Insert(v, s)) && multiset(Insert(v, s)) == multiset(s) + multiset{v}
  {
    if s == [] || v <= s[0] {
      assert multiset([v] + s) == multiset{v} + multiset(s);
    } else {
      var head, tail := s[0], s[1..];
      assert s == [head] + tail;
      assert Sorted(tail);
      InsertSpec(v, tail);
      var t := Insert(v, tail);
      LowerBound(head, t, tail, v);
      PrependSorted(head, t);
      assert multiset([head] + t) == multiset{head} + multiset(t);
    }
  }

  /** A bound below every element of tail and below v is below every element of a
      list holding the elements of tail and v. */
  lemma LowerBound(head: int, t: seq<int>, tail: seq<int>, v: int)
    requires multiset(t) == multiset(tail) + multiset{v}
    requires head < v && forall a :: 0 <= a < |tail| ==> head <= tail[a]
    ensures forall a :: 0 <= a < |t| ==> head <= t[a]
  {
    forall a | 0 <= a < |t|
      ensures head <= t[a]
    {
      assert t[a] in multiset(t);
      if t[a] != v {
        assert t[a] in tail;
      }
    }
  }

  lemma PrependSorted(head: int, t: seq<int>)
    requires Sorted(t) && forall a :: 0 <= a < |t| ==> head <= t[a]
    ensures Sorted([head] + t)
  {
    var r := [head] + t;
    forall a, b | 0 <= a < b < |r|
      ensures r[a] <= r[b]
    {
      if a > 0 {
        assert r[a] == t[a - 1] && r[b] == t[b - 1];
      } else {
        assert r[b] == t[b - 1];
      }
    }
  }

  /** stream().sorted(): the elements in ascending order. */
  function SortedCopy(s: seq<int>): (r: seq<int>)
    ensures Sorted(r) && multiset(r) == multiset(s)
  {
    if s == [] then []
    else
      var init, last := s[..|s| - 1], s[|s| - 1];
      assert s == init + [last];
      InsertSpec(last, SortedCopy(init));
      Insert(last, SortedCopy(init))
  }

  /** The values of a list without null elements. */
  function Values(s: seq<Option<int>>): (r: seq<int>)
    requires None !in s
    ensures |r| == |s| && forall a :: 0 <= a < |s| ==> s[a] == Some(r[a])
  {
    if s == [] then [] else [s[0].value] + Values(s[1..])
  }

  // ---------------------------------------------------------------------------
  // The layout

  /** Whether the placement loop of lines 38-43 writes cell (i, c) of a pyramid of
      k rows: row i starts at column k - 1 - i and takes every other column up to
      k - 1 + i. */
  predicate Placed(k: nat, i: nat, c: nat) {
    i < k && k - 1 - i <= c <= k - 1 + i && (c - (k - 1 - i)) % 2 == 0
  }

  /** The position in the sorted list of the value written at a placed cell: the
      values of earlier rows, then those to its left in its own row. */
  function Slot(k: nat, i: nat, c: nat): (m: nat)
    requires Placed(k, i, c)
  {
    Tri(i) + (c - (k - 1 - i)) / 2
  }

  /** Cell (i, c) of the finished matrix. */
  function Cell(sorted: seq<int>, k: nat, i: nat, c: nat): int {
    if Placed(k, i, c) && Slot(k, i, c) < |sorted| then sorted[Slot(k, i, c)] else 0
  }

  /** The cell that receives the value at position m of the sorted list. */
  function Position(k: nat, m: nat): (ic: (nat, nat))
    requires m < Tri(k)
    ensures Placed(k, ic.0, ic.1) && Slot(k, ic.0, ic.1) == m
  {
    RootBelow(m, k);
    var i := TriangularRoot(m);
    (i, k - 1 - i + 2 * (m - Tri(i)))
  }

  /** Every placed cell is the position of its slot: positions and placed cells
      correspond one to one, so each value of the list lands in exactly one cell. */
  lemma PositionOfSlot(k: nat, i: nat, c: nat)
    requires Placed(k, i, c)
    ensures Slot(k, i, c) < Tri(k) && Position(k, Slot(k, i, c)) == (i, c)
  {
    var m := Slot(k, i, c);
    var d := c - (k - 1 - i);
    assert 2 * (d / 2) == d;
    TriMonotonic(i, k);
    assert Tri(i) <= m < Tri(i + 1);
    RootUnique(m, TriangularRoot(m), i);
  }

  /** The value at position m of the sorted list is in the cell Position gives, and
      that cell lies inside the k x (2k - 1) matrix. */
  lemma CellAtPosition(sorted: seq<int>, k: nat, m: nat)
    requires |sorted| == Tri(k) && m < Tri(k)
    ensures var ic := Position(k, m);
      ic.0 < k && ic.1 < 2 * k - 1 && Cell(sorted, k, ic.0, ic.1) == sorted[m]
  {
  }

  /** Distinct positions of the sorted list go to distinct cells. */
  lemma PositionInjective(k: nat, m1: nat, m2: nat)
    requires m1 < Tri(k) && m2 < Tri(k) && m1 != m2
    ensures Position(k, m1) != Position(k, m2)
  {
  }

  /** Cells hold their values in reading order: a placed cell in an earlier row, or
      further left in the same row, holds a value no larger. */
  lemma Ascending(sorted: seq<int>, k: nat, i1: nat, c1: nat, i2: nat, c2: nat)
    requires |sorted| == Tri(k) && Sorted(sorted)
    requires Placed(k, i1, c1) && Placed(k, i2, c2)
    requires i1 < i2 || (i1 == i2 && c1 <= c2)
    ensures Cell(sorted, k, i1, c1) <= Cell(sorted, k, i2, c2)
  {
    if i1 < i2 {
      TriMonotonic(i1, i2);
    }
    PositionOfSlot(k, i1, c1);
    PositionOfSlot(k, i2, c2);
  }

  // ---------------------------------------------------------------------------
  // buildPyramid

  /** The outcome of buildPyramid on a list of the given elements, None standing for
      null: the exception, or the number of rows of the matrix. */
  function Shape(input: seq<Option<int>>): Result<nat> {
    if !IsInputCorrect(|input|) || None in input then Failure(CannotBuildPyramid)
    else if NumOfColumns(|input|) < 0 then Failure(NegativeArraySize)
    else Success(TriangularRoot(|input|))
  }

  /** The shape of the outcome: every list of k(k+1)/2 numbers, k >= 1, gives k
      rows of 2k - 1 columns; the empty list passes the size test and then fails to
      allocate a matrix of -1 columns. */
  lemma ShapeSpec(input: seq<Option<int>>)
    ensures Shape(input).Success? <==> None !in input && exists k: nat :: k >= 1 && Tri(k) == |input|
    ensures Shape(input).Success? ==> Tri(Shape(input).value) == |input|
    ensures Shape(input) == Failure(NegativeArraySize) <==> input == []
  {
    IsInputCorrectIff(|input|);
    if k: nat :| k >= 1 && Tri(k) == |input| {
      RootOfTri(k);
    }
  }

  /** The value at a cell of row i < k, stated by its column. */
  lemma RowCell(sorted: seq<int>, k: nat, i: nat, c: nat)
    requires |sorted| == Tri(k) && i < k && Tri(i) + i < Tri(k)
    ensures var start := k - 1 - i;
      Cell(sorted, k, i, c) ==
        if start <= c < start + 2 * (i + 1) && (c - start) % 2 == 0 then sorted[Tri(i) + (c - start) / 2] else 0
  {
  }

  /** buildPyramid, lines 17-45. */
  method BuildPyramid(inputNumbers: JavaList<Option<int>>) returns (r: Result<array2<int>>)
    ensures r.Failure? <==> Shape(inputNumbers.elems).Failure?
    ensures r.Failure? ==> r.error == Shape(inputNumbers.elems).error
    ensures r.Success? ==>
      var k := Shape(inputNumbers.elems).value;
      var sorted := SortedCopy(Values(inputNumbers.elems));
      && fresh(r.value)
      && r.value.Length0 == k && r.value.Length1 == 2 * k - 1
      && forall i, c :: 0 <= i < k && 0 <= c < 2 * k - 1 ==> r.value[i, c] == Cell(sorted, k, i, c)
  {
    var n := |inputNumbers.elems|;
    var rows := TriangularRoot(n);
    var cols := NumOfColumns(n);
    if !IsInputCorrect(n) || None in inputNumbers.elems {
      return Failure(CannotBuildPyramid);
    }
    var sorted := SortedCopy(Values(inputNumbers.elems));
    if cols < 0 {
      return Failure(NegativeArraySize);
    }
    var matrix := new int[rows, cols];
    ZeroFill(matrix);
    Place(matrix, sorted);
    return Success(matrix);
  }

  /** Arrays.fill(row, 0) for every row, lines 30-32. */
  method ZeroFill(matrix: array2<int>)
    modifies matrix
    ensures forall a, c :: 0 <= a < matrix.Length0 && 0 <= c < matrix.Length1 ==> matrix[a, c] == 0
  {
    var i := 0;
    while i < matrix.Length0
      invariant 0 <= i <= matrix.Length0
      invariant forall a, c :: 0 <= a < i && 0 <= c < matrix.Length1 ==> matrix[a, c] == 0
    {
      var c := 0;
      while c < matrix.Length1
        invariant 0 <= c <= matrix.Length1
        invariant forall a, b :: 0 <= a < i && 0 <= b < matrix.Length1 ==> matrix[a, b] == 0
        invariant forall b :: 0 <= b < c ==> matrix[i, b] == 0
      {
        matrix[i, c] := 0;
        c := c + 1;
      }
      i := i + 1;
    }
  }

  /** The placement loop of lines 34-43 on a zero-filled matrix of k rows and 2k - 1
      columns. */
  method Place(matrix: array2<int>, sorted: seq<int>)
    requires matrix.Length0 >= 1 && matrix.Length1 == 2 * matrix.Length0 - 1
    requires |sorted| == Tri(matrix.Length0)
    requires forall a, c :: 0 <= a < matrix.Length0 && 0 <= c < matrix.Length1 ==> matrix[a, c] == 0
    modifies matrix
    ensures forall a, c :: 0 <= a < matrix.Length0 && 0 <= c < matrix.Length1 ==>
      matrix[a, c] == Cell(sorted, matrix.Length0, a, c)
  {
    var rows, cols := matrix.Length0, matrix.Length1;
    var center := cols / 2;
    assert center == rows - 1;
    var count := 1;
    var arrIdx := 0;
    var i, offset := 0, 0;
    while i < rows
      invariant 0 <= i <= rows && offset == i && count == i + 1 && arrIdx == Tri(i)
      invariant forall a, c :: 0 <= a < rows && 0 <= c < cols ==>
        matrix[a, c] == if a < i then Cell(sorted, rows, a, c) else 0
    {
      TriMonotonic(i, rows);
      var start := center - offset;
      PlaceRow(matrix, sorted, i, start, count, arrIdx);
      assert forall a, c :: 0 <= a < rows && 0 <= c < cols ==>
        matrix[a, c] == if a < i + 1 then Cell(sorted, rows, a, c) else 0
      by {
        forall a, c | 0 <= a < rows && 0 <= c < cols
          ensures matrix[a, c] == if a < i + 1 then Cell(sorted, rows, a, c) else 0
        {
          if a == i {
            RowCell(sorted, rows, i, c);
          }
        }
      }
      arrIdx := arrIdx + count;
      i, offset, count := i + 1, offset + 1, count + 1;
    }
  }

  /** The inner loop of lines 40-42: count values from sorted[arrIdx] on, written to
      every other column of row i from start on. */
  method PlaceRow(matrix: array2<int>, sorted: seq<int>, i: nat, start: nat, count: nat, arrIdx: nat)
    requires i < matrix.Length0 && start + 2 * count <= matrix.Length1 + 1 && arrIdx + count <= |sorted|
    modifies matrix
    ensures forall a, c :: 0 <= a < matrix.Length0 && 0 <= c < matrix.Length1 ==>
      matrix[a, c] ==
        if a == i && start <= c < start + 2 * count && (c - start) % 2 == 0 then sorted[arrIdx + (c - start) / 2]
        else old(matrix[a, c])
  {
    var j, idx := 0, arrIdx;
    while j < count * 2
      invariant 0 <= j <= count * 2 && j % 2 == 0 && idx == arrIdx + j / 2
      invariant forall a, c :: 0 <= a < matrix.Length0 && 0 <= c < matrix.Length1 ==>
        matrix[a, c] ==
          if a == i && start <= c < start + j && (c - start) % 2 == 0 then sorted[arrIdx + (c - start) / 2]
          else old(matrix[a, c])
    {
      matrix[i, start + j] := sorted[idx];
      j, idx := j + 2, idx + 1;
    }
  }
}
