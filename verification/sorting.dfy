/**
 * `sortTable`'s comparator and the in-place sort of the loaded rows.
 *
 * A cell's sort key is the cell text, or the empty string when the row has
 * no such cell. Two keys that both parse as numbers compare numerically;
 * otherwise they compare as text. A descending sort negates the comparison.
 */
module Sorting {
  import opened Seqs
  import opened Text
  import opened Rows

  datatype Direction = Asc | Desc {
    /** The direction a second click on the same header switches to. */
    function Flip(): (d: Direction)
      ensures d != this
    {
      if this == Asc then Desc else Asc
    }
  }

  /** `row[col] || ''`: the cell when the row has one at `col`, and the empty text otherwise. */
  function Key(row: Row, col: int): (k: string)
    ensures k == if 0 <= col < |row| then row[col] else ""
  {
    Lookup(row, col).GetOr("")
  }

  /** The key parses as a number (`!isNaN(parseFloat(key))`). */
  predicate Numeric(key: string)
  {
    ParseNumber(key).Some?
  }

  /**
   * The comparator passed to `currentData.sort`: negative when `a` goes
   * first, positive when `b` goes first.
   */
  function Compare(a: Row, b: Row, col: int, dir: Direction): (r: real)
    ensures r == 0.0 <==> Tied(a, b, col)
  {
    var x := ParseNumber(Key(a, col));
    var y := ParseNumber(Key(b, col));
    var asc := if x.Some? && y.Some? then x.value - y.value else StrCompare(Key(a, col), Key(b, col)) as real;
    if dir == Asc then asc else -asc
  }

  /** `a` may stand before `b`. */
  predicate InOrder(a: Row, b: Row, col: int, dir: Direction)
  {
    Compare(a, b, col, dir) <= 0.0
  }

  /** The row at `k` and its successor are in order. */
  predicate InOrderAt(s: seq<Row>, col: int, dir: Direction, k: int)
  {
    0 <= k < |s| - 1 && InOrder(s[k], s[k + 1], col, dir)
  }

  /** Every row is in order with its successor. */
  predicate AdjacentInOrder(s: seq<Row>, col: int, dir: Direction)
  {
    forall k :: 0 <= k < |s| - 1 ==> InOrderAt(s, col, dir, k)
  }

  /** Every row is in order with every row after it. */
  predicate Sorted(s: seq<Row>, col: int, dir: Direction)
  {
    forall i, j :: 0 <= i < j < |s| ==> InOrder(s[i], s[j], col, dir)
  }

  /** The column holds only numbers, or no number at all. */
  predicate Uniform(s: seq<Row>, col: int)
  {
    (forall r :: r in s ==> Numeric(Key(r, col))) || (forall r :: r in s ==> !Numeric(Key(r, col)))
  }

  /** Swapping the arguments negates the comparison. */
  lemma CompareAntisymmetric(a: Row, b: Row, col: int, dir: Direction)
    ensures Compare(a, b, col, dir) == -Compare(b, a, col, dir)
  {
    StrCompareAntisymmetric(Key(a, col), Key(b, col));
  }

  /** Reversing the direction negates the comparison. */
  lemma CompareFlip(a: Row, b: Row, col: int, dir: Direction)
    ensures Compare(a, b, col, dir.Flip()) == -Compare(a, b, col, dir)
  {
  }

  /** On three keys that are all numbers or all text, being in order is transitive. */
  lemma InOrderTransitive(a: Row, b: Row, c: Row, col: int, dir: Direction)
    requires (Numeric(Key(a, col)) && Numeric(Key(b, col)) && Numeric(Key(c, col))) ||
             (!Numeric(Key(a, col)) && !Numeric(Key(b, col)) && !Numeric(Key(c, col)))
    requires InOrder(a, b, col, dir) && InOrder(b, c, col, dir)
    ensures InOrder(a, c, col, dir)
  {
    var ka, kb, kc := Key(a, col), Key(b, col), Key(c, col);
    if !Numeric(ka) {
      if dir == Asc {
        StrCompareTransitive(ka, kb, kc);
      } else {
        StrCompareAntisymmetric(ka, kb);
        StrCompareAntisymmetric(kb, kc);
        StrCompareAntisymmetric(ka, kc);
        StrCompareTransitive(kc, kb, ka);
      }
    }
  }

  /**
   * `a.sort(cmp)` for an antisymmetric comparator, as an insertion sort by
   * adjacent swaps: the elements are permuted, and every element ends up
   * in order with its successor.
   */
  method SortBy(a: array<Row>, cmp: (Row, Row) -> real)
    requires forall x, y :: cmp(x, y) == -cmp(y, x)
    modifies a
    ensures multiset(a[..]) == multiset(old(a[..]))
    ensures forall k :: 0 <= k < a.Length - 1 ==> cmp(a[k], a[k + 1]) <= 0.0
    ensures TiesAgree(cmp) ==> SameTies(a[..], old(a[..]), cmp)
  {
    for i := 0 to a.Length
      invariant multiset(a[..]) == multiset(old(a[..]))
      invariant forall k :: 0 <= k < i - 1 ==> PairInOrder(a[..], cmp, k)
      invariant TiesAgree(cmp) ==> SameTies(a[..], old(a[..]), cmp)
    {
      ghost var b := a[..];
      Insert(a, i, cmp);
      if TiesAgree(cmp) {
        SameTiesTransitive(a[..], b, old(a[..]), cmp);
      }
    }
    forall k | 0 <= k < a.Length - 1 ensures cmp(a[k], a[k + 1]) <= 0.0 {
      assert PairInOrder(a[..], cmp, k);
    }
  }

  /** The element at `k` and its successor are in order under `cmp`. */
  predicate PairInOrder(s: seq<Row>, cmp: (Row, Row) -> real, k: int)
  {
    0 <= k < |s| - 1 && cmp(s[k], s[k + 1]) <= 0.0
  }

  /**
   * One step of the insertion sort: moves `a[i]` down past the elements
   * that go after it, so that the first `i + 1` elements are each in order
   * with their successor.
   */
  method Insert(a: array<Row>, i: int, cmp: (Row, Row) -> real)
    requires forall x, y :: cmp(x, y) == -cmp(y, x)
    requires 0 <= i < a.Length
    requires forall k :: 0 <= k < i - 1 ==> PairInOrder(a[..], cmp, k)
    modifies a
    ensures multiset(a[..]) == multiset(old(a[..]))
    ensures forall k :: 0 <= k < i ==> PairInOrder(a[..], cmp, k)
    ensures TiesAgree(cmp) ==> SameTies(a[..], old(a[..]), cmp)
  {
    var j := i;
    while j > 0 && cmp(a[j - 1], a[j]) > 0.0
      invariant 0 <= j <= i
      invariant multiset(a[..]) == multiset(old(a[..]))
      invariant TiesAgree(cmp) ==> SameTies(a[..], old(a[..]), cmp)
      invariant InsertInvariant(a[..], cmp, i, j)
    {
      ghost var b := a[..];
      Swap(a, j - 1, j);
      InsertStep(b, a[..], old(a[..]), cmp, i, j);
      j := j - 1;
    }
    assert j == 0 || PairInOrder(a[..], cmp, j - 1);
  }

  /**
   * While `Insert` moves the element that started at `i` down to `j`: the
   * elements before `j` and those after it up to `i` are each in order with
   * their successor, and the element at `j` goes before its successor and,
   * when it moves on, after its predecessor's place.
   */
  predicate InsertInvariant(s: seq<Row>, cmp: (Row, Row) -> real, i: int, j: int)
    requires 0 <= j <= i < |s|
  {
    && (forall k :: 0 <= k < j - 1 ==> PairInOrder(s, cmp, k))
    && (forall k :: j < k < i ==> PairInOrder(s, cmp, k))
    && (j < i ==> PairInOrder(s, cmp, j))
    && (0 < j < i ==> cmp(s[j - 1], s[j + 1]) <= 0.0)
  }

  /**
   * One swap of `Insert` keeps its invariant, one place further down, and
   * keeps tied elements in their original order.
   */
  lemma InsertStep(b: seq<Row>, c: seq<Row>, original: seq<Row>, cmp: (Row, Row) -> real, i: int, j: int)
    requires forall x, y :: cmp(x, y) == -cmp(y, x)
    requires 0 < j <= i < |b| && InsertInvariant(b, cmp, i, j) && cmp(b[j - 1], b[j]) > 0.0
    requires c == b[j - 1 := b[j]][j := b[j - 1]]
    requires TiesAgree(cmp) ==> SameTies(b, original, cmp)
    ensures InsertInvariant(c, cmp, i, j - 1)
    ensures TiesAgree(cmp) ==> SameTies(c, original, cmp)
  {
    if TiesAgree(cmp) {
      SwapKeepsTies(b, j - 1, cmp);
      SameTiesTransitive(c, b, original, cmp);
    }
    assert cmp(b[j], b[j - 1]) < 0.0;
    forall k | 0 <= k < j - 2 ensures PairInOrder(c, cmp, k) {
      assert PairInOrder(b, cmp, k);
    }
    forall k | j - 1 < k < i ensures PairInOrder(c, cmp, k) {
      if k > j {
        assert PairInOrder(b, cmp, k);
      }
    }
    if 1 < j {
      assert PairInOrder(b, cmp, j - 2);
    }
  }

  /** `a` ties with `b` under `cmp`. */
  predicate Tie(cmp: (Row, Row) -> real, a: Row, b: Row)
  {
    cmp(a, b) == 0.0
  }

  /** The elements of `s` that tie with `x` under `cmp`, in their order in `s`. */
  function Ties(s: seq<Row>, cmp: (Row, Row) -> real, x: Row): seq<Row>
  {
    Filter(s, (r: Row) => Tie(cmp, r, x))
  }

  /** Every group of tied elements appears in the same order in `s` and `t`. */
  ghost predicate SameTies(s: seq<Row>, t: seq<Row>, cmp: (Row, Row) -> real)
  {
    forall x :: Ties(s, cmp, x) == Ties(t, cmp, x)
  }

  /** Tying is an equivalence: two elements that tie with a third tie with each other. */
  ghost predicate TiesAgree(cmp: (Row, Row) -> real)
  {
    forall a, b, x :: Tie(cmp, a, x) && Tie(cmp, b, x) ==> Tie(cmp, a, b)
  }

  lemma SameTiesTransitive(s: seq<Row>, t: seq<Row>, u: seq<Row>, cmp: (Row, Row) -> real)
    requires SameTies(s, t, cmp) && SameTies(t, u, cmp)
    ensures SameTies(s, u, cmp)
  {
  }

  /**
   * Exchanging two neighbours that do not tie leaves every group of tied
   * elements in its order: at most one of the two belongs to any group.
   */
  lemma SwapKeepsTies(s: seq<Row>, i: int, cmp: (Row, Row) -> real)
    requires TiesAgree(cmp) && 0 <= i < |s| - 1 && !Tie(cmp, s[i], s[i + 1])
    ensures SameTies(s[i := s[i + 1]][i + 1 := s[i]], s, cmp)
  {
    forall x ensures Ties(s[i := s[i + 1]][i + 1 := s[i]], cmp, x) == Ties(s, cmp, x) {
      FilterSwap(s, i, (r: Row) => Tie(cmp, r, x));
    }
  }

  /** Exchanges two elements. */
  method Swap(a: array<Row>, i: int, j: int)
    requires 0 <= i < j < a.Length
    modifies a
    ensures a[..] == old(a[..])[i := old(a[j])][j := old(a[i])]
    ensures multiset(a[..]) == multiset(old(a[..]))
  {
    a[i], a[j] := a[j], a[i];
  }

  /**
   * `currentData.sort(...)` with `sortTable`'s comparator: the rows are
   * permuted, each row is in order with its successor, and a column holding
   * only numbers or only text ends up sorted.
   */
  method SortRows(a: array<Row>, col: int, dir: Direction)
    modifies a
    ensures SortedFrom(old(a[..]), a[..], col, dir)
  {
    var cmp := Comparator(col, dir);
    forall x, y ensures cmp(x, y) == -cmp(y, x) {
      CompareAntisymmetric(x, y, col, dir);
    }
    ComparatorTiesAgree(col, dir);
    SortBy(a, cmp);
    assert AdjacentInOrder(a[..], col, dir) by {
      forall k | 0 <= k < a.Length - 1 ensures InOrderAt(a[..], col, dir, k) {
        assert cmp(a[k], a[k + 1]) <= 0.0;
      }
    }
    if Uniform(old(a[..]), col) {
      UniformPermutation(old(a[..]), a[..], col);
      SortedFromAdjacent(a[..], col, dir);
    }
  }

  /**
   * What sorting `before` by `col` and `dir` promises of `after`: the same
   * rows, each in order with its successor, rows that tie on the column in
   * their original order (a stable sort), and sorted throughout when the
   * column holds only numbers or only text.
   */
  ghost predicate SortedFrom(before: seq<Row>, after: seq<Row>, col: int, dir: Direction)
  {
    && multiset(after) == multiset(before)
    && AdjacentInOrder(after, col, dir)
    && SameTies(after, before, Comparator(col, dir))
    && (Uniform(before, col) ==> Sorted(after, col, dir))
  }

  /** `sortTable`'s comparator as a function value. */
  function Comparator(col: int, dir: Direction): (Row, Row) -> real
  {
    (x: Row, y: Row) => Compare(x, y, col, dir)
  }

  /**
   * Two rows tie on a column when both keys are numbers of equal value, or
   * when the keys are the same text.
   */
  predicate Tied(a: Row, b: Row, col: int)
  {
    if Numeric(Key(a, col)) && Numeric(Key(b, col)) then ParseNumber(Key(a, col)) == ParseNumber(Key(b, col))
    else Key(a, col) == Key(b, col)
  }

  /** On any column, mixed or not, tying is an equivalence. */
  lemma ComparatorTiesAgree(col: int, dir: Direction)
    ensures TiesAgree(Comparator(col, dir))
  {
    var cmp := Comparator(col, dir);
    forall a, b, x | Tie(cmp, a, x) && Tie(cmp, b, x) ensures Tie(cmp, a, b) {
      assert Tied(a, x, col) && Tied(b, x, col);
    }
  }

  /**
   * A stable sort keeps tied rows in their order: sorting by the first column
   * may not put ["a", "2"] before ["a", "1"].
   */
  lemma TiedRowsKeepOrder()
    ensures !SortedFrom([["a", "1"], ["a", "2"]], [["a", "2"], ["a", "1"]], 0, Asc)
  {
    var before: seq<Row> := [["a", "1"], ["a", "2"]];
    var after: seq<Row> := [["a", "2"], ["a", "1"]];
    var cmp := Comparator(0, Asc);
    assert ParseNumber("a") == None;
    assert Tie(cmp, before[0], before[0]) && Tie(cmp, before[1], before[0]);
    FilterPair(before, (r: Row) => Tie(cmp, r, before[0]));
    FilterPair(after, (r: Row) => Tie(cmp, r, before[0]));
    assert after[0][1] != before[0][1];
    assert Ties(after, cmp, before[0])[0] != Ties(before, cmp, before[0])[0];
  }

  lemma FilterPair(s: seq<Row>, p: Row -> bool)
    requires |s| == 2
    ensures Filter(s, p) == (if p(s[0]) then [s[0]] else []) + (if p(s[1]) then [s[1]] else [])
  {
    assert s[1..][1..] == [];
  }

  /** No two different rows of `s` tie on the column. */
  predicate TieFree(s: seq<Row>, col: int)
  {
    forall a, b :: a in s && b in s && Tied(a, b, col) ==> a == b
  }

  /** `s` in reverse order. */
  function Reverse(s: seq<Row>): (r: seq<Row>)
    ensures |r| == |s| && forall i :: 0 <= i < |s| ==> r[i] == s[|s| - 1 - i]
    ensures multiset(r) == multiset(s)
  {
    if s == [] then []
    else
      assert s == [s[0]] + s[1..];
      Reverse(s[1..]) + [s[0]]
  }

  /** Read backwards, a sorted sequence is sorted in the other direction. */
  lemma ReverseSorted(s: seq<Row>, col: int, dir: Direction)
    requires Sorted(s, col, dir)
    ensures Sorted(Reverse(s), col, dir.Flip())
  {
    var r := Reverse(s);
    forall i, j | 0 <= i < j < |r| ensures InOrder(r[i], r[j], col, dir.Flip()) {
      assert InOrder(s[|s| - 1 - j], s[|s| - 1 - i], col, dir);
      CompareFlip(r[i], r[j], col, dir);
      CompareAntisymmetric(r[i], r[j], col, dir);
    }
  }

  /** Two sorted arrangements of the same tie-free rows are the same sequence. */
  lemma {:induction false} SortedUnique(s: seq<Row>, t: seq<Row>, col: int, dir: Direction)
    requires Sorted(s, col, dir) && Sorted(t, col, dir)
    requires multiset(s) == multiset(t) && TieFree(s, col)
    ensures s == t
    decreases |s|
  {
    if s == [] {
      assert |multiset(t)| == 0;
    } else {
      SameHead(s, t, col, dir);
      SameTail(s, t);
      SortedTail(s, col, dir);
      SortedTail(t, col, dir);
      SortedUnique(s[1..], t[1..], col, dir);
      assert s == [s[0]] + s[1..] && t == [t[0]] + t[1..];
    }
  }

  lemma SameTail(s: seq<Row>, t: seq<Row>)
    requires s != [] && t != [] && s[0] == t[0] && multiset(s) == multiset(t)
    ensures multiset(s[1..]) == multiset(t[1..])
  {
    assert s == [s[0]] + s[1..] && t == [t[0]] + t[1..];
    assert multiset(s[1..]) == multiset(s) - multiset{s[0]};
    assert multiset(t[1..]) == multiset(t) - multiset{t[0]};
  }

  /** Two sorted arrangements of the same non-empty tie-free rows start alike. */
  lemma SameHead(s: seq<Row>, t: seq<Row>, col: int, dir: Direction)
    requires Sorted(s, col, dir) && Sorted(t, col, dir)
    requires multiset(s) == multiset(t) && TieFree(s, col) && s != []
    ensures t != [] && s[0] == t[0]
  {
    assert s[0] in multiset(t);
    assert t[0] in multiset(s);
    var k :| 0 <= k < |t| && t[k] == s[0];
    var m :| 0 <= m < |s| && s[m] == t[0];
    if 0 < k && 0 < m {
      assert InOrder(s[0], s[m], col, dir) && InOrder(t[0], t[k], col, dir);
      CompareAntisymmetric(s[0], s[m], col, dir);
    }
  }

  lemma SortedTail(s: seq<Row>, col: int, dir: Direction)
    requires Sorted(s, col, dir) && s != []
    ensures Sorted(s[1..], col, dir)
  {
    forall i, j | 0 <= i < j < |s| - 1 ensures InOrder(s[1..][i], s[1..][j], col, dir) {
      assert InOrder(s[i + 1], s[j + 1], col, dir);
    }
  }

  /**
   * Clicking a header sorts the column; clicking it again sorts it the other
   * way. On a column of only numbers or only text with no tied rows, the
   * second sort exactly reverses the first.
   */
  lemma ClickTwiceReverses(before: seq<Row>, mid: seq<Row>, after: seq<Row>, col: int, dir: Direction)
    requires SortedFrom(before, mid, col, dir) && SortedFrom(mid, after, col, dir.Flip())
    requires Uniform(before, col) && TieFree(before, col)
    ensures after == Reverse(mid)
  {
    UniformPermutation(before, mid, col);
    ReverseSorted(mid, col, dir);
    SameMembers(before, Reverse(mid));
    SortedUnique(Reverse(mid), after, col, dir.Flip());
  }

  lemma SameMembers(s: seq<Row>, t: seq<Row>)
    requires multiset(s) == multiset(t)
    ensures forall r :: r in s <==> r in t
  {
    forall r ensures r in t <==> r in s {
      assert r in t <==> r in multiset(t);
      assert r in s <==> r in multiset(s);
    }
  }

  /** Uniformity depends only on which rows are present. */
  lemma UniformPermutation(s: seq<Row>, t: seq<Row>, col: int)
    requires multiset(s) == multiset(t)
    requires Uniform(s, col)
    ensures Uniform(t, col)
  {
    SameMembers(s, t);
  }

  /** On a numbers-only or text-only column, order between neighbours is order throughout. */
  lemma SortedFromAdjacent(s: seq<Row>, col: int, dir: Direction)
    requires AdjacentInOrder(s, col, dir) && Uniform(s, col)
    ensures Sorted(s, col, dir)
  {
    var le := (x: Row, y: Row) => InOrder(x, y, col, dir);
    forall x, y, z | x in s && y in s && z in s && le(x, y) && le(y, z) ensures le(x, z) {
      InOrderTransitive(x, y, z, col, dir);
    }
    forall k | 0 <= k < |s| - 1 ensures le(s[k], s[k + 1]) {
      assert InOrderAt(s, col, dir, k);
    }
    forall i, j | 0 <= i < j < |s| ensures InOrder(s[i], s[j], col, dir) {
      Chain(s, le, i, j);
    }
  }

  /** A relation that holds between neighbours and is transitive holds between any two in order. */
  lemma {:induction false} Chain(s: seq<Row>, le: (Row, Row) -> bool, i: int, j: int)
    requires forall k :: 0 <= k < |s| - 1 ==> le(s[k], s[k + 1])
    requires forall x, y, z :: x in s && y in s && z in s && le(x, y) && le(y, z) ==> le(x, z)
    requires 0 <= i < j < |s|
    ensures le(s[i], s[j])
    decreases j - i
  {
    if i + 1 < j {
      Chain(s, le, i, j - 1);
      assert le(s[j - 1], s[j]);
      assert s[i] in s && s[j - 1] in s && s[j] in s;
    }
  }

  /** The numeric value of a key known to be a number. */
  function Value(row: Row, col: int): real
    requires Numeric(Key(row, col))
  {
    ParseNumber(Key(row, col)).value
  }

  /** A sorted numbers-only column is in ascending (or descending) numeric order. */
  lemma NumericColumnOrder(s: seq<Row>, col: int, dir: Direction)
    requires forall r :: r in s ==> Numeric(Key(r, col))
    requires Sorted(s, col, dir)
    ensures forall i, j :: 0 <= i < j < |s| ==>
              if dir == Asc then Value(s[i], col) <= Value(s[j], col) else Value(s[i], col) >= Value(s[j], col)
  {
    forall i, j | 0 <= i < j < |s|
      ensures if dir == Asc then Value(s[i], col) <= Value(s[j], col) else Value(s[i], col) >= Value(s[j], col)
    {
      assert s[i] in s && s[j] in s;
      assert InOrder(s[i], s[j], col, dir);
    }
  }

  /** A sorted text-only column is in ascending (or descending) code-point order. */
  lemma TextColumnOrder(s: seq<Row>, col: int, dir: Direction)
    requires forall r :: r in s ==> !Numeric(Key(r, col))
    requires Sorted(s, col, dir)
    ensures forall i, j :: 0 <= i < j < |s| ==>
              if dir == Asc then StrCompare(Key(s[i], col), Key(s[j], col)) <= 0
              else StrCompare(Key(s[i], col), Key(s[j], col)) >= 0
  {
    forall i, j | 0 <= i < j < |s|
      ensures if dir == Asc then StrCompare(Key(s[i], col), Key(s[j], col)) <= 0
              else StrCompare(Key(s[i], col), Key(s[j], col)) >= 0
    {
      assert s[i] in s && s[j] in s;
      assert InOrder(s[i], s[j], col, dir);
    }
  }

  /** Numbers compare by value, not as text: "9" goes before "10" ascending. */
  lemma NumbersCompareByValue()
    ensures InOrder(["9"], ["10"], 0, Asc) && !InOrder(["10"], ["9"], 0, Asc)
    ensures StrCompare("10", "9") < 0
  {
    ParseOneDigit("9", 0);
    ParseTwoDigits("10");
  }

  /**
   * On a column mixing numbers and text the comparator is not transitive:
   * "3" < " 5" numerically, " 5" < "-" and "-" < "3" as text, yet "3" > "-".
   */
  lemma MixedColumnCycle()
    ensures InOrder(["3"], [" 5"], 0, Asc)
    ensures InOrder([" 5"], ["-"], 0, Asc)
    ensures InOrder(["-"], ["3"], 0, Asc)
    ensures !InOrder(["3"], ["-"], 0, Asc)
  {
    ParseOneDigit("3", 0);
    SpacedFive();
    DashAgainst(" 5");
    DashAgainst("3");
  }

  lemma SpacedFive()
    ensures ParseNumber(" 5") == Some(5.0)
  {
    ParseOneDigit(" 5", 1);
  }

  /** Against "-", which is not a number, any key compares as text. */
  lemma DashAgainst(k: string)
    ensures Compare([k], ["-"], 0, Asc) == StrCompare(k, "-") as real
    ensures Compare(["-"], [k], 0, Asc) == StrCompare("-", k) as real
  {
    DashIsNaN();
  }

  lemma DashIsNaN()
    ensures ParseNumber("-") == None
  {
    assert !IsDigit("-"[0]);
  }
}
