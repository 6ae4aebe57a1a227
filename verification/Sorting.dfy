/** The stable sort of a slice by a comparison, for which the program calls
    sort.SliceStable, sort.Slice and Python's sorted. */
module Sorting {
  import opened Sequences

  /** A strict weak ordering: what the sort functions ask of a comparison. */
  ghost predicate StrictWeak<T(!new)>(less: (T, T) -> bool) {
    && (forall x, y :: less(x, y) ==> !less(y, x))
    && (forall x, y, z :: !less(x, y) && !less(y, z) ==> !less(x, z))
  }

  ghost predicate IsSorted<T>(less: (T, T) -> bool, s: seq<T>) {
    forall i, j :: 0 <= i < j < |s| ==> !less(s[j], s[i])
  }

  /** x put right behind the last element it is not less than. */
  function Insert<T>(less: (T, T) -> bool, x: T, s: seq<T>): (r: seq<T>)
    ensures |r| == |s| + 1
    ensures multiset(r) == multiset(s) + multiset{x}
  {
    if s == [] || !less(x, s[|s| - 1]) then s + [x]
    else
      assert s == s[..|s| - 1] + [s[|s| - 1]];
      Insert(less, x, s[..|s| - 1]) + [s[|s| - 1]]
  }

  function Sort<T>(less: (T, T) -> bool, s: seq<T>): (r: seq<T>)
    ensures |r| == |s|
    ensures multiset(r) == multiset(s)
  {
    if s == [] then []
    else
      assert s == s[..|s| - 1] + [s[|s| - 1]];
      Insert(less, s[|s| - 1], Sort(less, s[..|s| - 1]))
  }

  lemma {:induction false} InsertKeepsSorted<T(!new)>(less: (T, T) -> bool, x: T, s: seq<T>)
    requires StrictWeak(less) && IsSorted(less, s)
    ensures IsSorted(less, Insert(less, x, s))
  {
    if s != [] && less(x, s[|s| - 1]) {
      var init, last := s[..|s| - 1], s[|s| - 1];
      InsertKeepsSorted(less, x, init);
      var r := Insert(less, x, init);
      forall i | 0 <= i < |r| ensures !less(last, r[i]) {
        assert r[i] in multiset(init) + multiset{x};
        assert r[i] in init || r[i] == x;
      }
    } else {
      forall i | 0 <= i < |s| ensures !less(x, s[i]) {
        assert i == |s| - 1 || !less(s[|s| - 1], s[i]);
      }
    }
  }

  lemma {:induction false} SortIsSorted<T(!new)>(less: (T, T) -> bool, s: seq<T>)
    requires StrictWeak(less)
    ensures IsSorted(less, Sort(less, s))
  {
    if s != [] {
      SortIsSorted(less, s[..|s| - 1]);
      InsertKeepsSorted(less, s[|s| - 1], Sort(less, s[..|s| - 1]));
    }
  }

  /** No two different elements tie. */
  ghost predicate Distinguishes<T>(less: (T, T) -> bool, s: seq<T>) {
    forall i, j :: 0 <= i < |s| && 0 <= j < |s| && s[i] != s[j] ==> less(s[i], s[j]) || less(s[j], s[i])
  }

  /** A sorted arrangement is unique when no two different elements tie. */
  lemma {:induction false} SortedIsUnique<T(!new)>(less: (T, T) -> bool, a: seq<T>, b: seq<T>)
    requires StrictWeak(less) && IsSorted(less, a) && IsSorted(less, b)
    requires multiset(a) == multiset(b) && Distinguishes(less, a)
    ensures a == b
  {
    assert |multiset(a)| == |a| && |multiset(b)| == |b|;
    if a != [] {
      var n := |a| - 1;
      LastIsMaximal(less, a, b[n]);
      LastIsMaximal(less, b, a[n]);
      assert a[n] == b[n];
      WithoutLast(less, a);
      WithoutLast(less, b);
      hide StrictWeak, IsSorted, Distinguishes;
      SortedIsUnique(less, a[..n], b[..n]);
      SameEnds(a, b);
    }
  }

  lemma SameEnds<T>(a: seq<T>, b: seq<T>)
    requires |a| == |b| > 0 && a[..|a| - 1] == b[..|a| - 1] && a[|a| - 1] == b[|a| - 1]
    ensures a == b
  {
    assert a == a[..|a| - 1] + [a[|a| - 1]] && b == b[..|a| - 1] + [b[|a| - 1]];
  }

  lemma WithoutLast<T(!new)>(less: (T, T) -> bool, s: seq<T>)
    requires s != [] && IsSorted(less, s)
    ensures IsSorted(less, s[..|s| - 1])
    ensures Distinguishes(less, s) ==> Distinguishes(less, s[..|s| - 1])
    ensures multiset(s[..|s| - 1]) == multiset(s) - multiset{s[|s| - 1]}
  {
    OneLess(s);
    var init := s[..|s| - 1];
    assert forall i :: 0 <= i < |init| ==> init[i] == s[i];
  }

  lemma OneLess<T>(s: seq<T>)
    requires s != []
    ensures multiset(s[..|s| - 1]) == multiset(s) - multiset{s[|s| - 1]}
  {
    assert s == s[..|s| - 1] + [s[|s| - 1]];
  }

  lemma LastIsMaximal<T(!new)>(less: (T, T) -> bool, s: seq<T>, x: T)
    requires StrictWeak(less) && IsSorted(less, s) && s != [] && x in multiset(s)
    ensures !less(s[|s| - 1], x) && x in s
  {
    var i :| 0 <= i < |s| && s[i] == x;
  }

  /** The sorted arrangement of a sequence does not depend on its order. */
  lemma SortOfPermutation<T(!new)>(less: (T, T) -> bool, s: seq<T>, t: seq<T>)
    requires StrictWeak(less) && multiset(s) == multiset(t) && Distinguishes(less, Sort(less, s))
    ensures Sort(less, s) == Sort(less, t)
  {
    SortIsSorted(less, s);
    SortIsSorted(less, t);
    SortedIsUnique(less, Sort(less, s), Sort(less, t));
  }

  // ----- what sorting keeps -----

  ghost predicate Pairwise<T>(apart: (T, T) -> bool, s: seq<T>) {
    forall i, j :: 0 <= i < j < |s| ==> apart(s[i], s[j])
  }

  lemma {:induction false} InsertKeepsPairwise<T(!new)>(less: (T, T) -> bool, x: T, s: seq<T>, apart: (T, T) -> bool)
    requires Pairwise(apart, s)
    requires forall i :: 0 <= i < |s| ==> apart(s[i], x) && apart(x, s[i])
    ensures Pairwise(apart, Insert(less, x, s))
  {
    if s != [] && less(x, s[|s| - 1]) {
      var init, last := s[..|s| - 1], s[|s| - 1];
      InsertKeepsPairwise(less, x, init, apart);
      var r := Insert(less, x, init);
      forall i | 0 <= i < |r| ensures apart(r[i], last) {
        assert r[i] in multiset(init) + multiset{x};
        assert r[i] in init || r[i] == x;
      }
    }
  }

  lemma {:induction false} SortKeepsPairwise<T(!new)>(less: (T, T) -> bool, s: seq<T>, apart: (T, T) -> bool)
    requires Pairwise(apart, s) && forall x, y :: apart(x, y) <==> apart(y, x)
    ensures Pairwise(apart, Sort(less, s))
  {
    if s != [] {
      var init, x := s[..|s| - 1], s[|s| - 1];
      SortKeepsPairwise(less, init, apart);
      var sorted := Sort(less, init);
      forall i | 0 <= i < |sorted| ensures apart(sorted[i], x) && apart(x, sorted[i]) {
        assert sorted[i] in multiset(init);
        var k :| 0 <= k < |init| && init[k] == sorted[i];
        assert apart(s[k], s[|s| - 1]);
      }
      InsertKeepsPairwise(less, x, sorted, apart);
    }
  }

  function Filter<T>(pick: T -> bool, s: seq<T>): seq<T> {
    if s == [] then []
    else Filter(pick, s[..|s| - 1]) + (if pick(s[|s| - 1]) then [s[|s| - 1]] else [])
  }

  lemma {:induction false} InsertFilters<T(!new)>(less: (T, T) -> bool, x: T, s: seq<T>, pick: T -> bool)
    requires forall a, b :: pick(a) && pick(b) ==> !less(a, b)
    ensures Filter(pick, Insert(less, x, s)) == Filter(pick, s) + (if pick(x) then [x] else [])
  {
    if s != [] && less(x, s[|s| - 1]) {
      var init, last := s[..|s| - 1], s[|s| - 1];
      InsertFilters(less, x, init, pick);
      FilterMore(pick, Insert(less, x, init), last);
      hide Filter;
      assert Insert(less, x, s) == Insert(less, x, init) + [last];
      assert s == init + [last];
      FilterMore(pick, init, last);
    } else {
      FilterMore(pick, s, x);
    }
  }

  lemma FilterMore<T>(pick: T -> bool, s: seq<T>, x: T)
    ensures Filter(pick, s + [x]) == Filter(pick, s) + (if pick(x) then [x] else [])
  {
    assert (s + [x])[..|s|] == s;
  }

  /** The sort is stable: elements that tie keep their order. */
  lemma {:induction false} SortIsStable<T(!new)>(less: (T, T) -> bool, s: seq<T>, pick: T -> bool)
    requires forall a, b :: pick(a) && pick(b) ==> !less(a, b)
    ensures Filter(pick, Sort(less, s)) == Filter(pick, s)
  {
    if s != [] {
      SortIsStable(less, s[..|s| - 1], pick);
      InsertFilters(less, s[|s| - 1], Sort(less, s[..|s| - 1]), pick);
    }
  }

  // ----- the routine -----

  /** An array in the middle of an insertion: x stands at index j of the sorted
      part, with the elements it has passed behind it. */
  function Row<T>(sorted: seq<T>, x: T, j: nat, rest: seq<T>): seq<T>
    requires j <= |sorted|
  {
    sorted[..j] + ([x] + (sorted[j..] + rest))
  }

  lemma InsertInside<T>(less: (T, T) -> bool, x: T, s: seq<T>)
    requires s != [] && less(x, s[|s| - 1])
    ensures Insert(less, x, s) == Insert(less, x, s[..|s| - 1]) + [s[|s| - 1]]
  {
  }

  lemma InsertBehind<T>(less: (T, T) -> bool, x: T, s: seq<T>)
    requires s != [] ==> !less(x, s[|s| - 1])
    ensures Insert(less, x, s) == s + [x]
  {
  }

  lemma {:induction false} InsertAt<T>(less: (T, T) -> bool, x: T, s: seq<T>, j: nat, rest: seq<T>)
    requires j <= |s| && (j > 0 ==> !less(x, s[j - 1]))
    requires forall k :: j <= k < |s| ==> less(x, s[k])
    ensures Insert(less, x, s) + rest == Row(s, x, j, rest)
  {
    if j < |s| {
      var init, last := s[..|s| - 1], s[|s| - 1];
      hide Row, Insert;
      InsertAt(less, x, init, j, [last] + rest);
      InsertInside(less, x, s);
      Associative(Insert(less, x, init), [last], rest);
      assert s == init + [last];
      RowMore(init, last, x, j, rest);
    } else {
      InsertBehind(less, x, s);
      hide Row, Insert;
      RowEnd(s, x, rest);
    }
  }

  lemma RowMore<T>(init: seq<T>, last: T, x: T, j: nat, rest: seq<T>)
    requires j <= |init|
    ensures Row(init, x, j, [last] + rest) == Row(init + [last], x, j, rest)
  {
    var s := init + [last];
    assert s[..j] == init[..j] && s[j..] + rest == init[j..] + ([last] + rest);
  }

  lemma RowEnd<T>(s: seq<T>, x: T, rest: seq<T>)
    ensures s + [x] + rest == Row(s, x, |s|, rest)
  {
    assert s[..|s|] == s && s[|s|..] + rest == rest;
    Associative(s, [x], rest);
  }

  lemma SwapDown<T>(sorted: seq<T>, x: T, j: nat, rest: seq<T>)
    requires 0 < j <= |sorted|
    ensures
      var row := Row(sorted, x, j, rest);
      && row[j] == x && row[j - 1] == sorted[j - 1]
      && row[j := row[j - 1]][j - 1 := x] == Row(sorted, x, j - 1, rest)
  {
  }

  lemma RowStart<T>(s: seq<T>, i: nat, sorted: seq<T>)
    requires i < |s| && |sorted| == i
    ensures sorted + s[i..] == Row(sorted, s[i], i, s[i + 1..])
    ensures s[..i + 1][..i] == s[..i] && s[..i + 1][i] == s[i]
  {
    assert s[i..] == [s[i]] + s[i + 1..] && sorted[i..] + s[i + 1..] == s[i + 1..];
  }

  /** In-place insertion sort, the routine sort.SliceStable runs on short slices. */
  method SortSlice<T>(a: array<T>, less: (T, T) -> bool)
    modifies a
    ensures a[..] == Sort(less, old(a[..]))
  {
    hide Row, Insert;
    ghost var s := a[..];
    assert s == Sort(less, s[..0]) + s[0..];
    for i := 0 to a.Length
      invariant a[..] == Sort(less, s[..i]) + s[i..]
    {
      ghost var sorted, x, rest := Sort(less, s[..i]), s[i], s[i + 1..];
      RowStart(s, i, sorted);
      SortNext(less, s[..i + 1]);
      Insertion(a, less, i, sorted, x, rest);
    }
    assert s[..a.Length] == s && s[a.Length..] == [] && Sort(less, s) + [] == Sort(less, s);
  }

  lemma SortNext<T>(less: (T, T) -> bool, s: seq<T>)
    requires s != []
    ensures Sort(less, s) == Insert(less, s[|s| - 1], Sort(less, s[..|s| - 1]))
  {
  }

  /** One round: a[i] sinks to its place among the sorted elements before it. */
  method Insertion<T>(a: array<T>, less: (T, T) -> bool, i: nat, ghost sorted: seq<T>, ghost x: T, ghost rest: seq<T>)
    requires i == |sorted| < a.Length && a[..] == Row(sorted, x, i, rest)
    modifies a
    ensures a[..] == Insert(less, x, sorted) + rest
  {
    hide Row, Insert;
    var j := i;
    while j > 0 && less(a[j], a[j - 1])
      invariant 0 <= j <= i
      invariant a[..] == Row(sorted, x, j, rest)
      invariant forall k :: j <= k < i ==> less(x, sorted[k])
    {
      SwapDown(sorted, x, j, rest);
      assert a[..][j] == x && a[..][j - 1] == sorted[j - 1];
      a[j], a[j - 1] := a[j - 1], a[j];
      j := j - 1;
    }
    if j > 0 {
      SwapDown(sorted, x, j, rest);
      assert a[..][j] == x && a[..][j - 1] == sorted[j - 1];
    }
    InsertAt(less, x, sorted, j, rest);
  }
}
