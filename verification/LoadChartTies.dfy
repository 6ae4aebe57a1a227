/** When the neighbour test of the load chart misses a violation: the radii of a
    group decide, whatever the capacities. */
module LoadChartTies {
  import opened Sorting
  import opened LoadChart

  function Recap(pts: seq<Entry>, caps: seq<real>): seq<Entry>
    requires |caps| == |pts|
  {
    seq(|pts|, m requires 0 <= m < |pts| => pts[m].(capacity := caps[m]))
  }

  /** Whatever the capacities, silence means the rule holds. */
  ghost predicate NeverMisses(boom: real, pts: seq<Entry>) {
    forall caps: seq<real> | |caps| == |pts| ::
      GroupFlags(boom, Recap(pts, caps)) == [] ==> MonotoneGroup(Recap(pts, caps))
  }

  predicate OneRadius(pts: seq<Entry>) {
    forall i, j :: 0 <= i < |pts| && 0 <= j < |pts| ==> pts[i].radius == pts[j].radius
  }

  lemma {:induction false} FilterFirst(pick: Entry -> bool, s: seq<Entry>, i: nat)
    requires i < |s| && pick(s[i]) && forall m :: 0 <= m < i ==> !pick(s[m])
    ensures Filter(pick, s) != [] && Filter(pick, s)[0] == s[i]
  {
    if i < |s| - 1 {
      FilterFirst(pick, s[..|s| - 1], i);
    } else {
      FilterNone(pick, s[..i]);
    }
  }

  lemma {:induction false} FilterNone(pick: Entry -> bool, s: seq<Entry>)
    requires forall m :: 0 <= m < |s| ==> !pick(s[m])
    ensures Filter(pick, s) == []
  {
    if s != [] { FilterNone(pick, s[..|s| - 1]); }
  }

  lemma {:induction false} FilterLast(pick: Entry -> bool, s: seq<Entry>, i: nat)
    requires i < |s| && pick(s[i]) && forall m :: i < m < |s| ==> !pick(s[m])
    ensures var f := Filter(pick, s); f != [] && f[|f| - 1] == s[i]
  {
    if i < |s| - 1 { FilterLast(pick, s[..|s| - 1], i); }
  }

  /** The first and the last entry of a radius keep their places among its entries. */
  lemma TiesStayInOrder(pts: seq<Entry>, r: real, i: nat, l: nat, n: nat)
    requires i < |pts| && l < |pts| && pts[i].radius == pts[l].radius == r && n < |pts|
    requires forall m :: 0 <= m < i ==> pts[m].radius != r
    requires forall m :: l < m < |pts| ==> pts[m].radius != r
    ensures
      var sorted := Sort(RadiusBefore, pts);
      sorted[n].radius == r ==>
        && ((forall m :: 0 <= m < n ==> sorted[m].radius != r) ==> sorted[n] == pts[i])
        && ((forall m :: n < m < |sorted| ==> sorted[m].radius != r) ==> sorted[n] == pts[l])
  {
    var sorted := Sort(RadiusBefore, pts);
    var pick := (e: Entry) => e.radius == r;
    SortIsStable(RadiusBefore, pts, pick);
    FilterFirst(pick, pts, i);
    FilterLast(pick, pts, l);
    hide Sort, Filter;
    if sorted[n].radius == r {
      if forall m :: 0 <= m < n ==> sorted[m].radius != r { FilterFirst(pick, sorted, n); }
      if forall m :: n < m < |sorted| ==> sorted[m].radius != r { FilterLast(pick, sorted, n); }
    }
  }

  /** Capacities by radius: `low` below r, `high` above it, and at r one value for
      index x and another for the rest. */
  function Caps(pts: seq<Entry>, r: real, x: nat, low: real, high: real, atX: real, rest: real): (caps: seq<real>)
    ensures |caps| == |pts|
  {
    seq(|pts|, m requires 0 <= m < |pts| =>
      if pts[m].radius < r then low else if pts[m].radius > r then high else if m == x then atX else rest)
  }

  lemma SortedMember(pts: seq<Entry>, n: nat) returns (m: nat)
    requires n < |pts|
    ensures m < |pts| && Sort(RadiusBefore, pts)[n] == pts[m]
  {
    SortKeepsMembers(pts);
    var e := Sort(RadiusBefore, pts)[n];
    assert e in pts;
    m :| 0 <= m < |pts| && pts[m] == e;
  }

  /** A sorted run of neighbours whose capacities only rise inside one radius. */
  lemma SilentWhen(boom: real, pts: seq<Entry>)
    requires forall n :: 0 <= n < |pts| - 1 ==> !Jumps(Sort(RadiusBefore, pts)[n], Sort(RadiusBefore, pts)[n + 1])
    ensures GroupFlags(boom, pts) == []
  {
    FlagsFromExactly(boom, Sort(RadiusBefore, pts), 0);
  }

  lemma NotMonotone(pts: seq<Entry>, i: nat, j: nat)
    requires i < |pts| && j < |pts| && Jumps(pts[i], pts[j])
    ensures !MonotoneGroup(pts)
  {
  }

  /** A tie above a smaller radius hides a jump: 5 below; 3, then 10, at the tie. */
  lemma TieAboveMisses(boom: real, pts: seq<Entry>, i: nat, l: nat, below: nat)
    requires i < l < |pts| && below < |pts|
    requires pts[i].radius == pts[l].radius && pts[below].radius < pts[i].radius
    requires forall m :: 0 <= m < i ==> pts[m].radius != pts[i].radius
    requires forall m :: l < m < |pts| ==> pts[m].radius != pts[i].radius
    ensures !NeverMisses(boom, pts)
  {
    hide Sort, StrictWeak, GroupFlags, MonotoneGroup;
    var r := pts[i].radius;
    var caps := Caps(pts, r, i, 5.0, 0.0, 3.0, 10.0);
    var odd := Recap(pts, caps);
    var sorted := Sort(RadiusBefore, odd);
    RadiusBeforeIsStrictWeak();
    SortIsSorted(RadiusBefore, odd);
    forall n | 0 <= n < |odd| - 1 ensures !Jumps(sorted[n], sorted[n + 1]) {
      var a := SortedMember(odd, n);
      var b := SortedMember(odd, n + 1);
      if sorted[n].radius < r && sorted[n + 1].radius == r {
        assert forall m :: 0 <= m < n ==> !RadiusBefore(sorted[n], sorted[m]);
        TiesStayInOrder(odd, r, i, l, n + 1);
      }
    }
    SilentWhen(boom, odd);
    assert Jumps(odd[below], odd[l]);
    NotMonotone(odd, below, l);
    assert |caps| == |pts| && GroupFlags(boom, Recap(pts, caps)) == [];
  }

  /** A tie below a larger radius hides a jump: 1, then 10, at the tie; 5 above. */
  lemma TieBelowMisses(boom: real, pts: seq<Entry>, i: nat, l: nat, above: nat)
    requires i < l < |pts| && above < |pts|
    requires pts[i].radius == pts[l].radius && pts[above].radius > pts[i].radius
    requires forall m :: 0 <= m < |pts| ==> pts[m].radius >= pts[i].radius
    requires forall m :: 0 <= m < i ==> pts[m].radius != pts[i].radius
    requires forall m :: l < m < |pts| ==> pts[m].radius != pts[i].radius
    ensures !NeverMisses(boom, pts)
  {
    hide Sort, StrictWeak, GroupFlags, MonotoneGroup;
    var r := pts[i].radius;
    var caps := Caps(pts, r, i, 0.0, 5.0, 1.0, 10.0);
    var odd := Recap(pts, caps);
    var sorted := Sort(RadiusBefore, odd);
    RadiusBeforeIsStrictWeak();
    SortIsSorted(RadiusBefore, odd);
    forall n | 0 <= n < |odd| - 1 ensures !Jumps(sorted[n], sorted[n + 1]) {
      var a := SortedMember(odd, n);
      var b := SortedMember(odd, n + 1);
      if sorted[n].radius == r && sorted[n + 1].radius > r {
        assert forall m :: n + 1 < m < |sorted| ==> !RadiusBefore(sorted[m], sorted[n + 1]);
        TiesStayInOrder(odd, r, i, l, n);
      }
    }
    SilentWhen(boom, odd);
    assert Jumps(odd[i], odd[above]);
    NotMonotone(odd, i, above);
    assert |caps| == |pts| && GroupFlags(boom, Recap(pts, caps)) == [];
  }

  lemma TieEnds(pts: seq<Entry>, a: nat, b: nat) returns (i: nat, l: nat)
    requires a < b < |pts| && pts[a].radius == pts[b].radius
    ensures i < l < |pts| && pts[i].radius == pts[l].radius == pts[a].radius
    ensures forall m :: 0 <= m < i ==> pts[m].radius != pts[i].radius
    ensures forall m :: l < m < |pts| ==> pts[m].radius != pts[i].radius
  {
    var r := pts[a].radius;
    i, l := 0, |pts| - 1;
    while pts[i].radius != r
      invariant i <= a && forall m :: 0 <= m < i ==> pts[m].radius != r
      decreases a - i
    {
      i := i + 1;
    }
    while pts[l].radius != r
      invariant b <= l < |pts| && forall m :: l < m < |pts| ==> pts[m].radius != r
      decreases l
    {
      l := l - 1;
    }
  }

  /** The neighbour test is complete for the radii of a group, that is, for every
      choice of capacities, exactly when no two radii are equal or all of them are. */
  lemma NeverMissesExactly(boom: real, pts: seq<Entry>)
    ensures NeverMisses(boom, pts) <==> DistinctRadii(pts) || OneRadius(pts)
  {
    if DistinctRadii(pts) || OneRadius(pts) {
      forall caps: seq<real> | |caps| == |pts| && GroupFlags(boom, Recap(pts, caps)) == []
        ensures MonotoneGroup(Recap(pts, caps))
      {
        if DistinctRadii(pts) { DistinctGroupExactly(boom, Recap(pts, caps)); }
      }
    } else {
      hide GroupFlags, NeverMisses;
      var a, b :| 0 <= a < b < |pts| && pts[a].radius == pts[b].radius;
      var i, l := TieEnds(pts, a, b);
      var k :| 0 <= k < |pts| && pts[k].radius != pts[i].radius;
      if below :| 0 <= below < |pts| && pts[below].radius < pts[i].radius {
        TieAboveMisses(boom, pts, i, l, below);
      } else {
        TieBelowMisses(boom, pts, i, l, k);
      }
    }
  }
}
