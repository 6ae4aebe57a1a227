/** validate_load_chart_monotonicity of schema_validator.py, with floats as reals. */
module LoadChart {
  import opened Wrappers
  import opened Sequences
  import opened Sorting

  datatype Entry = Entry(radius: real, boomLength: Option<real>, capacity: real)

  /** A violation between two neighbours of one boom group. */
  datatype Flag = Flag(boom: real, near: Entry, far: Entry)

  /** boom_length_m or 0.0 */
  function BoomOf(e: Entry): real {
    e.boomLength.GetOr(0.0)
  }

  predicate RadiusBefore(a: Entry, b: Entry) {
    a.radius < b.radius
  }

  predicate Jumps(near: Entry, far: Entry) {
    far.radius > near.radius && far.capacity > near.capacity
  }

  /** The violations among the neighbours of a sorted group, from index i on. */
  function FlagsFrom(boom: real, pts: seq<Entry>, i: nat): seq<Flag>
    requires i < |pts| || pts == []
    decreases |pts| - i
  {
    if i + 1 >= |pts| then []
    else (if Jumps(pts[i], pts[i + 1]) then [Flag(boom, pts[i], pts[i + 1])] else []) + FlagsFrom(boom, pts, i + 1)
  }

  function GroupFlags(boom: real, pts: seq<Entry>): seq<Flag> {
    FlagsFrom(boom, Sort(RadiusBefore, pts), 0)
  }

  /** The entries of one boom, in order. */
  function Group(entries: seq<Entry>, boom: real): seq<Entry> {
    Filter((e: Entry) => BoomOf(e) == boom, entries)
  }

  /** The booms in the order they are first seen: the order of the dict. */
  function Booms(entries: seq<Entry>): seq<real> {
    if entries == [] then []
    else
      var before := Booms(entries[..|entries| - 1]);
      var b := BoomOf(entries[|entries| - 1]);
      if b in before then before else before + [b]
  }

  function FlagsOf(entries: seq<Entry>, booms: seq<real>): seq<Flag> {
    if booms == [] then []
    else
      var last := booms[|booms| - 1];
      FlagsOf(entries, booms[..|booms| - 1]) + GroupFlags(last, Group(entries, last))
  }

  function Flags(entries: seq<Entry>): seq<Flag> {
    FlagsOf(entries, Booms(entries))
  }

  method ValidateLoadChartMonotonicity(entries: seq<Entry>) returns (flags: seq<Flag>)
    ensures flags == Flags(entries)
  {
    var byBoom, booms := GroupByBoom(entries);
    hide Group, Booms, GroupFlags;
    flags := [];
    for n := 0 to |booms|
      invariant flags == FlagsOf(entries, booms[..n])
    {
      var boom := booms[n];
      assert boom in booms;
      var found := CheckGroup(boom, byBoom[boom]);
      assert booms[..n + 1][..n] == booms[..n];
      flags := flags + found;
    }
    assert booms[..|booms|] == booms;
  }

  method GroupByBoom(entries: seq<Entry>) returns (byBoom: map<real, seq<Entry>>, booms: seq<real>)
    ensures booms == Booms(entries)
    ensures byBoom.Keys == (set b | b in booms)
    ensures forall b | b in byBoom :: byBoom[b] == Group(entries, b)
  {
    hide Group, Booms;
    byBoom, booms := map[], [];
    NoneGrouped();
    for i := 0 to |entries|
      invariant booms == Booms(entries[..i])
      invariant byBoom.Keys == (set b | b in booms)
      invariant forall b | b in byBoom :: byBoom[b] == Group(entries[..i], b)
    {
      var b := BoomOf(entries[i]);
      GroupedNext(entries, i);
      if b !in byBoom {
        NotYetSeen(entries[..i], b);
        booms := booms + [b];
        byBoom := byBoom[b := []];
      }
      byBoom := byBoom[b := byBoom[b] + [entries[i]]];
    }
    assert entries[..|entries|] == entries;
  }

  lemma NoneGrouped()
    ensures Booms([]) == []
  {
  }

  lemma GroupedNext(entries: seq<Entry>, i: nat)
    requires i < |entries|
    ensures
      var before, b := Booms(entries[..i]), BoomOf(entries[i]);
      Booms(entries[..i + 1]) == if b in before then before else before + [b]
    ensures forall b :: Group(entries[..i + 1], b)
                     == Group(entries[..i], b) + (if BoomOf(entries[i]) == b then [entries[i]] else [])
  {
    assert entries[..i + 1][..i] == entries[..i];
  }

  lemma {:induction false} NotYetSeen(entries: seq<Entry>, boom: real)
    ensures boom !in Booms(entries) ==> Group(entries, boom) == []
    ensures forall e :: e in Group(entries, boom) <==> e in entries && BoomOf(e) == boom
    ensures forall e :: e in entries ==> BoomOf(e) in Booms(entries)
  {
    if entries != [] { NotYetSeen(entries[..|entries| - 1], boom); }
  }

  /** The inner loop over the neighbours of a sorted group. */
  method CheckGroup(boom: real, pts: seq<Entry>) returns (flags: seq<Flag>)
    ensures flags == GroupFlags(boom, pts)
  {
    var a := new Entry[|pts|](i requires 0 <= i < |pts| => pts[i]);
    assert a[..] == pts;
    SortSlice(a, RadiusBefore);
    var sorted := a[..];
    hide Sort;
    flags := [];
    if |sorted| == 0 {
      return;
    }
    assert [] + FlagsFrom(boom, sorted, 0) == FlagsFrom(boom, sorted, 0);
    for i := 0 to |sorted| - 1
      invariant flags + FlagsFrom(boom, sorted, i) == FlagsFrom(boom, sorted, 0)
    {
      var near, far := sorted[i], sorted[i + 1];
      FlagsNext(boom, sorted, i, flags);
      if far.radius > near.radius && far.capacity > near.capacity {
        flags := flags + [Flag(boom, near, far)];
      }
    }
    assert flags + [] == flags;
  }

  lemma FlagsNext(boom: real, pts: seq<Entry>, i: nat, done: seq<Flag>)
    requires i + 1 < |pts|
    ensures done + FlagsFrom(boom, pts, i)
         == (if Jumps(pts[i], pts[i + 1]) then done + [Flag(boom, pts[i], pts[i + 1])] else done)
            + FlagsFrom(boom, pts, i + 1)
  {
  }

  // ----- which flags there are -----

  predicate Ascend(at: seq<nat>) {
    forall m, n :: 0 <= m < n < |at| ==> at[m] < at[n]
  }

  /** Each flag stands for its place. */
  predicate FlagsAt(boom: real, pts: seq<Entry>, i: nat, flags: seq<Flag>, at: seq<nat>) {
    && |at| == |flags|
    && forall m :: 0 <= m < |at| ==>
         i <= at[m] && at[m] + 1 < |pts| && flags[m] == Flag(boom, pts[at[m]], pts[at[m] + 1])
  }

  predicate Violates(pts: seq<Entry>, k: nat)
    requires k + 1 < |pts|
  {
    pts[k + 1].radius > pts[k].radius && pts[k + 1].capacity > pts[k].capacity
  }

  predicate AllPlaces(pts: seq<Entry>, i: nat, at: seq<nat>) {
    forall k: nat :: i <= k && k + 1 < |pts| ==> (k in at <==> Violates(pts, k))
  }

  /** The flags of a sorted group are its violations between neighbours, every one of
      them, once, from the smallest radius on. */
  lemma {:induction false} FlagsExactly(boom: real, pts: seq<Entry>, i: nat) returns (at: seq<nat>)
    requires i < |pts| || pts == []
    ensures FlagsAt(boom, pts, i, FlagsFrom(boom, pts, i), at) && Ascend(at) && AllPlaces(pts, i, at)
    decreases |pts| - i
  {
    at := [];
    if i + 1 < |pts| {
      at := FlagsExactly(boom, pts, i + 1);
      var more := FlagsFrom(boom, pts, i + 1);
      if Jumps(pts[i], pts[i + 1]) {
        PlaceInFront(boom, pts, i, more, at);
        at := [i] + at;
      } else {
        assert [] + more == more;
      }
    }
  }

  lemma PlaceInFront(boom: real, pts: seq<Entry>, i: nat, flags: seq<Flag>, at: seq<nat>)
    requires FlagsAt(boom, pts, i + 1, flags, at) && Ascend(at) && AllPlaces(pts, i + 1, at)
    requires i + 1 < |pts| && Violates(pts, i)
    ensures FlagsAt(boom, pts, i, [Flag(boom, pts[i], pts[i + 1])] + flags, [i] + at)
    ensures Ascend([i] + at) && AllPlaces(pts, i, [i] + at)
  {
    hide Violates;
    var more := [i] + at;
    assert forall m :: 0 < m < |more| ==> more[m] == at[m - 1] && at[m - 1] >= i + 1;
    assert forall k: nat :: k in more <==> k == i || k in at;
  }

  /** The booms are those of the entries, each once. */
  lemma {:induction false} BoomsExactly(entries: seq<Entry>)
    ensures forall b :: b in Booms(entries) <==> exists i :: 0 <= i < |entries| && BoomOf(entries[i]) == b
    ensures forall m, n :: 0 <= m < n < |Booms(entries)| ==> Booms(entries)[m] != Booms(entries)[n]
  {
    if entries != [] {
      var init := entries[..|entries| - 1];
      BoomsExactly(init);
      hide BoomOf;
      forall b ensures b in Booms(entries) <==> exists i :: 0 <= i < |entries| && BoomOf(entries[i]) == b {
        if i :| 0 <= i < |init| && BoomOf(init[i]) == b { assert BoomOf(entries[i]) == b; }
        if i :| 0 <= i < |entries| && BoomOf(entries[i]) == b {
          assert i < |init| ==> BoomOf(init[i]) == b;
        }
      }
    }
  }

  /** c has been seen at a place where b has not been seen yet. */
  predicate SeenBefore(entries: seq<Entry>, c: real, b: real) {
    exists i | 0 <= i < |entries| :: BoomOf(entries[i]) == c && forall j :: 0 <= j <= i ==> BoomOf(entries[j]) != b
  }

  /** And they come in the order in which they are first seen. */
  lemma {:induction false} BoomsInOrder(entries: seq<Entry>)
    ensures forall m, n :: 0 <= m < n < |Booms(entries)| ==>
      SeenBefore(entries, Booms(entries)[m], Booms(entries)[n])
  {
    if entries != [] {
      var k := |entries| - 1;
      var init := entries[..k];
      BoomsInOrder(init);
      BoomsExactly(init);
      hide BoomOf;
      var before, booms := Booms(init), Booms(entries);
      forall m, n | 0 <= m < n < |booms| ensures SeenBefore(entries, booms[m], booms[n]) {
        if n < |before| {
          SeenLonger(init, entries[k], booms[m], booms[n]);
          assert init + [entries[k]] == entries;
        } else {
          assert before[m] in before;
          var i :| 0 <= i < |init| && BoomOf(init[i]) == before[m];
          assert BoomOf(entries[i]) == booms[m];
          forall j | 0 <= j <= i ensures BoomOf(entries[j]) != booms[n] {
            assert BoomOf(init[j]) in before;
          }
        }
      }
    }
  }

  lemma SeenLonger(entries: seq<Entry>, e: Entry, c: real, b: real)
    requires SeenBefore(entries, c, b)
    ensures SeenBefore(entries + [e], c, b)
  {
    hide BoomOf;
    var more := entries + [e];
    var i :| 0 <= i < |entries| && BoomOf(entries[i]) == c && forall j :: 0 <= j <= i ==> BoomOf(entries[j]) != b;
    assert BoomOf(more[i]) == c;
    forall j | 0 <= j <= i ensures BoomOf(more[j]) != b {
      assert more[j] == entries[j];
    }
  }

  /** Two entries are of one boom when they name the same length, or when each names
      none or 0.0. */
  lemma SameBoomExactly(e: Entry, f: Entry)
    ensures BoomOf(e) == BoomOf(f)
       <==> e.boomLength == f.boomLength || (e.boomLength in {None, Some(0.0)} && f.boomLength in {None, Some(0.0)})
  {
  }

  function FlagsWith(flags: seq<Flag>, boom: real): seq<Flag> {
    if flags == [] then []
    else (if flags[0].boom == boom then [flags[0]] else []) + FlagsWith(flags[1..], boom)
  }

  lemma {:induction false} FlagsWithOver(a: seq<Flag>, b: seq<Flag>, boom: real)
    ensures FlagsWith(a + b, boom) == FlagsWith(a, boom) + FlagsWith(b, boom)
  {
    if a == [] {
      assert a + b == b && FlagsWith([], boom) + FlagsWith(b, boom) == FlagsWith(b, boom);
    } else {
      var first := if a[0].boom == boom then [a[0]] else [];
      assert a + b != [] && (a + b)[0] == a[0] && (a + b)[1..] == a[1..] + b;
      assert FlagsWith(a + b, boom) == first + FlagsWith(a[1..] + b, boom);
      assert FlagsWith(a, boom) == first + FlagsWith(a[1..], boom);
      hide FlagsWith;
      FlagsWithOver(a[1..], b, boom);
      Associative(first, FlagsWith(a[1..], boom), FlagsWith(b, boom));
    }
  }

  lemma {:induction false} FlagsWithOwn(flags: seq<Flag>, own: real, boom: real)
    requires forall f :: f in flags ==> f.boom == own
    ensures FlagsWith(flags, boom) == if own == boom then flags else []
  {
    if flags != [] {
      assert flags[0] in flags;
      FlagsWithOwn(flags[1..], own, boom);
    }
  }

  lemma LastBoom(booms: seq<real>, boom: real)
    requires booms != [] && forall m, n :: 0 <= m < n < |booms| ==> booms[m] != booms[n]
    ensures
      var init, last := booms[..|booms| - 1], booms[|booms| - 1];
      (boom in booms <==> boom in init || boom == last) && last !in init
  {
    assert booms == booms[..|booms| - 1] + [booms[|booms| - 1]];
  }

  lemma OwnBoom(boom: real, pts: seq<Entry>)
    ensures forall f :: f in GroupFlags(boom, pts) ==> f.boom == boom
  {
    FlagsFromExactly(boom, Sort(RadiusBefore, pts), 0);
  }

  lemma {:induction false} FlagsOfOthers(entries: seq<Entry>, booms: seq<real>, boom: real)
    requires forall m, n :: 0 <= m < n < |booms| ==> booms[m] != booms[n]
    ensures FlagsWith(FlagsOf(entries, booms), boom)
         == if boom in booms then GroupFlags(boom, Group(entries, boom)) else []
  {
    if booms != [] {
      var init, last := booms[..|booms| - 1], booms[|booms| - 1];
      var own := GroupFlags(last, Group(entries, last));
      OwnBoom(last, Group(entries, last));
      hide GroupFlags, Group, FlagsWith;
      FlagsOfOthers(entries, init, boom);
      FlagsWithOver(FlagsOf(entries, init), own, boom);
      FlagsWithOwn(own, last, boom);
      LastBoom(booms, boom);
      var before := FlagsWith(FlagsOf(entries, init), boom);
      assert before + [] == before && [] + own == own;
    }
  }

  /** Of the flags of a chart, those of one boom are the flags of its own entries, in
      their order. */
  lemma FlagsOfBoom(entries: seq<Entry>, boom: real)
    ensures FlagsWith(Flags(entries), boom)
         == if boom in Booms(entries) then GroupFlags(boom, Group(entries, boom)) else []
  {
    BoomsExactly(entries);
    hide Booms, GroupFlags, Group;
    FlagsOfOthers(entries, Booms(entries), boom);
  }

  /** The flags come boom by boom. */
  predicate InBoomOrder(flags: seq<Flag>, booms: seq<real>) {
    forall m, n :: 0 <= m <= n < |flags| ==> Orderly(booms, flags[m].boom, flags[n].boom)
  }

  predicate Orderly(booms: seq<real>, a: real, b: real) {
    exists x, y | 0 <= x <= y < |booms| :: booms[x] == a && booms[y] == b
  }

  lemma {:induction false} FlagsInBoomOrder(entries: seq<Entry>, booms: seq<real>)
    ensures InBoomOrder(FlagsOf(entries, booms), booms)
  {
    if booms != [] {
      var init, last := booms[..|booms| - 1], booms[|booms| - 1];
      var before, own := FlagsOf(entries, init), GroupFlags(last, Group(entries, last));
      OwnBoom(last, Group(entries, last));
      hide GroupFlags, Group, Orderly;
      FlagsInBoomOrder(entries, init);
      var all := before + own;
      forall m, n | 0 <= m <= n < |all| ensures Orderly(booms, all[m].boom, all[n].boom) {
        if n < |before| {
          OrderlyLonger(booms, all[m].boom, all[n].boom);
        } else {
          assert all[n] in own;
          if m < |before| {
            assert Orderly(init, before[m].boom, before[m].boom);
            OrderlyLast(booms, all[m].boom);
          } else {
            assert all[m] in own;
            OrderlySelf(booms);
          }
        }
      }
    }
  }

  lemma OrderlyLonger(booms: seq<real>, a: real, b: real)
    requires booms != [] && Orderly(booms[..|booms| - 1], a, b)
    ensures Orderly(booms, a, b)
  {
    var init := booms[..|booms| - 1];
    var x, y :| 0 <= x <= y < |init| && init[x] == a && init[y] == b;
    assert booms[x] == a && booms[y] == b;
  }

  lemma OrderlyLast(booms: seq<real>, a: real)
    requires booms != [] && Orderly(booms[..|booms| - 1], a, a)
    ensures Orderly(booms, a, booms[|booms| - 1])
  {
    var init := booms[..|booms| - 1];
    var x, y :| 0 <= x <= y < |init| && init[x] == a && init[y] == a;
    assert booms[x] == a;
  }

  lemma OrderlySelf(booms: seq<real>)
    requires booms != []
    ensures Orderly(booms, booms[|booms| - 1], booms[|booms| - 1])
  {
    assert booms[|booms| - 1] == booms[|booms| - 1];
  }

  // ----- what a flag says -----

  /** The rule over all pairs: no capacity above that of a smaller radius. */
  predicate MonotoneGroup(pts: seq<Entry>) {
    forall i, j :: 0 <= i < |pts| && 0 <= j < |pts| ==> !Jumps(pts[i], pts[j])
  }

  predicate DistinctRadii(pts: seq<Entry>) {
    forall i, j :: 0 <= i < j < |pts| ==> pts[i].radius != pts[j].radius
  }

  predicate NoJumpFrom(pts: seq<Entry>, i: nat) {
    forall k :: i <= k < |pts| - 1 ==> !Jumps(pts[k], pts[k + 1])
  }

  lemma {:induction false} FlagsFromExactly(boom: real, pts: seq<Entry>, i: nat)
    requires i < |pts| || pts == []
    ensures FlagsFrom(boom, pts, i) == [] <==> NoJumpFrom(pts, i)
    ensures forall f :: f in FlagsFrom(boom, pts, i) ==>
      f.boom == boom && f.near in pts && f.far in pts && Jumps(f.near, f.far)
    decreases |pts| - i
  {
    if i + 1 < |pts| { FlagsFromExactly(boom, pts, i + 1); }
  }

  lemma SortKeepsMembers(pts: seq<Entry>)
    ensures forall e :: e in Sort(RadiusBefore, pts) <==> e in pts
  {
    var sorted := Sort(RadiusBefore, pts);
    assert forall e :: e in sorted <==> e in multiset(sorted);
    assert forall e :: e in pts <==> e in multiset(pts);
  }

  lemma {:induction false} FlagsOfNames(entries: seq<Entry>, booms: seq<real>)
    ensures forall f :: f in FlagsOf(entries, booms) ==>
      f.near in entries && f.far in entries && BoomOf(f.near) == BoomOf(f.far) == f.boom && Jumps(f.near, f.far)
  {
    if booms != [] {
      var last := booms[|booms| - 1];
      FlagsOfNames(entries, booms[..|booms| - 1]);
      FlagsFromExactly(last, Sort(RadiusBefore, Group(entries, last)), 0);
      SortKeepsMembers(Group(entries, last));
      NotYetSeen(entries, last);
      hide Jumps, Group;
    }
  }

  /** Every flag names two entries of one boom that break the rule, ties or not. */
  lemma FlagsNameViolations(entries: seq<Entry>)
    ensures forall f :: f in Flags(entries) ==>
      f.near in entries && f.far in entries && BoomOf(f.near) == BoomOf(f.far) == f.boom && Jumps(f.near, f.far)
  {
    FlagsOfNames(entries, Booms(entries));
  }

  lemma RadiusBeforeIsStrictWeak()
    ensures StrictWeak(RadiusBefore)
  {
  }

  /** Down a sorted group without a jump between neighbours capacities only fall. */
  lemma {:induction false} FallingCapacities(sorted: seq<Entry>, i: nat, j: nat)
    requires NoJumpFrom(sorted, 0) && i <= j < |sorted|
    requires forall k :: 0 <= k < |sorted| - 1 ==> sorted[k].radius < sorted[k + 1].radius
    ensures sorted[j].capacity <= sorted[i].capacity
  {
    if i < j {
      FallingCapacities(sorted, i, j - 1);
      assert !Jumps(sorted[j - 1], sorted[j - 1 + 1]);
    }
  }

  predicate Ascending(pts: seq<Entry>) {
    forall i, j :: 0 <= i < j < |pts| ==> pts[i].radius < pts[j].radius
  }

  lemma SortIsAscending(pts: seq<Entry>)
    requires DistinctRadii(pts)
    ensures Ascending(Sort(RadiusBefore, pts))
  {
    var sorted := Sort(RadiusBefore, pts);
    RadiusBeforeIsStrictWeak();
    SortIsSorted(RadiusBefore, pts);
    var apart := (a: Entry, b: Entry) => a.radius != b.radius;
    SortKeepsPairwise(RadiusBefore, pts, apart);
    hide Sort, StrictWeak;
    forall i, j | 0 <= i < j < |sorted| ensures sorted[i].radius < sorted[j].radius {
      assert apart(sorted[i], sorted[j]) && !RadiusBefore(sorted[j], sorted[i]);
    }
  }

  lemma AscendingIsMonotone(sorted: seq<Entry>)
    requires Ascending(sorted)
    ensures NoJumpFrom(sorted, 0) <==> MonotoneGroup(sorted)
  {
    if NoJumpFrom(sorted, 0) {
      forall i, j | 0 <= i < |sorted| && 0 <= j < |sorted| ensures !Jumps(sorted[i], sorted[j]) {
        if i < j { FallingCapacities(sorted, i, j); }
      }
    }
  }

  lemma MonotoneByMembers(a: seq<Entry>, b: seq<Entry>)
    requires forall e :: e in a ==> e in b
    ensures MonotoneGroup(b) ==> MonotoneGroup(a)
  {
    hide Jumps;
    if MonotoneGroup(b) {
      forall i, j | 0 <= i < |a| && 0 <= j < |a| ensures !Jumps(a[i], a[j]) {
        assert a[i] in b && a[j] in b;
      }
    }
  }

  /** With distinct radii a group has no flag exactly when the rule holds over all
      its pairs. */
  lemma DistinctGroupExactly(boom: real, pts: seq<Entry>)
    requires DistinctRadii(pts)
    ensures GroupFlags(boom, pts) == [] <==> MonotoneGroup(pts)
  {
    var sorted := Sort(RadiusBefore, pts);
    SortIsAscending(pts);
    FlagsFromExactly(boom, sorted, 0);
    SortKeepsMembers(pts);
    hide Sort, MonotoneGroup;
    AscendingIsMonotone(sorted);
    MonotoneByMembers(sorted, pts);
    MonotoneByMembers(pts, sorted);
  }

  /** The whole chart. */
  lemma {:induction false} NoFlagsExactly(entries: seq<Entry>, booms: seq<real>)
    requires forall b :: b in booms ==> DistinctRadii(Group(entries, b))
    ensures FlagsOf(entries, booms) == [] <==> forall b :: b in booms ==> MonotoneGroup(Group(entries, b))
  {
    hide DistinctRadii, MonotoneGroup, Group, GroupFlags;
    if booms != [] {
      var init, last := booms[..|booms| - 1], booms[|booms| - 1];
      NoFlagsExactly(entries, init);
      DistinctGroupExactly(last, Group(entries, last));
      assert forall b :: b in booms <==> b in init || b == last;
    }
  }

  /** With distinct radii inside each boom group, the validator is silent exactly
      when no entry can lift more than another of its boom at a smaller radius. */
  lemma SilentExactly(entries: seq<Entry>)
    requires forall b :: b in Booms(entries) ==> DistinctRadii(Group(entries, b))
    ensures Flags(entries) == []
       <==> forall e, f :: e in entries && f in entries && BoomOf(e) == BoomOf(f) ==> !Jumps(e, f)
  {
    NoFlagsExactly(entries, Booms(entries));
    hide Jumps;
    if Flags(entries) == [] {
      forall e, f | e in entries && f in entries && BoomOf(e) == BoomOf(f) ensures !Jumps(e, f) {
        var b := BoomOf(e);
        NotYetSeen(entries, b);
        assert e in Group(entries, b) && f in Group(entries, b) && MonotoneGroup(Group(entries, b));
      }
    } else {
      var b :| b in Booms(entries) && !MonotoneGroup(Group(entries, b));
      var g := Group(entries, b);
      NotYetSeen(entries, b);
      var i, j :| 0 <= i < |g| && 0 <= j < |g| && Jumps(g[i], g[j]);
      assert g[i] in g && g[j] in g;
    }
  }
}
