/**
 * `rank_locations_by_proximity` (src/location.rs): pair every location with its distance from
 * the reference, stable-sort the pairs by distance, and keep the locations. The great-circle
 * distance is floating point and is taken as a parameter; `Distance.NaN` stands for the value
 * on which `partial_cmp` answers `None`.
 */
module Locations {

  /** A deployment location, as read from the `Location` table. */
  datatype Location = Location(id: string, latitude: real, longitude: real)

  /** A `(latitude, longitude)` pair in degrees, the argument shape of `haversine`. */
  type Coord = (real, real)

  /** A distance in kilometres, or the not-a-number value no comparison accepts. */
  datatype Distance = Km(km: real) | NaN

  /** A location with its distance from the reference, the element type of `ranked`. */
  datatype Ranked = Ranked(location: Location, distance: Distance)

  /** `partial_cmp(a, b)` answers `Less` or `Equal`: both are numbers and `a` is not the greater. */
  predicate NotAfter(a: Distance, b: Distance)
  {
    a.Km? && b.Km? && a.km <= b.km
  }

  /**
   * `partial_cmp(...).unwrap()` succeeds on every pair the sort may compare: with two or more
   * elements every element takes part in a comparison, so all distances must be numbers.
   */
  predicate Comparable(s: seq<Ranked>)
  {
    |s| <= 1 || forall i | 0 <= i < |s| :: s[i].distance.Km?
  }

  /** `partial_cmp(a, b)` answers `Some`: neither distance is NaN. */
  predicate CmpDefined(a: Distance, b: Distance)
  {
    a.Km? && b.Km?
  }

  /** Every two distinct positions hold comparable distances. */
  predicate PairwiseComparable(s: seq<Ranked>)
  {
    forall i, j | 0 <= i < |s| && 0 <= j < |s| && i != j :: CmpDefined(s[i].distance, s[j].distance)
  }

  /** The two readings of "no comparison panics" agree. */
  lemma PairwiseIsComparable(s: seq<Ranked>)
    ensures PairwiseComparable(s) <==> Comparable(s)
  {
    if PairwiseComparable(s) && |s| > 1 {
      forall i | 0 <= i < |s| ensures s[i].distance.Km? {
        if i == 0 {
          assert CmpDefined(s[0].distance, s[1].distance);
        } else {
          assert CmpDefined(s[i].distance, s[0].distance);
        }
      }
    }
  }

  /** Non-decreasing distance. */
  predicate Sorted(s: seq<Ranked>)
  {
    forall i, j | 0 <= i < j < |s| :: NotAfter(s[i].distance, s[j].distance)
  }

  /** The elements at distance `d`, in their order in `s`. */
  function AtDistance(s: seq<Ranked>, d: Distance): seq<Ranked>
  {
    if |s| == 0 then []
    else AtDistance(s[..|s| - 1], d) + (if s[|s| - 1].distance == d then [s[|s| - 1]] else [])
  }

  /** The locations of `s`, distances dropped. */
  function Project(s: seq<Ranked>): seq<Location>
  {
    seq(|s|, i requires 0 <= i < |s| => s[i].location)
  }

  lemma ProjectSnoc(init: seq<Ranked>, x: Ranked)
    ensures Project(init + [x]) == Project(init) + [x.location]
  {
  }

  /**
   * Inserts `x` behind every element whose distance is not greater than its own: the step of
   * a stable insertion sort.
   */
  function Insert(t: seq<Ranked>, x: Ranked): (r: seq<Ranked>)
    ensures |r| == |t| + 1
  {
    if |t| == 0 then [x]
    else if NotAfter(t[|t| - 1].distance, x.distance) then t + [x]
    else Insert(t[..|t| - 1], x) + [t[|t| - 1]]
  }

  /** Stable insertion sort by distance, inserting the elements one at a time, first to last. */
  function SortByDistance(s: seq<Ranked>): (r: seq<Ranked>)
    ensures |r| == |s|
    ensures multiset(r) == multiset(s)
  {
    if |s| == 0 then []
    else
      var init, x := s[..|s| - 1], s[|s| - 1];
      assert s == init + [x];
      InsertMultiset(SortByDistance(init), x);
      Insert(SortByDistance(init), x)
  }

  lemma {:induction false} InsertMultiset(t: seq<Ranked>, x: Ranked)
    ensures multiset(Insert(t, x)) == multiset(t) + multiset{x}
    decreases |t|
  {
    if |t| > 0 {
      var init, last := t[..|t| - 1], t[|t| - 1];
      assert t == init + [last];
      if !NotAfter(last.distance, x.distance) {
        InsertMultiset(init, x);
      }
    }
  }

  lemma ComparableInit(t: seq<Ranked>, x: Ranked)
    requires |t| > 0 && Comparable(t + [x])
    ensures t[|t| - 1].distance.Km? && x.distance.Km?
    ensures Comparable(t[..|t| - 1] + [x])
  {
    var s, s' := t + [x], t[..|t| - 1] + [x];
    assert s[|t| - 1] == t[|t| - 1] && s[|t|] == x;
    if |s'| > 1 {
      forall i | 0 <= i < |s'| ensures s'[i].distance.Km? {
        if i < |t| - 1 {
          assert s'[i] == s[i];
        } else {
          assert s'[i] == s[|t|];
        }
      }
    }
  }

  lemma SortedPrefix(t: seq<Ranked>)
    requires |t| > 0 && Sorted(t)
    ensures Sorted(t[..|t| - 1])
  {
    var init := t[..|t| - 1];
    forall i, j | 0 <= i < j < |init|
      ensures NotAfter(init[i].distance, init[j].distance)
    {
      assert init[i] == t[i] && init[j] == t[j];
    }
  }

  /** Every element of `Insert(t, x)` is `x` or an element of `t`. */
  lemma InsertFrom(t: seq<Ranked>, x: Ranked, i: int)
    requires 0 <= i < |t| + 1
    ensures Insert(t, x)[i] == x || Insert(t, x)[i] in t
  {
    InsertMultiset(t, x);
    assert Insert(t, x)[i] in multiset(Insert(t, x));
  }

  lemma {:induction false} InsertSorted(t: seq<Ranked>, x: Ranked)
    requires Comparable(t + [x]) && Sorted(t)
    ensures Sorted(Insert(t, x))
    decreases |t|
  {
    if |t| > 0 {
      var init, last := t[..|t| - 1], t[|t| - 1];
      ComparableInit(t, x);
      var r := Insert(t, x);
      if NotAfter(last.distance, x.distance) {
        assert r == t + [x];
        forall i | 0 <= i < |t| ensures NotAfter(t[i].distance, x.distance) {
          if i < |t| - 1 {
            assert NotAfter(t[i].distance, last.distance);
          }
        }
      } else {
        SortedPrefix(t);
        InsertSorted(init, x);
        var r' := Insert(init, x);
        assert r == r' + [last];
        forall i | 0 <= i < |r'|
          ensures NotAfter(r'[i].distance, last.distance)
        {
          InsertFrom(init, x, i);
          if r'[i] != x {
            var k :| 0 <= k < |init| && init[k] == r'[i];
            assert t[k] == init[k];
          }
        }
      }
    }
  }

  /** The sorted prefix stays comparable with the next element. */
  lemma ComparableAfterSort(s: seq<Ranked>)
    requires |s| > 0 && Comparable(s)
    ensures Comparable(s[..|s| - 1])
    ensures Comparable(SortByDistance(s[..|s| - 1]) + [s[|s| - 1]])
  {
    var init, x := s[..|s| - 1], s[|s| - 1];
    var t := SortByDistance(init);
    var s' := t + [x];
    if |s'| > 1 {
      forall i | 0 <= i < |s'| ensures s'[i].distance.Km? {
        if i < |t| {
          assert t[i] in multiset(init);
          var k :| 0 <= k < |init| && init[k] == t[i];
          assert s[k] == t[i];
        } else {
          assert s'[i] == s[|init|];
        }
      }
    }
  }

  /** When no comparison can fail, the sort's output is in non-decreasing distance. */
  lemma {:induction false} SortSorted(s: seq<Ranked>)
    requires Comparable(s)
    ensures Sorted(SortByDistance(s))
  {
    if |s| > 0 {
      var init, x := s[..|s| - 1], s[|s| - 1];
      ComparableAfterSort(s);
      SortSorted(init);
      InsertSorted(SortByDistance(init), x);
    }
  }

  /** Insertion puts `x` behind every element at its own distance: the tie order is kept. */
  lemma {:induction false} InsertAtDistance(t: seq<Ranked>, x: Ranked, d: Distance)
    requires Comparable(t + [x]) && Sorted(t)
    ensures AtDistance(Insert(t, x), d) == AtDistance(t, d) + (if x.distance == d then [x] else [])
    decreases |t|
  {
    if |t| == 0 {
      assert [x][..0] == [];
    } else {
      var init, last := t[..|t| - 1], t[|t| - 1];
      ComparableInit(t, x);
      var r := Insert(t, x);
      if NotAfter(last.distance, x.distance) {
        assert r == t + [x];
        assert r[..|r| - 1] == t;
      } else {
        SortedPrefix(t);
        InsertAtDistance(init, x, d);
        var r' := Insert(init, x);
        assert r == r' + [last];
        assert r[..|r| - 1] == r';
        assert last.distance != x.distance;
      }
    }
  }

  /** Stability: at every distance, the sort keeps the elements in their input order. */
  lemma {:induction false} SortStable(s: seq<Ranked>, d: Distance)
    requires Comparable(s)
    ensures AtDistance(SortByDistance(s), d) == AtDistance(s, d)
  {
    if |s| > 0 {
      var init, x := s[..|s| - 1], s[|s| - 1];
      ComparableAfterSort(s);
      SortSorted(init);
      SortStable(init, d);
      InsertAtDistance(SortByDistance(init), x, d);
    }
  }

  lemma {:induction false} InsertProject(t: seq<Ranked>, x: Ranked)
    ensures multiset(Project(Insert(t, x))) == multiset(Project(t)) + multiset{x.location}
    decreases |t|
  {
    if |t| == 0 {
      assert Project([x]) == [x.location];
    } else {
      var init, last := t[..|t| - 1], t[|t| - 1];
      assert t == init + [last];
      ProjectSnoc(init, last);
      if NotAfter(last.distance, x.distance) {
        ProjectSnoc(t, x);
      } else {
        InsertProject(init, x);
        ProjectSnoc(Insert(init, x), last);
      }
    }
  }

  /** Sorting moves the locations and nothing else: the projections are permutations of each other. */
  lemma {:induction false} SortProject(s: seq<Ranked>)
    ensures multiset(Project(SortByDistance(s))) == multiset(Project(s))
  {
    if |s| > 0 {
      var init, x := s[..|s| - 1], s[|s| - 1];
      SortProject(init);
      InsertProject(SortByDistance(init), x);
      assert s == init + [x];
      ProjectSnoc(init, x);
    }
  }

  /** The distance of `loc` from `reference`, as `haversine` computes it from their coordinates. */
  function DistanceFrom(haversine: (Coord, Coord) -> Distance, reference: Location, loc: Location): Distance
  {
    haversine((reference.latitude, reference.longitude), (loc.latitude, loc.longitude))
  }

  /** Every pair carries its own location's distance from `reference`. */
  predicate Honest(s: seq<Ranked>, haversine: (Coord, Coord) -> Distance, reference: Location)
  {
    forall i | 0 <= i < |s| :: s[i].distance == DistanceFrom(haversine, reference, s[i].location)
  }

  /** The `ranked` vector: every location paired with its distance from `reference`. */
  function Annotate(locations: seq<Location>, haversine: (Coord, Coord) -> Distance, reference: Location): (r: seq<Ranked>)
    ensures Project(r) == locations
    ensures Honest(r, haversine, reference)
  {
    seq(|locations|, i requires 0 <= i < |locations| =>
      Ranked(locations[i], DistanceFrom(haversine, reference, locations[i])))
  }

  lemma SortedHonest(ranked: seq<Ranked>, haversine: (Coord, Coord) -> Distance, reference: Location)
    requires Honest(ranked, haversine, reference)
    ensures Honest(SortByDistance(ranked), haversine, reference)
  {
    var sorted := SortByDistance(ranked);
    forall i | 0 <= i < |sorted|
      ensures sorted[i].distance == DistanceFrom(haversine, reference, sorted[i].location)
    {
      assert sorted[i] in multiset(ranked);
      var k :| 0 <= k < |ranked| && ranked[k] == sorted[i];
    }
  }

  /** `rank_locations_by_proximity`: the locations ordered by distance from `reference`, ties in input order. */
  function Rank(locations: seq<Location>, haversine: (Coord, Coord) -> Distance, reference: Location): (r: seq<Location>)
    requires PairwiseComparable(Annotate(locations, haversine, reference))
    ensures multiset(r) == multiset(locations)
    ensures reference in r <==> reference in locations
    ensures forall i, j | 0 <= i < j < |r| ::
      NotAfter(DistanceFrom(haversine, reference, r[i]), DistanceFrom(haversine, reference, r[j]))
  {
    var ranked := Annotate(locations, haversine, reference);
    var sorted := SortByDistance(ranked);
    PairwiseIsComparable(ranked);
    SortProject(ranked);
    SortSorted(ranked);
    SortedHonest(ranked, haversine, reference);
    var r := Project(sorted);
    assert (reference in r) == (reference in multiset(r));
    assert (reference in locations) == (reference in multiset(locations));
    r
  }

  /** The locations of `locations` at distance `d` from `reference`, in their order there. */
  function LocationsAt(locations: seq<Location>, haversine: (Coord, Coord) -> Distance, reference: Location, d: Distance): seq<Location>
  {
    if |locations| == 0 then []
    else
      var last := locations[|locations| - 1];
      LocationsAt(locations[..|locations| - 1], haversine, reference, d)
        + (if DistanceFrom(haversine, reference, last) == d then [last] else [])
  }

  lemma {:induction false} ProjectAtDistance(s: seq<Ranked>, haversine: (Coord, Coord) -> Distance, reference: Location, d: Distance)
    requires Honest(s, haversine, reference)
    ensures Project(AtDistance(s, d)) == LocationsAt(Project(s), haversine, reference, d)
  {
    if |s| > 0 {
      var init, x := s[..|s| - 1], s[|s| - 1];
      assert Honest(init, haversine, reference) by {
        forall i | 0 <= i < |init| ensures init[i].distance == DistanceFrom(haversine, reference, init[i].location) {
          assert init[i] == s[i];
        }
      }
      ProjectAtDistance(init, haversine, reference, d);
      assert Project(s)[..|s| - 1] == Project(init);
      var tail := if x.distance == d then [x] else [];
      ProjectAppend(AtDistance(init, d), tail);
    }
  }

  lemma ProjectAppend(a: seq<Ranked>, b: seq<Ranked>)
    ensures Project(a + b) == Project(a) + Project(b)
  {
  }

  /**
   * Stability of the ranking: the locations at any one distance from `reference` come out in
   * the order they went in.
   */
  lemma RankStable(locations: seq<Location>, haversine: (Coord, Coord) -> Distance, reference: Location, d: Distance)
    requires PairwiseComparable(Annotate(locations, haversine, reference))
    ensures LocationsAt(Rank(locations, haversine, reference), haversine, reference, d)
         == LocationsAt(locations, haversine, reference, d)
  {
    var ranked := Annotate(locations, haversine, reference);
    PairwiseIsComparable(ranked);
    SortStable(ranked, d);
    SortedHonest(ranked, haversine, reference);
    ProjectAtDistance(ranked, haversine, reference, d);
    ProjectAtDistance(SortByDistance(ranked), haversine, reference, d);
  }

  /**
   * When the distance of a location from itself is zero and no distance is negative, the
   * ranking starts with a location at distance zero whenever the reference is among the
   * locations; the reference itself comes first only if no location at distance zero precedes it.
   */
  lemma RankStartsAtZero(locations: seq<Location>, haversine: (Coord, Coord) -> Distance, reference: Location)
    requires PairwiseComparable(Annotate(locations, haversine, reference))
    requires reference in locations
    requires DistanceFrom(haversine, reference, reference) == Km(0.0)
    requires forall i | 0 <= i < |locations| ::
      DistanceFrom(haversine, reference, locations[i]).Km? && DistanceFrom(haversine, reference, locations[i]).km >= 0.0
    ensures |Rank(locations, haversine, reference)| > 0
    ensures DistanceFrom(haversine, reference, Rank(locations, haversine, reference)[0]) == Km(0.0)
  {
    var r := Rank(locations, haversine, reference);
    assert reference in r;
    var k :| 0 <= k < |r| && r[k] == reference;
    assert r[0] in multiset(locations);
    var j :| 0 <= j < |locations| && locations[j] == r[0];
    if k > 0 {
      assert NotAfter(DistanceFrom(haversine, reference, r[0]), DistanceFrom(haversine, reference, r[k]));
    }
  }
}
