/** Finding the instant that shows a wall clock in a time zone. Times and offsets are nanoseconds. */
module ZoneInverse {
  import opened Bytes

  // ---- time zones ----

  /** From `at` on, local time is ahead of UTC by `offset`. */
  datatype Change = Change(at: int, offset: int)

  /** A zone: its first offset and its changes in order. */
  datatype Zone = Zone(first: int, changes: seq<Change>)

  predicate Ordered(z: Zone) {
    forall i, j :: 0 <= i < j < |z.changes| ==> z.changes[i].at < z.changes[j].at
  }

  /** The number of changes up to an instant: which period of the zone it lies in. */
  function Period(z: Zone, t: int): (k: nat)
    ensures k <= |z.changes|
    ensures k > 0 ==> z.changes[k - 1].at <= t
    ensures forall i :: k <= i < |z.changes| ==> t < z.changes[i].at
  {
    PeriodUpTo(z, t, |z.changes|)
  }

  function PeriodUpTo(z: Zone, t: int, n: nat): (k: nat)
    requires n <= |z.changes|
    ensures k <= n && (k > 0 ==> z.changes[k - 1].at <= t)
    ensures forall i :: k <= i < n ==> t < z.changes[i].at
  {
    if n == 0 || z.changes[n - 1].at <= t then n else PeriodUpTo(z, t, n - 1)
  }

  function PeriodOffset(z: Zone, k: nat): int
    requires k <= |z.changes|
  {
    if k == 0 then z.first else z.changes[k - 1].offset
  }

  function OffsetAt(z: Zone, t: int): int {
    PeriodOffset(z, Period(z, t))
  }

  /** What the clock shows at an instant. */
  function Wall(z: Zone, t: int): int {
    t + OffsetAt(z, t)
  }

  /** Bounded periods are longer than any difference of offsets. */
  predicate WellSpaced(z: Zone) {
    && Ordered(z)
    && forall i, a, b :: 0 <= i < |z.changes| - 1 && 0 <= a <= |z.changes| && 0 <= b <= |z.changes| ==>
         LongerThan(z, i, a, b)
  }

  predicate LongerThan(z: Zone, i: nat, a: nat, b: nat)
    requires i + 1 < |z.changes| && a <= |z.changes| && b <= |z.changes|
  {
    z.changes[i + 1].at - z.changes[i].at > PeriodOffset(z, a) - PeriodOffset(z, b)
  }

  /** A zone with one offset. */
  function FixedZone(offset: int): (z: Zone)
    ensures WellSpaced(z) && forall t :: OffsetAt(z, t) == offset
  {
    Zone(offset, [])
  }

  // ---- the search ----

  /** The candidate, and the instants on either side of the boundaries of its period. */
  function Points(z: Zone, candidate: int): (s: seq<int>)
    ensures candidate in s
  {
    var k := Period(z, candidate);
    [candidate]
    + (if k > 0 then [z.changes[k - 1].at - 1, z.changes[k - 1].at] else [])
    + (if k < |z.changes| then [z.changes[k].at - 1, z.changes[k].at] else [])
  }

  function OffsetsAt(z: Zone, points: seq<int>): (s: set<int>) {
    set p | p in points :: OffsetAt(z, p)
  }

  /** Subtracting the offset from the wall clock gives an instant that shows it. */
  predicate Fits(z: Zone, wall: int, offset: int) {
    Wall(z, wall - offset) == wall
  }

  /** The candidate shows the wall clock, and no nearby offset gives another instant that does. */
  predicate Resolves(z: Zone, wall: int, candidate: int) {
    && Wall(z, candidate) == wall
    && forall o :: o in OffsetsAt(z, Points(z, candidate)) && Fits(z, wall, o) ==> wall - o == candidate
  }

  /**
   oracleTimeInLocation: the candidate is what the date constructor chose. Offsets are collected in a set, every one is
   tried in some order, and anything but exactly one match is an error.
   */
  method InLocation(z: Zone, wall: int, candidate: int) returns (r: Option<int>)
    ensures r == if Resolves(z, wall, candidate) then Some(candidate) else None
  {
    hide OffsetAt;
    if Wall(z, candidate) != wall {
      return None;
    }
    var points := [candidate];
    var k := Period(z, candidate);
    if k > 0 {
      points := points + [z.changes[k - 1].at - 1, z.changes[k - 1].at];
    }
    if k < |z.changes| {
      points := points + [z.changes[k].at - 1, z.changes[k].at];
    }
    assert points == Points(z, candidate);
    var offsets := Collect(z, points);
    var matches := Matches(z, wall, offsets);
    Decided(z, wall, candidate, matches);
    if |matches| == 1 {
      return Some(matches[0]);
    }
    return None;
  }

  method Collect(z: Zone, points: seq<int>) returns (offsets: set<int>)
    ensures offsets == OffsetsAt(z, points)
  {
    hide OffsetAt;
    offsets := {};
    for i := 0 to |points|
      invariant offsets == OffsetsAt(z, points[..i])
    {
      assert points[..i + 1] == points[..i] + [points[i]];
      offsets := offsets + {OffsetAt(z, points[i])};
    }
    assert points[..] == points;
  }

  /** The matches are the instants that fit, each once. */
  ghost predicate AllMatches(z: Zone, wall: int, offsets: set<int>, matches: seq<int>) {
    && (forall o :: o in offsets && Fits(z, wall, o) ==> wall - o in matches)
    && (forall m :: m in matches ==> wall - m in offsets && Fits(z, wall, wall - m))
    && (forall i, j :: 0 <= i < j < |matches| ==> matches[i] != matches[j])
  }

  method Matches(z: Zone, wall: int, offsets: set<int>) returns (matches: seq<int>)
    ensures AllMatches(z, wall, offsets, matches)
  {
    hide Wall;
    matches := [];
    var left := offsets;
    while left != {}
      invariant left <= offsets
      invariant AllMatches(z, wall, offsets - left, matches)
      decreases left
    {
      var offset := Pick(left);
      left := left - {offset};
      var instant := wall - offset;
      if Wall(z, instant) == wall {
        matches := AddOnce(matches, instant);
      }
    }
    assert offsets - left == offsets;
  }

  /** Map iteration visits the keys in no particular order. */
  method Pick<T>(keys: set<T>) returns (key: T)
    requires keys != {}
    ensures key in keys
  {
    key :| key in keys;
  }

  method AddOnce(matches: seq<int>, instant: int) returns (r: seq<int>)
    ensures r == if instant in matches then matches else matches + [instant]
  {
    for i := 0 to |matches|
      invariant instant !in matches[..i]
    {
      if matches[i] == instant {
        return matches;
      }
    }
    assert matches[..|matches|] == matches;
    return matches + [instant];
  }

  lemma {:induction false} Decided(z: Zone, wall: int, candidate: int, matches: seq<int>)
    requires Wall(z, candidate) == wall
    requires AllMatches(z, wall, OffsetsAt(z, Points(z, candidate)), matches)
    ensures candidate in matches
    ensures |matches| == 1 <==> Resolves(z, wall, candidate)
  {
    hide Points, OffsetsAt, OffsetAt;
    var offsets := OffsetsAt(z, Points(z, candidate));
    assert OffsetAt(z, candidate) in offsets && Fits(z, wall, OffsetAt(z, candidate)) by {
      CandidateFits(z, wall, candidate);
    }
    assert candidate in matches;
    if |matches| == 1 {
      assert matches == [candidate];
    } else {
      var other := if matches[0] == candidate then matches[1] else matches[0];
      assert other in matches && other != candidate;
      assert wall - other in offsets && wall - (wall - other) == other;
    }
  }

  lemma {:induction false} CandidateFits(z: Zone, wall: int, candidate: int)
    requires Wall(z, candidate) == wall
    ensures OffsetAt(z, candidate) in OffsetsAt(z, Points(z, candidate))
    ensures Fits(z, wall, OffsetAt(z, candidate)) && wall - OffsetAt(z, candidate) == candidate
  {
    hide Points, OffsetAt;
    assert wall - OffsetAt(z, candidate) == candidate;
  }

  // ---- what the search finds ----

  lemma {:induction false} LongPeriod(z: Zone, a: nat, b: nat)
    requires WellSpaced(z) && a + 1 < b <= |z.changes|
    ensures z.changes[b - 1].at - z.changes[a].at > PeriodOffset(z, a) - PeriodOffset(z, b)
  {
    hide PeriodOffset;
    assert LongerThan(z, a, a, b);
    assert a + 1 < b - 1 ==> z.changes[a + 1].at < z.changes[b - 1].at;
  }

  lemma {:induction false} PeriodsApart(z: Zone, s: int, t: int)
    requires WellSpaced(z) && Wall(z, s) == Wall(z, t) && Period(z, s) < Period(z, t)
    ensures Period(z, t) == Period(z, s) + 1
  {
    hide Period, WellSpaced;
    var a, b := Period(z, s), Period(z, t);
    assert s < z.changes[a].at && z.changes[b - 1].at <= t;
    assert t - s == PeriodOffset(z, a) - PeriodOffset(z, b);
    if a + 1 < b {
      LongPeriod(z, a, b);
    }
  }

  /** The bounds of a period identify it. */
  lemma {:induction false} InPeriod(z: Zone, t: int, k: nat, n: nat)
    requires Ordered(z) && k <= n <= |z.changes|
    requires (k > 0 ==> z.changes[k - 1].at <= t) && (k < |z.changes| ==> t < z.changes[k].at)
    ensures PeriodUpTo(z, t, n) == k
  {
    if k < n {
      assert k < n - 1 ==> z.changes[k].at < z.changes[n - 1].at;
      InPeriod(z, t, k, n - 1);
    }
  }

  /** The instants around a change have the offsets before and after it. */
  lemma {:induction false} AroundChange(z: Zone, k: nat)
    requires Ordered(z) && k < |z.changes|
    ensures OffsetAt(z, z.changes[k].at) == PeriodOffset(z, k + 1)
    ensures OffsetAt(z, z.changes[k].at - 1) == PeriodOffset(z, k)
  {
    InPeriod(z, z.changes[k].at, k + 1, |z.changes|);
    InPeriod(z, z.changes[k].at - 1, k, |z.changes|);
  }

  /** Any instant with the candidate's wall clock lies in the candidate's period or a neighbouring one. */
  lemma {:induction false} NearbyFinds(z: Zone, t: int, candidate: int)
    requires WellSpaced(z) && Wall(z, t) == Wall(z, candidate)
    ensures OffsetAt(z, t) in OffsetsAt(z, Points(z, candidate))
  {
    hide Period, LongerThan;
    var k, p := Period(z, candidate), Period(z, t);
    if p < k {
      PeriodsApart(z, t, candidate);
      AroundChange(z, k - 1);
      assert z.changes[k - 1].at - 1 in Points(z, candidate);
    } else if k < p {
      PeriodsApart(z, candidate, t);
      AroundChange(z, k);
      assert z.changes[k].at in Points(z, candidate);
    }
  }

  /** The search succeeds exactly when the candidate is the only instant with the wall clock. */
  lemma {:induction false} ResolvesUnique(z: Zone, wall: int, candidate: int)
    requires WellSpaced(z)
    ensures Resolves(z, wall, candidate) <==> forall t :: Wall(z, t) == wall <==> t == candidate
  {
    hide WellSpaced, OffsetsAt, Points, Period, PeriodOffset;
    if Resolves(z, wall, candidate) {
      forall t | Wall(z, t) == wall
        ensures t == candidate
      {
        NearbyFinds(z, t, candidate);
        assert wall - OffsetAt(z, t) == t;
      }
    }
    if forall t :: Wall(z, t) == wall <==> t == candidate {
      assert Wall(z, candidate) == wall;
    }
  }

  /** A wall clock that is shown twice is an error whichever instant the constructor chose. */
  lemma {:induction false} RepeatedRejected(z: Zone, wall: int, s: int, t: int, candidate: int)
    requires WellSpaced(z) && s != t && Wall(z, s) == wall && Wall(z, t) == wall
    ensures !Resolves(z, wall, candidate)
  {
    hide WellSpaced, Wall, Resolves;
    ResolvesUnique(z, wall, candidate);
  }
}
