/**
 * Ranges of hash values on the ring 0..max. A range runs clockwise from its start to its end,
 * both inclusive, and wraps around past max back to 0 when its start is greater than its end.
 */
module RingRanges {
  import opened Wrappers

  datatype RingRange = RingRange(start: int, end: int)

  /**
   * The illegal-argument exceptions of a range: `contains` given a value above the ring's
   * maximum, and `computeDifference` given a range over a different hashing algorithm.
   */
  datatype RangeError = ValueExceedsMax | DifferentAlgorithms

  /** Both bounds are positions on the ring 0..max. */
  predicate ValidRange(r: RingRange, max: nat) {
    0 <= r.start <= max && 0 <= r.end <= max
  }

  /** `wrapsAround`. */
  predicate WrapsAround(r: RingRange) {
    r.start > r.end
  }

  /** Membership without the maximum check: the interval, or its two pieces when wrapping. */
  predicate InRange(r: RingRange, v: int) {
    if WrapsAround(r) then r.start <= v || v <= r.end else r.start <= v <= r.end
  }

  /** `getNumberOfElements`. */
  function NumberOfElements(r: RingRange, max: nat): (n: int)
    ensures ValidRange(r, max) ==> 1 <= n <= max + 1
    ensures !WrapsAround(r) ==> n == r.end - r.start + 1
    ensures WrapsAround(r) ==> n == (max - r.start + 1) + (r.end + 1)
  {
    if WrapsAround(r) then max - r.start + 1 + r.end + 1 else r.end - r.start + 1
  }

  /** `contains`: values above max are rejected; any other value is checked against the range. */
  function Contains(r: RingRange, max: nat, v: int): (res: Result<bool, RangeError>)
    ensures res.Err? <==> v > max
    ensures res.Ok? ==> (res.value <==> InRange(r, v))
    ensures res.Ok? && !WrapsAround(r) ==> (res.value <==> r.start <= v <= r.end)
    ensures res.Ok? && WrapsAround(r) ==> (res.value <==> (r.start <= v <= max || v <= r.end))
  {
    if v > max then Err(ValueExceedsMax) else Ok(InRange(r, v))
  }

  /** The positions of the ring that a range covers. */
  ghost function Members(r: RingRange, max: nat): set<int> {
    set v | 0 <= v <= max && InRange(r, v)
  }

  predicate Between(a: int, v: int, b: int) {
    a <= v <= b
  }

  ghost function Interval(a: int, b: int): set<int> {
    set v | a <= v <= b && Between(a, v, b)
  }

  lemma {:induction false} IntervalSize(a: int, b: int)
    requires a <= b + 1
    ensures |Interval(a, b)| == b - a + 1
    decreases b - a + 1
  {
    if a <= b {
      IntervalSize(a, b - 1);
      var lower := Interval(a, b - 1);
      forall v ensures v in Interval(a, b) <==> v in lower + {b} {
        assert v in Interval(a, b) <==> Between(a, v, b);
        assert v in lower <==> Between(a, v, b - 1);
      }
      assert Interval(a, b) == lower + {b};
      assert b !in lower;
    } else {
      assert Interval(a, b) == {};
    }
  }

  /** The element count of a valid range is the number of ring positions it covers. */
  lemma NumberOfElementsCountsMembers(r: RingRange, max: nat)
    requires ValidRange(r, max)
    ensures NumberOfElements(r, max) == |Members(r, max)|
  {
    if WrapsAround(r) {
      assert Members(r, max) == Interval(r.start, max) + Interval(0, r.end);
      assert Interval(r.start, max) * Interval(0, r.end) == {};
      IntervalSize(r.start, max);
      IntervalSize(0, r.end);
    } else {
      assert Members(r, max) == Interval(r.start, r.end);
      IntervalSize(r.start, r.end);
    }
  }

  /* ---------------- computeDifference, as the source writes it ---------------- */

  /**
   * `computeDifference` as written. `sameAlgorithm` is whether `other` uses a hashing algorithm
   * equal to this range's; a different one is rejected first. Then both ends of `other` are
   * checked for membership in this range (either test throws for a value above max), and the
   * pieces are chosen by which ends are inside. With both ends inside, the choice depends on
   * whether THIS range wraps, whether or not `other` does.
   */
  function ComputeDifference(range: RingRange, other: RingRange, max: nat, sameAlgorithm: bool)
    : (res: Result<seq<RingRange>, RangeError>)
    ensures !sameAlgorithm ==> res == Err(DifferentAlgorithms)
    ensures res.Err? <==> !sameAlgorithm || other.start > max || other.end > max
    ensures res.Ok? ==> |res.value| <= 2
    ensures res.Ok? && InRange(range, other.start) && InRange(range, other.end) && WrapsAround(range) ==>
              res.value == [RingRange(other.end + 1, other.start - 1)]
    ensures res.Ok? && InRange(range, other.start) && InRange(range, other.end) && !WrapsAround(range) ==>
              res.value == [RingRange(range.start, other.start - 1), RingRange(other.end + 1, range.end)]
    ensures res.Ok? && InRange(range, other.start) && !InRange(range, other.end) ==>
              res.value == [RingRange(range.start, other.start - 1)]
    ensures res.Ok? && !InRange(range, other.start) && InRange(range, other.end) ==>
              res.value == [RingRange(other.end + 1, range.end)]
    ensures res.Ok? && !InRange(range, other.start) && !InRange(range, other.end) ==> res.value == []
  {
    if !sameAlgorithm then Err(DifferentAlgorithms)
    else
      var cs :- Contains(range, max, other.start);
      var ce :- Contains(range, max, other.end);
      if cs && ce then
        if WrapsAround(range) then Ok([RingRange(other.end + 1, other.start - 1)])
        else Ok([RingRange(range.start, other.start - 1), RingRange(other.end + 1, range.end)])
      else if cs then Ok([RingRange(range.start, other.start - 1)])
      else if ce then Ok([RingRange(other.end + 1, range.end)])
      else Ok([])
  }

  /** Whether `v` lies in some range of the list. */
  predicate InAnyRange(rs: seq<RingRange>, v: int) {
    exists i :: 0 <= i < |rs| && InRange(rs[i], v)
  }

  /** The cases the source's own tests exercise and on which the code agrees with them. */
  lemma ComputeDifferenceAgreesWithPassingTests()
    ensures ComputeDifference(RingRange(77, 11), RingRange(95, 15), 100, true) == Ok([RingRange(77, 94)])
    ensures ComputeDifference(RingRange(77, 11), RingRange(50, 85), 100, true) == Ok([RingRange(86, 11)])
    ensures ComputeDifference(RingRange(77, 11), RingRange(95, 80), 100, true) == Ok([RingRange(81, 94)])
    ensures ComputeDifference(RingRange(9, 66), RingRange(11, 21), 100, true)
              == Ok([RingRange(9, 10), RingRange(22, 66)])
    ensures ComputeDifference(RingRange(9, 66), RingRange(50, 3), 100, true) == Ok([RingRange(9, 49)])
    ensures ComputeDifference(RingRange(9, 66), RingRange(90, 15), 100, true) == Ok([RingRange(16, 66)])
  {
  }

  /**
   * A range nested inside a wrapping range: 90..3 inside 77..11 on the ring 0..100. The code
   * returns the single range 4..89, which also covers 12..76, e.g. 50, all outside 77..11;
   * the source's test expects 77..89 and 4..11.
   */
  lemma NestedInWrappingRangeCounterexample()
    ensures ComputeDifference(RingRange(77, 11), RingRange(90, 3), 100, true) == Ok([RingRange(4, 89)])
    ensures InRange(RingRange(4, 89), 50) && !InRange(RingRange(77, 11), 50)
  {
  }

  /**
   * The same defect for every input of that shape: whenever a wrapping range inside a wrapping
   * range reaches past both of its ends, the single piece the code returns covers the whole gap
   * between this range's end and start, none of which belongs to this range.
   */
  lemma NestedInWrappingRangeLeaksGap(range: RingRange, other: RingRange, max: nat, v: int)
    requires ValidRange(range, max) && ValidRange(other, max)
    requires other.end <= range.end < v < range.start <= other.start
    ensures ComputeDifference(range, other, max, true) == Ok([RingRange(other.end + 1, other.start - 1)])
    ensures InAnyRange(ComputeDifference(range, other, max, true).value, v) && !InRange(range, v)
  {
    var rs := ComputeDifference(range, other, max, true).value;
    assert InRange(rs[0], v);
  }

  /**
   * A wrapping range covering both ends of a plain range: 9..66 minus 44..21. The code returns
   * 9..43 and 22..66, which cover 10 and 50, both inside 44..21; the source's test expects
   * the single range 22..43.
   */
  lemma OverlapBothEndsCounterexample()
    ensures ComputeDifference(RingRange(9, 66), RingRange(44, 21), 100, true)
              == Ok([RingRange(9, 43), RingRange(22, 66)])
    ensures InRange(RingRange(9, 43), 10) && InRange(RingRange(44, 21), 10)
    ensures InRange(RingRange(22, 66), 50) && InRange(RingRange(44, 21), 50)
  {
  }

  /**
   * A range sharing its start with this one: 9..66 minus 9..20. The first piece the code
   * returns, 9..8, wraps and so denotes every position on the ring.
   */
  lemma SharedStartCounterexample()
    ensures ComputeDifference(RingRange(9, 66), RingRange(9, 20), 100, true)
              == Ok([RingRange(9, 8), RingRange(21, 66)])
    ensures forall v :: 0 <= v <= 100 ==> InRange(RingRange(9, 8), v)
  {
  }

  /**
   * A range disjoint from this one: 9..66 minus 70..80. Neither end is inside, so the code
   * returns no range although nothing of 9..66 was removed.
   */
  lemma DisjointCounterexample()
    ensures ComputeDifference(RingRange(9, 66), RingRange(70, 80), 100, true) == Ok([])
    ensures InRange(RingRange(9, 66), 9) && !InRange(RingRange(70, 80), 9)
  {
  }

  /* ---------------- computeDifference, corrected ---------------- */

  /** The position after `v` on the ring 0..max. */
  function Next(v: int, max: nat): int {
    if v >= max then 0 else v + 1
  }

  /** The position before `v` on the ring 0..max. */
  function Prev(v: int, max: nat): int {
    if v <= 0 then max else v - 1
  }

  /** How many steps clockwise `to` lies from `from` on the ring 0..max. */
  function ClockwiseDistance(from: int, to: int, max: nat): int {
    if to >= from then to - from else to - from + max + 1
  }

  /** How far clockwise `v` lies from the start of `r`. */
  function Offset(r: RingRange, v: int, max: nat): int {
    ClockwiseDistance(r.start, v, max)
  }

  /**
   * The set difference of two valid ranges as at most two ranges, none of them empty.
   * With both ends of `other` inside this range, `other` is either nested in it (its start
   * comes first going clockwise from this start), leaving a piece on each side, or it wraps
   * around over both ends of this range, leaving the gap between its end and its start.
   * With neither end inside, `other` either covers this whole range or misses it entirely.
   */
  function Difference(range: RingRange, other: RingRange, max: nat): (rs: seq<RingRange>)
    requires ValidRange(range, max) && ValidRange(other, max)
    ensures |rs| <= 2
    ensures forall i :: 0 <= i < |rs| ==> ValidRange(rs[i], max)
  {
    var a, b, s, e := range.start, range.end, other.start, other.end;
    var cs, ce := InRange(range, s), InRange(range, e);
    if cs && ce then
      if Offset(range, s, max) <= Offset(range, e, max) then
        (if s != a then [RingRange(a, Prev(s, max))] else [])
        + (if e != b then [RingRange(Next(e, max), b)] else [])
      else if Offset(range, s, max) == Offset(range, e, max) + 1 then []
      else [RingRange(Next(e, max), Prev(s, max))]
    else if cs then (if s != a then [RingRange(a, Prev(s, max))] else [])
    else if ce then (if e != b then [RingRange(Next(e, max), b)] else [])
    else if InRange(other, a) then []
    else [range]
  }

  /** A position is in some range of the corrected difference exactly when it is in this
    * range and not in the other. */
  lemma DifferenceMembership(range: RingRange, other: RingRange, max: nat, v: int)
    requires ValidRange(range, max) && ValidRange(other, max)
    requires 0 <= v <= max
    ensures InAnyRange(Difference(range, other, max), v) <==> InRange(range, v) && !InRange(other, v)
  {
    var rs := Difference(range, other, max);
    if InRange(range, v) && !InRange(other, v) {
      var i := DifferenceCovers(range, other, max, v);
    } else if InAnyRange(rs, v) {
      var i :| 0 <= i < |rs| && InRange(rs[i], v);
      DifferenceSound(range, other, max, v, i);
    }
  }

  lemma DifferenceSound(range: RingRange, other: RingRange, max: nat, v: int, i: int)
    requires ValidRange(range, max) && ValidRange(other, max)
    requires 0 <= v <= max
    requires 0 <= i < |Difference(range, other, max)| && InRange(Difference(range, other, max)[i], v)
    ensures InRange(range, v) && !InRange(other, v)
  {
  }

  lemma DifferenceCovers(range: RingRange, other: RingRange, max: nat, v: int) returns (i: int)
    requires ValidRange(range, max) && ValidRange(other, max)
    requires 0 <= v <= max
    requires InRange(range, v) && !InRange(other, v)
    ensures 0 <= i < |Difference(range, other, max)| && InRange(Difference(range, other, max)[i], v)
  {
    var rs := Difference(range, other, max);
    var a, b, s, e := range.start, range.end, other.start, other.end;
    if InRange(range, s) && InRange(range, e) && Offset(range, s, max) <= Offset(range, e, max) {
      i := if Offset(range, v, max) < Offset(range, s, max) then 0 else |rs| - 1;
    } else {
      i := 0;
    }
  }

  /** The corrected difference reproduces every expectation of the source's tests. */
  lemma DifferenceMatchesTests()
    ensures Difference(RingRange(77, 11), RingRange(90, 3), 100) == [RingRange(77, 89), RingRange(4, 11)]
    ensures Difference(RingRange(77, 11), RingRange(95, 15), 100) == [RingRange(77, 94)]
    ensures Difference(RingRange(77, 11), RingRange(50, 85), 100) == [RingRange(86, 11)]
    ensures Difference(RingRange(77, 11), RingRange(95, 80), 100) == [RingRange(81, 94)]
    ensures Difference(RingRange(9, 66), RingRange(11, 21), 100) == [RingRange(9, 10), RingRange(22, 66)]
    ensures Difference(RingRange(9, 66), RingRange(50, 3), 100) == [RingRange(9, 49)]
    ensures Difference(RingRange(9, 66), RingRange(90, 15), 100) == [RingRange(16, 66)]
    ensures Difference(RingRange(9, 66), RingRange(44, 21), 100) == [RingRange(22, 43)]
  {
  }
}
