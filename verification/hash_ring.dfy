/**
 * The consistent-hash ring in which each server is responsible for the keys from its
 * predecessor's position (exclusive) up to its own position (inclusive), wrapping past max.
 */
module HashRings {
  import opened Wrappers
  import opened SortedMaps
  import opened RingRanges
  import opened NetworkLocations
  import opened Hashing

  /** The server positions: hash of each server's location, in increasing order. */
  datatype HashRing = HashRing(positions: seq<Entry<NetworkLocation>>)

  /** Positions are sorted and lie on the ring 0..max. */
  predicate ValidRing(ring: HashRing, max: nat) {
    Sorted(ring.positions)
    && forall i :: 0 <= i < |ring.positions| ==> 0 <= ring.positions[i].key <= max
  }

  /** The position responsible for hash `h`: the first one at or after `h`, else the first overall. */
  function ResponsibleEntry(ring: HashRing, h: int): (r: Option<Entry<NetworkLocation>>)
    requires Sorted(ring.positions)
    ensures r.None? <==> |ring.positions| == 0
    ensures r.Some? ==> exists i :: 0 <= i < |ring.positions| && ring.positions[i] == r.value
  {
    match Ceiling(ring.positions, h)
    case Some(e) => Some(e)
    case None => First(ring.positions)
  }

  /** `getResponsibleNetworkLocation`: the location at the responsible position, if any. */
  function ResponsibleLocation(alg: HashingAlgorithm, ring: HashRing, key: string): (r: Option<NetworkLocation>)
    requires ValidAlgorithm(alg) && Sorted(ring.positions)
    ensures r.None? <==> |ring.positions| == 0
  {
    match ResponsibleEntry(ring, Hash(alg, key))
    case Some(e) => Some(e.value)
    case None => None
  }

  /**
   * `addNetworkLocation`: the location is stored at its hash, replacing whatever was there.
   * `collided` reports that a location already sat at that hash, the case in which the source
   * throws IllegalStateException after the replacement has been made.
   */
  function AddLocation(alg: HashingAlgorithm, ring: HashRing, loc: NetworkLocation): (res: (HashRing, bool))
    requires ValidAlgorithm(alg) && Sorted(ring.positions)
    ensures Sorted(res.0.positions)
    ensures res.1 <==> HashLocation(alg, loc) in KeySet(ring.positions)
    ensures forall k :: Get(res.0.positions, k)
                        == if k == HashLocation(alg, loc) then Some(loc) else Get(ring.positions, k)
  {
    var h := HashLocation(alg, loc);
    var collided := Get(ring.positions, h).Some?;
    var positions := Put(ring.positions, h, loc);
    assert forall k :: Get(positions, k) == if k == h then Some(loc) else Get(ring.positions, k) by {
      forall k {
        GetAfterPut(ring.positions, h, loc, k);
      }
    }
    (HashRing(positions), collided)
  }

  /** `removeNetworkLocation`: the entry at the location's hash disappears, nothing else changes. */
  function RemoveLocation(alg: HashingAlgorithm, ring: HashRing, loc: NetworkLocation): (res: HashRing)
    requires ValidAlgorithm(alg) && Sorted(ring.positions)
    ensures Sorted(res.positions)
    ensures KeySet(res.positions) == KeySet(ring.positions) - {HashLocation(alg, loc)}
    ensures forall k :: Get(res.positions, k)
                        == if k == HashLocation(alg, loc) then None else Get(ring.positions, k)
  {
    var h := HashLocation(alg, loc);
    var positions := Remove(ring.positions, h);
    assert forall k :: Get(positions, k) == if k == h then None else Get(ring.positions, k) by {
      forall k {
        GetAfterRemove(ring.positions, h, k);
      }
    }
    HashRing(positions)
  }

  /** A position of a sorted map is found again by its key. */
  lemma {:induction false} GetOfEntry<V>(t: seq<Entry<V>>, i: int)
    requires Sorted(t) && 0 <= i < |t|
    ensures Get(t, t[i].key) == Some(t[i].value)
    decreases i
  {
    if i > 0 {
      GetOfEntry(t[1..], i - 1);
      assert t[1..][i - 1] == t[i];
    }
  }

  /**
   * The responsible position is the nearest one clockwise from the hash (at distance 0 when a
   * server sits exactly at the hash), and it carries the location stored there.
   */
  lemma ResponsibleIsNearestClockwise(ring: HashRing, max: nat, h: int)
    requires ValidRing(ring, max) && 0 <= h <= max
    requires |ring.positions| > 0
    ensures var e := ResponsibleEntry(ring, h).value;
            e.key in KeySet(ring.positions)
            && Get(ring.positions, e.key) == Some(e.value)
            && forall k :: k in KeySet(ring.positions) ==>
                 ClockwiseDistance(h, e.key, max) <= ClockwiseDistance(h, k, max)
  {
    var t := ring.positions;
    var e := ResponsibleEntry(ring, h).value;
    var i :| 0 <= i < |t| && t[i] == e;
    GetOfEntry(t, i);
    forall k | k in KeySet(t) ensures ClockwiseDistance(h, e.key, max) <= ClockwiseDistance(h, k, max) {
      var j :| 0 <= j < |t| && t[j].key == k;
      if Ceiling(t, h).None? {
        assert t[0].key <= t[j].key;
      }
    }
  }

  /** A key whose hash is exactly a server's position belongs to that server. */
  lemma HashAtPositionIsOwnedByIt(alg: HashingAlgorithm, ring: HashRing, key: string)
    requires ValidAlgorithm(alg) && Sorted(ring.positions)
    requires Hash(alg, key) in KeySet(ring.positions)
    ensures ResponsibleLocation(alg, ring, key) == Get(ring.positions, Hash(alg, key))
  {
    var t := ring.positions;
    var h := Hash(alg, key);
    var i :| 0 <= i < |t| && t[i].key == h;
    GetOfEntry(t, i);
    assert Ceiling(t, h).Some? by { assert t[i].key >= h; }
    var e := Ceiling(t, h).value;
    assert e.key == h;
    var j :| 0 <= j < |t| && t[j] == e;
    assert j == i;
    assert ResponsibleEntry(ring, h) == Some(t[i]);
  }

  /** Two positions at the same clockwise distance from a hash are the same position. */
  lemma ClockwiseDistanceInjective(h: int, a: int, b: int, max: nat)
    requires 0 <= h <= max && 0 <= a <= max && 0 <= b <= max
    requires ClockwiseDistance(h, a, max) == ClockwiseDistance(h, b, max)
    ensures a == b
  {
  }

  /**
   * Removing a server leaves every hash that another server was responsible for with that
   * same server; only the removed server's keys move, to the next position clockwise.
   */
  lemma RemoveKeepsOtherResponsibilities(alg: HashingAlgorithm, ring: HashRing, loc: NetworkLocation, h: int)
    requires ValidAlgorithm(alg) && ValidRing(ring, alg.max) && 0 <= h <= alg.max
    requires |ring.positions| > 0
    requires ResponsibleEntry(ring, h).value.key != HashLocation(alg, loc)
    ensures ResponsibleEntry(RemoveLocation(alg, ring, loc), h) == ResponsibleEntry(ring, h)
  {
    var max := alg.max;
    var ring' := RemoveLocation(alg, ring, loc);
    var e := ResponsibleEntry(ring, h).value;
    ResponsibleIsNearestClockwise(ring, max, h);
    assert e.key in KeySet(ring'.positions);
    assert ValidRing(ring', max) by {
      forall i | 0 <= i < |ring'.positions| ensures 0 <= ring'.positions[i].key <= max {
        assert ring'.positions[i].key in KeySet(ring'.positions);
        var j :| 0 <= j < |ring.positions| && ring.positions[j].key == ring'.positions[i].key;
      }
    }
    ResponsibleIsNearestClockwise(ring', max, h);
    var e' := ResponsibleEntry(ring', h).value;
    assert ClockwiseDistance(h, e'.key, max) == ClockwiseDistance(h, e.key, max) by {
      assert e'.key in KeySet(ring.positions);
    }
    var j :| 0 <= j < |ring.positions| && ring.positions[j].key == e.key;
    var j' :| 0 <= j' < |ring.positions| && ring.positions[j'].key == e'.key;
    ClockwiseDistanceInjective(h, e.key, e'.key, max);
  }
}
