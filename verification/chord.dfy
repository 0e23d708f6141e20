/**
 * The local, deterministic parts of the Chord overlay: the circular interval test, the finger
 * table's keys and update cursor, the closest preceding finger, predecessor notification and
 * the replication switch.
 */
module ChordRing {
  import opened Wrappers
  import opened SortedMaps
  import opened RingRanges
  import opened NetworkLocations
  import opened Hashing

  /* ---------------- the circular interval test ---------------- */

  /**
   * `betweenTwoKeys`: whether `key` lies between the two bounds going clockwise, each bound
   * included or excluded as its flag says. Equal bounds stand for the whole ring.
   */
  function Between(lower: int, upper: int, key: int, closedLeft: bool, closedRight: bool): bool {
    if (closedLeft && key == lower) || (closedRight && key == upper) then true
    else if (!closedLeft && key == lower) || (!closedRight && key == upper) then false
    else if upper == lower then true
    else if lower < upper then lower < key && key < upper
    else !(upper < key && key < lower)
  }

  /**
   * The same test stated on the ring 0..max through clockwise distances: an included bound
   * equal to the key answers yes; otherwise the key must differ from both bounds and lie
   * strictly closer to the lower bound than the upper bound does, or the bounds coincide.
   */
  lemma BetweenIsClockwiseInterval(lower: int, upper: int, key: int, closedLeft: bool, closedRight: bool, max: nat)
    requires 0 <= lower <= max && 0 <= upper <= max && 0 <= key <= max
    ensures Between(lower, upper, key, closedLeft, closedRight) <==>
              (closedLeft && key == lower) || (closedRight && key == upper)
              || (key != lower && key != upper
                  && (lower == upper || ClockwiseDistance(lower, key, max) < ClockwiseDistance(lower, upper, max)))
  {
  }

  /** An excluded bound never lies between; with both bounds excluded, neither bound does. */
  lemma OpenBoundsExcluded(lower: int, upper: int)
    ensures !Between(lower, upper, lower, false, false)
    ensures !Between(lower, upper, upper, false, false)
    ensures forall key :: key != lower && key != upper ==>
              (Between(lower, upper, key, false, false) <==> Between(lower, upper, key, true, true))
  {
  }

  /* ---------------- the finger table ---------------- */

  function Pow2(i: nat): (p: nat)
    ensures p >= 1
  {
    if i == 0 then 1 else 2 * Pow2(i - 1)
  }

  /**
   * The finger keys as the source computes them: own hash plus 2^i, reduced modulo max,
   * for i below the table size.
   */
  function FingerKeysAsWritten(ownHash: int, max: nat, tableSize: nat): (keys: seq<int>)
    requires max > 0
    ensures |keys| == tableSize
    ensures forall i :: 0 <= i < tableSize ==> keys[i] == (ownHash + Pow2(i)) % max
  {
    seq(tableSize, i requires 0 <= i => (ownHash + Pow2(i)) % max)
  }

  /**
   * With an 8-bit hash (max 255) and own hash 254, the first finger should sit one step
   * clockwise, at 255, but the source reduces 255 modulo 255 and places it at 0, two steps
   * away; no finger can ever be placed at max itself.
   */
  lemma FingerKeysAsWrittenCounterexample()
    ensures FingerKeysAsWritten(254, 255, 8)[0] == 0
    ensures ClockwiseDistance(254, FingerKeysAsWritten(254, 255, 8)[0], 255) == 2
    ensures forall ownHash, i :: 0 <= i < 8 ==> FingerKeysAsWritten(ownHash, 255, 8)[i] != 255
  {
  }

  /** The finger keys on the ring of max + 1 positions: own hash plus 2^i, wrapped past max. */
  function FingerKeys(ownHash: int, max: nat, tableSize: nat): (keys: seq<int>)
    ensures |keys| == tableSize
    ensures forall i :: 0 <= i < tableSize ==> 0 <= keys[i] <= max
  {
    seq(tableSize, i requires 0 <= i => (ownHash + Pow2(i)) % (max + 1))
  }

  /** Finger i lies exactly 2^i steps clockwise from the node's own position. */
  lemma FingerKeyDistance(ownHash: int, max: nat, tableSize: nat, i: nat)
    requires 0 <= ownHash <= max && i < tableSize && Pow2(i) <= max
    ensures ClockwiseDistance(ownHash, FingerKeys(ownHash, max, tableSize)[i], max) == Pow2(i)
  {
    var x := ownHash + Pow2(i);
    var k := FingerKeys(ownHash, max, tableSize)[i];
    assert k == x % (max + 1);
    if x > max {
      ModOfNextLap(x, max + 1);
    } else {
      ModBelow(x, max + 1);
    }
  }

  lemma ModBelow(x: int, n: int)
    requires 0 <= x < n
    ensures x % n == x
  {
  }

  lemma ModOfNextLap(x: int, n: int)
    requires 0 < n <= x < 2 * n
    ensures x % n == x - n
  {
    assert x / n == 1;
  }

  /** Puts `loc` under every key of `keys`, in order. */
  function PutAll(t: seq<Entry<NetworkLocation>>, keys: seq<int>, loc: NetworkLocation): (r: seq<Entry<NetworkLocation>>)
    requires Sorted(t)
    ensures Sorted(r)
    decreases |keys|
  {
    if |keys| == 0 then t else PutAll(Put(t, keys[0], loc), keys[1..], loc)
  }

  /** After putting a location under a list of keys, exactly those keys map to it. */
  lemma {:induction false} GetAfterPutAll(t: seq<Entry<NetworkLocation>>, keys: seq<int>, loc: NetworkLocation, k: int)
    requires Sorted(t)
    ensures Get(PutAll(t, keys, loc), k) == if k in keys then Some(loc) else Get(t, k)
    decreases |keys|
  {
    if |keys| > 0 {
      var t' := Put(t, keys[0], loc);
      assert PutAll(t, keys, loc) == PutAll(t', keys[1..], loc);
      GetAfterPutAll(t', keys[1..], loc, k);
      GetAfterPut(t, keys[0], loc, k);
      MemberOfHeadOrTail(keys, k);
    }
  }

  /** A value is in a non-empty sequence exactly when it is the head or in the tail. */
  lemma MemberOfHeadOrTail(keys: seq<int>, k: int)
    requires |keys| > 0
    ensures k in keys <==> k == keys[0] || k in keys[1..]
  {
    assert keys == [keys[0]] + keys[1..];
  }

  /** The finger state of a node: the generated keys, the table, and the repair cursor. */
  datatype Fingers = Fingers(keys: seq<int>, table: seq<Entry<NetworkLocation>>, updateIndex: nat)

  /**
   * `initFingerTable`: every finger key, and the node's own position, initially point at the
   * node itself, and the repair cursor starts at the first finger.
   */
  function InitFingers(alg: HashingAlgorithm, own: NetworkLocation): (f: Fingers)
    requires ValidAlgorithm(alg)
    ensures f.keys == FingerKeys(HashLocation(alg, own), alg.max, alg.sizeBits)
    ensures Sorted(f.table) && f.updateIndex == 0
    ensures forall k :: Get(f.table, k)
                        == if k in f.keys || k == HashLocation(alg, own) then Some(own) else None
  {
    var ownHash := HashLocation(alg, own);
    var keys := FingerKeys(ownHash, alg.max, alg.sizeBits);
    var t := PutAll([], keys, own);
    var t' := Put(t, ownHash, own);
    assert forall k :: Get(t', k) == if k in keys || k == ownHash then Some(own) else None by {
      forall k ensures Get(t', k) == if k in keys || k == ownHash then Some(own) else None {
        GetAfterPut(t, ownHash, own, k);
        GetAfterPutAll([], keys, own, k);
      }
    }
    Fingers(keys, t', 0)
  }

  /**
   * `advanceUpdateIteratorIterator`: the cursor wraps to 0 once it has passed the last key;
   * the finger at the cursor is returned with its current table entry and the cursor advances,
   * so a cursor at i moves to i + 1, and one at the key count restarts and moves to 1.
   */
  function AdvanceUpdateCursor(f: Fingers): (res: (int, Option<NetworkLocation>, Fingers))
    requires 0 < |f.keys| && f.updateIndex <= |f.keys|
    ensures var (key, value, f') := res;
            f'.keys == f.keys && f'.table == f.table
            && 1 <= f'.updateIndex <= |f.keys|
            && key == f.keys[f'.updateIndex - 1]
            && value == Get(f.table, key)
    ensures f.updateIndex < |f.keys| ==> res.2.updateIndex == f.updateIndex + 1 && res.0 == f.keys[f.updateIndex]
    ensures f.updateIndex == |f.keys| ==> res.2.updateIndex == 1 && res.0 == f.keys[0]
  {
    var index := if f.updateIndex == |f.keys| then 0 else f.updateIndex;
    var key := f.keys[index];
    (key, Get(f.table, key), f.(updateIndex := index + 1))
  }

  /** The cursor after `n` advances from `f`. */
  function AdvanceTimes(f: Fingers, n: nat): (f': Fingers)
    requires 0 < |f.keys| && f.updateIndex <= |f.keys|
    ensures f'.keys == f.keys && f'.table == f.table && f'.updateIndex <= |f.keys|
    decreases n
  {
    if n == 0 then f else AdvanceTimes(AdvanceUpdateCursor(f).2, n - 1)
  }

  /** After `n` advances from a fresh cursor, the cursor stands just past finger (n - 1) modulo the count. */
  lemma {:induction false} AdvanceIndex(f: Fingers, n: nat)
    requires 0 < |f.keys| && f.updateIndex == 0
    ensures AdvanceTimes(f, n).updateIndex == if n == 0 then 0 else (n - 1) % |f.keys| + 1
    decreases n
  {
    var m := |f.keys|;
    if n > 1 {
      AdvanceIndex(f, n - 1);
      AdvanceTimesLast(f, n);
      var prev := AdvanceTimes(f, n - 1).updateIndex;
      assert prev == (n - 2) % m + 1;
      ModStep(n - 2, m);
    } else if n == 1 {
      AdvanceTimesLast(f, n);
    }
  }

  /**
   * Starting from a fresh cursor, the n-th advance (counting from 0) repairs finger n modulo
   * the number of fingers: the cursor cycles through every finger in order and wraps to 0.
   */
  lemma AdvanceCycles(f: Fingers, n: nat)
    requires 0 < |f.keys| && f.updateIndex == 0
    ensures AdvanceUpdateCursor(AdvanceTimes(f, n)).0 == f.keys[n % |f.keys|]
  {
    var m := |f.keys|;
    var g := AdvanceTimes(f, n);
    AdvanceIndex(f, n);
    var index := if g.updateIndex == m then 0 else g.updateIndex;
    assert AdvanceUpdateCursor(g).0 == f.keys[index];
    if n > 0 {
      var r := (n - 1) % m;
      ModStep(n - 1, m);
      assert g.updateIndex == r + 1;
      assert index == n % m;
    } else {
      assert index == n % m;
    }
  }

  /** Counting up by one steps the remainder up by one, wrapping from m - 1 to 0. */
  lemma ModStep(a: nat, m: int)
    requires m > 0
    ensures (a + 1) % m == if a % m == m - 1 then 0 else a % m + 1
  {
    var q, r := a / m, a % m;
    assert a == q * m + r;
    if r == m - 1 {
      assert a + 1 == (q + 1) * m;
      ModUnique(a + 1, q + 1, m, 0);
    } else {
      ModUnique(a + 1, q, m, r + 1);
    }
  }

  lemma ModUnique(a: int, q: int, m: int, r: int)
    requires m > 0 && 0 <= r < m && a == q * m + r
    ensures a % m == r
  {
    var q', r' := a / m, a % m;
    assert a == q' * m + r';
    if q > q' {
      MulMonotone(q - q', m);
    } else if q < q' {
      MulMonotone(q' - q, m);
    }
  }

  lemma MulMonotone(d: int, m: int)
    requires d >= 1 && m > 0
    ensures d * m >= m
  {
  }

  lemma {:induction false} AdvanceTimesLast(f: Fingers, n: nat)
    requires 0 < |f.keys| && f.updateIndex <= |f.keys| && n > 0
    ensures AdvanceTimes(f, n) == AdvanceUpdateCursor(AdvanceTimes(f, n - 1)).2
    decreases n
  {
    if n > 1 {
      AdvanceTimesLast(AdvanceUpdateCursor(f).2, n - 1);
    }
  }

  /* ---------------- routing and stabilisation decisions ---------------- */

  /** The test a finger must pass to be a closest preceding finger for `key`. */
  predicate PrecedesKey(alg: HashingAlgorithm, own: NetworkLocation, key: int, loc: NetworkLocation)
    requires ValidAlgorithm(alg)
  {
    Between(HashLocation(alg, own), key, HashLocation(alg, loc), false, false)
  }

  /** The index of the last table entry among the first `n` whose location passes the test, if any. */
  function LastPassing(table: seq<Entry<NetworkLocation>>, n: nat, passes: NetworkLocation -> bool): (r: Option<nat>)
    requires n <= |table|
    ensures r.Some? ==> r.value < n && passes(table[r.value].value)
  {
    if n == 0 then None
    else if passes(table[n - 1].value) then Some(n - 1)
    else LastPassing(table, n - 1, passes)
  }

  /** No entry among the first `n` after the one `LastPassing` finds passes the test, and none at all when it finds none. */
  lemma {:induction false} LastPassingIsLast(table: seq<Entry<NetworkLocation>>, n: nat, passes: NetworkLocation -> bool)
    requires n <= |table|
    ensures var r := LastPassing(table, n, passes);
            && (r.Some? ==> forall j :: r.value < j < n ==> !passes(table[j].value))
            && (r.None? ==> forall j :: 0 <= j < n ==> !passes(table[j].value))
  {
    if n > 0 && !passes(table[n - 1].value) {
      LastPassingIsLast(table, n - 1, passes);
    }
  }

  /**
   * `closestPrecedingFinger`: walking the table from the largest key down, the first finger
   * strictly between the node's own position and `key`; the node itself when none is.
   */
  function ClosestPrecedingFinger(alg: HashingAlgorithm, table: seq<Entry<NetworkLocation>>,
                                  own: NetworkLocation, key: int): (r: NetworkLocation)
    requires ValidAlgorithm(alg)
    ensures (forall i :: 0 <= i < |table| ==> !PrecedesKey(alg, own, key, table[i].value)) ==> r == own
    ensures (exists i :: 0 <= i < |table| && PrecedesKey(alg, own, key, table[i].value)) ==>
              exists i :: 0 <= i < |table| && table[i].value == r && PrecedesKey(alg, own, key, r)
                && forall j :: i < j < |table| ==> !PrecedesKey(alg, own, key, table[j].value)
  {
    var passes := loc => PrecedesKey(alg, own, key, loc);
    LastPassingIsLast(table, |table|, passes);
    match LastPassing(table, |table|, passes)
    case Some(i) => table[i].value
    case None => own
  }

  /** The node itself never passes the test, so answering itself means no finger passed. */
  lemma ClosestPrecedingFingerIsSelfOnlyWhenNoneQualifies(alg: HashingAlgorithm, table: seq<Entry<NetworkLocation>>,
                                                          own: NetworkLocation, key: int)
    requires ValidAlgorithm(alg)
    ensures !PrecedesKey(alg, own, key, own)
    ensures ClosestPrecedingFinger(alg, table, own, key) == own <==>
              forall i :: 0 <= i < |table| ==> !PrecedesKey(alg, own, key, table[i].value)
  {
  }

  /**
   * `notifyNode`: the peer becomes the predecessor when there is none yet or when it lies
   * strictly between the current predecessor and the node itself; otherwise nothing changes.
   */
  function Notify(alg: HashingAlgorithm, own: NetworkLocation, predecessor: NetworkLocation,
                  peer: NetworkLocation): (r: NetworkLocation)
    requires ValidAlgorithm(alg)
    ensures r == peer || r == predecessor
    ensures predecessor == NullLocation ==> r == peer
  {
    var isBetweenKeys := Between(HashLocation(alg, predecessor), HashLocation(alg, own),
                                 HashLocation(alg, peer), false, false);
    if predecessor == NullLocation || isBetweenKeys then peer else predecessor
  }

  /**
   * On the ring, a notifying peer is adopted exactly when there is no predecessor yet or the
   * peer is strictly closer clockwise to the predecessor than the node itself is (and sits at
   * neither position).
   */
  lemma NotifyAdoptsCloserPeer(alg: HashingAlgorithm, own: NetworkLocation, predecessor: NetworkLocation,
                               peer: NetworkLocation)
    requires ValidAlgorithm(alg) && peer != predecessor
    ensures var p, o, x := HashLocation(alg, predecessor), HashLocation(alg, own), HashLocation(alg, peer);
            Notify(alg, own, predecessor, peer) == peer <==>
              predecessor == NullLocation
              || (x != p && x != o && (p == o || ClockwiseDistance(p, x, alg.max) < ClockwiseDistance(p, o, alg.max)))
  {
    var p, o, x := HashLocation(alg, predecessor), HashLocation(alg, own), HashLocation(alg, peer);
    BetweenIsClockwiseInterval(p, o, x, false, false, alg.max);
  }

  /** The configured number of replicas of each key. */
  const NUMBER_OF_REPLICAS: int := 2

  /** `isReplicationActive`: replication is on and enough successors are known to hold replicas. */
  function IsReplicationActive(replicas: int, successorCount: nat): (active: bool)
    ensures active ==> successorCount > 0
    ensures replicas <= 0 ==> !active
    ensures replicas > 0 ==> (active <==> successorCount >= replicas)
  {
    replicas > 0 && successorCount >= replicas
  }
}
