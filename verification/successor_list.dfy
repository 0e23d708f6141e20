/**
 * A Chord node's successor list: the nearest nodes clockwise, the first being the node's
 * successor. Changes to the list are mirrored into the node's finger table, which maps the
 * hash of each known node to that node.
 */
module ChordSuccessors {
  import opened Wrappers
  import opened SortedMaps
  import opened NetworkLocations
  import opened Hashing

  /** The successors in ring order and the finger table they share with the node. */
  datatype SuccessorList = SuccessorList(successors: seq<NetworkLocation>, fingerTable: seq<Entry<NetworkLocation>>)

  /**
   * The `IllegalArgumentException` that `subList` throws when its end index falls below its start:
   * for a negative count in `get`, and in `update` for a capacity below 1 or a list still empty.
   */
  datatype UpdateError = IllegalArgument

  /** The hashes of a sequence of locations. */
  ghost function Hashes(alg: HashingAlgorithm, xs: seq<NetworkLocation>): set<int>
    requires ValidAlgorithm(alg)
  {
    set i | 0 <= i < |xs| :: HashLocation(alg, xs[i])
  }

  /** A fresh successor list is empty and shares the node's finger table. */
  function NewSuccessorList(fingerTable: seq<Entry<NetworkLocation>>): (s: SuccessorList)
    ensures |s.successors| == 0 && s.fingerTable == fingerTable
  {
    SuccessorList([], fingerTable)
  }

  /** `getFirst`: the successor, or the null location when none is known. */
  function GetFirst(s: SuccessorList): (r: NetworkLocation)
    ensures |s.successors| > 0 ==> r == s.successors[0]
    ensures |s.successors| == 0 ==> r == NullLocation
  {
    if |s.successors| == 0 then NullLocation else s.successors[0]
  }

  /**
   * `get(n)`: the first `n` successors, or all of them when fewer are known. A negative `n`
   * makes `subList` throw.
   */
  function GetPrefix(s: SuccessorList, n: int): (r: Result<seq<NetworkLocation>, UpdateError>)
    ensures r.Err? <==> n < 0
    ensures r.Ok? ==> |r.value| == (if n < |s.successors| then n else |s.successors|)
    ensures r.Ok? ==> r.value <= s.successors
  {
    if n < 0 then Err(UpdateError.IllegalArgument)
    else Ok(s.successors[..if n < |s.successors| then n else |s.successors|])
  }

  /**
   * `shift`: drops the successor and returns it; the finger table forgets the hash of the
   * dropped node and of the new first successor (the null location's hash when none is left).
   * An empty list is left alone and the null location is returned.
   */
  function Shift(alg: HashingAlgorithm, s: SuccessorList): (res: (SuccessorList, NetworkLocation))
    requires ValidAlgorithm(alg) && Sorted(s.fingerTable)
    ensures Sorted(res.0.fingerTable)
    ensures |s.successors| == 0 ==> res == (s, NullLocation)
    ensures |s.successors| > 0 ==>
              res.0.successors == s.successors[1..] && res.1 == s.successors[0]
              && KeySet(res.0.fingerTable)
                 == KeySet(s.fingerTable) - {HashLocation(alg, GetFirst(res.0)), HashLocation(alg, res.1)}
    ensures |s.successors| > 0 ==>
              forall k :: Get(res.0.fingerTable, k)
                          == if k == HashLocation(alg, GetFirst(res.0)) || k == HashLocation(alg, res.1) then None
                             else Get(s.fingerTable, k)
  {
    if |s.successors| == 0 then (s, NullLocation)
    else
      var previous := s.successors[0];
      var rest := SuccessorList(s.successors[1..], s.fingerTable);
      var h1 := HashLocation(alg, GetFirst(rest));
      var h2 := HashLocation(alg, previous);
      var table := Remove(Remove(s.fingerTable, h1), h2);
      assert forall k :: Get(table, k) == if k == h1 || k == h2 then None else Get(s.fingerTable, k) by {
        forall k ensures Get(table, k) == if k == h1 || k == h2 then None else Get(s.fingerTable, k) {
          GetAfterRemove(Remove(s.fingerTable, h1), h2, k);
          GetAfterRemove(s.fingerTable, h1, k);
        }
      }
      (SuccessorList(rest.successors, table), previous)
  }

  /**
   * `setFirst`: on an empty list the node becomes the only successor and nothing is returned;
   * otherwise it replaces the successor, whose hash leaves the finger table, and the replaced
   * successor is returned.
   */
  function SetFirst(alg: HashingAlgorithm, s: SuccessorList, x: NetworkLocation): (res: (SuccessorList, Option<NetworkLocation>))
    requires ValidAlgorithm(alg) && Sorted(s.fingerTable)
    ensures Sorted(res.0.fingerTable)
    ensures |res.0.successors| > 0 && res.0.successors[0] == x
    ensures |s.successors| == 0 ==> res.0.successors == [x] && res.0.fingerTable == s.fingerTable && res.1 == None
    ensures |s.successors| > 0 ==>
              res.0.successors[1..] == s.successors[1..] && res.1 == Some(s.successors[0])
              && KeySet(res.0.fingerTable) == KeySet(s.fingerTable) - {HashLocation(alg, s.successors[0])}
    ensures |s.successors| > 0 ==>
              forall k :: Get(res.0.fingerTable, k)
                          == if k == HashLocation(alg, s.successors[0]) then None else Get(s.fingerTable, k)
  {
    if |s.successors| == 0 then (SuccessorList([x], s.fingerTable), None)
    else
      var previous := s.successors[0];
      var table := Remove(s.fingerTable, HashLocation(alg, previous));
      assert forall k :: Get(table, k) == if k == HashLocation(alg, previous) then None else Get(s.fingerTable, k) by {
        forall k ensures Get(table, k) == if k == HashLocation(alg, previous) then None else Get(s.fingerTable, k) {
          GetAfterRemove(s.fingerTable, HashLocation(alg, previous), k);
        }
      }
      (SuccessorList([x] + s.successors[1..], table), Some(previous))
  }

  /** Setting the successor and then reading it gives the node just set. */
  lemma GetFirstAfterSetFirst(alg: HashingAlgorithm, s: SuccessorList, x: NetworkLocation)
    requires ValidAlgorithm(alg) && Sorted(s.fingerTable)
    ensures GetFirst(SetFirst(alg, s, x).0) == x
    ensures |SetFirst(alg, s, x).0.successors| == if |s.successors| == 0 then 1 else |s.successors|
  {
  }

  /**
   * Shift undoes the list part of setFirst on an empty list, and on a non-empty list returns
   * the node just set and leaves the old tail.
   */
  lemma ShiftAfterSetFirst(alg: HashingAlgorithm, s: SuccessorList, x: NetworkLocation)
    requires ValidAlgorithm(alg) && Sorted(s.fingerTable)
    ensures var (s', _) := SetFirst(alg, s, x);
            var (s'', y) := Shift(alg, s');
            y == x && s''.successors == (if |s.successors| == 0 then [] else s.successors[1..])
  {
  }

  /* ---------------- update ---------------- */

  /** `List.remove(Object)`: drops the first occurrence of `x`, if any. */
  function RemoveFirst(xs: seq<NetworkLocation>, x: NetworkLocation): (r: seq<NetworkLocation>)
    ensures x !in xs ==> r == xs
    ensures x in xs ==> |r| == |xs| - 1
    ensures forall i :: 0 <= i < |xs| && xs[i] == x ==> r == xs[..FirstIndex(xs, x)] + xs[FirstIndex(xs, x) + 1..]
  {
    if x in xs then xs[..FirstIndex(xs, x)] + xs[FirstIndex(xs, x) + 1..] else xs
  }

  /** The position of the first occurrence of `x`. */
  function FirstIndex(xs: seq<NetworkLocation>, x: NetworkLocation): (i: nat)
    requires x in xs
    ensures i < |xs| && xs[i] == x && x !in xs[..i]
  {
    if xs[0] == x then 0
    else
      var j := FirstIndex(xs[1..], x);
      assert xs[1..][..j] == xs[1..j + 1];
      assert xs[..j + 1] == [xs[0]] + xs[1..j + 1];
      j + 1
  }

  /**
   * The refill loop of `update`: input nodes are taken in order until the node itself is met,
   * the input runs out, or `room` nodes have been taken.
   */
  function Refill(input: seq<NetworkLocation>, own: NetworkLocation, room: nat): (r: seq<NetworkLocation>)
    ensures r <= input && |r| <= room && own !in r
    ensures |r| == room || |r| == |input| || input[|r|] == own
    decreases room
  {
    if room == 0 || |input| == 0 || input[0] == own then []
    else
      var rest := Refill(input[1..], own, room - 1);
      assert [input[0]] + rest <= input by {
        assert input == [input[0]] + input[1..];
      }
      [input[0]] + rest
  }

  /** The refill is the only prefix of the input that the loop's stopping rule allows. */
  lemma {:induction false} RefillIsUnique(input: seq<NetworkLocation>, own: NetworkLocation, room: nat, p: seq<NetworkLocation>)
    requires p <= input && |p| <= room && own !in p
    requires |p| == room || |p| == |input| || input[|p|] == own
    ensures p == Refill(input, own, room)
    decreases room
  {
    if room > 0 && |input| > 0 && input[0] != own {
      assert |p| > 0;
      assert p[1..] <= input[1..];
      if |p| < |input| && |p| < room {
        assert input[1..][|p| - 1] == input[|p|];
      }
      RefillIsUnique(input[1..], own, room - 1, p[1..]);
      assert p == [p[0]] + p[1..];
    }
  }

  lemma HashesSnoc(alg: HashingAlgorithm, xs: seq<NetworkLocation>)
    requires ValidAlgorithm(alg) && |xs| > 0
    ensures Hashes(alg, xs) == Hashes(alg, xs[..|xs| - 1]) + {HashLocation(alg, xs[|xs| - 1])}
  {
    var ys := xs[..|xs| - 1];
    var last := HashLocation(alg, xs[|xs| - 1]);
    forall x | x in Hashes(alg, xs) ensures x in Hashes(alg, ys) + {last} {
      var i :| 0 <= i < |xs| && x == HashLocation(alg, xs[i]);
      if i < |xs| - 1 {
        assert ys[i] == xs[i];
      }
    }
    forall x | x in Hashes(alg, ys) ensures x in Hashes(alg, xs) {
      var i :| 0 <= i < |ys| && x == HashLocation(alg, ys[i]);
      assert xs[i] == ys[i];
    }
  }

  /** Removes from the table the hash of each node of `xs`, last node first. */
  function RemoveHashes(alg: HashingAlgorithm, t: seq<Entry<NetworkLocation>>, xs: seq<NetworkLocation>): (r: seq<Entry<NetworkLocation>>)
    requires ValidAlgorithm(alg) && Sorted(t)
    ensures Sorted(r)
    ensures KeySet(r) == KeySet(t) - Hashes(alg, xs)
    ensures forall k :: Get(r, k) == if k in Hashes(alg, xs) then None else Get(t, k)
    decreases |xs|
  {
    if |xs| == 0 then t
    else
      var last := xs[|xs| - 1];
      var t' := Remove(t, HashLocation(alg, last));
      var r := RemoveHashes(alg, t', xs[..|xs| - 1]);
      HashesSnoc(alg, xs);
      assert forall k :: Get(r, k) == if k in Hashes(alg, xs) then None else Get(t, k) by {
        forall k ensures Get(r, k) == if k in Hashes(alg, xs) then None else Get(t, k) {
          GetAfterRemove(t, HashLocation(alg, last), k);
        }
      }
      r
  }

  /**
   * The first node of `xs` whose hash is `k`, if any: the node that a run of `putIfAbsent`
   * over `xs` leaves under `k` when the table did not hold `k` before.
   */
  ghost function FirstWithHash(alg: HashingAlgorithm, xs: seq<NetworkLocation>, k: int): Option<NetworkLocation>
    requires ValidAlgorithm(alg)
    decreases |xs|
  {
    if |xs| == 0 then None
    else
      var p := FirstWithHash(alg, xs[..|xs| - 1], k);
      if p.Some? then p else if HashLocation(alg, xs[|xs| - 1]) == k then Some(xs[|xs| - 1]) else None
  }

  /** `FirstWithHash` finds a node exactly when some node has hash `k`, and it is the earliest such node. */
  lemma {:induction false} FirstWithHashIsFirst(alg: HashingAlgorithm, xs: seq<NetworkLocation>, k: int)
    requires ValidAlgorithm(alg)
    ensures FirstWithHash(alg, xs, k).Some? <==> k in Hashes(alg, xs)
    ensures FirstWithHash(alg, xs, k).Some? ==>
              exists i :: 0 <= i < |xs| && xs[i] == FirstWithHash(alg, xs, k).value && HashLocation(alg, xs[i]) == k
                          && forall j :: 0 <= j < i ==> HashLocation(alg, xs[j]) != k
    decreases |xs|
  {
    if |xs| > 0 {
      var prefix := xs[..|xs| - 1];
      var p := FirstWithHash(alg, prefix, k);
      FirstWithHashIsFirst(alg, prefix, k);
      HashesSnoc(alg, xs);
      if p.Some? {
        var i :| 0 <= i < |prefix| && prefix[i] == p.value && HashLocation(alg, prefix[i]) == k
                 && forall j :: 0 <= j < i ==> HashLocation(alg, prefix[j]) != k;
        assert xs[i] == prefix[i];
        assert forall j :: 0 <= j < i ==> xs[j] == prefix[j];
      } else if HashLocation(alg, xs[|xs| - 1]) == k {
        forall j | 0 <= j < |prefix| ensures HashLocation(alg, xs[j]) != k {
          assert xs[j] == prefix[j];
          assert HashLocation(alg, prefix[j]) in Hashes(alg, prefix);
        }
      }
    }
  }

  lemma FirstWithHashSnoc(alg: HashingAlgorithm, xs: seq<NetworkLocation>, k: int)
    requires ValidAlgorithm(alg) && |xs| > 0
    ensures FirstWithHash(alg, xs, k)
            == var p := FirstWithHash(alg, xs[..|xs| - 1], k);
               if p.Some? then p else if HashLocation(alg, xs[|xs| - 1]) == k then Some(xs[|xs| - 1]) else None
  {
  }

  /** One step of `PutHashesIfAbsent`: adding the last node keeps the first node per new hash. */
  lemma PutHashStep(alg: HashingAlgorithm, t: seq<Entry<NetworkLocation>>, xs: seq<NetworkLocation>,
                    mid: seq<Entry<NetworkLocation>>, k: int)
    requires ValidAlgorithm(alg) && Sorted(mid) && |xs| > 0
    requires Get(mid, k) == if k in KeySet(t) then Get(t, k) else FirstWithHash(alg, xs[..|xs| - 1], k)
    ensures Get(PutIfAbsent(mid, HashLocation(alg, xs[|xs| - 1]), xs[|xs| - 1]), k)
            == if k in KeySet(t) then Get(t, k) else FirstWithHash(alg, xs, k)
  {
    GetAfterPutIfAbsent(mid, HashLocation(alg, xs[|xs| - 1]), xs[|xs| - 1], k);
    FirstWithHashSnoc(alg, xs, k);
  }

  /** Adds each node of `xs`, in order, under its hash unless that hash is already present. */
  function PutHashesIfAbsent(alg: HashingAlgorithm, t: seq<Entry<NetworkLocation>>, xs: seq<NetworkLocation>): (r: seq<Entry<NetworkLocation>>)
    requires ValidAlgorithm(alg) && Sorted(t)
    ensures Sorted(r)
    ensures KeySet(r) == KeySet(t) + Hashes(alg, xs)
    ensures forall k {:trigger Get(r, k)} :: Get(r, k) == if k in KeySet(t) then Get(t, k) else FirstWithHash(alg, xs, k)
    decreases |xs|
  {
    if |xs| == 0 then t
    else
      var last := xs[|xs| - 1];
      var mid := PutHashesIfAbsent(alg, t, xs[..|xs| - 1]);
      var r := PutIfAbsent(mid, HashLocation(alg, last), last);
      HashesSnoc(alg, xs);
      assert forall k {:trigger Get(r, k)} :: Get(r, k) == if k in KeySet(t) then Get(t, k) else FirstWithHash(alg, xs, k) by {
        forall k ensures Get(r, k) == if k in KeySet(t) then Get(t, k) else FirstWithHash(alg, xs, k) {
          PutHashStep(alg, t, xs, mid, k);
        }
      }
      r
  }

  /**
   * What the finger table holds under `k` after `update` swaps the old tail for `added`: the
   * old entry if its hash was not the hash of an old tail node, else the first added node
   * with that hash, if any.
   */
  ghost function KeptOrAdded(alg: HashingAlgorithm, s: SuccessorList, added: seq<NetworkLocation>, k: int)
    : Option<NetworkLocation>
    requires ValidAlgorithm(alg) && |s.successors| > 0
  {
    var kept := if k in Hashes(alg, s.successors[1..]) then None else Get(s.fingerTable, k);
    if kept.Some? then kept else FirstWithHash(alg, added, k)
  }

  /**
   * The list `update` writes: the successor kept, the rest refilled from the input, with the
   * finger table losing the dropped nodes' hashes and gaining the added ones'.
   */
  function Rewrite(alg: HashingAlgorithm, own: NetworkLocation, tableSize: nat, s: SuccessorList,
                   input: seq<NetworkLocation>): (r: SuccessorList)
    requires ValidAlgorithm(alg) && Sorted(s.fingerTable) && |s.successors| > 0 && tableSize > 0
    ensures Sorted(r.fingerTable)
    ensures |r.successors| > 0 && r.successors[0] == s.successors[0]
    ensures r.successors[1..] == Refill(input, own, tableSize - 1)
    ensures KeySet(r.fingerTable)
            == (KeySet(s.fingerTable) - Hashes(alg, s.successors[1..])) + Hashes(alg, r.successors[1..])
    ensures forall k :: Get(r.fingerTable, k) == KeptOrAdded(alg, s, r.successors[1..], k)
  {
    var added := Refill(input, own, tableSize - 1);
    var kept := RemoveHashes(alg, s.fingerTable, s.successors[1..]);
    var table := PutHashesIfAbsent(alg, kept, added);
    var r := SuccessorList([s.successors[0]] + added, table);
    assert r.successors[1..] == added;
    r
  }

  /**
   * `update` as written: an empty input changes nothing; a negative `tableSize - 1` and an
   * empty list make `subList` throw; when the current tail equals the first `tableSize - 1`
   * input nodes with the node itself removed once, nothing changes; otherwise the list is
   * rewritten. The branch that re-adds the node itself to an empty list is never reached:
   * an empty list has already thrown.
   */
  function UpdateAsWritten(alg: HashingAlgorithm, own: NetworkLocation, tableSize: int, s: SuccessorList,
                           input: seq<NetworkLocation>): (r: Result<SuccessorList, UpdateError>)
    requires ValidAlgorithm(alg) && Sorted(s.fingerTable)
    ensures |input| == 0 ==> r == Ok(s)
    ensures |input| > 0 && tableSize < 1 ==> r == Err(UpdateError.IllegalArgument)
    ensures |input| > 0 && tableSize >= 1 && |s.successors| == 0 ==> r == Err(UpdateError.IllegalArgument)
    ensures r.Ok? ==> Sorted(r.value.fingerTable) && (|s.successors| > 0 ==> |r.value.successors| > 0)
    ensures r.Ok? && |input| > 0 ==> r.value == s || r.value == Rewrite(alg, own, tableSize, s, input)
    ensures |input| > 0 && tableSize >= 1 && |s.successors| > 0 ==>
              var n := if tableSize - 1 < |input| then tableSize - 1 else |input|;
              (s.successors[1..] == RemoveFirst(input[..n], own) ==> r == Ok(s))
              && (s.successors[1..] != RemoveFirst(input[..n], own) ==> r == Ok(Rewrite(alg, own, tableSize, s, input)))
  {
    if |input| == 0 then Ok(s)
    else if tableSize - 1 < 0 then Err(UpdateError.IllegalArgument)
    else
      var n := if tableSize - 1 < |input| then tableSize - 1 else |input|;
      var testEquality := RemoveFirst(input[..n], own);
      if |s.successors| == 0 then Err(UpdateError.IllegalArgument)
      else if s.successors[1..] == testEquality then Ok(s)
      else Ok(Rewrite(alg, own, tableSize, s, input))
  }

  /**
   * With capacity 4, a list [h, a, b] and the input [a, own, b], the shortcut sees the tail
   * [a, b] equal to the input with `own` removed and keeps b, although the refill stops at
   * the node itself and would leave [h, a].
   */
  lemma UpdateShortcutKeepsStaleEntry(alg: HashingAlgorithm, own: NetworkLocation, h: NetworkLocation,
                                      a: NetworkLocation, b: NetworkLocation, table: seq<Entry<NetworkLocation>>)
    requires ValidAlgorithm(alg) && Sorted(table) && a != own && b != own
    ensures var s := SuccessorList([h, a, b], table);
            UpdateAsWritten(alg, own, 4, s, [a, own, b]) == Ok(s)
            && Rewrite(alg, own, 4, s, [a, own, b]).successors == [h, a]
  {
    var input := [a, own, b];
    assert input[..3] == input;
    assert input[1..] == [own, b];
    assert FirstIndex(input[1..], own) == 0;
    assert FirstIndex(input, own) == 1;
    assert RemoveFirst(input, own) == [a, b];
    assert Refill(input[1..], own, 2) == [];
    assert Refill(input, own, 3) == [a];
    assert [h, a, b][1..] == [a, b];
  }

  /**
   * `update` with the shortcut taken only when the rewrite would leave the list as it is, so
   * that skipping the rewrite never changes the outcome.
   */
  function Update(alg: HashingAlgorithm, own: NetworkLocation, tableSize: int, s: SuccessorList,
                  input: seq<NetworkLocation>): (r: Result<SuccessorList, UpdateError>)
    requires ValidAlgorithm(alg) && Sorted(s.fingerTable)
    ensures |input| == 0 ==> r == Ok(s)
    ensures r.Err? <==> |input| > 0 && (tableSize < 1 || |s.successors| == 0)
    ensures |input| > 0 && tableSize < 1 ==> r == Err(UpdateError.IllegalArgument)
    ensures r.Ok? && |input| > 0 ==> Sorted(r.value.fingerTable) && r.value.successors == Rewrite(alg, own, tableSize, s, input).successors
  {
    if |input| == 0 then Ok(s)
    else if tableSize - 1 < 0 then Err(UpdateError.IllegalArgument)
    else if |s.successors| == 0 then Err(UpdateError.IllegalArgument)
    else if s.successors[1..] == Refill(input, own, tableSize - 1) then Ok(s)
    else Ok(Rewrite(alg, own, tableSize, s, input))
  }

  /**
   * After a successful update the list keeps its successor, holds at most `tableSize` nodes,
   * never lists the node itself after the successor, and follows the input up to the first
   * point where the loop had to stop.
   */
  lemma UpdateShape(alg: HashingAlgorithm, own: NetworkLocation, tableSize: int, s: SuccessorList,
                    input: seq<NetworkLocation>)
    requires ValidAlgorithm(alg) && Sorted(s.fingerTable)
    requires |input| > 0 && tableSize >= 1 && |s.successors| > 0
    ensures var t := Update(alg, own, tableSize, s, input).value.successors;
            var tail := t[1..];
            |t| > 0 && t[0] == s.successors[0] && |t| <= tableSize
            && tail <= input && own !in tail
            && (|t| == tableSize || |tail| == |input| || input[|tail|] == own)
  {
  }

  /**
   * An update that does not take the shortcut drops exactly the old tail's hashes from the
   * finger table and adds the new tail's.
   */
  lemma UpdateFingerTable(alg: HashingAlgorithm, own: NetworkLocation, tableSize: int, s: SuccessorList,
                          input: seq<NetworkLocation>)
    requires ValidAlgorithm(alg) && Sorted(s.fingerTable)
    requires |input| > 0 && tableSize >= 1 && |s.successors| > 0
    ensures var r := Update(alg, own, tableSize, s, input).value;
            r == s || (KeySet(r.fingerTable)
                        == (KeySet(s.fingerTable) - Hashes(alg, s.successors[1..])) + Hashes(alg, r.successors[1..])
                       && forall k :: Get(r.fingerTable, k) == KeptOrAdded(alg, s, r.successors[1..], k))
  {
  }

  /** Updating twice with the same input changes nothing the second time. */
  lemma UpdateIdempotent(alg: HashingAlgorithm, own: NetworkLocation, tableSize: int, s: SuccessorList,
                         input: seq<NetworkLocation>)
    requires ValidAlgorithm(alg) && Sorted(s.fingerTable)
    requires |input| == 0 || (tableSize >= 1 && |s.successors| > 0)
    ensures var s' := Update(alg, own, tableSize, s, input).value;
            Update(alg, own, tableSize, s', input) == Ok(s')
  {
  }
}
