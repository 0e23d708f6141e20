/**
 * The fixed-capacity slot array that holds a B-tree node's key-value pairs. A chunk for minimum
 * degree t has 2t - 1 slots; in a well-kept chunk the pairs fill a prefix of the slots and
 * every later slot is empty.
 */
module Chunks {
  import opened Wrappers
  import opened Text

  datatype Pair<V> = Pair(key: string, value: V)

  datatype Chunk<V> = Chunk(slots: seq<Option<Pair<V>>>)

  /** Why the list constructor refuses its input: more pairs than slots. */
  datatype ChunkError = TooManyElements

  /** The number of slots of a chunk for a given minimum degree. */
  function Capacity(minimumDegree: int): int {
    2 * minimumDegree - 1
  }

  /** Keys strictly increase along the pairs, in `String.compareTo` order. */
  predicate SortedPairs<V>(xs: seq<Pair<V>>) {
    forall i, j :: 0 <= i < j < |xs| ==> Less(xs[i].key, xs[j].key)
  }

  function Nones<V>(n: nat): (s: seq<Option<Pair<V>>>)
    ensures |s| == n && forall i :: 0 <= i < n ==> s[i].None?
  {
    seq(n, i => None)
  }

  /** The pairs laid out in slots, one per slot. */
  function Lift<V>(xs: seq<Pair<V>>): (s: seq<Option<Pair<V>>>)
    ensures |s| == |xs| && forall i :: 0 <= i < |xs| ==> s[i] == Some(xs[i])
  {
    seq(|xs|, i requires 0 <= i < |xs| => Some(xs[i]))
  }

  /** The number of leading occupied slots. */
  function PrefixLength<V>(s: seq<Option<Pair<V>>>): (n: nat)
    ensures n <= |s|
    ensures forall i :: 0 <= i < n ==> s[i].Some?
    ensures n < |s| ==> s[n].None?
  {
    if |s| == 0 || s[0].None? then 0
    else
      var m := PrefixLength(s[1..]);
      assert forall i :: 1 <= i < m + 1 ==> s[i] == s[1..][i - 1];
      m + 1
  }

  /** The occupied slots form a prefix: every slot after the first empty one is empty too. */
  predicate Packed<V>(c: Chunk<V>) {
    forall i :: PrefixLength(c.slots) <= i < |c.slots| ==> c.slots[i].None?
  }

  /** The pairs held in the occupied prefix. */
  function Elements<V>(c: Chunk<V>): (xs: seq<Pair<V>>)
    ensures |xs| == PrefixLength(c.slots)
    ensures forall i :: 0 <= i < |xs| ==> c.slots[i] == Some(xs[i])
  {
    seq(PrefixLength(c.slots), i requires 0 <= i < PrefixLength(c.slots) => c.slots[i].value)
  }

  /** Any prefix of occupied slots followed by an empty slot (or the end) is the prefix. */
  lemma PrefixLengthIs<V>(s: seq<Option<Pair<V>>>, m: nat)
    requires m <= |s| && forall i :: 0 <= i < m ==> s[i].Some?
    requires m < |s| ==> s[m].None?
    ensures PrefixLength(s) == m
  {
  }

  /** A packed chunk is exactly its pairs followed by empty slots, and vice versa. */
  lemma PackedLayout<V>(c: Chunk<V>)
    requires Packed(c)
    ensures c.slots == Lift(Elements(c)) + Nones(|c.slots| - |Elements(c)|)
  {
  }

  lemma LayoutIsPacked<V>(xs: seq<Pair<V>>, k: nat)
    ensures var c := Chunk(Lift(xs) + Nones(k));
            Packed(c) && Elements(c) == xs
  {
    var c := Chunk(Lift(xs) + Nones(k));
    PrefixLengthIs(c.slots, |xs|);
  }

  /** `ChunkImpl(minimumDegree)`: 2t - 1 slots, all empty. */
  function NewChunk<V>(minimumDegree: int): (c: Chunk<V>)
    requires minimumDegree >= 1
    ensures |c.slots| == Capacity(minimumDegree)
    ensures Packed(c) && Elements(c) == [] && ElementCount(c) == 0
  {
    var c := Chunk(Nones(Capacity(minimumDegree)));
    LayoutIsPacked<V>([], Capacity(minimumDegree));
    assert Lift<V>([]) + c.slots == c.slots;
    CountOfPacked(c.slots);
    c
  }

  /**
   * `ChunkImpl(minimumDegree, newElements)`: the pairs copied into the front of 2t - 1 empty
   * slots; more pairs than slots fails the precondition check.
   */
  function ChunkOf<V>(minimumDegree: int, xs: seq<Pair<V>>): (r: Result<Chunk<V>, ChunkError>)
    requires minimumDegree >= 1
    ensures r.Err? <==> |xs| > Capacity(minimumDegree)
    ensures r.Ok? ==> |r.value.slots| == Capacity(minimumDegree) && Packed(r.value) && Elements(r.value) == xs
  {
    if |xs| > Capacity(minimumDegree) then Err(TooManyElements)
    else
      LayoutIsPacked(xs, Capacity(minimumDegree) - |xs|);
      Ok(Chunk(Lift(xs) + Nones(Capacity(minimumDegree) - |xs|)))
  }

  /** The number of occupied slots in `s`. */
  function CountSome<V>(s: seq<Option<Pair<V>>>): (n: nat)
    ensures n <= |s|
  {
    if |s| == 0 then 0 else (if s[0].Some? then 1 else 0) + CountSome(s[1..])
  }

  /** `getElementCount`: the occupied slots, wherever they are. */
  function ElementCount<V>(c: Chunk<V>): (n: nat)
    ensures n <= |c.slots|
  {
    CountSome(c.slots)
  }

  /** In a packed chunk the occupied slots are exactly the prefix. */
  lemma {:induction false} CountOfPacked<V>(s: seq<Option<Pair<V>>>)
    requires forall i :: PrefixLength(s) <= i < |s| ==> s[i].None?
    ensures CountSome(s) == PrefixLength(s)
    decreases |s|
  {
    if |s| > 0 {
      if s[0].Some? {
        assert PrefixLength(s[1..]) == PrefixLength(s) - 1;
        assert forall i :: PrefixLength(s[1..]) <= i < |s[1..]| ==> s[1..][i] == s[i + 1];
      } else {
        assert forall i :: 0 <= i < |s[1..]| ==> s[1..][i] == s[i + 1];
        PrefixLengthIs(s[1..], 0);
      }
      CountOfPacked(s[1..]);
    }
  }

  /** The count of a packed chunk is the number of its pairs. */
  lemma CountIsElements<V>(c: Chunk<V>)
    requires Packed(c)
    ensures ElementCount(c) == |Elements(c)|
  {
    CountOfPacked(c.slots);
  }

  /* ---------------- lookup ---------------- */

  /** The scan of `findIndexOfFirstGreaterThen` from position `i`. */
  function ScanFrom<V>(xs: seq<Pair<V>>, key: string, i: nat): (r: nat)
    requires i <= |xs|
    ensures i <= r <= |xs|
    ensures forall j :: i <= j < r ==> Less(xs[j].key, key)
    ensures r < |xs| ==> !Less(xs[r].key, key)
    decreases |xs| - i
  {
    if i < |xs| && Less(xs[i].key, key) then ScanFrom(xs, key, i + 1) else i
  }

  /**
   * `findIndexOfFirstGreaterThen`: the first position whose key is not below `key`, or the
   * count when every key is below it.
   */
  function FindIndexOfFirstGreaterThen<V>(c: Chunk<V>, key: string): (i: nat)
    requires Packed(c)
    ensures i <= |Elements(c)|
    ensures forall j :: 0 <= j < i ==> Less(Elements(c)[j].key, key)
    ensures i < |Elements(c)| ==> !Less(Elements(c)[i].key, key)
  {
    ScanFrom(Elements(c), key, 0)
  }

  /** On sorted pairs the index splits the keys: all before it are below `key`, none after. */
  lemma FindIndexSplitsSortedKeys<V>(c: Chunk<V>, key: string)
    requires Packed(c) && SortedPairs(Elements(c))
    ensures var i := FindIndexOfFirstGreaterThen(c, key);
            forall j :: 0 <= j < |Elements(c)| ==> (Less(Elements(c)[j].key, key) <==> j < i)
  {
    var xs := Elements(c);
    var i := FindIndexOfFirstGreaterThen(c, key);
    forall j | i <= j < |xs| ensures !Less(xs[j].key, key) {
      if j > i && Less(xs[j].key, key) {
        LessTransitive(xs[i].key, xs[j].key, key);
      }
    }
  }

  /* ---------------- slot updates ---------------- */

  /** `set`: the slot takes the pair; the previous content is returned. */
  function SetSlot<V>(c: Chunk<V>, index: int, e: Pair<V>): (res: (Chunk<V>, Option<Pair<V>>))
    requires 0 <= index < |c.slots|
    ensures |res.0.slots| == |c.slots| && res.0.slots[index] == Some(e) && res.1 == c.slots[index]
    ensures forall j :: 0 <= j < |c.slots| && j != index ==> res.0.slots[j] == c.slots[j]
  {
    (Chunk(c.slots[index := Some(e)]), c.slots[index])
  }

  /** `remove(index)`: the slot is emptied; the previous content is returned. */
  function RemoveSlot<V>(c: Chunk<V>, index: int): (res: (Chunk<V>, Option<Pair<V>>))
    requires 0 <= index < |c.slots|
    ensures |res.0.slots| == |c.slots| && res.0.slots[index].None? && res.1 == c.slots[index]
    ensures forall j :: 0 <= j < |c.slots| && j != index ==> res.0.slots[j] == c.slots[j]
  {
    (Chunk(c.slots[index := None]), c.slots[index])
  }

  /** Putting a removed pair back restores the chunk. */
  lemma SetUndoesRemove<V>(c: Chunk<V>, index: int)
    requires 0 <= index < |c.slots| && c.slots[index].Some?
    ensures var (c', previous) := RemoveSlot(c, index);
            previous.Some? && SetSlot(c', index, previous.value).0 == c
  {
    var (c', e) := RemoveSlot(c, index);
    assert SetSlot(c', index, e.value).0.slots == c.slots;
  }

  /** Removing the last pair of a packed chunk leaves it packed with one pair fewer. */
  lemma RemoveLastKeepsPacked<V>(c: Chunk<V>)
    requires Packed(c) && |Elements(c)| > 0
    ensures var n := |Elements(c)|;
            var (c', previous) := RemoveSlot(c, n - 1);
            Packed(c') && Elements(c') == Elements(c)[..n - 1] && previous == Some(Elements(c)[n - 1])
  {
    var n := |Elements(c)|;
    var c' := RemoveSlot(c, n - 1).0;
    PrefixLengthIs(c'.slots, n - 1);
  }

  /* ---------------- shifting ---------------- */

  /** The loop of `shiftRightOne`: slots j down to `start` each move one place right. */
  function ShiftRightLoop<V>(s: seq<Option<Pair<V>>>, j: int, start: int): (r: seq<Option<Pair<V>>>)
    requires j + 1 < |s| || j < start
    requires -1 <= j
    ensures |r| == |s|
    decreases j + 1
  {
    if j < start || j < 0 then s else ShiftRightLoop(s[j + 1 := s[j]][j := None], j - 1, start)
  }

  /** After the loop has moved slots j+1..n-1, the rest of the loop finishes the shift. */
  /** One step of a right shift: the gap moves from after slot j to slot j. */
  lemma ShiftStep<V>(orig: seq<Option<Pair<V>>>, n: nat, j: nat)
    requires j < n < |orig|
    ensures var s := orig[..j + 1] + [None] + orig[j + 1..n] + orig[n + 1..];
            s[j + 1 := s[j]][j := None] == orig[..j] + [None] + orig[j..n] + orig[n + 1..]
  {
  }

  lemma {:induction false} ShiftRightLoopShifts<V>(orig: seq<Option<Pair<V>>>, n: nat, j: int, start: nat)
    requires n < |orig| && orig[n].None? && start <= j + 1 && -1 <= j < n
    ensures ShiftRightLoop(orig[..j + 1] + [None] + orig[j + 1..n] + orig[n + 1..], j, start)
            == orig[..start] + [None] + orig[start..n] + orig[n + 1..]
    decreases j + 1
  {
    var s := orig[..j + 1] + [None] + orig[j + 1..n] + orig[n + 1..];
    if j >= start && j >= 0 {
      var s' := s[j + 1 := s[j]][j := None];
      assert ShiftRightLoop(s, j, start) == ShiftRightLoop(s', j - 1, start);
      ShiftStep(orig, n, j);
      assert s' == orig[..(j - 1) + 1] + [None] + orig[(j - 1) + 1..n] + orig[n + 1..];
      ShiftRightLoopShifts(orig, n, j - 1, start);
    } else {
      assert j + 1 == start;
    }
  }

  /**
   * `shiftRightOne(start)`: the pairs from `start` on move one slot right, leaving slot
   * `start` empty; a start at or past the count changes nothing. Moving the last pair needs a
   * free slot after it, or the source indexes past the end.
   */
  function ShiftRightOne<V>(c: Chunk<V>, start: int): (r: Chunk<V>)
    requires Packed(c) && 0 <= start
    requires start < |Elements(c)| ==> |Elements(c)| < |c.slots|
    ensures start >= |Elements(c)| ==> r == c
    ensures var n := |Elements(c)|;
            start < n ==> r.slots == c.slots[..start] + [None] + c.slots[start..n] + c.slots[n + 1..]
  {
    var n := |Elements(c)|;
    CountIsElements(c);
    if start >= n then Chunk(ShiftRightLoop(c.slots, n - 1, start))
    else
      assert c.slots == c.slots[..n] + [None] + c.slots[n..n] + c.slots[n + 1..];
      ShiftRightLoopShifts(c.slots, n, n - 1, start);
      Chunk(ShiftRightLoop(c.slots, n - 1, start))
  }

  /** Shifting right at `start` and filling the gap inserts the pair at `start`. */
  lemma ShiftRightThenSetInserts<V>(c: Chunk<V>, start: int, e: Pair<V>)
    requires Packed(c) && 0 <= start <= |Elements(c)| < |c.slots|
    ensures var c' := SetSlot(ShiftRightOne(c, start), start, e).0;
            Packed(c') && Elements(c') == Elements(c)[..start] + [e] + Elements(c)[start..]
  {
    var xs := Elements(c);
    var n := |xs|;
    var c' := SetSlot(ShiftRightOne(c, start), start, e).0;
    var ys := xs[..start] + [e] + xs[start..];
    if start == n {
      assert ShiftRightOne(c, start) == c;
    }
    assert forall i :: 0 <= i < n + 1 ==> c'.slots[i] == Some(ys[i]);
    PrefixLengthIs(c'.slots, n + 1);
  }

  /** The loop of `shiftLeftOne`: each slot from i on moves one place left and is emptied. */
  function ShiftLeftLoop<V>(s: seq<Option<Pair<V>>>, i: nat): (r: seq<Option<Pair<V>>>)
    requires i >= 1
    ensures |r| == |s|
    decreases |s| - i
  {
    if i >= |s| then s else ShiftLeftLoop(s[i - 1 := s[i]][i := None], i + 1)
  }

  lemma {:induction false} ShiftLeftLoopShifts<V>(orig: seq<Option<Pair<V>>>, start: nat, i: nat)
    requires start + 1 <= i <= |orig|
    ensures ShiftLeftLoop(orig[..start] + orig[start + 1..i] + [None] + orig[i..], i)
            == orig[..start] + orig[start + 1..] + [None]
    decreases |orig| - i
  {
    var s := orig[..start] + orig[start + 1..i] + [None] + orig[i..];
    if i < |orig| {
      assert s[i - 1 := s[i]][i := None] == orig[..start] + orig[start + 1..i + 1] + [None] + orig[i + 1..];
      ShiftLeftLoopShifts(orig, start, i + 1);
    } else {
      assert orig[i..] == [];
      assert orig[start + 1..i] == orig[start + 1..];
    }
  }

  /**
   * `shiftLeftOne(start)`: the slot at `start` is overwritten by the slots after it, all of
   * them moving one place left, and the last slot becomes empty.
   */
  function ShiftLeftOne<V>(c: Chunk<V>, start: int): (r: Chunk<V>)
    requires 0 <= start
    ensures start + 1 >= |c.slots| ==> r == c
    ensures start + 1 < |c.slots| ==> r.slots == c.slots[..start] + c.slots[start + 1..] + [None]
  {
    if start + 1 >= |c.slots| then Chunk(ShiftLeftLoop(c.slots, start + 1))
    else
      assert c.slots[..start] + c.slots[start + 1..start + 1] + [None] + c.slots[start + 1..]
             == c.slots[..start] + [None] + c.slots[start + 1..];
      assert c.slots[start := None] == c.slots[..start] + [None] + c.slots[start + 1..];
      assert c.slots[start := c.slots[start + 1]][start + 1 := None]
             == c.slots[..start] + c.slots[start + 1..start + 2] + [None] + c.slots[start + 2..];
      ShiftLeftLoopShifts(c.slots, start, start + 2);
      Chunk(ShiftLeftLoop(c.slots, start + 1))
  }

  /** On a packed chunk, shifting left at a pair's position deletes that pair. */
  lemma ShiftLeftDeletes<V>(c: Chunk<V>, start: int)
    requires Packed(c) && 0 <= start < |Elements(c)| && start + 1 < |c.slots|
    ensures var c' := ShiftLeftOne(c, start);
            Packed(c') && Elements(c') == Elements(c)[..start] + Elements(c)[start + 1..]
  {
    var xs := Elements(c);
    var n := |xs|;
    var c' := ShiftLeftOne(c, start);
    var ys := xs[..start] + xs[start + 1..];
    assert forall i :: 0 <= i < n - 1 ==> c'.slots[i] == Some(ys[i]);
    PrefixLengthIs(c'.slots, n - 1);
  }

  /** Shifting left undoes a shift right at the same position. */
  lemma ShiftLeftUndoesShiftRight<V>(c: Chunk<V>, start: int)
    requires Packed(c) && 0 <= start < |Elements(c)| < |c.slots|
    ensures ShiftLeftOne(ShiftRightOne(c, start), start) == c
  {
    var n := |Elements(c)|;
    var r := ShiftRightOne(c, start);
    assert r.slots[..start] + r.slots[start + 1..] + [None] == c.slots;
  }

  /* ---------------- insertion slot ---------------- */

  /** The position of the last pair among the first `i + 1` whose key is not above `key`, or -1. */
  function LastNotAbove<V>(xs: seq<Pair<V>>, key: string, i: int): (r: int)
    requires -1 <= i < |xs|
    ensures -1 <= r <= i
    ensures forall j :: r < j <= i ==> Less(key, xs[j].key)
    ensures r >= 0 ==> !Less(key, xs[r].key)
    decreases i + 1
  {
    if i < 0 || !Less(key, xs[i].key) then i else LastNotAbove(xs, key, i - 1)
  }

  /** The loop of `shiftRightOneAfterFirstGreaterThan`, moving greater pairs right from `i` down. */
  function InsertShiftLoop<V>(s: seq<Option<Pair<V>>>, key: string, i: int): (r: (seq<Option<Pair<V>>>, int))
    requires -1 <= i && i + 1 < |s|
    requires forall j :: 0 <= j <= i ==> s[j].Some?
    ensures |r.0| == |s|
    decreases i + 1
  {
    if i >= 0 && Less(key, s[i].value.key) then InsertShiftLoop(s[i + 1 := s[i]][i := None], key, i - 1)
    else (s, i)
  }

  lemma {:induction false} InsertShiftLoopShifts<V>(orig: seq<Option<Pair<V>>>, xs: seq<Pair<V>>, key: string, i: int)
    requires |xs| < |orig| && forall j :: 0 <= j < |xs| ==> orig[j] == Some(xs[j])
    requires -1 <= i < |xs| && forall j :: i < j < |xs| ==> Less(key, xs[j].key)
    ensures var n := |xs|;
            var stop := LastNotAbove(xs, key, i);
            InsertShiftLoop(orig[..i + 1] + [None] + orig[i + 1..n] + orig[n + 1..], key, i)
            == (orig[..stop + 1] + [None] + orig[stop + 1..n] + orig[n + 1..], stop)
    decreases i + 1
  {
    var n := |xs|;
    var s := orig[..i + 1] + [None] + orig[i + 1..n] + orig[n + 1..];
    if i >= 0 {
      assert s[i] == orig[i];
      if Less(key, xs[i].key) {
        ShiftStep(orig, n, i);
        InsertShiftLoopShifts(orig, xs, key, i - 1);
      }
    }
  }

  /**
   * `shiftRightOneAfterFirstGreaterThan`: every pair whose key is above `key` moves one slot
   * right, scanning down from the last pair; the result is the slot just after the last pair
   * not above `key`, or that pair's own slot when its key equals `key`. Shifting the last pair
   * needs a free slot after it, or the source indexes past the end.
   */
  function ShiftRightOneAfterFirstGreaterThan<V>(c: Chunk<V>, key: string): (res: (Chunk<V>, int))
    requires Packed(c)
    requires var n := |Elements(c)|;
             n < |c.slots| || n == 0 || !Less(key, Elements(c)[n - 1].key)
    ensures var n := |Elements(c)|;
            var stop := LastNotAbove(Elements(c), key, n - 1);
            && (stop == n - 1 ==> res.0 == c)
            && (stop < n - 1 ==> res.0.slots == c.slots[..stop + 1] + [None] + c.slots[stop + 1..n] + c.slots[n + 1..])
            && res.1 == (if stop < 0 then 0 else if Elements(c)[stop].key == key then stop else stop + 1)
  {
    var xs := Elements(c);
    var n := |xs|;
    if n == 0 || !Less(key, xs[n - 1].key) then
      var r := if n == 0 then 0 else if xs[n - 1].key == key then n - 1 else n;
      (c, r)
    else
      ShiftRightLoopResult(c, key);
      var loop := InsertShiftLoop(c.slots, key, n - 1);
      var stop := loop.1;
      var r := if stop < 0 then 0 else if xs[stop].key == key then stop else stop + 1;
      (Chunk(loop.0), r)
  }

  /** The shifting loop of a chunk with a free slot stops at the last pair not above `key`, leaving a gap after it. */
  lemma ShiftRightLoopResult<V>(c: Chunk<V>, key: string)
    requires Packed(c)
    requires var n := |Elements(c)|; 0 < n < |c.slots| && Less(key, Elements(c)[n - 1].key)
    ensures var xs := Elements(c);
            var n := |xs|;
            var stop := LastNotAbove(xs, key, n - 1);
            InsertShiftLoop(c.slots, key, n - 1)
            == (c.slots[..stop + 1] + [None] + c.slots[stop + 1..n] + c.slots[n + 1..], stop)
  {
    var xs := Elements(c);
    var n := |xs|;
    GapAtEnd(c.slots, n);
    InsertShiftLoopShifts(c.slots, xs, key, n - 1);
  }

  /** A slot sequence whose slot n is empty is itself with that slot written as a gap. */
  lemma GapAtEnd<V>(s: seq<Option<Pair<V>>>, n: nat)
    requires n < |s| && s[n] == None
    ensures s == s[..(n - 1) + 1] + [None] + s[(n - 1) + 1..n] + s[n + 1..]
  {
  }

  /** Inserting a pair at the position where its key belongs keeps pairs sorted. */
  lemma InsertAtKeepsSorted<V>(xs: seq<Pair<V>>, i: nat, e: Pair<V>)
    requires SortedPairs(xs) && i <= |xs|
    requires forall j :: 0 <= j < |xs| ==> (Less(xs[j].key, e.key) <==> j < i)
    requires forall j :: 0 <= j < |xs| ==> xs[j].key != e.key
    ensures SortedPairs(xs[..i] + [e] + xs[i..])
  {
    var ys := xs[..i] + [e] + xs[i..];
    forall a, b | 0 <= a < b < |ys| ensures Less(ys[a].key, ys[b].key) {
      if b < i {
        assert ys[a] == xs[a] && ys[b] == xs[b];
      } else if b == i {
        assert ys[a] == xs[a];
      } else if a == i {
        assert ys[b] == xs[b - 1];
        Trichotomy(e.key, xs[b - 1].key);
      } else if a < i {
        assert ys[a] == xs[a] && ys[b] == xs[b - 1];
      } else {
        assert ys[a] == xs[a - 1] && ys[b] == xs[b - 1];
      }
    }
  }

  /** On sorted pairs, the slot returned for an absent key splits the keys below it from those above. */
  lemma InsertSlotSplitsKeys<V>(c: Chunk<V>, key: string)
    requires Packed(c) && SortedPairs(Elements(c)) && |Elements(c)| < |c.slots|
    requires forall j :: 0 <= j < |Elements(c)| ==> Elements(c)[j].key != key
    ensures var i := ShiftRightOneAfterFirstGreaterThan(c, key).1;
            0 <= i <= |Elements(c)|
            && (forall j :: 0 <= j < |Elements(c)| ==> (Less(Elements(c)[j].key, key) <==> j < i))
            && ShiftRightOneAfterFirstGreaterThan(c, key).0 == ShiftRightOne(c, i)
  {
    var xs := Elements(c);
    var n := |xs|;
    var stop := LastNotAbove(xs, key, n - 1);
    var i := ShiftRightOneAfterFirstGreaterThan(c, key).1;
    assert i == stop + 1;
    forall j | 0 <= j < n ensures Less(xs[j].key, key) <==> j < i {
      if j < i {
        Trichotomy(key, xs[stop].key);
        if j < stop {
          LessTransitive(xs[j].key, xs[stop].key, key);
        }
      } else {
        Trichotomy(key, xs[j].key);
      }
    }
  }

  /**
   * On sorted pairs and a key not present, the returned slot is the key's ordered position:
   * filling it inserts the pair and keeps the pairs sorted.
   */
  lemma InsertSlotIsOrderedPosition<V>(c: Chunk<V>, key: string, v: V)
    requires Packed(c) && SortedPairs(Elements(c)) && |Elements(c)| < |c.slots|
    requires forall j :: 0 <= j < |Elements(c)| ==> Elements(c)[j].key != key
    ensures var (c', i) := ShiftRightOneAfterFirstGreaterThan(c, key);
            0 <= i <= |Elements(c)|
            && var c'' := SetSlot(c', i, Pair(key, v)).0;
               Packed(c'') && Elements(c'') == Elements(c)[..i] + [Pair(key, v)] + Elements(c)[i..]
               && SortedPairs(Elements(c''))
  {
    var xs := Elements(c);
    var i := ShiftRightOneAfterFirstGreaterThan(c, key).1;
    InsertSlotSplitsKeys(c, key);
    ShiftRightThenSetInserts(c, i, Pair(key, v));
    InsertAtKeepsSorted(xs, i, Pair(key, v));
  }
}
