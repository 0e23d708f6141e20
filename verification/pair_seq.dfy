/**
 * Sequences of key-value pairs in key order: the in-order contents of a B-tree, and the
 * lookup, insertion, replacement and deletion they support.
 */
module PairSequences {
  import opened Wrappers
  import opened Text
  import opened Chunks

  /** The concatenation of a sequence of sequences. */
  function Flatten<T>(ss: seq<seq<T>>): seq<T> {
    if |ss| == 0 then [] else ss[0] + Flatten(ss[1..])
  }

  lemma {:induction false} FlattenAppend<T>(a: seq<seq<T>>, b: seq<seq<T>>)
    ensures Flatten(a + b) == Flatten(a) + Flatten(b)
    decreases |a|
  {
    if |a| > 0 {
      assert (a + b)[1..] == a[1..] + b;
      FlattenAppend(a[1..], b);
    } else {
      assert a + b == b;
    }
  }

  /** The flattening of a sequence split around one of its elements. */
  lemma FlattenSplit<T>(ss: seq<seq<T>>, i: nat)
    requires i < |ss|
    ensures Flatten(ss) == Flatten(ss[..i]) + ss[i] + Flatten(ss[i + 1..])
  {
    SplitAround(ss, i);
    FlattenAppend(ss[..i] + [ss[i]], ss[i + 1..]);
    FlattenSnoc(ss[..i], ss[i]);
  }

  /** A sequence is its prefix, one element and its suffix. */
  lemma SplitAround<T>(s: seq<T>, i: nat)
    requires i < |s|
    ensures s == s[..i] + [s[i]] + s[i + 1..]
  {
  }

  lemma FlattenSingle<T>(x: seq<T>)
    ensures Flatten([x]) == x
  {
    assert Flatten([x]) == x + Flatten([]);
  }

  lemma FlattenSnoc<T>(ss: seq<seq<T>>, x: seq<T>)
    ensures Flatten(ss + [x]) == Flatten(ss) + x
  {
    FlattenAppend(ss, [x]);
    FlattenSingle(x);
  }

  /** Flattening with two adjacent pieces in the middle. */
  lemma FlattenAroundTwo<T>(a: seq<seq<T>>, x: seq<T>, y: seq<T>, b: seq<seq<T>>)
    ensures Flatten(a + [x, y] + b) == Flatten(a) + x + y + Flatten(b)
  {
    FlattenAppend(a + [x, y], b);
    FlattenAppend(a, [x, y]);
    assert [x, y][1..] == [y];
    FlattenSingle(y);
  }

  /** Splitting one piece in two keeps the flattening. */
  lemma FlattenSplitPiece<T>(ss: seq<seq<T>>, i: nat, x: seq<T>, y: seq<T>)
    requires i < |ss| && ss[i] == x + y
    ensures Flatten(ss[..i] + [x, y] + ss[i + 1..]) == Flatten(ss)
  {
    FlattenAroundTwo(ss[..i], x, y, ss[i + 1..]);
    FlattenSplit(ss, i);
    ConcatAssoc(Flatten(ss[..i]), x, y, Flatten(ss[i + 1..]));
  }

  lemma ConcatAssoc<T>(a: seq<T>, x: seq<T>, y: seq<T>, b: seq<T>)
    ensures a + x + y + b == a + (x + y) + b
  {
  }

  /** The value of the first pair with `key`, if any. */
  function Lookup<V>(xs: seq<Pair<V>>, key: string): (r: Option<V>)
    ensures r.None? <==> forall j :: 0 <= j < |xs| ==> xs[j].key != key
  {
    if |xs| == 0 then None
    else if xs[0].key == key then Some(xs[0].value)
    else
      var r := Lookup(xs[1..], key);
      assert forall j :: 1 <= j < |xs| ==> xs[j] == xs[1..][j - 1];
      r
  }

  /** The keys of the pairs. */
  ghost function KeysOf<V>(xs: seq<Pair<V>>): set<string> {
    set j | 0 <= j < |xs| :: xs[j].key
  }

  lemma {:induction false} LookupAppend<V>(a: seq<Pair<V>>, b: seq<Pair<V>>, key: string)
    ensures Lookup(a + b, key) == if Lookup(a, key).Some? then Lookup(a, key) else Lookup(b, key)
    decreases |a|
  {
    if |a| > 0 {
      assert (a + b)[1..] == a[1..] + b;
      LookupAppend(a[1..], b, key);
    } else {
      assert a + b == b;
    }
  }

  /** In sorted pairs, a pair's key finds exactly that pair's value. */
  lemma {:induction false} LookupSortedAt<V>(xs: seq<Pair<V>>, m: nat)
    requires SortedPairs(xs) && m < |xs|
    ensures Lookup(xs, xs[m].key) == Some(xs[m].value)
    decreases m
  {
    if m > 0 {
      assert xs[0].key != xs[m].key by {
        LessIrreflexive(xs[m].key);
      }
      assert xs[1..][m - 1] == xs[m];
      LookupSortedAt(xs[1..], m - 1);
    }
  }

  /** A contiguous piece of a sorted sequence is sorted. */
  lemma SortedSlice<V>(a: seq<Pair<V>>, b: seq<Pair<V>>, c: seq<Pair<V>>)
    requires SortedPairs(a + b + c)
    ensures SortedPairs(b) && SortedPairs(a) && SortedPairs(c)
  {
    var s := a + b + c;
    forall i, j | 0 <= i < j < |b| ensures Less(b[i].key, b[j].key) {
      assert b[i] == s[|a| + i] && b[j] == s[|a| + j];
    }
    forall i, j | 0 <= i < j < |c| ensures Less(c[i].key, c[j].key) {
      assert c[i] == s[|a| + |b| + i] && c[j] == s[|a| + |b| + j];
    }
    forall i, j | 0 <= i < j < |a| ensures Less(a[i].key, a[j].key) {
      assert a[i] == s[i] && a[j] == s[j];
    }
  }

  /** Every key of a sorted sequence is below every key of the pairs after it. */
  lemma SortedParts<V>(a: seq<Pair<V>>, b: seq<Pair<V>>)
    requires SortedPairs(a + b)
    ensures forall i, j :: 0 <= i < |a| && 0 <= j < |b| ==> Less(a[i].key, b[j].key)
  {
    forall i, j | 0 <= i < |a| && 0 <= j < |b| ensures Less(a[i].key, b[j].key) {
      assert (a + b)[i] == a[i] && (a + b)[|a| + j] == b[j];
    }
  }

  /** Sequences sorted on their own, with every key of the first below every key of the second, join sorted. */
  lemma SortedJoin<V>(a: seq<Pair<V>>, b: seq<Pair<V>>)
    requires SortedPairs(a) && SortedPairs(b)
    requires forall i, j :: 0 <= i < |a| && 0 <= j < |b| ==> Less(a[i].key, b[j].key)
    ensures SortedPairs(a + b)
  {
    var s := a + b;
    forall i, j | 0 <= i < j < |s| ensures Less(s[i].key, s[j].key) {
      if j < |a| {
        assert s[i] == a[i] && s[j] == a[j];
      } else if i < |a| {
        assert s[i] == a[i] && s[j] == b[j - |a|];
      } else {
        assert s[i] == b[i - |a|] && s[j] == b[j - |a|];
      }
    }
  }

  /** All keys strictly below `key`. */
  predicate AllBelow<V>(xs: seq<Pair<V>>, key: string) {
    forall j :: 0 <= j < |xs| ==> Less(xs[j].key, key)
  }

  /** All keys strictly above `key`. */
  predicate AllAbove<V>(xs: seq<Pair<V>>, key: string) {
    forall j :: 0 <= j < |xs| ==> Less(key, xs[j].key)
  }

  /** In a sorted sequence ending in a key below `key`, every key is below `key`. */
  lemma SortedEndsBelow<V>(xs: seq<Pair<V>>, key: string)
    requires SortedPairs(xs) && |xs| > 0 && Less(xs[|xs| - 1].key, key)
    ensures AllBelow(xs, key)
  {
    forall j | 0 <= j < |xs| - 1 ensures Less(xs[j].key, key) {
      LessTransitive(xs[j].key, xs[|xs| - 1].key, key);
    }
  }

  /** In a sorted sequence starting with a key above `key`, every key is above `key`. */
  lemma SortedStartsAbove<V>(xs: seq<Pair<V>>, key: string)
    requires SortedPairs(xs) && |xs| > 0 && Less(key, xs[0].key)
    ensures AllAbove(xs, key)
  {
    forall j | 0 < j < |xs| ensures Less(key, xs[j].key) {
      LessTransitive(key, xs[0].key, xs[j].key);
    }
  }

  lemma LookupMissesBelow<V>(xs: seq<Pair<V>>, key: string)
    requires AllBelow(xs, key)
    ensures Lookup(xs, key).None?
  {
    forall j | 0 <= j < |xs| ensures xs[j].key != key {
      LessIrreflexive(key);
    }
  }

  lemma LookupMissesAbove<V>(xs: seq<Pair<V>>, key: string)
    requires AllAbove(xs, key)
    ensures Lookup(xs, key).None?
  {
    forall j | 0 <= j < |xs| ensures xs[j].key != key {
      LessIrreflexive(key);
    }
  }

  /** A lookup in a sequence whose other parts lie wholly below and above `key` looks only in the middle. */
  lemma LookupMiddle<V>(a: seq<Pair<V>>, b: seq<Pair<V>>, c: seq<Pair<V>>, key: string)
    requires AllBelow(a, key) && AllAbove(c, key)
    ensures Lookup(a + b + c, key) == Lookup(b, key)
  {
    LookupMissesBelow(a, key);
    LookupMissesAbove(c, key);
    LookupAppend(a + b, c, key);
    LookupAppend(a, b, key);
  }

  /* ---------------- insertion ---------------- */

  /** The pair placed before the first key above its own; the reference for sorted insertion. */
  function InsertSorted<V>(xs: seq<Pair<V>>, p: Pair<V>): (r: seq<Pair<V>>)
    ensures |r| == |xs| + 1
  {
    if |xs| == 0 then [p]
    else if Less(p.key, xs[0].key) then [p] + xs
    else
      var rest := InsertSorted(xs[1..], p);
      assert xs == [xs[0]] + xs[1..];
      [xs[0]] + rest
  }

  /** Sorted insertion is the pair placed at the point splitting the keys below it from the rest. */
  lemma {:induction false} InsertSortedAt<V>(xs: seq<Pair<V>>, i: nat, p: Pair<V>)
    requires i <= |xs| && AllBelow(xs[..i], p.key) && AllAbove(xs[i..], p.key)
    ensures InsertSorted(xs, p) == xs[..i] + [p] + xs[i..]
    decreases |xs|
  {
    if |xs| > 0 {
      if i == 0 {
        assert xs[0] == xs[i..][0];
      } else {
        assert xs[0] == xs[..i][0];
        LessAsymmetric(xs[0].key, p.key);
        assert xs[1..][..i - 1] == xs[1..i];
        var below := xs[1..][..i - 1];
        assert AllBelow(below, p.key) by {
          forall j | 0 <= j < |below| ensures Less(below[j].key, p.key) {
            assert below[j] == xs[..i][j + 1];
          }
        }
        assert xs[1..][i - 1..] == xs[i..];
        InsertSortedAt(xs[1..], i - 1, p);
        assert xs[..i] == [xs[0]] + xs[1..i];
      }
    }
  }

  /** Sorted insertion adds exactly the one pair. */
  lemma {:induction false} InsertSortedPermutes<V>(xs: seq<Pair<V>>, p: Pair<V>)
    ensures multiset(InsertSorted(xs, p)) == multiset(xs) + multiset{p}
    decreases |xs|
  {
    if |xs| > 0 && !Less(p.key, xs[0].key) {
      InsertSortedPermutes(xs[1..], p);
      assert xs == [xs[0]] + xs[1..];
    }
  }

  /** Sorted insertion of a new key keeps the sequence sorted. */
  lemma {:induction false} InsertSortedIsSorted<V>(xs: seq<Pair<V>>, p: Pair<V>)
    requires SortedPairs(xs) && Lookup(xs, p.key).None?
    ensures SortedPairs(InsertSorted(xs, p))
    decreases |xs|
  {
    if |xs| > 0 {
      assert xs[0].key != p.key;
      if Less(p.key, xs[0].key) {
        SortedStartsAbove(xs, p.key);
        SortedJoin([p], xs);
      } else {
        Trichotomy(p.key, xs[0].key);
        SortedSlice([xs[0]], xs[1..], []);
        assert xs == [xs[0]] + xs[1..];
        assert Lookup(xs[1..], p.key).None? by {
          assert forall j :: 0 <= j < |xs[1..]| ==> xs[1..][j] == xs[j + 1];
        }
        InsertSortedIsSorted(xs[1..], p);
        var r := InsertSorted(xs[1..], p);
        InsertBehindHead(xs, p);
        SortedJoin([xs[0]], r);
      }
    }
  }

  /** Inserting a key above the head of a sorted sequence into its tail keeps every key above the head. */
  lemma InsertBehindHead<V>(xs: seq<Pair<V>>, p: Pair<V>)
    requires SortedPairs(xs) && |xs| > 0 && Less(xs[0].key, p.key)
    ensures AllAbove(InsertSorted(xs[1..], p), xs[0].key)
  {
    var r := InsertSorted(xs[1..], p);
    InsertSortedPermutes(xs[1..], p);
    forall j | 0 <= j < |r| ensures Less(xs[0].key, r[j].key) {
      assert r[j] in multiset(r);
      if r[j] != p {
        assert r[j] in multiset(xs[1..]);
        var m :| 0 <= m < |xs[1..]| && xs[1..][m] == r[j];
        assert xs[m + 1] == r[j];
      }
    }
  }

  /** Inserting into the middle part of a sequence whose outer parts lie below and above the key. */
  lemma InsertSortedMiddle<V>(a: seq<Pair<V>>, b: seq<Pair<V>>, c: seq<Pair<V>>, p: Pair<V>)
    requires AllBelow(a, p.key) && AllAbove(c, p.key)
    ensures InsertSorted(a + b + c, p) == a + InsertSorted(b, p) + c
  {
    var bc := b + c;
    var ib := InsertSorted(b, p);
    InsertSortedAfter(a, bc, p);
    InsertSortedBefore(b, c, p);
    assert a + b + c == a + bc;
    assert a + (ib + c) == a + ib + c;
  }

  lemma {:induction false} InsertSortedAfter<V>(a: seq<Pair<V>>, rest: seq<Pair<V>>, p: Pair<V>)
    requires AllBelow(a, p.key)
    ensures InsertSorted(a + rest, p) == a + InsertSorted(rest, p)
    decreases |a|
  {
    if |a| > 0 {
      assert a + rest == [a[0]] + (a[1..] + rest);
      InsertSortedPast(a[0], a[1..] + rest, p);
      assert AllBelow(a[1..], p.key) by {
        forall j | 0 <= j < |a[1..]| ensures Less(a[1..][j].key, p.key) {
          assert a[1..][j] == a[j + 1];
        }
      }
      InsertSortedAfter(a[1..], rest, p);
      assert a == [a[0]] + a[1..];
    } else {
      assert a + rest == rest;
    }
  }

  /** Insertion passes over a smaller first key. */
  lemma InsertSortedPast<V>(x: Pair<V>, rest: seq<Pair<V>>, p: Pair<V>)
    requires Less(x.key, p.key)
    ensures InsertSorted([x] + rest, p) == [x] + InsertSorted(rest, p)
  {
    LessAsymmetric(x.key, p.key);
    assert ([x] + rest)[1..] == rest;
  }

  lemma {:induction false} InsertSortedBefore<V>(b: seq<Pair<V>>, c: seq<Pair<V>>, p: Pair<V>)
    requires AllAbove(c, p.key)
    ensures InsertSorted(b + c, p) == InsertSorted(b, p) + c
    decreases |b|
  {
    if |b| > 0 {
      assert (b + c)[0] == b[0];
      assert (b + c)[1..] == b[1..] + c;
      InsertSortedBefore(b[1..], c, p);
    } else {
      assert b + c == c;
      if |c| > 0 {
        assert c[0] == c[..][0];
      }
    }
  }

  /** After sorted insertion of a new key, that key finds the new value and every other key its old one. */
  lemma LookupAfterInsertSorted<V>(xs: seq<Pair<V>>, p: Pair<V>, key: string)
    requires Lookup(xs, p.key).None?
    ensures Lookup(InsertSorted(xs, p), key) == if key == p.key then Some(p.value) else Lookup(xs, key)
    decreases |xs|
  {
    if |xs| > 0 && !Less(p.key, xs[0].key) {
      assert Lookup(xs[1..], p.key).None? by {
        assert forall j :: 0 <= j < |xs[1..]| ==> xs[1..][j] == xs[j + 1];
      }
      LookupAfterInsertSorted(xs[1..], p, key);
    }
  }

  /* ---------------- replacement and deletion ---------------- */

  /** Every pair with `key` takes the value `v`. */
  function ReplaceValue<V>(xs: seq<Pair<V>>, key: string, v: V): (r: seq<Pair<V>>)
    ensures |r| == |xs|
    ensures forall j :: 0 <= j < |xs| ==> r[j].key == xs[j].key
  {
    seq(|xs|, j requires 0 <= j < |xs| => if xs[j].key == key then Pair(key, v) else xs[j])
  }

  lemma ReplaceValueAppend<V>(a: seq<Pair<V>>, b: seq<Pair<V>>, key: string, v: V)
    ensures ReplaceValue(a + b, key, v) == ReplaceValue(a, key, v) + ReplaceValue(b, key, v)
  {
  }

  lemma ReplaceValueMisses<V>(xs: seq<Pair<V>>, key: string, v: V)
    requires forall j :: 0 <= j < |xs| ==> xs[j].key != key
    ensures ReplaceValue(xs, key, v) == xs
  {
  }

  /** In sorted pairs, replacing the value of a present key changes that one position only. */
  lemma ReplaceValueAt<V>(xs: seq<Pair<V>>, m: nat, v: V)
    requires SortedPairs(xs) && m < |xs|
    ensures ReplaceValue(xs, xs[m].key, v) == xs[m := Pair(xs[m].key, v)]
  {
    forall j | 0 <= j < |xs| && j != m ensures xs[j].key != xs[m].key {
      LessIrreflexive(xs[m].key);
    }
  }

  /** Replacing a value keeps the keys, hence the order. */
  lemma ReplaceValueSorted<V>(xs: seq<Pair<V>>, key: string, v: V)
    requires SortedPairs(xs)
    ensures SortedPairs(ReplaceValue(xs, key, v))
  {
  }

  /** After a replacement, the key finds the new value if it was present, and other keys are untouched. */
  lemma LookupAfterReplace<V>(xs: seq<Pair<V>>, key: string, v: V, k: string)
    ensures Lookup(ReplaceValue(xs, key, v), k)
            == if k == key && Lookup(xs, key).Some? then Some(v) else Lookup(xs, k)
    decreases |xs|
  {
    if |xs| > 0 {
      assert ReplaceValue(xs, key, v)[1..] == ReplaceValue(xs[1..], key, v);
      LookupAfterReplace(xs[1..], key, v, k);
    }
  }

  /** The pairs other than those with `key`. */
  function RemoveKey<V>(xs: seq<Pair<V>>, key: string): (r: seq<Pair<V>>)
    ensures |r| <= |xs|
    ensures forall j :: 0 <= j < |r| ==> r[j].key != key
  {
    if |xs| == 0 then []
    else if xs[0].key == key then RemoveKey(xs[1..], key)
    else [xs[0]] + RemoveKey(xs[1..], key)
  }

  lemma {:induction false} RemoveKeyAppend<V>(a: seq<Pair<V>>, b: seq<Pair<V>>, key: string)
    ensures RemoveKey(a + b, key) == RemoveKey(a, key) + RemoveKey(b, key)
    decreases |a|
  {
    if |a| > 0 {
      assert (a + b)[1..] == a[1..] + b;
      RemoveKeyAppend(a[1..], b, key);
    } else {
      assert a + b == b;
    }
  }

  lemma {:induction false} RemoveKeyMisses<V>(xs: seq<Pair<V>>, key: string)
    requires forall j :: 0 <= j < |xs| ==> xs[j].key != key
    ensures RemoveKey(xs, key) == xs
    decreases |xs|
  {
    if |xs| > 0 {
      RemoveKeyMisses(xs[1..], key);
    }
  }

  /** After removing a key, it is gone and every other key finds its old value. */
  lemma {:induction false} LookupAfterRemoveKey<V>(xs: seq<Pair<V>>, key: string, k: string)
    ensures Lookup(RemoveKey(xs, key), k) == if k == key then None else Lookup(xs, k)
    decreases |xs|
  {
    if |xs| > 0 {
      LookupAfterRemoveKey(xs[1..], key, k);
    }
  }

  /** In sorted pairs, no pair other than p carries p's key. */
  lemma PivotKeyUnique<V>(a: seq<Pair<V>>, p: Pair<V>, b: seq<Pair<V>>)
    requires SortedPairs(a + [p] + b)
    ensures forall j :: 0 <= j < |a| ==> a[j].key != p.key
    ensures forall j :: 0 <= j < |b| ==> b[j].key != p.key
  {
    var xs := a + [p] + b;
    assert xs[|a|] == p;
    LessIrreflexive(p.key);
    forall j | 0 <= j < |a| ensures a[j].key != p.key {
      assert xs[j] == a[j];
    }
    forall j | 0 <= j < |b| ensures b[j].key != p.key {
      assert xs[|a| + 1 + j] == b[j];
    }
  }

  /** In sorted pairs, removing the key of one pair removes exactly that pair. */
  lemma RemoveKeyAtPivot<V>(a: seq<Pair<V>>, p: Pair<V>, b: seq<Pair<V>>)
    requires SortedPairs(a + [p] + b)
    ensures RemoveKey(a + [p] + b, p.key) == a + b
  {
    PivotKeyUnique(a, p, b);
    RemoveKeyAppend(a + [p], b, p.key);
    RemoveKeyAppend(a, [p], p.key);
    assert RemoveKey([p], p.key) == RemoveKey([p][1..], p.key) == [];
    RemoveKeyMisses(a, p.key);
    RemoveKeyMisses(b, p.key);
  }

  /** Removing a key keeps a sorted sequence sorted. */
  lemma {:induction false} RemoveKeySorted<V>(xs: seq<Pair<V>>, key: string)
    requires SortedPairs(xs)
    ensures SortedPairs(RemoveKey(xs, key))
    ensures forall p :: p in RemoveKey(xs, key) ==> p in xs
    decreases |xs|
  {
    if |xs| > 0 {
      SortedSlice([xs[0]], xs[1..], []);
      assert xs == [xs[0]] + xs[1..];
      RemoveKeySorted(xs[1..], key);
      var r := RemoveKey(xs[1..], key);
      if xs[0].key != key {
        forall j | 0 <= j < |r| ensures Less(xs[0].key, r[j].key) {
          assert r[j] in xs[1..];
          var m :| 0 <= m < |xs[1..]| && xs[1..][m] == r[j];
          assert xs[m + 1] == r[j];
        }
        SortedJoin([xs[0]], r);
      }
    }
  }
}
