/**
 * A navigable map from integer keys (hash values) to values, kept as a sequence of entries in
 * strictly increasing key order: the shape of Java's TreeMap and ConcurrentSkipListMap.
 */
module SortedMaps {
  import opened Wrappers

  datatype Entry<V> = Entry(key: int, value: V)

  /** Keys strictly increase along the sequence, so each key occurs once. */
  predicate Sorted<V>(t: seq<Entry<V>>) {
    forall i, j :: 0 <= i < j < |t| ==> t[i].key < t[j].key
  }

  /** The keys present in the map. */
  function KeySet<V>(t: seq<Entry<V>>): set<int> {
    set i | 0 <= i < |t| :: t[i].key
  }

  /** `get`: the value stored under `k`, if any. */
  function Get<V>(t: seq<Entry<V>>, k: int): (r: Option<V>)
    ensures r.Some? <==> k in KeySet(t)
    ensures r.Some? ==> exists i :: 0 <= i < |t| && t[i] == Entry(k, r.value)
  {
    if |t| == 0 then None
    else if t[0].key == k then Some(t[0].value)
    else
      var r := Get(t[1..], k);
      assert KeySet(t) == {t[0].key} + KeySet(t[1..]) by {
        assert forall i :: 0 < i < |t| ==> t[i] == t[1..][i - 1];
      }
      assert forall i :: 0 <= i < |t[1..]| ==> t[1..][i] == t[i + 1];
      r
  }

  lemma KeySetCons<V>(e: Entry<V>, t: seq<Entry<V>>)
    ensures KeySet([e] + t) == {e.key} + KeySet(t)
  {
    var s := [e] + t;
    forall k | k in KeySet(s) ensures k in {e.key} + KeySet(t) {
      var i :| 0 <= i < |s| && s[i].key == k;
      if i > 0 {
        assert t[i - 1].key == k;
      }
    }
    forall k | k in KeySet(t) ensures k in KeySet(s) {
      var i :| 0 <= i < |t| && t[i].key == k;
      assert s[i + 1].key == k;
    }
    assert s[0].key == e.key;
  }

  /** A sorted map headed by an entry below all its keys is still sorted. */
  lemma SortedCons<V>(e: Entry<V>, t: seq<Entry<V>>)
    requires Sorted(t)
    requires forall k :: k in KeySet(t) ==> e.key < k
    ensures Sorted([e] + t)
  {
    var s := [e] + t;
    forall i, j | 0 <= i < j < |s| ensures s[i].key < s[j].key {
      assert s[j] == t[j - 1];
      if i == 0 {
        assert t[j - 1].key in KeySet(t);
      }
    }
  }

  /** The tail of a sorted map holds only keys above its head. */
  lemma SortedTail<V>(t: seq<Entry<V>>)
    requires Sorted(t) && |t| > 0
    ensures Sorted(t[1..])
    ensures forall k :: k in KeySet(t[1..]) ==> t[0].key < k
  {
    forall k | k in KeySet(t[1..]) ensures t[0].key < k {
      var i :| 0 <= i < |t[1..]| && t[1..][i].key == k;
      assert t[i + 1].key == k;
    }
  }

  /** `put`: the entry for `k` is replaced, or a new entry is inserted at its ordered place. */
  function Put<V>(t: seq<Entry<V>>, k: int, v: V): (r: seq<Entry<V>>)
    requires Sorted(t)
    ensures Sorted(r)
    ensures KeySet(r) == KeySet(t) + {k}
    ensures |t| == 0 ==> r == [Entry(k, v)]
  {
    if |t| == 0 then
      KeySetCons(Entry(k, v), t);
      assert [Entry(k, v)] + t == [Entry(k, v)];
      [Entry(k, v)]
    else if t[0].key == k then
      SortedTail(t);
      KeySetCons(t[0], t[1..]);
      KeySetCons(Entry(k, v), t[1..]);
      assert t == [t[0]] + t[1..];
      SortedCons(Entry(k, v), t[1..]);
      [Entry(k, v)] + t[1..]
    else if k < t[0].key then
      KeySetCons(Entry(k, v), t);
      SortedTail(t);
      KeySetCons(t[0], t[1..]);
      assert t == [t[0]] + t[1..];
      SortedCons(Entry(k, v), t);
      [Entry(k, v)] + t
    else
      SortedTail(t);
      var rest := Put(t[1..], k, v);
      KeySetCons(t[0], t[1..]);
      KeySetCons(t[0], rest);
      assert t == [t[0]] + t[1..];
      SortedCons(t[0], rest);
      [t[0]] + rest
  }

  /** After a put, `k` maps to the new value and every other key keeps its old value. */
  lemma {:induction false} GetAfterPut<V>(t: seq<Entry<V>>, k: int, v: V, k': int)
    requires Sorted(t)
    ensures Get(Put(t, k, v), k') == if k' == k then Some(v) else Get(t, k')
    decreases |t|
  {
    if |t| > 0 && t[0].key != k && k > t[0].key {
      GetAfterPut(t[1..], k, v, k');
      assert Put(t, k, v)[1..] == Put(t[1..], k, v);
    } else if |t| > 0 && t[0].key == k {
      assert Put(t, k, v)[1..] == t[1..];
      if k' != k {
        assert Get(t, k') == Get(t[1..], k');
      }
    } else if |t| > 0 {
      assert Put(t, k, v)[1..] == t;
    }
  }

  /** `putIfAbsent`: an existing entry for `k` wins; otherwise `k` is added with `v`. */
  function PutIfAbsent<V>(t: seq<Entry<V>>, k: int, v: V): (r: seq<Entry<V>>)
    requires Sorted(t)
    ensures Sorted(r)
    ensures KeySet(r) == KeySet(t) + {k}
  {
    if Get(t, k).Some? then t else Put(t, k, v)
  }

  /** After a put-if-absent, `k` keeps its old value if it had one and every other key is untouched. */
  lemma GetAfterPutIfAbsent<V>(t: seq<Entry<V>>, k: int, v: V, k': int)
    requires Sorted(t)
    ensures Get(PutIfAbsent(t, k, v), k') == if k' == k && Get(t, k).None? then Some(v) else Get(t, k')
  {
    if Get(t, k).None? {
      GetAfterPut(t, k, v, k');
    }
  }

  /** `remove`: drops the entry for `k`, if there is one. */
  function Remove<V>(t: seq<Entry<V>>, k: int): (r: seq<Entry<V>>)
    requires Sorted(t)
    ensures Sorted(r)
    ensures KeySet(r) == KeySet(t) - {k}
  {
    if |t| == 0 then t
    else
      SortedTail(t);
      KeySetCons(t[0], t[1..]);
      assert t == [t[0]] + t[1..];
      if t[0].key == k then t[1..]
      else
        var rest := Remove(t[1..], k);
        KeySetCons(t[0], rest);
        SortedCons(t[0], rest);
        [t[0]] + rest
  }

  /** After a remove, `k` is absent and every other key keeps its value. */
  lemma {:induction false} GetAfterRemove<V>(t: seq<Entry<V>>, k: int, k': int)
    requires Sorted(t)
    ensures Get(Remove(t, k), k') == if k' == k then None else Get(t, k')
    decreases |t|
  {
    if |t| > 0 && t[0].key != k {
      GetAfterRemove(t[1..], k, k');
      assert Remove(t, k)[1..] == Remove(t[1..], k);
    } else if |t| > 0 && k' != k {
      assert Get(t, k') == Get(t[1..], k');
    }
  }

  /** `ceilingEntry`: the entry with the smallest key not below `k`. */
  function Ceiling<V>(t: seq<Entry<V>>, k: int): (r: Option<Entry<V>>)
    requires Sorted(t)
    ensures r.Some? ==> exists i :: 0 <= i < |t| && t[i] == r.value
    ensures r.Some? ==> r.value.key >= k
    ensures r.Some? ==> forall i :: 0 <= i < |t| && t[i].key >= k ==> r.value.key <= t[i].key
    ensures r.None? <==> forall i :: 0 <= i < |t| ==> t[i].key < k
  {
    if |t| == 0 then None
    else if t[0].key >= k then Some(t[0])
    else
      var r := Ceiling(t[1..], k);
      assert forall i :: 0 <= i < |t[1..]| ==> t[1..][i] == t[i + 1];
      assert forall i :: 1 <= i < |t| ==> t[i] == t[1..][i - 1];
      r
  }

  /** `firstEntry`: the entry with the smallest key. */
  function First<V>(t: seq<Entry<V>>): (r: Option<Entry<V>>)
    requires Sorted(t)
    ensures r.None? <==> |t| == 0
    ensures r.Some? ==> r.value == t[0] && forall i :: 0 <= i < |t| ==> r.value.key <= t[i].key
  {
    if |t| == 0 then None else Some(t[0])
  }
}
