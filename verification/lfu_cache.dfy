/**
 * The least-frequently-used cache: a map from key to value and list position, and a list of
 * keys with their access counts meant to be kept in descending count order, so that the last
 * entry is the one evicted when a new key arrives at a full cache.
 */
module LfuCaches {
  import opened Wrappers
  import opened Messages

  /** `ListNode`: a key and how often it was read. */
  datatype Entry = Entry(key: string, freq: int)

  /** `MapNode`: the cached value and the key's position in the frequency list. */
  datatype Slot = Slot(value: string, listIndex: int)

  /** `LFUCache`. */
  datatype Cache = Cache(slots: map<string, Slot>, list: seq<Entry>, maxEntries: int)

  /** A failed argument check: a capacity that is not positive, or a missing value. */
  datatype CacheError = PreconditionViolation

  /**
   * The cache's own bookkeeping: a positive capacity that the list respects, every mapped key's
   * position holding that key, every listed key mapped back to its position (so keys are
   * distinct), and counts that are never negative.
   */
  predicate CacheInv(c: Cache) {
    && 0 < c.maxEntries && |c.list| <= c.maxEntries
    && (forall k :: k in c.slots ==> 0 <= c.slots[k].listIndex < |c.list| && c.list[c.slots[k].listIndex].key == k)
    && (forall m :: 0 <= m < |c.list| ==> c.list[m].key in c.slots && c.slots[c.list[m].key].listIndex == m)
    && (forall m :: 0 <= m < |c.list| ==> c.list[m].freq >= 0)
  }

  /** The order the list is documented to keep: counts never increase along it. */
  predicate Descending(list: seq<Entry>) {
    forall a, b :: 0 <= a < b < |list| ==> list[a].freq >= list[b].freq
  }

  /** A key's access count, read through its recorded position; -1 for a key without a valid position. */
  function Freq(c: Cache, k: string): int {
    if k in c.slots && 0 <= c.slots[k].listIndex < |c.list| then c.list[c.slots[k].listIndex].freq else -1
  }

  /** Two caches hold the same keys with the same values. */
  predicate SameValues(c: Cache, r: Cache) {
    c.slots.Keys == r.slots.Keys && forall k :: k in c.slots ==> r.slots[k].value == c.slots[k].value
  }

  /** The constructor: an empty cache; the capacity must be positive. */
  function New(maxEntries: int): (r: Result<Cache, CacheError>)
    ensures r.Ok? <==> maxEntries > 0
    ensures r.Ok? ==> CacheInv(r.value) && r.value.slots == map[] && r.value.maxEntries == maxEntries
  {
    if maxEntries > 0 then Ok(Cache(map[], [], maxEntries)) else Err(PreconditionViolation)
  }

  /* ---------------- moving an entry up the list ---------------- */

  /** The list with entry i, replaced by e, moved to position j and entries j..i-1 pushed down by one. */
  function MoveUp(list: seq<Entry>, i: nat, j: nat, e: Entry): (r: seq<Entry>)
    requires j <= i < |list|
    ensures |r| == |list| && r[j] == e
    decreases i - j
  {
    if i == j then list[i := e] else MoveUp(list[i := list[i - 1]], i - 1, j, e)
  }

  /** Where each entry of a moved-up list comes from. */
  lemma {:induction false} MoveUpAt(list: seq<Entry>, i: nat, j: nat, e: Entry, m: nat)
    requires j <= i < |list| && m < |list|
    ensures MoveUp(list, i, j, e)[m] == if m < j then list[m] else if m == j then e
                                        else if m <= i then list[m - 1] else list[m]
    decreases i - j
  {
    if i > j {
      MoveUpAt(list[i := list[i - 1]], i - 1, j, e, m);
    }
  }

  /** The positions after moving the entry at i to j: keys at j..i-1 move one place down. */
  function Reindexed(slots: map<string, Slot>, key: string, i: int, j: int): map<string, Slot> {
    map k | k in slots ::
      if k == key then Slot(slots[k].value, j)
      else if j <= slots[k].listIndex < i then Slot(slots[k].value, slots[k].listIndex + 1)
      else slots[k]
  }

  /**
   * The cache after the entry of `key`, at position i, is counted once more and moved to position
   * j: keys at positions j..i-1 move one place down, everything else stays.
   */
  function Promote(c: Cache, key: string, j: nat): (r: Cache)
    requires CacheInv(c) && key in c.slots && j <= c.slots[key].listIndex
    ensures CacheInv(r) && r.maxEntries == c.maxEntries && |r.list| == |c.list| && SameValues(c, r)
    ensures var i := c.slots[key].listIndex;
            r.list == MoveUp(c.list, i, j, Entry(key, c.list[i].freq + 1))
  {
    var i := c.slots[key].listIndex;
    var r := Cache(Reindexed(c.slots, key, i, j), MoveUp(c.list, i, j, Entry(key, c.list[i].freq + 1)), c.maxEntries);
    PromoteSlotsPoint(c, key, j, r);
    PromoteListPoints(c, key, j, r);
    PromoteFreqs(c, key, j, r);
    r
  }

  /** A move up counts the moved key once more and leaves every other count alone. */
  lemma PromoteCounts(c: Cache, key: string, j: nat)
    requires CacheInv(c) && key in c.slots && j <= c.slots[key].listIndex
    ensures forall k :: k in c.slots ==> Freq(Promote(c, key, j), k) == if k == key then Freq(c, k) + 1 else Freq(c, k)
  {
    PromoteFreqs(c, key, j, Promote(c, key, j));
  }

  /** After a move up, every key's recorded position holds that key. */
  lemma PromoteSlotsPoint(c: Cache, key: string, j: nat, r: Cache)
    requires CacheInv(c) && key in c.slots && j <= c.slots[key].listIndex
    requires var i := c.slots[key].listIndex;
             && r.slots == Reindexed(c.slots, key, i, j)
             && r.list == MoveUp(c.list, i, j, Entry(key, c.list[i].freq + 1))
    ensures forall k :: k in r.slots ==> 0 <= r.slots[k].listIndex < |r.list| && r.list[r.slots[k].listIndex].key == k
  {
    forall k | k in r.slots
      ensures 0 <= r.slots[k].listIndex < |r.list| && r.list[r.slots[k].listIndex].key == k
    {
      PromoteSlotPoints(c, key, j, r, k);
    }
  }

  /** After a move up, one key's recorded position holds that key. */
  lemma PromoteSlotPoints(c: Cache, key: string, j: nat, r: Cache, k: string)
    requires CacheInv(c) && key in c.slots && j <= c.slots[key].listIndex && k in c.slots
    requires var i := c.slots[key].listIndex;
             && r.slots == Reindexed(c.slots, key, i, j)
             && r.list == MoveUp(c.list, i, j, Entry(key, c.list[i].freq + 1))
    ensures k in r.slots && 0 <= r.slots[k].listIndex < |r.list| && r.list[r.slots[k].listIndex].key == k
  {
    var i := c.slots[key].listIndex;
    var p := c.slots[k].listIndex;
    var q := if k == key then j else if j <= p < i then p + 1 else p;
    assert r.slots[k].listIndex == q;
    assert k != key ==> p != i by {
      assert c.list[p].key == k;
    }
    MoveUpAt(c.list, i, j, Entry(key, c.list[i].freq + 1), q);
  }

  /** After a move up, every listed key records its new position, and no count is negative. */
  lemma PromoteListPoints(c: Cache, key: string, j: nat, r: Cache)
    requires CacheInv(c) && key in c.slots && j <= c.slots[key].listIndex
    requires var i := c.slots[key].listIndex;
             && r.slots == Reindexed(c.slots, key, i, j)
             && r.list == MoveUp(c.list, i, j, Entry(key, c.list[i].freq + 1))
    ensures forall m :: 0 <= m < |r.list| ==> r.list[m].key in r.slots && r.slots[r.list[m].key].listIndex == m
    ensures forall m :: 0 <= m < |r.list| ==> r.list[m].freq >= 0
  {
    var i := c.slots[key].listIndex;
    forall m | 0 <= m < |r.list|
      ensures r.list[m].key in r.slots && r.slots[r.list[m].key].listIndex == m
      ensures r.list[m].freq >= 0
    {
      MoveUpAt(c.list, i, j, Entry(key, c.list[i].freq + 1), m);
      if m < j || i < m {
        assert c.list[m].key != key by {
          assert c.slots[c.list[m].key].listIndex == m;
        }
      } else if j < m {
        var k := c.list[m - 1].key;
        assert c.slots[k].listIndex == m - 1;
      }
    }
  }

  /** After a move up, the moved key's count is one higher and every other count is unchanged. */
  lemma PromoteFreqs(c: Cache, key: string, j: nat, r: Cache)
    requires CacheInv(c) && key in c.slots && j <= c.slots[key].listIndex
    requires CacheInv(r)
    requires var i := c.slots[key].listIndex;
             && r.slots == Reindexed(c.slots, key, i, j)
             && r.list == MoveUp(c.list, i, j, Entry(key, c.list[i].freq + 1))
    ensures SameValues(c, r)
    ensures forall k :: k in c.slots ==> Freq(r, k) == if k == key then Freq(c, k) + 1 else Freq(c, k)
  {
    var i := c.slots[key].listIndex;
    var e := Entry(key, c.list[i].freq + 1);
    MoveUpAt(c.list, i, j, e, j);
    assert r.slots[key].listIndex == j;
    forall k | k in c.slots && k != key ensures r.list[r.slots[k].listIndex].freq == c.list[c.slots[k].listIndex].freq {
      PromoteKeepsFreq(c, key, j, r, k);
    }
  }

  /** After a move up, a key other than the moved one keeps its count. */
  lemma PromoteKeepsFreq(c: Cache, key: string, j: nat, r: Cache, k: string)
    requires CacheInv(c) && key in c.slots && j <= c.slots[key].listIndex && k in c.slots && k != key
    requires var i := c.slots[key].listIndex;
             && r.slots == Reindexed(c.slots, key, i, j)
             && r.list == MoveUp(c.list, i, j, Entry(key, c.list[i].freq + 1))
    ensures k in r.slots && 0 <= r.slots[k].listIndex < |r.list|
    ensures r.list[r.slots[k].listIndex].freq == c.list[c.slots[k].listIndex].freq
  {
    var i := c.slots[key].listIndex;
    var p := c.slots[k].listIndex;
    var q := if j <= p < i then p + 1 else p;
    assert r.slots[k].listIndex == q;
    assert p != i by {
      assert c.list[p].key == k;
    }
    MoveUpAt(c.list, i, j, Entry(key, c.list[i].freq + 1), q);
  }

  /* ---------------- get ---------------- */

  /** The position an entry moves to in `get` as written: one place up when its predecessor was read less often. */
  function OneStepUp(list: seq<Entry>, i: nat, nf: int): (j: nat)
    requires i < |list|
    ensures j <= i
  {
    if i > 0 && list[i - 1].freq < nf then i - 1 else i
  }

  /**
   * `get` as written: a miss gives GET_ERROR and changes nothing; a hit counts the access, swaps
   * the entry with its predecessor when that one now has the smaller count, and gives GET_SUCCESS
   * with the value.
   */
  function GetAsWritten(c: Cache, key: string): (r: (Cache, KVMessage))
    requires CacheInv(c)
    ensures CacheInv(r.0) && SameValues(c, r.0) && r.0.maxEntries == c.maxEntries
    ensures key !in c.slots ==> r == (c, KeyMessage(key, GetError))
    ensures key in c.slots ==> r.1 == KeyValueMessage(key, c.slots[key].value, GetSuccess)
    ensures forall k :: k in c.slots ==> Freq(r.0, k) == if k == key then Freq(c, k) + 1 else Freq(c, k)
  {
    if key !in c.slots then (c, KeyMessage(key, GetError))
    else
      var i := c.slots[key].listIndex;
      var j := OneStepUp(c.list, i, c.list[i].freq + 1);
      PromoteCounts(c, key, j);
      (Promote(c, key, j), KeyValueMessage(key, c.slots[key].value, GetSuccess))
  }

  /** Three keys read twice each, in list order a, b, c. */
  function TieCache(): (c: Cache)
    ensures CacheInv(c) && Descending(c.list)
  {
    Cache(map["a" := Slot("x", 0), "b" := Slot("y", 1), "c" := Slot("z", 2)],
          [Entry("a", 2), Entry("b", 2), Entry("c", 2)], 3)
  }

  /**
   * Reading the last of three equally counted keys moves it one place only, behind a key that
   * now has a smaller count: the list is no longer in descending order.
   */
  lemma GetAsWrittenBreaksOrder()
    ensures var r := GetAsWritten(TieCache(), "c").0;
            r.list == [Entry("a", 2), Entry("c", 3), Entry("b", 2)] && !Descending(r.list)
  {
    var c := TieCache();
    assert c.slots["c"].listIndex == 2;
    var r := GetAsWritten(c, "c").0;
    assert r.list == MoveUp(c.list, 2, 1, Entry("c", 3));
    MoveUpAt(c.list, 2, 1, Entry("c", 3), 0);
    MoveUpAt(c.list, 2, 1, Entry("c", 3), 2);
    assert r.list == [Entry("a", 2), Entry("c", 3), Entry("b", 2)];
  }

  /** The position an entry moves to in the corrected `get`: above every entry read less often than it now is. */
  function Rise(list: seq<Entry>, i: nat, nf: int): (j: nat)
    requires i < |list|
    ensures j <= i
    ensures j > 0 ==> list[j - 1].freq >= nf
  {
    if i > 0 && list[i - 1].freq < nf then Rise(list, i - 1, nf) else i
  }

  /** Every entry `Rise` moves past was read less often than the moving entry now is. */
  lemma {:induction false} RiseSkipsOnlyLower(list: seq<Entry>, i: nat, nf: int)
    requires i < |list|
    ensures forall m :: Rise(list, i, nf) <= m < i ==> list[m].freq < nf
    decreases i
  {
    if i > 0 && list[i - 1].freq < nf {
      RiseSkipsOnlyLower(list, i - 1, nf);
    }
  }

  /**
   * `get` with the order kept: like `get` as written, but the entry moves up past every
   * predecessor whose count is now below its own, not just one.
   */
  function Get(c: Cache, key: string): (r: (Cache, KVMessage))
    requires CacheInv(c)
    ensures CacheInv(r.0) && SameValues(c, r.0) && r.0.maxEntries == c.maxEntries
    ensures key !in c.slots ==> r == (c, KeyMessage(key, GetError))
    ensures key in c.slots ==> r.1 == KeyValueMessage(key, c.slots[key].value, GetSuccess)
  {
    if key !in c.slots then (c, KeyMessage(key, GetError))
    else
      var i := c.slots[key].listIndex;
      var j := Rise(c.list, i, c.list[i].freq + 1);
      (Promote(c, key, j), KeyValueMessage(key, c.slots[key].value, GetSuccess))
  }

  /** The corrected `get` keeps the list in descending count order. */
  lemma GetKeepsDescending(c: Cache, key: string)
    requires CacheInv(c) && Descending(c.list)
    ensures Descending(Get(c, key).0.list)
  {
    if key in c.slots {
      HitKeepsDescending(c, key);
    } else {
      assert Get(c, key).0.list == c.list;
    }
  }

  /** A hit of the corrected `get` keeps the list in descending count order. */
  lemma HitKeepsDescending(c: Cache, key: string)
    requires CacheInv(c) && Descending(c.list) && key in c.slots
    ensures Descending(Get(c, key).0.list)
  {
    GetIsPromote(c, key);
    PromoteKeepsDescending(c, key);
  }

  /** The move up a hit makes keeps a descending list descending. */
  lemma PromoteKeepsDescending(c: Cache, key: string)
    requires CacheInv(c) && Descending(c.list) && key in c.slots
    ensures var i := c.slots[key].listIndex;
            Descending(Promote(c, key, Rise(c.list, i, c.list[i].freq + 1)).list)
  {
    HitMoveKeepsDescending(c, key);
  }

  /** A hit of the corrected `get` is the move up to the position `Rise` picks. */
  lemma GetIsPromote(c: Cache, key: string)
    requires CacheInv(c) && key in c.slots
    ensures var i := c.slots[key].listIndex; Get(c, key).0 == Promote(c, key, Rise(c.list, i, c.list[i].freq + 1))
  {
  }

  /** The corrected `get` counts one more read of the key it finds and leaves every other count alone. */
  lemma GetCounts(c: Cache, key: string)
    requires CacheInv(c)
    ensures forall k :: k in c.slots ==> Freq(Get(c, key).0, k) == if k == key then Freq(c, k) + 1 else Freq(c, k)
  {
    if key in c.slots {
      var i := c.slots[key].listIndex;
      GetIsPromote(c, key);
      PromoteCounts(c, key, Rise(c.list, i, c.list[i].freq + 1));
    }
  }

  /** The move a hit makes keeps a descending list descending. */
  lemma HitMoveKeepsDescending(c: Cache, key: string)
    requires key in c.slots && 0 <= c.slots[key].listIndex < |c.list| && Descending(c.list)
    ensures var i := c.slots[key].listIndex;
            Descending(MoveUp(c.list, i, Rise(c.list, i, c.list[i].freq + 1), Entry(key, c.list[i].freq + 1)))
  {
    RiseKeepsDescending(c.list, c.slots[key].listIndex, key);
  }

  /** Moving an entry whose count grew up to the position `Rise` finds keeps a descending list descending. */
  lemma RiseKeepsDescending(list: seq<Entry>, i: nat, key: string)
    requires Descending(list) && i < |list|
    ensures Descending(MoveUp(list, i, Rise(list, i, list[i].freq + 1), Entry(key, list[i].freq + 1)))
  {
    var e := Entry(key, list[i].freq + 1);
    RiseSkipsOnlyLower(list, i, e.freq);
    MoveUpDescending(list, i, Rise(list, i, e.freq), e);
  }

  /**
   * Moving an entry whose count grew to just below the last entry that still has at least its
   * count keeps a descending list descending.
   */
  lemma MoveUpDescending(list: seq<Entry>, i: nat, j: nat, e: Entry)
    requires Descending(list) && j <= i < |list| && e.freq >= list[i].freq
    requires forall m :: j <= m < i ==> list[m].freq < e.freq
    requires j > 0 ==> list[j - 1].freq >= e.freq
    ensures Descending(MoveUp(list, i, j, e))
  {
    var r := MoveUp(list, i, j, e);
    forall a, b | 0 <= a < b < |r| ensures r[a].freq >= r[b].freq {
      MoveUpAt(list, i, j, e, a);
      MoveUpAt(list, i, j, e, b);
      if a == j && b > i {
        assert list[i].freq >= list[b].freq;
      }
    }
  }

  /* ---------------- put ---------------- */

  /** Whether putting the new key `key` into a full cache evicts `k`, the key of the last entry. */
  predicate Evicted(c: Cache, key: string, k: string) {
    key !in c.slots && |c.list| >= c.maxEntries && |c.list| > 0 && k == c.list[|c.list| - 1].key
  }

  /**
   * `put`: a missing value is rejected; a cached key gets the new value in place and PUT_UPDATE;
   * a new key is appended with count 0 when there is room, and otherwise takes the place of the
   * last entry, whose key is evicted; both give PUT_SUCCESS.
   */
  function Put(c: Cache, key: string, value: Option<string>): (r: Result<(Cache, KVMessage), CacheError>)
    requires CacheInv(c)
    ensures r.Err? <==> value.None?
    ensures r.Ok? ==> var (c', msg) := r.value;
            && CacheInv(c') && c'.maxEntries == c.maxEntries
            && msg == KeyValueMessage(key, value.value, if key in c.slots then PutUpdate else PutSuccess)
            && key in c'.slots && c'.slots[key].value == value.value
            && (forall k :: k != key ==> (k in c'.slots <==> k in c.slots && !Evicted(c, key, k)))
            && (forall k :: k != key && k in c'.slots ==> c'.slots[k].value == c.slots[k].value)
  {
    match value
    case None => Err(PreconditionViolation)
    case Some(v) =>
      if key in c.slots then
        UpdateKeepsInv(c, key, v);
        Ok((Updated(c, key, v), KeyValueMessage(key, v, PutUpdate)))
      else if |c.list| < c.maxEntries then
        AppendKeepsInv(c, key, v);
        Ok((Appended(c, key, v), KeyValueMessage(key, v, PutSuccess)))
      else
        EvictKeepsInv(c, key, v);
        Ok((Replaced(c, key, v), KeyValueMessage(key, v, PutSuccess)))
  }

  /** A cached key given a new value in place. */
  function Updated(c: Cache, key: string, v: string): Cache
    requires key in c.slots
  {
    c.(slots := c.slots[key := Slot(v, c.slots[key].listIndex)])
  }

  /** A new key appended last, with count 0. */
  function Appended(c: Cache, key: string, v: string): Cache {
    Cache(c.slots[key := Slot(v, |c.list|)], c.list + [Entry(key, 0)], c.maxEntries)
  }

  /** A new key in place of the last entry, whose key is dropped. */
  function Replaced(c: Cache, key: string, v: string): Cache
    requires |c.list| > 0
  {
    var last := |c.list| - 1;
    Cache((c.slots - {c.list[last].key})[key := Slot(v, last)], c.list[last := Entry(key, 0)], c.maxEntries)
  }

  /** Giving a cached key a new value keeps the bookkeeping and every other key. */
  lemma UpdateKeepsInv(c: Cache, key: string, v: string)
    requires CacheInv(c) && key in c.slots
    ensures var r := Updated(c, key, v);
            && CacheInv(r) && r.maxEntries == c.maxEntries && key in r.slots && r.slots[key].value == v
            && (forall k :: k != key ==> (k in r.slots <==> k in c.slots && !Evicted(c, key, k)))
            && (forall k :: k != key && k in r.slots ==> r.slots[k].value == c.slots[k].value)
  {
  }

  /** Appending a new key keeps the bookkeeping and every other key. */
  lemma AppendKeepsInv(c: Cache, key: string, v: string)
    requires CacheInv(c) && key !in c.slots && |c.list| < c.maxEntries
    ensures var r := Appended(c, key, v);
            && CacheInv(r) && r.maxEntries == c.maxEntries && key in r.slots && r.slots[key].value == v
            && (forall k :: k != key ==> (k in r.slots <==> k in c.slots && !Evicted(c, key, k)))
            && (forall k :: k != key && k in r.slots ==> r.slots[k].value == c.slots[k].value)
  {
    var r := Cache(c.slots[key := Slot(v, |c.list|)], c.list + [Entry(key, 0)], c.maxEntries);
    forall m | 0 <= m < |r.list|
      ensures r.list[m].key in r.slots && r.slots[r.list[m].key].listIndex == m
    {
      if m < |c.list| {
        assert r.list[m] == c.list[m];
      }
    }
  }

  /** Replacing the last entry by a new key keeps the bookkeeping and every key but the evicted one. */
  lemma EvictKeepsInv(c: Cache, key: string, v: string)
    requires CacheInv(c) && key !in c.slots && |c.list| == c.maxEntries
    ensures var r := Replaced(c, key, v);
            && CacheInv(r) && r.maxEntries == c.maxEntries && key in r.slots && r.slots[key].value == v
            && (forall k :: k != key ==> (k in r.slots <==> k in c.slots && !Evicted(c, key, k)))
            && (forall k :: k != key && k in r.slots ==> r.slots[k].value == c.slots[k].value)
  {
    var last := |c.list| - 1;
    var gone := c.list[last].key;
    var r := Cache((c.slots - {gone})[key := Slot(v, last)], c.list[last := Entry(key, 0)], c.maxEntries);
    forall k | k in r.slots
      ensures 0 <= r.slots[k].listIndex < |r.list| && r.list[r.slots[k].listIndex].key == k
    {
      if k != key {
        assert c.slots[k].listIndex != last;
      }
    }
    forall m | 0 <= m < |r.list|
      ensures r.list[m].key in r.slots && r.slots[r.list[m].key].listIndex == m
    {
      if m < last {
        assert c.list[m].key != gone by {
          assert c.slots[c.list[m].key].listIndex == m;
        }
      }
    }
  }

  /* ---------------- invalidation ---------------- */

  /** The list without its entry at position i. */
  function RemoveAt(list: seq<Entry>, i: nat): (r: seq<Entry>)
    requires i < |list|
    ensures |r| == |list| - 1
  {
    list[..i] + list[i + 1..]
  }

  /** Where each entry of a list with one entry removed comes from. */
  lemma RemoveAtAt(list: seq<Entry>, i: nat, m: nat)
    requires i < |list| && m < |list| - 1
    ensures RemoveAt(list, i)[m] == if m < i then list[m] else list[m + 1]
  {
  }

  /** The positions after dropping `key`, at position i: keys after it move one place up. */
  function Dropped(slots: map<string, Slot>, key: string, i: int): map<string, Slot> {
    map k | k in slots && k != key ::
      if slots[k].listIndex > i then Slot(slots[k].value, slots[k].listIndex - 1) else slots[k]
  }

  /**
   * Dropping a key from the cache: its entry leaves the list and every other key keeps its value
   * and its count. The source's cache has no such operation; a delete needs one to keep the cache
   * in step with the storage.
   */
  function Invalidate(c: Cache, key: string): (r: Cache)
    requires CacheInv(c)
    ensures CacheInv(r) && r.maxEntries == c.maxEntries
    ensures r.slots.Keys == c.slots.Keys - {key}
    ensures forall k :: k in r.slots ==> r.slots[k].value == c.slots[k].value && Freq(r, k) == Freq(c, k)
  {
    if key !in c.slots then
      assert c.slots.Keys - {key} == c.slots.Keys;
      c
    else
      var i := c.slots[key].listIndex;
      var r := Cache(Dropped(c.slots, key, i), RemoveAt(c.list, i), c.maxEntries);
      DropKeepsInv(c, key, r);
      DropKeepsFreqs(c, key, r);
      r
  }

  /** After dropping a key, positions and keys still point at each other. */
  lemma DropKeepsInv(c: Cache, key: string, r: Cache)
    requires CacheInv(c) && key in c.slots
    requires var i := c.slots[key].listIndex;
             r == Cache(Dropped(c.slots, key, i), RemoveAt(c.list, i), c.maxEntries)
    ensures CacheInv(r)
  {
    var i := c.slots[key].listIndex;
    forall k | k in r.slots
      ensures 0 <= r.slots[k].listIndex < |r.list| && r.list[r.slots[k].listIndex].key == k
    {
      var p := c.slots[k].listIndex;
      assert p != i by {
        assert c.list[p].key == k;
      }
      RemoveAtAt(c.list, i, r.slots[k].listIndex);
    }
    forall m | 0 <= m < |r.list|
      ensures r.list[m].key in r.slots && r.slots[r.list[m].key].listIndex == m
      ensures r.list[m].freq >= 0
    {
      RemoveAtAt(c.list, i, m);
      var q := if m < i then m else m + 1;
      assert c.slots[c.list[q].key].listIndex == q;
    }
  }

  /** After dropping a key, every other key keeps its count. */
  lemma DropKeepsFreqs(c: Cache, key: string, r: Cache)
    requires CacheInv(c) && key in c.slots && CacheInv(r)
    requires var i := c.slots[key].listIndex;
             r == Cache(Dropped(c.slots, key, i), RemoveAt(c.list, i), c.maxEntries)
    ensures r.slots.Keys == c.slots.Keys - {key}
    ensures forall k :: k in r.slots ==> r.slots[k].value == c.slots[k].value
    ensures forall k :: k in r.slots ==> r.list[r.slots[k].listIndex].freq == c.list[c.slots[k].listIndex].freq
  {
    var i := c.slots[key].listIndex;
    forall k | k in r.slots
      ensures r.list[r.slots[k].listIndex].freq == c.list[c.slots[k].listIndex].freq
    {
      var p := c.slots[k].listIndex;
      assert p != i by {
        assert c.list[p].key == k;
      }
      RemoveAtAt(c.list, i, r.slots[k].listIndex);
    }
  }

  /** Dropping a key keeps a descending list descending. */
  lemma InvalidateKeepsDescending(c: Cache, key: string)
    requires CacheInv(c) && Descending(c.list)
    ensures Descending(Invalidate(c, key).list)
  {
    if key in c.slots {
      var i := c.slots[key].listIndex;
      var r := RemoveAt(c.list, i);
      assert Invalidate(c, key).list == r;
      forall a, b | 0 <= a < b < |r| ensures r[a].freq >= r[b].freq {
        RemoveAtAt(c.list, i, a);
        RemoveAtAt(c.list, i, b);
      }
    }
  }

  /* ---------------- properties across operations ---------------- */

  /** A get right after a put finds the value put, and never exceeds the capacity. */
  lemma GetAfterPut(c: Cache, key: string, v: string)
    requires CacheInv(c)
    ensures var c' := Put(c, key, Some(v)).value.0;
            Get(c', key).1 == KeyValueMessage(key, v, GetSuccess) && |c'.list| <= c.maxEntries
  {
  }

  /** A put keeps the descending order: a new key enters last with count 0. */
  lemma PutKeepsDescending(c: Cache, key: string, v: string)
    requires CacheInv(c) && Descending(c.list)
    ensures Descending(Put(c, key, Some(v)).value.0.list)
  {
    var r := Put(c, key, Some(v)).value.0.list;
    if key !in c.slots {
      forall a, b | 0 <= a < b < |r| ensures r[a].freq >= r[b].freq {
        if b < |c.list| && !(b == |c.list| - 1 && |c.list| == c.maxEntries) {
          assert r[a] == c.list[a] && r[b] == c.list[b];
        } else {
          assert r[a] == c.list[a];
        }
      }
    }
  }

  /** In descending order, the entry a full cache evicts is one of those read least often. */
  lemma EvictsLeastFrequent(c: Cache)
    requires CacheInv(c) && Descending(c.list) && |c.list| > 0
    ensures forall k :: k in c.slots ==> Freq(c, c.list[|c.list| - 1].key) <= Freq(c, k)
  {
    var last := |c.list| - 1;
    assert c.slots[c.list[last].key].listIndex == last;
    forall k | k in c.slots ensures Freq(c, c.list[last].key) <= Freq(c, k) {
      var p := c.slots[k].listIndex;
      if p < last {
        assert c.list[p].freq >= c.list[last].freq;
      }
    }
  }
}
