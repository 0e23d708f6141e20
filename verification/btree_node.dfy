/**
 * The nodes of the persistent B-tree of minimum degree t: each node holds up to 2t - 1
 * key-ordered pairs (the occupied prefix of its chunk) and, unless it is a leaf, one child
 * more than it has pairs. This module covers search, in-place value replacement, splitting a
 * full child and insertion into a node that is not full.
 */
module BTreeNodes {
  import opened Wrappers
  import opened Text
  import opened Chunks
  import opened PairSequences

  /** A node: the pairs of its chunk, in slot order, and its children (none for a leaf). */
  datatype Node<V> = Node(pairs: seq<Pair<V>>, children: seq<Node<V>>)

  /** The pairs of a subtree in key order: each child's pairs come before the node's pair of the same index. */
  function InOrder<V>(n: Node<V>): seq<Pair<V>>
    decreases n, 1
  {
    if |n.children| == 0 then n.pairs else Flatten(Parts(n))
  }

  /** The piece of the in-order sequence under each child: the child's pairs, then the separating pair. */
  function Parts<V>(n: Node<V>): (ps: seq<seq<Pair<V>>>)
    ensures |ps| == |n.children|
    decreases n, 0
  {
    seq(|n.children|, j requires 0 <= j < |n.children| =>
      InOrder(n.children[j]) + (if j < |n.pairs| then [n.pairs[j]] else []))
  }

  /**
   * A subtree of height h: at most 2t - 1 pairs per node, leaves exactly at depth h, one child
   * more than pairs in every inner node, and at least t - 1 pairs in every node below the top.
   */
  predicate Valid<V>(n: Node<V>, t: int, h: nat)
    decreases n
  {
    |n.pairs| <= 2 * t - 1
    && (h == 0 <==> |n.children| == 0)
    && (h > 0 ==> |n.children| == |n.pairs| + 1
                  && forall j :: 0 <= j < |n.children| ==>
                       t - 1 <= |n.children[j].pairs| && Valid(n.children[j], t, h - 1))
  }

  /** `isFull`: the node holds 2t - 1 pairs. */
  predicate IsFull<V>(n: Node<V>, t: int) {
    |n.pairs| == 2 * t - 1
  }

  /* ---------------- the in-order sequence around one child ---------------- */

  /** The pairs before child i. */
  function Before<V>(n: Node<V>, i: nat): seq<Pair<V>>
    requires i <= |n.children|
  {
    Flatten(Parts(n)[..i])
  }

  /** The pairs after child i: the separating pair, if any, then everything under later children. */
  function After<V>(n: Node<V>, i: nat): seq<Pair<V>>
    requires i < |n.children|
  {
    (if i < |n.pairs| then [n.pairs[i]] else []) + Flatten(Parts(n)[i + 1..])
  }

  lemma InOrderAround<V>(n: Node<V>, i: nat)
    requires 0 < |n.children| && i < |n.children|
    ensures InOrder(n) == Before(n, i) + InOrder(n.children[i]) + After(n, i)
  {
    FlattenSplit(Parts(n), i);
  }

  /** The pairs before child i end with the separating pair i - 1. */
  lemma BeforeEndsWithPair<V>(n: Node<V>, i: nat)
    requires 0 < i <= |n.children| && i - 1 < |n.pairs|
    ensures Before(n, i) == Before(n, i - 1) + InOrder(n.children[i - 1]) + [n.pairs[i - 1]]
  {
    assert Parts(n)[..i] == Parts(n)[..i - 1] + [Parts(n)[i - 1]];
    FlattenSnoc(Parts(n)[..i - 1], Parts(n)[i - 1]);
  }

  /** After the last child nothing follows. */
  lemma AfterLastIsEmpty<V>(n: Node<V>)
    requires |n.children| == |n.pairs| + 1
    ensures After(n, |n.pairs|) == []
  {
    assert Parts(n)[|n.pairs| + 1..] == [];
  }

  /** Replacing one child changes only that child's share of the in-order sequence. */
  lemma InOrderReplaceChild<V>(n: Node<V>, i: nat, c: Node<V>)
    requires 0 < |n.children| && i < |n.children|
    ensures var n' := Node(n.pairs, n.children[i := c]);
            InOrder(n') == Before(n, i) + InOrder(c) + After(n, i)
  {
    var n' := Node(n.pairs, n.children[i := c]);
    assert Parts(n')[..i] == Parts(n)[..i];
    assert Parts(n')[i + 1..] == Parts(n)[i + 1..];
    InOrderAround(n', i);
  }

  /**
   * A key lying between the separating pairs around child i is looked for, and inserted, under
   * that child: everything before the child is below the key and everything after it above.
   */
  lemma Route<V>(n: Node<V>, t: int, h: nat, i: nat, key: string)
    requires Valid(n, t, h) && h > 0 && SortedPairs(InOrder(n)) && i < |n.children|
    requires i > 0 ==> Less(n.pairs[i - 1].key, key)
    requires i < |n.pairs| ==> Less(key, n.pairs[i].key)
    ensures InOrder(n) == Before(n, i) + InOrder(n.children[i]) + After(n, i)
    ensures AllBelow(Before(n, i), key) && AllAbove(After(n, i), key)
    ensures SortedPairs(InOrder(n.children[i])) && SortedPairs(Before(n, i)) && SortedPairs(After(n, i))
  {
    InOrderAround(n, i);
    SortedSlice(Before(n, i), InOrder(n.children[i]), After(n, i));
    if i > 0 {
      BeforeEndsWithPair(n, i);
      SortedEndsBelow(Before(n, i), key);
    }
    if i < |n.pairs| {
      SortedStartsAbove(After(n, i), key);
    } else {
      AfterLastIsEmpty(n);
    }
  }

  /** Every pair of an inner node appears in its in-order sequence. */
  lemma PairInInOrder<V>(n: Node<V>, m: nat)
    requires |n.children| == |n.pairs| + 1 && m < |n.pairs|
    ensures n.pairs[m] in InOrder(n)
  {
    InOrderAround(n, m);
    assert After(n, m)[0] == n.pairs[m];
  }

  /** A valid subtree's height is the length of its leftmost path. */
  function Height<V>(n: Node<V>): nat
    decreases n
  {
    if |n.children| == 0 then 0 else 1 + Height(n.children[0])
  }

  lemma {:induction false} ValidHeight<V>(n: Node<V>, t: int, h: nat)
    requires Valid(n, t, h)
    ensures Height(n) == h
    decreases h
  {
    if h > 0 {
      ValidHeight(n.children[0], t, h - 1);
    }
  }

  /* ---------------- search ---------------- */

  /**
   * `search`: the first pair whose key is not below `key`; its value when the key matches,
   * nothing at a leaf, otherwise the search continues in the child before that pair.
   */
  function Search<V>(n: Node<V>, key: string): (r: Option<V>)
    decreases n
  {
    var i := ScanFrom(n.pairs, key, 0);
    if i < |n.pairs| && n.pairs[i].key == key then Some(n.pairs[i].value)
    else if |n.children| == 0 || i >= |n.children| then None
    else Search(n.children[i], key)
  }

  /** The search finds exactly the value the key has in the subtree's in-order sequence. */
  lemma {:induction false} SearchFindsInOrder<V>(n: Node<V>, t: int, h: nat, key: string)
    requires Valid(n, t, h) && SortedPairs(InOrder(n))
    ensures Search(n, key) == Lookup(InOrder(n), key)
    decreases h
  {
    var xs := InOrder(n);
    var i := ScanFrom(n.pairs, key, 0);
    if i < |n.pairs| && n.pairs[i].key == key {
      if h == 0 {
        LookupSortedAt(xs, i);
      } else {
        PairInInOrder(n, i);
        var m :| 0 <= m < |xs| && xs[m] == n.pairs[i];
        LookupSortedAt(xs, m);
      }
    } else {
      if i < |n.pairs| {
        Trichotomy(key, n.pairs[i].key);
      }
      if h == 0 {
        assert xs == xs[..i] + xs[i..] + [];
        if i < |xs| {
          SortedSlice(xs[..i], xs[i..], []);
          SortedStartsAbove(xs[i..], key);
        }
        LookupMiddle(xs[..i], xs[i..], [], key);
        assert Lookup(xs[i..], key).None? by {
          LookupMissesAbove(xs[i..], key);
        }
        LookupMissesBelow(xs[..i], key);
      } else {
        Route(n, t, h, i, key);
        LookupMiddle(Before(n, i), InOrder(n.children[i]), After(n, i), key);
        SearchFindsInOrder(n.children[i], t, h - 1, key);
      }
    }
  }

  /* ---------------- search and replace ---------------- */

  /**
   * `searchAndInsert`: the search of `search`, which on a match replaces that pair's value in
   * place; the result is the changed subtree and the value the key had before.
   */
  function SearchAndInsert<V>(n: Node<V>, key: string, v: V): (r: (Node<V>, Option<V>))
    ensures r.1 == Search(n, key)
    ensures |r.0.pairs| == |n.pairs| && |r.0.children| == |n.children|
    decreases n
  {
    var i := ScanFrom(n.pairs, key, 0);
    if i < |n.pairs| && n.pairs[i].key == key then
      (Node(n.pairs[i := Pair(key, v)], n.children), Some(n.pairs[i].value))
    else if |n.children| == 0 || i >= |n.children| then (n, None)
    else
      var below := SearchAndInsert(n.children[i], key, v);
      (Node(n.pairs, n.children[i := below.0]), below.1)
  }

  /**
   * Replacing in place keeps every node's shape and changes only the value of the pair with
   * that key, if the subtree holds one.
   */
  lemma {:induction false} SearchAndInsertReplaces<V>(n: Node<V>, t: int, h: nat, key: string, v: V)
    requires Valid(n, t, h) && SortedPairs(InOrder(n))
    ensures Valid(SearchAndInsert(n, key, v).0, t, h)
    ensures InOrder(SearchAndInsert(n, key, v).0) == ReplaceValue(InOrder(n), key, v)
    decreases h, 1
  {
    var xs := InOrder(n);
    var i := ScanFrom(n.pairs, key, 0);
    if i < |n.pairs| && n.pairs[i].key == key {
      ReplaceHit(n, t, h, key, v, i);
    } else if h == 0 {
      SearchFindsInOrder(n, t, h, key);
      ReplaceValueMisses(xs, key, v);
    } else {
      ReplaceBelow(n, t, h, key, v, i);
    }
  }

  /** Replacing in place in an inner node that lacks the key replaces it in the routed child. */
  lemma {:induction false} ReplaceBelow<V>(n: Node<V>, t: int, h: nat, key: string, v: V, i: nat)
    requires Valid(n, t, h) && SortedPairs(InOrder(n)) && h > 0
    requires i == ScanFrom(n.pairs, key, 0) && !(i < |n.pairs| && n.pairs[i].key == key)
    ensures Valid(SearchAndInsert(n, key, v).0, t, h)
    ensures InOrder(SearchAndInsert(n, key, v).0) == ReplaceValue(InOrder(n), key, v)
    decreases h, 0
  {
    if i < |n.pairs| {
      Trichotomy(key, n.pairs[i].key);
    }
    var c := n.children[i];
    var c' := SearchAndInsert(c, key, v).0;
    assert SearchAndInsert(n, key, v).0 == Node(n.pairs, n.children[i := c']);
    Route(n, t, h, i, key);
    SearchAndInsertReplaces(c, t, h - 1, key, v);
    ValidWithChild(n, t, h, i, c');
    ReplaceBelowChild(n, i, c', key, v);
  }

  /** Replacing in place at the node that holds the key changes only that pair's value. */
  lemma ReplaceHit<V>(n: Node<V>, t: int, h: nat, key: string, v: V, i: nat)
    requires Valid(n, t, h) && SortedPairs(InOrder(n))
    requires i == ScanFrom(n.pairs, key, 0) && i < |n.pairs| && n.pairs[i].key == key
    ensures Valid(SearchAndInsert(n, key, v).0, t, h)
    ensures InOrder(SearchAndInsert(n, key, v).0) == ReplaceValue(InOrder(n), key, v)
  {
    assert SearchAndInsert(n, key, v).0 == Node(n.pairs[i := Pair(key, v)], n.children);
    ValidWithPairs(n, t, h, n.pairs[i := Pair(key, v)]);
    if h == 0 {
      ReplaceValueAt(InOrder(n), i, v);
    } else {
      ReplaceAtInnerPair(n, i, v);
    }
  }

  /** A node whose pairs are replaced by as many others keeps its validity. */
  lemma ValidWithPairs<V>(n: Node<V>, t: int, h: nat, ps: seq<Pair<V>>)
    requires Valid(n, t, h) && |ps| == |n.pairs|
    ensures Valid(Node(ps, n.children), t, h)
  {
  }

  /** A node with one child replaced by a valid subtree of the same height and enough pairs stays valid. */
  lemma ValidWithChild<V>(n: Node<V>, t: int, h: nat, i: nat, c: Node<V>)
    requires Valid(n, t, h) && h > 0 && i < |n.children|
    requires Valid(c, t, h - 1) && t - 1 <= |c.pairs|
    ensures Valid(Node(n.pairs, n.children[i := c]), t, h)
  {
    var n' := Node(n.pairs, n.children[i := c]);
    assert forall j :: 0 <= j < |n'.children| ==> n'.children[j] == if j == i then c else n.children[j];
  }

  /** A node with two adjacent children replaced by valid subtrees with enough pairs, and its pairs by as many others, stays valid. */
  lemma ValidWithTwoChildren<V>(n: Node<V>, t: int, h: nat, i: nat, a: Node<V>, b: Node<V>, ps: seq<Pair<V>>)
    requires Valid(n, t, h) && h > 0 && i + 1 < |n.children| && |ps| == |n.pairs|
    requires Valid(a, t, h - 1) && t - 1 <= |a.pairs|
    requires Valid(b, t, h - 1) && t - 1 <= |b.pairs|
    ensures Valid(Node(ps, n.children[i := a][i + 1 := b]), t, h)
  {
    var cs := n.children[i := a][i + 1 := b];
    assert forall j :: 0 <= j < |cs| ==> cs[j] == if j == i then a else if j == i + 1 then b else n.children[j];
  }

  /** Replacing the value of an inner node's pair i replaces it at the pair's place in order. */
  lemma ReplaceAtInnerPair<V>(n: Node<V>, i: nat, v: V)
    requires |n.children| == |n.pairs| + 1 && i < |n.pairs| && SortedPairs(InOrder(n))
    ensures var key := n.pairs[i].key;
            InOrder(Node(n.pairs[i := Pair(key, v)], n.children)) == ReplaceValue(InOrder(n), key, v)
  {
    var key := n.pairs[i].key;
    var r := Node(n.pairs[i := Pair(key, v)], n.children);
    var xs := InOrder(n);
    InOrderAround(n, i);
    InOrderAround(r, i);
    assert Parts(r)[..i] == Parts(n)[..i];
    assert Parts(r)[i + 1..] == Parts(n)[i + 1..];
    var m := |Before(n, i) + InOrder(n.children[i])|;
    assert InOrder(r) == xs[m := Pair(key, v)];
    ReplaceValueAt(xs, m, v);
  }

  /** A replacement under child i, with everything else below or above the key, is the replacement in the whole. */
  lemma ReplaceBelowChild<V>(n: Node<V>, i: nat, c': Node<V>, key: string, v: V)
    requires 0 < |n.children| && i < |n.children|
    requires InOrder(n) == Before(n, i) + InOrder(n.children[i]) + After(n, i)
    requires AllBelow(Before(n, i), key) && AllAbove(After(n, i), key)
    requires InOrder(c') == ReplaceValue(InOrder(n.children[i]), key, v)
    ensures InOrder(Node(n.pairs, n.children[i := c'])) == ReplaceValue(InOrder(n), key, v)
  {
    var a := Before(n, i);
    var d := After(n, i);
    InOrderReplaceChild(n, i, c');
    ReplaceValueAppend(a + InOrder(n.children[i]), d, key, v);
    ReplaceValueAppend(a, InOrder(n.children[i]), key, v);
    LookupMissesBelow(a, key);
    LookupMissesAbove(d, key);
    ReplaceValueMisses(a, key, v);
    ReplaceValueMisses(d, key, v);
  }

  /* ---------------- splitting ---------------- */

  /** A full node's layout: 2t - 1 pairs and either no children or 2t. */
  predicate FullShape<V>(c: Node<V>, t: int) {
    |c.pairs| == 2 * t - 1 && (|c.children| == 0 || |c.children| == 2 * t)
  }

  /** The children of a valid inner node are valid one level down, with at least t - 1 pairs. */
  lemma ValidChild<V>(n: Node<V>, t: int, h: nat, j: nat)
    requires Valid(n, t, h) && h > 0 && j < |n.children|
    ensures Valid(n.children[j], t, h - 1) && t - 1 <= |n.children[j].pairs|
    ensures IsFull(n.children[j], t) ==> FullShape(n.children[j], t)
  {
    assert Valid(n.children[j], t, h - 1);
  }

  /** The lower half of a full node: its first t - 1 pairs and first t children. */
  function LowerHalf<V>(c: Node<V>, t: int): Node<V>
    requires t >= 1 && |c.pairs| == 2 * t - 1 && (|c.children| == 0 || |c.children| == 2 * t)
  {
    Node(c.pairs[..t - 1], if |c.children| == 0 then [] else c.children[..t])
  }

  /** The upper half of a full node: its last t - 1 pairs and last t children. */
  function UpperHalf<V>(c: Node<V>, t: int): Node<V>
    requires t >= 1 && |c.pairs| == 2 * t - 1 && (|c.children| == 0 || |c.children| == 2 * t)
  {
    Node(c.pairs[t..], if |c.children| == 0 then [] else c.children[t..])
  }

  /**
   * `splitChild(i, child)`: the full child i keeps its lower half, a new node with its upper
   * half becomes child i + 1, and its middle pair moves up into the parent at index i.
   */
  function SplitChild<V>(n: Node<V>, i: nat, t: int): (r: Node<V>)
    requires t >= 1 && i < |n.children| && i <= |n.pairs|
    requires var c := n.children[i];
             |c.pairs| == 2 * t - 1 && (|c.children| == 0 || |c.children| == 2 * t)
    ensures |r.pairs| == |n.pairs| + 1 && |r.children| == |n.children| + 1
    ensures r.pairs[i] == n.children[i].pairs[t - 1]
    ensures |r.children[i].pairs| == t - 1 && |r.children[i + 1].pairs| == t - 1
    ensures forall j :: 0 <= j < i ==> r.pairs[j] == n.pairs[j] && r.children[j] == n.children[j]
    ensures forall j :: i < j < |n.children| ==> r.children[j + 1] == n.children[j]
    ensures forall j :: i <= j < |n.pairs| ==> r.pairs[j + 1] == n.pairs[j]
  {
    var c := n.children[i];
    Node(n.pairs[..i] + [c.pairs[t - 1]] + n.pairs[i..],
         n.children[..i] + [LowerHalf(c, t), UpperHalf(c, t)] + n.children[i + 1..])
  }

  /** A full node's pairs are its lower half's, the middle pair, then its upper half's. */
  lemma SplitNodeInOrder<V>(c: Node<V>, t: int)
    requires t >= 1 && FullShape(c, t)
    ensures InOrder(c) == InOrder(LowerHalf(c, t)) + [c.pairs[t - 1]] + InOrder(UpperHalf(c, t))
  {
    var lo := LowerHalf(c, t);
    var hi := UpperHalf(c, t);
    var mid := c.pairs[t - 1];
    if |c.children| == 0 {
      assert c.pairs == c.pairs[..t - 1] + [mid] + c.pairs[t..];
    } else {
      var ps := Parts(c);
      var lower := Parts(lo);
      var upper := Parts(hi);
      var rhs := lower[..t - 1] + [lower[t - 1] + [mid]] + upper;
      forall j | 0 <= j < |ps| ensures ps[j] == rhs[j] {
        if j < t - 1 {
          assert rhs[j] == lower[j];
          assert lo.children[j] == c.children[j] && lo.pairs[j] == c.pairs[j];
        } else if j == t - 1 {
          assert lo.children[j] == c.children[j];
        } else {
          assert rhs[j] == upper[j - t];
          assert hi.children[j - t] == c.children[j];
          if j < 2 * t - 1 {
            assert hi.pairs[j - t] == c.pairs[j];
          }
        }
      }
      assert ps == rhs;
      FlattenAppend(lower[..t - 1] + [lower[t - 1] + [mid]], upper);
      FlattenSnoc(lower[..t - 1], lower[t - 1] + [mid]);
      assert lower == lower[..t - 1] + [lower[t - 1]];
      FlattenSnoc(lower[..t - 1], lower[t - 1]);
    }
  }

  /** Replacing element i of a sequence by two elements shifts the elements after it up by one. */
  lemma ReplaceByTwo<T>(ps: seq<T>, i: nat, x: T, y: T)
    requires i < |ps|
    ensures var q := ps[..i] + [x, y] + ps[i + 1..];
            && |q| == |ps| + 1 && q[i] == x && q[i + 1] == y
            && (forall j :: 0 <= j < i ==> q[j] == ps[j])
            && (forall j :: i + 1 < j < |q| ==> q[j] == ps[j - 1])
  {
    var front := ps[..i] + [x, y];
    var q := front + ps[i + 1..];
    forall j | i + 1 < j < |q| ensures q[j] == ps[j - 1] {
      assert q[j] == ps[i + 1..][j - |front|];
    }
  }

  /** The in-order pieces after a split: the lower half and the middle pair, then the upper half. */
  lemma SplitChildParts<V>(n: Node<V>, i: nat, t: int)
    requires t >= 1 && i < |n.children| && i <= |n.pairs|
    requires FullShape(n.children[i], t)
    ensures var c := n.children[i];
            var tail := if i < |n.pairs| then [n.pairs[i]] else [];
            Parts(SplitChild(n, i, t))
            == Parts(n)[..i] + [InOrder(LowerHalf(c, t)) + [c.pairs[t - 1]], InOrder(UpperHalf(c, t)) + tail]
               + Parts(n)[i + 1..]
  {
    var c := n.children[i];
    var r := SplitChild(n, i, t);
    var lo := LowerHalf(c, t);
    var hi := UpperHalf(c, t);
    var mid := c.pairs[t - 1];
    var tail := if i < |n.pairs| then [n.pairs[i]] else [];
    var ps := Parts(n);
    var rs := Parts(r);
    var rhs := ps[..i] + [InOrder(lo) + [mid], InOrder(hi) + tail] + ps[i + 1..];
    ReplaceByTwo(ps, i, InOrder(lo) + [mid], InOrder(hi) + tail);
    forall j | 0 <= j < |rs| ensures rs[j] == rhs[j] {
      if j < i {
        assert r.children[j] == n.children[j] && r.pairs[j] == n.pairs[j];
      } else if j == i {
        assert r.children[j] == lo && r.pairs[j] == mid;
      } else if j == i + 1 {
        assert r.children[j] == hi;
        if i < |n.pairs| {
          assert r.pairs[j] == n.pairs[i];
        }
      } else {
        assert r.children[j] == n.children[j - 1];
        if j < |r.pairs| {
          assert r.pairs[j] == n.pairs[j - 1];
        }
      }
    }
  }

  /** Splitting a child keeps the in-order sequence. */
  lemma SplitChildKeepsInOrder<V>(n: Node<V>, i: nat, t: int)
    requires t >= 1 && i < |n.children| && i <= |n.pairs|
    requires FullShape(n.children[i], t)
    ensures InOrder(SplitChild(n, i, t)) == InOrder(n)
  {
    var c := n.children[i];
    var lo := InOrder(LowerHalf(c, t));
    var hi := InOrder(UpperHalf(c, t));
    var mid := c.pairs[t - 1];
    var tail := if i < |n.pairs| then [n.pairs[i]] else [];
    var ps := Parts(n);
    SplitChildParts(n, i, t);
    SplitNodeInOrder(c, t);
    FlattenSplitPiece(ps, i, lo + [mid], hi + tail);
  }

  /** Splitting a full child of a node that is not full keeps the subtree valid. */
  lemma SplitChildKeepsValid<V>(n: Node<V>, i: nat, t: int, h: nat)
    requires t >= 1 && Valid(n, t, h) && h > 0 && |n.pairs| < 2 * t - 1 && i < |n.children|
    requires IsFull(n.children[i], t) && FullShape(n.children[i], t)
    ensures Valid(SplitChild(n, i, t), t, h)
  {
    var c := n.children[i];
    var lo := LowerHalf(c, t);
    var hi := UpperHalf(c, t);
    var r := SplitChild(n, i, t);
    assert Valid(c, t, h - 1);
    if h - 1 > 0 {
      assert forall j :: 0 <= j < |lo.children| ==> lo.children[j] == c.children[j];
      assert forall j :: 0 <= j < |hi.children| ==> hi.children[j] == c.children[t + j];
    }
    assert Valid(lo, t, h - 1);
    assert Valid(hi, t, h - 1);
    assert forall j :: 0 <= j < |r.children| ==>
             r.children[j] == (if j < i then n.children[j] else if j == i then lo
                               else if j == i + 1 then hi else n.children[j - 1]);
  }

  /* ---------------- insertion ---------------- */

  /** The pairs of a node as a chunk of capacity 2t - 1. */
  function ChunkOfPairs<V>(t: int, pairs: seq<Pair<V>>): (c: Chunk<V>)
    requires |pairs| <= Capacity(t)
    ensures |c.slots| == Capacity(t) && Packed(c) && Elements(c) == pairs
  {
    LayoutIsPacked(pairs, Capacity(t) - |pairs|);
    Chunk(Lift(pairs) + Nones(Capacity(t) - |pairs|))
  }

  /**
   * The leaf branch of `insertNonFull`, with the new pair written at the slot
   * `shiftRightOneAfterFirstGreaterThan` returns: the pair lands at its ordered position.
   */
  function LeafInsert<V>(t: int, pairs: seq<Pair<V>>, key: string, v: V): (r: seq<Pair<V>>)
    requires |pairs| < Capacity(t) && SortedPairs(pairs)
    requires forall j :: 0 <= j < |pairs| ==> pairs[j].key != key
    ensures r == InsertSorted(pairs, Pair(key, v)) && SortedPairs(r)
  {
    var c := ChunkOfPairs(t, pairs);
    InsertSlotIsOrderedPosition(c, key, v);
    InsertSlotSplitsKeys(c, key);
    var shifted := ShiftRightOneAfterFirstGreaterThan(c, key);
    var i := shifted.1;
    var r := Elements(SetSlot(shifted.0, i, Pair(key, v)).0);
    assert AllBelow(pairs[..i], key);
    assert AllAbove(pairs[i..], key) by {
      forall j | 0 <= j < |pairs[i..]| ensures Less(key, pairs[i..][j].key) {
        assert pairs[i..][j] == pairs[i + j];
        Trichotomy(key, pairs[i + j].key);
      }
    }
    InsertSortedAt(pairs, i, Pair(key, v));
    r
  }

  /**
   * The leaf branch of `insertNonFull` as the source writes it: the new pair goes one slot
   * past the returned index. None stands for the index falling past the last slot, where the
   * source throws IndexOutOfBoundsException.
   */
  function LeafInsertAsWritten<V>(t: int, pairs: seq<Pair<V>>, key: string, v: V): (r: Option<Chunk<V>>)
    requires |pairs| < Capacity(t)
    ensures var i := ShiftRightOneAfterFirstGreaterThan(ChunkOfPairs(t, pairs), key).1;
            (r.None? <==> i + 1 == Capacity(t))
            && (r.Some? ==> |r.value.slots| == Capacity(t) && r.value.slots[i + 1] == Some(Pair(key, v)))
  {
    var c := ChunkOfPairs(t, pairs);
    var shifted := ShiftRightOneAfterFirstGreaterThan(c, key);
    var i := shifted.1;
    if i + 1 < |c.slots| then Some(SetSlot(shifted.0, i + 1, Pair(key, v)).0) else None
  }

  /**
   * Inserting a key below the only pair x of a leaf, as written: x moves to slot 1 and is then
   * overwritten by the new pair, leaving slot 0 empty. The pair x is lost and the chunk no
   * longer has its pairs at the front, where the corrected insertion holds the new pair
   * followed by x.
   */
  lemma LeafInsertAsWrittenLosesPair<V>(t: int, x: Pair<V>, key: string, v: V)
    requires t >= 2 && Less(key, x.key)
    ensures var r := LeafInsertAsWritten(t, [x], key, v);
            && r.Some?
            && r.value.slots[0].None? && r.value.slots[1] == Some(Pair(key, v))
            && Some(x) !in r.value.slots
            && !Packed(r.value)
  {
    var c := ChunkOfPairs(t, [x]);
    assert LastNotAbove([x], key, 0) == -1;
    var res := ShiftRightOneAfterFirstGreaterThan(c, key);
    assert res.1 == 0;
    assert res.0.slots == [None] + c.slots[0..1] + c.slots[2..];
    var slots := SetSlot(res.0, 1, Pair(key, v)).0.slots;
    assert slots == [None, Some(Pair(key, v))] + c.slots[2..];
    LessIrreflexive(key);
    assert forall j :: 2 <= j < |c.slots| ==> c.slots[j].None?;
    assert PrefixLength(slots) == 0;
  }

  /** Sorted insertion of a key below the only pair x puts the new pair first. */
  lemma InsertSortedBelowOnly<V>(x: Pair<V>, key: string, v: V)
    requires Less(key, x.key)
    ensures InsertSorted([x], Pair(key, v)) == [Pair(key, v), x]
  {
    assert [x][0] == x;
  }

  /** The corrected insertion of a key below the only pair x of a leaf gives the new pair, then x. */
  lemma LeafInsertBelowOnlyPair<V>(t: int, x: Pair<V>, key: string, v: V)
    requires t >= 2 && Less(key, x.key) && key != x.key
    ensures LeafInsert(t, [x], key, v) == [Pair(key, v), x]
  {
    InsertSortedBelowOnly(x, key, v);
  }

  /**
   * The descent step of `insertNonFull` in an inner node: the child that will hold the key is
   * found scanning down from the last pair; a full child is split first, and the half whose
   * range holds the key is chosen. The chosen child lies between separating pairs below and
   * above the key, and is not full.
   */
  function PrepareDescent<V>(n: Node<V>, key: string, t: int, h: nat): (r: (Node<V>, nat))
    requires t >= 2 && Valid(n, t, h) && h > 0 && !IsFull(n, t)
    requires SortedPairs(InOrder(n)) && Lookup(InOrder(n), key).None?
    ensures Valid(r.0, t, h) && InOrder(r.0) == InOrder(n) && |n.pairs| <= |r.0.pairs| <= |n.pairs| + 1
    ensures r.1 < |r.0.children| && !IsFull(r.0.children[r.1], t)
    ensures r.1 > 0 ==> Less(r.0.pairs[r.1 - 1].key, key)
    ensures r.1 < |r.0.pairs| ==> Less(key, r.0.pairs[r.1].key)
  {
    var j := LastNotAbove(n.pairs, key, |n.pairs| - 1) + 1;
    InsertBracket(n, key, t, h, j);
    ValidChild(n, t, h, j);
    if !IsFull(n.children[j], t) then (n, j)
    else
      SplitDescent(n, key, t, h, j)
  }

  /**
   * The split case of the descent step: the full child j, which lies between separating pairs
   * below and above the key, is split, and the half on the key's side of the new middle pair is
   * chosen; it is bracketed by separating pairs and is not full.
   */
  function SplitDescent<V>(n: Node<V>, key: string, t: int, h: nat, j: nat): (r: (Node<V>, nat))
    requires t >= 2 && Valid(n, t, h) && h > 0 && !IsFull(n, t) && j < |n.children|
    requires IsFull(n.children[j], t) && FullShape(n.children[j], t)
    requires SortedPairs(InOrder(n)) && Lookup(InOrder(n), key).None?
    requires j > 0 ==> Less(n.pairs[j - 1].key, key)
    requires j < |n.pairs| ==> Less(key, n.pairs[j].key)
    ensures Valid(r.0, t, h) && InOrder(r.0) == InOrder(n) && |r.0.pairs| == |n.pairs| + 1
    ensures r.1 < |r.0.children| && !IsFull(r.0.children[r.1], t)
    ensures r.1 > 0 ==> Less(r.0.pairs[r.1 - 1].key, key)
    ensures r.1 < |r.0.pairs| ==> Less(key, r.0.pairs[r.1].key)
  {
    SplitStepKeepsTree(n, key, t, h, j);
    SplitStepBrackets(n, key, t, j);
    SplitStep(n, key, t, j)
  }

  /** The node and child index `SplitDescent` returns, before their properties are shown. */
  function SplitStep<V>(n: Node<V>, key: string, t: int, j: nat): (Node<V>, nat)
    requires t >= 1 && j < |n.children| && |n.children| == |n.pairs| + 1
    requires FullShape(n.children[j], t)
  {
    var n1 := SplitChild(n, j, t);
    if Less(n1.pairs[j].key, key) then (n1, j + 1) else (n1, j)
  }

  /** The split keeps the tree valid and its contents in order, with one more separating pair. */
  lemma SplitStepKeepsTree<V>(n: Node<V>, key: string, t: int, h: nat, j: nat)
    requires t >= 2 && Valid(n, t, h) && h > 0 && !IsFull(n, t) && j < |n.children|
    requires IsFull(n.children[j], t) && FullShape(n.children[j], t)
    ensures var r := SplitStep(n, key, t, j);
            Valid(r.0, t, h) && InOrder(r.0) == InOrder(n) && |r.0.pairs| == |n.pairs| + 1
  {
    SplitChildKeepsValid(n, j, t, h);
    SplitChildKeepsInOrder(n, j, t);
  }

  /**
   * After the split, the half on the key's side of the new middle pair is not full and is
   * bracketed around the key.
   */
  lemma SplitStepBrackets<V>(n: Node<V>, key: string, t: int, j: nat)
    requires t >= 1 && j < |n.children| && |n.children| == |n.pairs| + 1
    requires IsFull(n.children[j], t) && FullShape(n.children[j], t)
    requires Lookup(InOrder(n), key).None?
    requires j > 0 ==> Less(n.pairs[j - 1].key, key)
    requires j < |n.pairs| ==> Less(key, n.pairs[j].key)
    ensures var r := SplitStep(n, key, t, j);
            && r.1 < |r.0.children| && !IsFull(r.0.children[r.1], t)
            && (r.1 > 0 ==> Less(r.0.pairs[r.1 - 1].key, key))
            && (r.1 < |r.0.pairs| ==> Less(key, r.0.pairs[r.1].key))
  {
    var n1 := SplitChild(n, j, t);
    SplitChildKeepsInOrder(n, j, t);
    PairInInOrder(n1, j);
    Trichotomy(key, n1.pairs[j].key);
  }

  /** The child chosen by the downward scan lies between separating pairs below and above the key. */
  lemma InsertBracket<V>(n: Node<V>, key: string, t: int, h: nat, j: int)
    requires Valid(n, t, h) && h > 0 && Lookup(InOrder(n), key).None?
    requires j == LastNotAbove(n.pairs, key, |n.pairs| - 1) + 1
    ensures 0 <= j < |n.children|
    ensures j > 0 ==> Less(n.pairs[j - 1].key, key)
    ensures j < |n.pairs| ==> Less(key, n.pairs[j].key)
  {
    if j > 0 {
      PairInInOrder(n, j - 1);
      Trichotomy(key, n.pairs[j - 1].key);
    }
  }

  /**
   * `insertNonFull` (leaf branch corrected): at a leaf the pair is inserted in order; in an
   * inner node the insertion continues in the child `PrepareDescent` chooses.
   */
  function InsertNonFull<V>(n: Node<V>, key: string, v: V, t: int, h: nat): (r: Node<V>)
    requires t >= 2 && Valid(n, t, h) && !IsFull(n, t)
    requires SortedPairs(InOrder(n)) && Lookup(InOrder(n), key).None?
    ensures Valid(r, t, h) && |n.pairs| <= |r.pairs| <= |n.pairs| + 1
    ensures InOrder(r) == InsertSorted(InOrder(n), Pair(key, v))
    decreases h
  {
    if h == 0 then
      Node(LeafInsert(t, n.pairs, key, v), [])
    else
      var prepared := PrepareDescent(n, key, t, h);
      var n1 := prepared.0;
      var j := prepared.1;
      DescendInto(n1, t, h, j, key);
      var c := InsertNonFull(n1.children[j], key, v, t, h - 1);
      InsertBelowChild(n1, t, h, j, c, Pair(key, v));
      Node(n1.pairs, n1.children[j := c])
  }

  /** The child chosen for the descent is a valid, sorted subtree without the key. */
  lemma DescendInto<V>(n: Node<V>, t: int, h: nat, j: nat, key: string)
    requires Valid(n, t, h) && h > 0 && SortedPairs(InOrder(n)) && Lookup(InOrder(n), key).None?
    requires j < |n.children|
    requires j > 0 ==> Less(n.pairs[j - 1].key, key)
    requires j < |n.pairs| ==> Less(key, n.pairs[j].key)
    ensures Valid(n.children[j], t, h - 1) && t - 1 <= |n.children[j].pairs|
    ensures SortedPairs(InOrder(n.children[j])) && Lookup(InOrder(n.children[j]), key).None?
    ensures InOrder(n) == Before(n, j) + InOrder(n.children[j]) + After(n, j)
    ensures AllBelow(Before(n, j), key) && AllAbove(After(n, j), key)
  {
    ValidChild(n, t, h, j);
    Route(n, t, h, j, key);
    LookupMiddle(Before(n, j), InOrder(n.children[j]), After(n, j), key);
  }

  /** Putting back a child into which the pair was inserted inserts it into the whole subtree. */
  lemma InsertBelowChild<V>(n: Node<V>, t: int, h: nat, j: nat, c: Node<V>, p: Pair<V>)
    requires Valid(n, t, h) && h > 0 && j < |n.children|
    requires InOrder(n) == Before(n, j) + InOrder(n.children[j]) + After(n, j)
    requires AllBelow(Before(n, j), p.key) && AllAbove(After(n, j), p.key)
    requires Valid(c, t, h - 1) && t - 1 <= |c.pairs|
    requires InOrder(c) == InsertSorted(InOrder(n.children[j]), p)
    ensures Valid(Node(n.pairs, n.children[j := c]), t, h)
    ensures InOrder(Node(n.pairs, n.children[j := c])) == InsertSorted(InOrder(n), p)
  {
    ValidWithChild(n, t, h, j, c);
    InOrderReplaceChild(n, j, c);
    InsertSortedMiddle(Before(n, j), InOrder(n.children[j]), After(n, j), p);
  }
}
