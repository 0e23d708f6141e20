/**
 * Deletion from the persistent B-tree: the node's `remove` with its helpers `removeFromLeaf`,
 * `removeFromNonLeaf`, `getPred`, `getSucc`, `fill`, `borrowFromPrev`, `borrowFromNext` and
 * `merge`. Every step keeps the subtree valid and its in-order sequence; the whole removal
 * deletes exactly the pairs with the key from that sequence.
 */
module BTreeRemoval {
  import opened Wrappers
  import opened Text
  import opened Chunks
  import opened PairSequences
  import opened BTreeNodes

  /* ---------------- joining two nodes around a pair ---------------- */

  /** The node holding l's pairs, then k, then r's pairs, with l's children followed by r's. */
  function Join<V>(l: Node<V>, k: Pair<V>, r: Node<V>): Node<V> {
    Node(l.pairs + [k] + r.pairs, l.children + r.children)
  }

  /** Two leaves, or two inner nodes, joined around a pair hold their pairs around it in order. */
  lemma JoinInOrder<V>(l: Node<V>, k: Pair<V>, r: Node<V>)
    requires (|l.children| == 0 && |r.children| == 0)
          || (|l.children| == |l.pairs| + 1 && |r.children| == |r.pairs| + 1)
    ensures InOrder(Join(l, k, r)) == InOrder(l) + [k] + InOrder(r)
  {
    var m := Join(l, k, r);
    if |l.children| > 0 {
      var lp := |l.pairs|;
      var ps := Parts(m);
      var left := Parts(l);
      var right := Parts(r);
      var rhs := left[..lp] + [left[lp] + [k]] + right;
      forall j | 0 <= j < |ps| ensures ps[j] == rhs[j] {
        if j < lp {
          assert rhs[j] == left[j];
          assert m.children[j] == l.children[j] && m.pairs[j] == l.pairs[j];
        } else if j == lp {
          assert m.children[j] == l.children[j] && m.pairs[j] == k;
        } else {
          assert rhs[j] == right[j - lp - 1];
          assert m.children[j] == r.children[j - lp - 1];
          if j < |m.pairs| {
            assert m.pairs[j] == r.pairs[j - lp - 1];
          }
        }
      }
      assert ps == rhs;
      FlattenAppend(left[..lp] + [left[lp] + [k]], right);
      FlattenSnoc(left[..lp], left[lp] + [k]);
      assert left == left[..lp] + [left[lp]];
      FlattenSnoc(left[..lp], left[lp]);
    }
  }

  /* ---------------- the in-order sequence around one pair ---------------- */

  /**
   * Replacing pair i and the two children beside it changes only their share of the in-order
   * sequence.
   */
  lemma InOrderAroundPair<V>(n: Node<V>, i: nat, a: Node<V>, k: Pair<V>, b: Node<V>)
    requires |n.children| == |n.pairs| + 1 && i < |n.pairs|
    ensures InOrder(Node(n.pairs[i := k], n.children[i := a][i + 1 := b]))
            == Before(n, i) + InOrder(a) + [k] + InOrder(b) + After(n, i + 1)
  {
    var m := Node(n.pairs[i := k], n.children[i := a][i + 1 := b]);
    var ps := Parts(m);
    assert ps[i] == InOrder(a) + [k];
    assert ps[..i] == Parts(n)[..i];
    assert ps[i + 2..] == Parts(n)[i + 2..];
    assert ps == ps[..i] + [ps[i], ps[i + 1]] + ps[i + 2..];
    FlattenAroundTwo(ps[..i], ps[i], ps[i + 1], ps[i + 2..]);
  }

  /** An inner node's in-order sequence split at its pair i. */
  lemma InOrderAtPair<V>(n: Node<V>, i: nat)
    requires |n.children| == |n.pairs| + 1 && i < |n.pairs|
    ensures InOrder(n) == Before(n, i) + InOrder(n.children[i]) + [n.pairs[i]]
                          + InOrder(n.children[i + 1]) + After(n, i + 1)
  {
    assert n == Node(n.pairs[i := n.pairs[i]], n.children[i := n.children[i]][i + 1 := n.children[i + 1]]);
    InOrderAroundPair(n, i, n.children[i], n.pairs[i], n.children[i + 1]);
  }

  /** In sorted order, everything left of pair i is below its key and everything right of it above. */
  lemma SeparatorSplits<V>(n: Node<V>, i: nat)
    requires |n.children| == |n.pairs| + 1 && i < |n.pairs| && SortedPairs(InOrder(n))
    ensures AllBelow(Before(n, i) + InOrder(n.children[i]), n.pairs[i].key)
    ensures AllAbove(InOrder(n.children[i + 1]) + After(n, i + 1), n.pairs[i].key)
  {
    var p := n.pairs[i];
    var a := Before(n, i) + InOrder(n.children[i]);
    var b := InOrder(n.children[i + 1]) + After(n, i + 1);
    InOrderAtPair(n, i);
    assert InOrder(n) == a + [p] + b;
    assert InOrder(n) == a + ([p] + b);
    SortedParts(a, [p] + b);
    SortedParts(a + [p], b);
    assert forall j :: 0 <= j < |a| ==> Less(a[j].key, ([p] + b)[0].key);
    assert forall j :: 0 <= j < |b| ==> Less((a + [p])[|a|].key, b[j].key);
  }

  /** A node's own pairs appear in its in-order sequence, for a leaf as for an inner node. */
  lemma OwnPairInInOrder<V>(c: Node<V>, q: nat)
    requires |c.children| == 0 || |c.children| == |c.pairs| + 1
    requires q < |c.pairs|
    ensures c.pairs[q] in InOrder(c)
  {
    if |c.children| > 0 {
      PairInInOrder(c, q);
    }
  }

  /** A child's own pair is below the separating pair after the child. */
  lemma ChildPairBelowSeparator<V>(n: Node<V>, i: nat, q: nat)
    requires |n.children| == |n.pairs| + 1 && i < |n.pairs| && SortedPairs(InOrder(n))
    requires var c := n.children[i]; (|c.children| == 0 || |c.children| == |c.pairs| + 1) && q < |c.pairs|
    ensures Less(n.children[i].pairs[q].key, n.pairs[i].key)
  {
    var c := n.children[i];
    var a := Before(n, i);
    SeparatorSplits(n, i);
    OwnPairInInOrder(c, q);
    var m :| 0 <= m < |InOrder(c)| && InOrder(c)[m] == c.pairs[q];
    assert (a + InOrder(c))[|a| + m] == c.pairs[q];
  }

  /** A child's own pair is above the separating pair before the child. */
  lemma ChildPairAboveSeparator<V>(n: Node<V>, i: nat, q: nat)
    requires |n.children| == |n.pairs| + 1 && i < |n.pairs| && SortedPairs(InOrder(n))
    requires var c := n.children[i + 1]; (|c.children| == 0 || |c.children| == |c.pairs| + 1) && q < |c.pairs|
    ensures Less(n.pairs[i].key, n.children[i + 1].pairs[q].key)
  {
    var c := n.children[i + 1];
    var b := After(n, i + 1);
    SeparatorSplits(n, i);
    OwnPairInInOrder(c, q);
    var m :| 0 <= m < |InOrder(c)| && InOrder(c)[m] == c.pairs[q];
    assert (InOrder(c) + b)[m] == c.pairs[q];
  }

  /** An inner node's pairs are in increasing key order. */
  lemma AdjacentPairsOrdered<V>(n: Node<V>, i: nat)
    requires |n.children| == |n.pairs| + 1 && i + 1 < |n.pairs| && SortedPairs(InOrder(n))
    ensures Less(n.pairs[i].key, n.pairs[i + 1].key)
  {
    SeparatorSplits(n, i);
    var b := InOrder(n.children[i + 1]) + After(n, i + 1);
    assert b[|InOrder(n.children[i + 1])|] == n.pairs[i + 1];
  }

  /* ---------------- predecessor and successor ---------------- */

  /**
   * `getPred`: following the last child down to a leaf, the leaf's last pair; it is the last
   * pair of the subtree in order.
   */
  function RightmostPair<V>(c: Node<V>, t: int, h: nat): (p: Pair<V>)
    requires t >= 2 && Valid(c, t, h) && |c.pairs| >= 1
    ensures |InOrder(c)| > 0 && p == InOrder(c)[|InOrder(c)| - 1]
    decreases h
  {
    if |c.children| == 0 then c.pairs[|c.pairs| - 1]
    else
      ValidChild(c, t, h, |c.pairs|);
      InOrderAround(c, |c.pairs|);
      AfterLastIsEmpty(c);
      RightmostPair(c.children[|c.pairs|], t, h - 1)
  }

  /**
   * `getSucc`: following the first child down to a leaf, the leaf's first pair; it is the first
   * pair of the subtree in order.
   */
  function LeftmostPair<V>(c: Node<V>, t: int, h: nat): (p: Pair<V>)
    requires t >= 2 && Valid(c, t, h) && |c.pairs| >= 1
    ensures |InOrder(c)| > 0 && p == InOrder(c)[0]
    decreases h
  {
    if |c.children| == 0 then c.pairs[0]
    else
      ValidChild(c, t, h, 0);
      InOrderAround(c, 0);
      assert Before(c, 0) == [];
      LeftmostPair(c.children[0], t, h - 1)
  }

  /* ---------------- leaf deletion ---------------- */

  /** `shiftLeftOne(start)` on a node's chunk: the pair at `start` is dropped. */
  function ShiftPairsLeft<V>(t: int, pairs: seq<Pair<V>>, start: nat): (r: seq<Pair<V>>)
    requires |pairs| <= Capacity(t) && start < |pairs| && start + 1 < Capacity(t)
    ensures r == pairs[..start] + pairs[start + 1..]
  {
    var c := ChunkOfPairs(t, pairs);
    ShiftLeftDeletes(c, start);
    Elements(ShiftLeftOne(c, start))
  }

  /**
   * `removeFromLeaf(idx)`: the chunk is shifted left over the pair, or, for the last pair, the
   * slot is emptied.
   */
  function RemoveFromLeaf<V>(t: int, pairs: seq<Pair<V>>, idx: nat): (r: seq<Pair<V>>)
    requires t >= 2 && |pairs| <= Capacity(t) && idx < |pairs|
    ensures r == pairs[..idx] + pairs[idx + 1..]
  {
    if idx < |pairs| - 1 then ShiftPairsLeft(t, pairs, idx)
    else
      var c := ChunkOfPairs(t, pairs);
      RemoveLastKeepsPacked(c);
      Elements(RemoveSlot(c, |pairs| - 1).0)
  }

  /* ---------------- rebalancing ---------------- */

  /** Two nodes of one level: both leaves, or both inner nodes with one child more than pairs. */
  predicate SameLevel<V>(a: Node<V>, b: Node<V>) {
    (|a.children| == 0 && |b.children| == 0)
    || (|a.children| == |a.pairs| + 1 && |b.children| == |b.pairs| + 1)
  }

  /** Siblings under a valid node are of one level. */
  lemma SiblingsSameLevel<V>(n: Node<V>, t: int, h: nat, i: nat, j: nat)
    requires Valid(n, t, h) && h > 0 && i < |n.children| && j < |n.children|
    ensures SameLevel(n.children[i], n.children[j])
  {
    ValidChild(n, t, h, i);
    ValidChild(n, t, h, j);
  }

  /**
   * `borrowFromPrev(idx)`: the separating pair idx - 1 moves down to the front of child idx,
   * the previous sibling's last pair moves up in its place, and (between inner nodes) the
   * sibling's last child becomes the child's first.
   */
  function BorrowFromPrev<V>(n: Node<V>, idx: nat, t: int, h: nat): (r: Node<V>)
    requires t >= 2 && Valid(n, t, h) && h > 0 && 0 < idx < |n.children|
    requires |n.children[idx - 1].pairs| >= t && |n.children[idx].pairs| < 2 * t - 1
    ensures Valid(r, t, h) && InOrder(r) == InOrder(n)
    ensures |r.pairs| == |n.pairs|
    ensures |r.children[idx].pairs| == |n.children[idx].pairs| + 1
  {
    BorrowFromPrevValid(n, idx, t, h);
    BorrowFromPrevKeepsOrder(n, idx, t, h);
    PrevBorrowed(n, idx, t, h)
  }

  /** The node `borrowFromPrev` builds, before its validity and contents are shown. */
  function PrevBorrowed<V>(n: Node<V>, idx: nat, t: int, h: nat): (r: Node<V>)
    requires t >= 2 && Valid(n, t, h) && h > 0 && 0 < idx < |n.children|
    requires |n.children[idx - 1].pairs| >= t
    ensures |r.pairs| == |n.pairs| && |r.children| == |n.children|
    ensures |r.children[idx].pairs| == |n.children[idx].pairs| + 1
  {
    SiblingsSameLevel(n, t, h, idx - 1, idx);
    var child := n.children[idx];
    var sibling := n.children[idx - 1];
    var child' := Node([n.pairs[idx - 1]] + child.pairs,
                       if |child.children| == 0 then [] else [sibling.children[|sibling.pairs|]] + child.children);
    var sibling' := Node(sibling.pairs[..|sibling.pairs| - 1],
                         if |child.children| == 0 then [] else sibling.children[..|sibling.pairs|]);
    Node(n.pairs[idx - 1 := sibling.pairs[|sibling.pairs| - 1]], n.children[idx - 1 := sibling'][idx := child'])
  }

  /** The rebuilt node is valid: both rebuilt children keep enough pairs and their level. */
  lemma BorrowFromPrevValid<V>(n: Node<V>, idx: nat, t: int, h: nat)
    requires t >= 2 && Valid(n, t, h) && h > 0 && 0 < idx < |n.children|
    requires |n.children[idx - 1].pairs| >= t && |n.children[idx].pairs| < 2 * t - 1
    ensures Valid(PrevBorrowed(n, idx, t, h), t, h)
  {
    var child := n.children[idx];
    var sibling := n.children[idx - 1];
    ValidChild(n, t, h, idx);
    ValidChild(n, t, h, idx - 1);
    var child' := Node([n.pairs[idx - 1]] + child.pairs,
                       if |child.children| == 0 then [] else [sibling.children[|sibling.pairs|]] + child.children);
    var sibling' := Node(sibling.pairs[..|sibling.pairs| - 1],
                         if |child.children| == 0 then [] else sibling.children[..|sibling.pairs|]);
    BorrowFromPrevChildren(sibling, child, n.pairs[idx - 1], t, h - 1, sibling', child');
    ValidWithTwoChildren(n, t, h, idx - 1, sibling', child', n.pairs[idx - 1 := sibling.pairs[|sibling.pairs| - 1]]);
  }

  /** The rebuilt node holds the same pairs in the same order. */
  lemma BorrowFromPrevKeepsOrder<V>(n: Node<V>, idx: nat, t: int, h: nat)
    requires t >= 2 && Valid(n, t, h) && h > 0 && 0 < idx < |n.children|
    requires |n.children[idx - 1].pairs| >= t
    ensures InOrder(PrevBorrowed(n, idx, t, h)) == InOrder(n)
  {
    var r := PrevBorrowed(n, idx, t, h);
    SiblingsSameLevel(n, t, h, idx - 1, idx);
    BorrowFromPrevInOrder(n, idx, r.children[idx], r.children[idx - 1]);
  }

  lemma BorrowFromPrevInOrder<V>(n: Node<V>, idx: nat, child': Node<V>, sibling': Node<V>)
    requires |n.children| == |n.pairs| + 1 && 0 < idx < |n.children|
    requires SameLevel(n.children[idx - 1], n.children[idx]) && |n.children[idx - 1].pairs| >= 1
    requires var child := n.children[idx];
             var sibling := n.children[idx - 1];
             && child' == Node([n.pairs[idx - 1]] + child.pairs,
                               if |child.children| == 0 then [] else [sibling.children[|sibling.pairs|]] + child.children)
             && sibling' == Node(sibling.pairs[..|sibling.pairs| - 1],
                                 if |child.children| == 0 then [] else sibling.children[..|sibling.pairs|])
    ensures var up := n.children[idx - 1].pairs[|n.children[idx - 1].pairs| - 1];
            InOrder(Node(n.pairs[idx - 1 := up], n.children[idx - 1 := sibling'][idx := child'])) == InOrder(n)
  {
    var child := n.children[idx];
    var sibling := n.children[idx - 1];
    var up := sibling.pairs[|sibling.pairs| - 1];
    var down := n.pairs[idx - 1];
    BorrowFromPrevPieces(sibling, down, child, sibling', child');
    var before := Before(n, idx - 1);
    var after := After(n, idx);
    var r := Node(n.pairs[idx - 1 := up], n.children[idx - 1 := sibling'][idx := child']);
    InOrderAroundPair(n, idx - 1, sibling', up, child');
    InOrderAtPair(n, idx - 1);
    Regroup(before, InOrder(sibling'), [up], InOrder(child'), InOrder(sibling), [down], InOrder(child), after);
  }

  /** Sequences that agree in the middle agree with the same ends around them. */
  lemma Regroup<T>(a: seq<T>, x1: seq<T>, x2: seq<T>, x3: seq<T>, y1: seq<T>, y2: seq<T>, y3: seq<T>, b: seq<T>)
    requires x1 + x2 + x3 == y1 + y2 + y3
    ensures a + x1 + x2 + x3 + b == a + y1 + y2 + y3 + b
  {
    assert a + x1 + x2 + x3 + b == a + (x1 + x2 + x3) + b;
    assert a + y1 + y2 + y3 + b == a + (y1 + y2 + y3) + b;
  }

  /** The last child of a node, alone under an empty node; an empty leaf for a leaf. */
  function LastChildAlone<V>(s: Node<V>): Node<V>
    requires |s.children| == 0 || |s.children| == |s.pairs| + 1
  {
    Node([], if |s.children| == 0 then [] else [s.children[|s.pairs|]])
  }

  /** A node is its part without the last pair and child, joined around that pair to that child. */
  lemma SplitOffLast<V>(s: Node<V>)
    requires (|s.children| == 0 || |s.children| == |s.pairs| + 1) && |s.pairs| >= 1
    ensures var last := |s.pairs| - 1;
            var rest := Node(s.pairs[..last], if |s.children| == 0 then [] else s.children[..last + 1]);
            InOrder(s) == InOrder(rest) + [s.pairs[last]] + InOrder(LastChildAlone(s))
  {
    var last := |s.pairs| - 1;
    var rest := Node(s.pairs[..last], if |s.children| == 0 then [] else s.children[..last + 1]);
    var g := LastChildAlone(s);
    assert s.pairs == rest.pairs + [s.pairs[last]] + g.pairs;
    assert s.children == rest.children + g.children;
    assert Join(rest, s.pairs[last], g) == s;
    JoinInOrder(rest, s.pairs[last], g);
  }

  /**
   * The pieces of a borrow from the previous sibling: the sibling without its last pair and
   * child, the pair moving up, the child moved across, the pair moving down and the child.
   */
  lemma BorrowFromPrevPieces<V>(sibling: Node<V>, down: Pair<V>, child: Node<V>, sibling': Node<V>, child': Node<V>)
    requires SameLevel(sibling, child) && |sibling.pairs| >= 1
    requires var last := |sibling.pairs| - 1;
             && child' == Node([down] + child.pairs,
                               if |child.children| == 0 then [] else [sibling.children[|sibling.pairs|]] + child.children)
             && sibling' == Node(sibling.pairs[..|sibling.pairs| - 1],
                                 if |child.children| == 0 then [] else sibling.children[..|sibling.pairs|])
    ensures var up := sibling.pairs[|sibling.pairs| - 1];
            InOrder(sibling') + [up] + InOrder(child') == InOrder(sibling) + [down] + InOrder(child)
  {
    var up := sibling.pairs[|sibling.pairs| - 1];
    var g := LastChildAlone(sibling);
    SplitOffLast(sibling);
    assert sibling' == Node(sibling.pairs[..|sibling.pairs| - 1], if |sibling.children| == 0 then [] else sibling.children[..|sibling.pairs|]);
    BorrowFromPrevJoin(sibling, down, child, child');
    JoinInOrder(g, down, child);
    Reassociate(InOrder(sibling'), up, InOrder(g), down, InOrder(child));
  }

  /** Moving the brackets of a sequence split at two single elements. */
  lemma Reassociate<T>(a: seq<T>, x: T, b: seq<T>, y: T, c: seq<T>)
    ensures a + [x] + (b + [y] + c) == (a + [x] + b) + [y] + c
  {
  }

  /** The child after a borrow from the previous sibling is that sibling's last child joined to it around the pair moving down. */
  lemma BorrowFromPrevJoin<V>(sibling: Node<V>, down: Pair<V>, child: Node<V>, child': Node<V>)
    requires SameLevel(sibling, child) && |sibling.pairs| >= 1
    requires child' == Node([down] + child.pairs,
                            if |child.children| == 0 then [] else [sibling.children[|sibling.pairs|]] + child.children)
    ensures Join(LastChildAlone(sibling), down, child) == child'
  {
    var g := LastChildAlone(sibling);
    assert g.pairs + [down] + child.pairs == [down] + child.pairs;
    if |child.children| == 0 {
      assert g.children + child.children == [];
    } else {
      assert g.children == [sibling.children[|sibling.pairs|]];
    }
  }

  /** The two children a borrow from the previous sibling rebuilds are valid and keep enough pairs. */
  lemma BorrowFromPrevChildren<V>(sibling: Node<V>, child: Node<V>, down: Pair<V>, t: int, h: nat,
                                  sibling': Node<V>, child': Node<V>)
    requires Valid(sibling, t, h) && |sibling.pairs| >= t
    requires Valid(child, t, h) && t - 1 <= |child.pairs| < 2 * t - 1
    requires child' == Node([down] + child.pairs,
                            if |child.children| == 0 then [] else [sibling.children[|sibling.pairs|]] + child.children)
    requires sibling' == Node(sibling.pairs[..|sibling.pairs| - 1],
                              if |child.children| == 0 then [] else sibling.children[..|sibling.pairs|])
    ensures Valid(sibling', t, h) && t - 1 <= |sibling'.pairs|
    ensures Valid(child', t, h) && t - 1 <= |child'.pairs|
  {
    if h > 0 {
      ValidChild(sibling, t, h, |sibling.pairs|);
      ValidPrepend(child, t, h, down, sibling.children[|sibling.pairs|], child');
    } else {
      ValidPrepend(child, t, h, down, child, child');
    }
    ValidDropLast(sibling, t, h, sibling');
  }

  /** The two children a borrow from the next sibling rebuilds are valid and keep enough pairs. */
  lemma BorrowFromNextChildren<V>(child: Node<V>, sibling: Node<V>, down: Pair<V>, t: int, h: nat,
                                  child': Node<V>, sibling': Node<V>)
    requires Valid(sibling, t, h) && |sibling.pairs| >= t
    requires Valid(child, t, h) && t - 1 <= |child.pairs| < 2 * t - 1
    requires child' == Node(child.pairs + [down],
                            if |child.children| == 0 then [] else child.children + [sibling.children[0]])
    requires sibling' == Node(sibling.pairs[1..], if |child.children| == 0 then [] else sibling.children[1..])
    ensures Valid(sibling', t, h) && t - 1 <= |sibling'.pairs|
    ensures Valid(child', t, h) && t - 1 <= |child'.pairs|
  {
    if h > 0 {
      ValidChild(sibling, t, h, 0);
      ValidAppend(child, t, h, down, sibling.children[0], child');
    } else {
      ValidAppend(child, t, h, down, child, child');
    }
    ValidDropFirst(sibling, t, h, sibling');
  }

  /** A node without its last pair (and last child) is valid when it had more than t - 1 pairs. */
  lemma ValidDropLast<V>(s: Node<V>, t: int, h: nat, s': Node<V>)
    requires Valid(s, t, h) && |s.pairs| >= t
    requires s' == Node(s.pairs[..|s.pairs| - 1], if h == 0 then [] else s.children[..|s.pairs|])
    ensures Valid(s', t, h) && t - 1 <= |s'.pairs|
  {
    assert forall j :: 0 <= j < |s'.children| ==> s'.children[j] == s.children[j];
  }

  /** A node without its first pair (and first child) is valid when it had more than t - 1 pairs. */
  lemma ValidDropFirst<V>(s: Node<V>, t: int, h: nat, s': Node<V>)
    requires Valid(s, t, h) && |s.pairs| >= t
    requires s' == Node(s.pairs[1..], if h == 0 then [] else s.children[1..])
    ensures Valid(s', t, h) && t - 1 <= |s'.pairs|
  {
    assert forall j :: 0 <= j < |s'.children| ==> s'.children[j] == s.children[j + 1];
  }

  /** A node that is not full stays valid with a pair, and below a leaf a valid child, put in front. */
  lemma ValidPrepend<V>(c: Node<V>, t: int, h: nat, p: Pair<V>, g: Node<V>, c': Node<V>)
    requires Valid(c, t, h) && t - 1 <= |c.pairs| < 2 * t - 1
    requires h > 0 ==> Valid(g, t, h - 1) && t - 1 <= |g.pairs|
    requires c' == Node([p] + c.pairs, if h == 0 then [] else [g] + c.children)
    ensures Valid(c', t, h) && t - 1 <= |c'.pairs|
  {
    assert forall j :: 0 < j < |c'.children| ==> c'.children[j] == c.children[j - 1];
  }

  /** A node that is not full stays valid with a pair, and below a leaf a valid child, put at the end. */
  lemma ValidAppend<V>(c: Node<V>, t: int, h: nat, p: Pair<V>, g: Node<V>, c': Node<V>)
    requires Valid(c, t, h) && t - 1 <= |c.pairs| < 2 * t - 1
    requires h > 0 ==> Valid(g, t, h - 1) && t - 1 <= |g.pairs|
    requires c' == Node(c.pairs + [p], if h == 0 then [] else c.children + [g])
    ensures Valid(c', t, h) && t - 1 <= |c'.pairs|
  {
    assert forall j :: 0 <= j < |c'.children| - 1 ==> c'.children[j] == c.children[j];
  }

  /**
   * `borrowFromNext(idx)`: the separating pair idx moves down to the end of child idx, the next
   * sibling's first pair moves up in its place (the sibling's chunk shifted left), and (between
   * inner nodes) the sibling's first child becomes the child's last.
   */
  function BorrowFromNext<V>(n: Node<V>, idx: nat, t: int, h: nat): (r: Node<V>)
    requires t >= 2 && Valid(n, t, h) && h > 0 && idx < |n.pairs|
    requires |n.children[idx + 1].pairs| >= t && |n.children[idx].pairs| < 2 * t - 1
    ensures Valid(r, t, h) && InOrder(r) == InOrder(n)
    ensures |r.pairs| == |n.pairs|
    ensures |r.children[idx].pairs| == |n.children[idx].pairs| + 1
  {
    SiblingsSameLevel(n, t, h, idx, idx + 1);
    ValidChild(n, t, h, idx + 1);
    var child := n.children[idx];
    var sibling := n.children[idx + 1];
    var child' := Node(child.pairs + [n.pairs[idx]],
                       if |child.children| == 0 then [] else child.children + [sibling.children[0]]);
    var sibling' := Node(ShiftPairsLeft(t, sibling.pairs, 0),
                         if |child.children| == 0 then [] else sibling.children[1..]);
    assert sibling'.pairs == sibling.pairs[1..];
    var r := Node(n.pairs[idx := sibling.pairs[0]], n.children[idx := child'][idx + 1 := sibling']);
    BorrowFromNextInOrder(n, idx, child', sibling');
    BorrowFromNextValid(n, idx, t, h, child', sibling');
    r
  }

  lemma BorrowFromNextInOrder<V>(n: Node<V>, idx: nat, child': Node<V>, sibling': Node<V>)
    requires |n.children| == |n.pairs| + 1 && idx < |n.pairs|
    requires SameLevel(n.children[idx], n.children[idx + 1]) && |n.children[idx + 1].pairs| >= 1
    requires var child := n.children[idx];
             var sibling := n.children[idx + 1];
             && child' == Node(child.pairs + [n.pairs[idx]],
                               if |child.children| == 0 then [] else child.children + [sibling.children[0]])
             && sibling' == Node(sibling.pairs[1..], if |child.children| == 0 then [] else sibling.children[1..])
    ensures InOrder(Node(n.pairs[idx := n.children[idx + 1].pairs[0]], n.children[idx := child'][idx + 1 := sibling']))
            == InOrder(n)
  {
    var child := n.children[idx];
    var sibling := n.children[idx + 1];
    var up := sibling.pairs[0];
    var g := Node([], if |child.children| == 0 then [] else [sibling.children[0]]);
    assert Join(child, n.pairs[idx], g) == child';
    JoinInOrder(child, n.pairs[idx], g);
    assert sibling.pairs == [] + [up] + sibling.pairs[1..];
    assert |child.children| > 0 ==> sibling.children == [sibling.children[0]] + sibling.children[1..];
    assert Join(g, up, sibling') == sibling;
    JoinInOrder(g, up, sibling');
    InOrderAroundPair(n, idx, child', up, sibling');
    InOrderAtPair(n, idx);
  }

  lemma BorrowFromNextValid<V>(n: Node<V>, idx: nat, t: int, h: nat, child': Node<V>, sibling': Node<V>)
    requires t >= 2 && Valid(n, t, h) && h > 0 && idx < |n.pairs|
    requires |n.children[idx + 1].pairs| >= t && |n.children[idx].pairs| < 2 * t - 1
    requires SameLevel(n.children[idx], n.children[idx + 1])
    requires var child := n.children[idx];
             var sibling := n.children[idx + 1];
             && child' == Node(child.pairs + [n.pairs[idx]],
                               if |child.children| == 0 then [] else child.children + [sibling.children[0]])
             && sibling' == Node(sibling.pairs[1..], if |child.children| == 0 then [] else sibling.children[1..])
    ensures Valid(Node(n.pairs[idx := n.children[idx + 1].pairs[0]], n.children[idx := child'][idx + 1 := sibling']), t, h)
  {
    var child := n.children[idx];
    var sibling := n.children[idx + 1];
    ValidChild(n, t, h, idx);
    ValidChild(n, t, h, idx + 1);
    BorrowFromNextChildren(child, sibling, n.pairs[idx], t, h - 1, child', sibling');
    ValidWithTwoChildren(n, t, h, idx, child', sibling', n.pairs[idx := sibling.pairs[0]]);
  }

  /**
   * `merge(idx)`: the separating pair idx and all of child idx + 1 are appended to child idx,
   * which holds t - 1 pairs, so the pair lands in slot t - 1; the parent closes the gap.
   */
  function Merge<V>(n: Node<V>, idx: nat, t: int, h: nat): (r: Node<V>)
    requires t >= 2 && Valid(n, t, h) && h > 0 && idx < |n.pairs|
    requires |n.children[idx].pairs| == t - 1 && |n.children[idx + 1].pairs| < t
    ensures Valid(r, t, h) && InOrder(r) == InOrder(n)
    ensures |r.pairs| == |n.pairs| - 1 && |r.children[idx].pairs| == 2 * t - 1
    ensures InOrder(r.children[idx]) == InOrder(n.children[idx]) + [n.pairs[idx]] + InOrder(n.children[idx + 1])
  {
    var m := Join(n.children[idx], n.pairs[idx], n.children[idx + 1]);
    var r := Node(n.pairs[..idx] + n.pairs[idx + 1..], n.children[..idx] + [m] + n.children[idx + 2..]);
    SiblingsSameLevel(n, t, h, idx, idx + 1);
    JoinInOrder(n.children[idx], n.pairs[idx], n.children[idx + 1]);
    MergeAround(n, idx);
    MergeValid(n, idx, t, h);
    InOrderAround(r, idx);
    InOrderAtPair(n, idx);
    r
  }

  /** After a merge, the pairs before and after the merged child are those around the two it replaced. */
  lemma MergeAround<V>(n: Node<V>, idx: nat)
    requires |n.children| == |n.pairs| + 1 && idx < |n.pairs|
    ensures var m := Join(n.children[idx], n.pairs[idx], n.children[idx + 1]);
            var r := Node(n.pairs[..idx] + n.pairs[idx + 1..], n.children[..idx] + [m] + n.children[idx + 2..]);
            Before(r, idx) == Before(n, idx) && After(r, idx) == After(n, idx + 1)
  {
    var m := Join(n.children[idx], n.pairs[idx], n.children[idx + 1]);
    var r := Node(n.pairs[..idx] + n.pairs[idx + 1..], n.children[..idx] + [m] + n.children[idx + 2..]);
    assert Parts(r)[..idx] == Parts(n)[..idx];
    assert Parts(r)[idx + 1..] == Parts(n)[idx + 2..];
  }

  lemma MergeValid<V>(n: Node<V>, idx: nat, t: int, h: nat)
    requires t >= 2 && Valid(n, t, h) && h > 0 && idx < |n.pairs|
    requires |n.children[idx].pairs| == t - 1 && |n.children[idx + 1].pairs| < t
    ensures var m := Join(n.children[idx], n.pairs[idx], n.children[idx + 1]);
            var r := Node(n.pairs[..idx] + n.pairs[idx + 1..], n.children[..idx] + [m] + n.children[idx + 2..]);
            Valid(r, t, h) && |m.pairs| == 2 * t - 1
  {
    var c := n.children[idx];
    var s := n.children[idx + 1];
    var m := Join(c, n.pairs[idx], s);
    var r := Node(n.pairs[..idx] + n.pairs[idx + 1..], n.children[..idx] + [m] + n.children[idx + 2..]);
    ValidChild(n, t, h, idx);
    ValidChild(n, t, h, idx + 1);
    assert forall j :: 0 <= j < |m.children| ==>
      m.children[j] == if j < |c.children| then c.children[j] else s.children[j - |c.children|];
    assert Valid(m, t, h - 1);
    assert forall j :: 0 <= j < |r.children| ==>
      r.children[j] == if j < idx then n.children[j] else if j == idx then m else n.children[j + 1];
  }

  /**
   * `fill(idx)`: child idx, which holds fewer than t pairs, borrows from the previous sibling,
   * else from the next one, else is merged with the next sibling, or with the previous one when
   * it is the last child. Afterwards the child the removal continues in holds at least t pairs.
   */
  function Fill<V>(n: Node<V>, idx: nat, t: int, h: nat): (r: Node<V>)
    requires t >= 2 && Valid(n, t, h) && h > 0 && 1 <= |n.pairs| && idx <= |n.pairs|
    requires |n.children[idx].pairs| < t
    ensures Valid(r, t, h) && InOrder(r) == InOrder(n)
    ensures |n.pairs| - 1 <= |r.pairs| <= |n.pairs|
    ensures var j := if idx == |n.pairs| && idx > |r.pairs| then idx - 1 else idx;
            j < |r.children| && |r.children[j].pairs| >= t
  {
    ValidChild(n, t, h, idx);
    if idx != 0 && |n.children[idx - 1].pairs| >= t then BorrowFromPrev(n, idx, t, h)
    else if idx != |n.pairs| && |n.children[idx + 1].pairs| >= t then BorrowFromNext(n, idx, t, h)
    else if idx != |n.pairs| then
      ValidChild(n, t, h, idx + 1);
      Merge(n, idx, t, h)
    else
      ValidChild(n, t, h, idx - 1);
      Merge(n, idx - 1, t, h)
  }

  /* ---------------- removal ---------------- */

  /**
   * `remove`: the key is found among the node's pairs and removed from the leaf or from the
   * inner node; otherwise, at a leaf nothing happens, and in an inner node the child that may
   * hold the key is filled to at least t pairs first and the removal continues there. The
   * subtree stays valid and loses at most one pair at its top.
   */
  function Remove<V>(n: Node<V>, key: string, t: int, h: nat): (r: Node<V>)
    requires t >= 2 && Valid(n, t, h) && (h > 0 ==> |n.pairs| >= 1)
    ensures Valid(r, t, h) && |n.pairs| - 1 <= |r.pairs| <= |n.pairs|
    decreases h, 2
  {
    var idx := ScanFrom(n.pairs, key, 0);
    if idx < |n.pairs| && n.pairs[idx].key == key then
      if |n.children| == 0 then Node(RemoveFromLeaf(t, n.pairs, idx), [])
      else RemoveFromNonLeaf(n, idx, t, h)
    else if |n.children| == 0 then n
    else Descend(n, key, t, h, idx)
  }

  /**
   * The descent for a key that is not among an inner node's pairs: child idx is filled first when
   * it holds fewer than t pairs, and the key is removed from the child that then covers it (child
   * idx - 1 when filling the last child merged it into its left neighbour).
   */
  function Descend<V>(n: Node<V>, key: string, t: int, h: nat, idx: nat): (r: Node<V>)
    requires t >= 2 && Valid(n, t, h) && h > 0 && |n.pairs| >= 1 && idx <= |n.pairs|
    ensures Valid(r, t, h) && |n.pairs| - 1 <= |r.pairs| <= |n.pairs|
    decreases h, 1
  {
    var flag := idx == |n.pairs|;
    ValidChild(n, t, h, idx);
    var n1 := if |n.children[idx].pairs| < t then Fill(n, idx, t, h) else n;
    var j := if flag && idx > |n1.pairs| then idx - 1 else idx;
    RemoveInChild(n1, key, t, h, j)
  }

  /** The key removed from child j, which holds at least t pairs, and the child put back. */
  function RemoveInChild<V>(n: Node<V>, key: string, t: int, h: nat, j: nat): (r: Node<V>)
    requires t >= 2 && Valid(n, t, h) && h > 0 && j < |n.children| && |n.children[j].pairs| >= t
    ensures Valid(r, t, h) && r.pairs == n.pairs && |r.children| == |n.children|
    ensures forall i :: 0 <= i < |n.children| && i != j ==> r.children[i] == n.children[i]
    decreases h, 0
  {
    ValidChild(n, t, h, j);
    var c := Remove(n.children[j], key, t, h - 1);
    ValidWithChild(n, t, h, j, c);
    Node(n.pairs, n.children[j := c])
  }

  /**
   * `removeFromNonLeaf(idx)`: pair idx is replaced by its predecessor, removed from child idx,
   * when that child has at least t pairs; else by its successor, removed from child idx + 1,
   * when that one has; else the two children are merged around the pair and the key is removed
   * from the merged child.
   */
  function RemoveFromNonLeaf<V>(n: Node<V>, idx: nat, t: int, h: nat): (r: Node<V>)
    requires t >= 2 && Valid(n, t, h) && h > 0 && idx < |n.pairs|
    ensures Valid(r, t, h) && |n.pairs| - 1 <= |r.pairs| <= |n.pairs|
    decreases h, 1
  {
    var k := n.pairs[idx];
    ValidChild(n, t, h, idx);
    ValidChild(n, t, h, idx + 1);
    if |n.children[idx].pairs| >= t then
      var pred := RightmostPair(n.children[idx], t, h - 1);
      var c := Remove(n.children[idx], pred.key, t, h - 1);
      ValidWithChild(n, t, h, idx, c);
      ValidWithPairs(Node(n.pairs, n.children[idx := c]), t, h, n.pairs[idx := pred]);
      Node(n.pairs[idx := pred], n.children[idx := c])
    else if |n.children[idx + 1].pairs| >= t then
      var succ := LeftmostPair(n.children[idx + 1], t, h - 1);
      var c := Remove(n.children[idx + 1], succ.key, t, h - 1);
      ValidWithChild(n, t, h, idx + 1, c);
      ValidWithPairs(Node(n.pairs, n.children[idx + 1 := c]), t, h, n.pairs[idx := succ]);
      Node(n.pairs[idx := succ], n.children[idx + 1 := c])
    else
      RemoveInChild(Merge(n, idx, t, h), k.key, t, h, idx)
  }

  /* ---------------- removal deletes the key ---------------- */

  /** A removal under child i, with everything else below or above the key, is the removal in the whole. */
  lemma RemoveBelowChild<V>(n: Node<V>, i: nat, c': Node<V>, key: string)
    requires 0 < |n.children| && i < |n.children|
    requires InOrder(n) == Before(n, i) + InOrder(n.children[i]) + After(n, i)
    requires AllBelow(Before(n, i), key) && AllAbove(After(n, i), key)
    requires InOrder(c') == RemoveKey(InOrder(n.children[i]), key)
    ensures InOrder(Node(n.pairs, n.children[i := c'])) == RemoveKey(InOrder(n), key)
  {
    var a := Before(n, i);
    var d := After(n, i);
    InOrderReplaceChild(n, i, c');
    RemoveKeyAppend(a + InOrder(n.children[i]), d, key);
    RemoveKeyAppend(a, InOrder(n.children[i]), key);
    LookupMissesBelow(a, key);
    LookupMissesAbove(d, key);
    RemoveKeyMisses(a, key);
    RemoveKeyMisses(d, key);
  }

  /** After the fill, the child the key routes to is valid, rich enough and bracketed around the key. */
  lemma FilledChildRoutes<V>(n: Node<V>, idx: nat, t: int, h: nat, key: string)
    requires t >= 2 && Valid(n, t, h) && h > 0 && 1 <= |n.pairs| && idx <= |n.pairs|
    requires |n.children[idx].pairs| < t && SortedPairs(InOrder(n))
    requires forall j :: 0 <= j < idx ==> Less(n.pairs[j].key, key)
    requires idx < |n.pairs| ==> Less(key, n.pairs[idx].key)
    ensures var n1 := Fill(n, idx, t, h);
            var j := if idx == |n.pairs| && idx > |n1.pairs| then idx - 1 else idx;
            && Valid(n1, t, h) && SortedPairs(InOrder(n1)) && j < |n1.children|
            && (j > 0 ==> Less(n1.pairs[j - 1].key, key))
            && (j < |n1.pairs| ==> Less(key, n1.pairs[j].key))
            && |n1.children[j].pairs| >= t
  {
    FillRoutes(n, idx, t, h, key);
  }

  /**
   * After `fill`, the child the removal continues in lies between separating pairs below and
   * above the key, as child idx did before.
   */
  lemma FillRoutes<V>(n: Node<V>, idx: nat, t: int, h: nat, key: string)
    requires t >= 2 && Valid(n, t, h) && h > 0 && 1 <= |n.pairs| && idx <= |n.pairs|
    requires |n.children[idx].pairs| < t && SortedPairs(InOrder(n))
    requires forall j :: 0 <= j < idx ==> Less(n.pairs[j].key, key)
    requires idx < |n.pairs| ==> Less(key, n.pairs[idx].key)
    ensures var r := Fill(n, idx, t, h);
            var j := if idx == |n.pairs| && idx > |r.pairs| then idx - 1 else idx;
            (j > 0 ==> Less(r.pairs[j - 1].key, key)) && (j < |r.pairs| ==> Less(key, r.pairs[j].key))
  {
    ValidChild(n, t, h, idx);
    if idx != 0 && |n.children[idx - 1].pairs| >= t {
      BorrowFromPrevRoutes(n, idx, t, h, key);
      assert Fill(n, idx, t, h) == BorrowFromPrev(n, idx, t, h);
    } else if idx != |n.pairs| && |n.children[idx + 1].pairs| >= t {
      BorrowFromNextRoutes(n, idx, t, h, key);
      assert Fill(n, idx, t, h) == BorrowFromNext(n, idx, t, h);
    } else if idx != |n.pairs| {
      ValidChild(n, t, h, idx + 1);
      MergeRoutes(n, idx, t, h, key);
      assert Fill(n, idx, t, h) == Merge(n, idx, t, h);
    } else {
      ValidChild(n, t, h, idx - 1);
      assert Fill(n, idx, t, h) == Merge(n, idx - 1, t, h);
      assert Merge(n, idx - 1, t, h).pairs == n.pairs[..idx - 1];
    }
  }

  lemma BorrowFromPrevRoutes<V>(n: Node<V>, idx: nat, t: int, h: nat, key: string)
    requires t >= 2 && Valid(n, t, h) && h > 0 && 0 < idx < |n.children|
    requires |n.children[idx - 1].pairs| >= t && |n.children[idx].pairs| < 2 * t - 1
    requires SortedPairs(InOrder(n)) && Less(n.pairs[idx - 1].key, key)
    ensures var r := BorrowFromPrev(n, idx, t, h);
            Less(r.pairs[idx - 1].key, key) && forall j :: idx <= j < |r.pairs| ==> r.pairs[j] == n.pairs[j]
  {
    var s := n.children[idx - 1];
    ValidChild(n, t, h, idx - 1);
    ChildPairBelowSeparator(n, idx - 1, |s.pairs| - 1);
    LessTransitive(s.pairs[|s.pairs| - 1].key, n.pairs[idx - 1].key, key);
  }

  lemma BorrowFromNextRoutes<V>(n: Node<V>, idx: nat, t: int, h: nat, key: string)
    requires t >= 2 && Valid(n, t, h) && h > 0 && idx < |n.pairs|
    requires |n.children[idx + 1].pairs| >= t && |n.children[idx].pairs| < 2 * t - 1
    requires SortedPairs(InOrder(n)) && Less(key, n.pairs[idx].key)
    ensures var r := BorrowFromNext(n, idx, t, h);
            Less(key, r.pairs[idx].key) && forall j :: 0 <= j < idx ==> r.pairs[j] == n.pairs[j]
  {
    var s := n.children[idx + 1];
    ValidChild(n, t, h, idx + 1);
    ChildPairAboveSeparator(n, idx, 0);
    LessTransitive(key, n.pairs[idx].key, s.pairs[0].key);
  }

  lemma MergeRoutes<V>(n: Node<V>, idx: nat, t: int, h: nat, key: string)
    requires t >= 2 && Valid(n, t, h) && h > 0 && idx < |n.pairs|
    requires |n.children[idx].pairs| == t - 1 && |n.children[idx + 1].pairs| < t
    requires SortedPairs(InOrder(n)) && Less(key, n.pairs[idx].key)
    ensures var r := Merge(n, idx, t, h);
            && (forall j :: 0 <= j < idx ==> r.pairs[j] == n.pairs[j])
            && (idx < |r.pairs| ==> Less(key, r.pairs[idx].key))
  {
    if idx + 1 < |n.pairs| {
      AdjacentPairsOrdered(n, idx);
      LessTransitive(key, n.pairs[idx].key, n.pairs[idx + 1].key);
    }
  }

  /** On a leaf, a key not at the scanned position is not there at all. */
  lemma LeafMisses<V>(pairs: seq<Pair<V>>, key: string, idx: nat)
    requires SortedPairs(pairs) && idx == ScanFrom(pairs, key, 0)
    requires !(idx < |pairs| && pairs[idx].key == key)
    ensures forall j :: 0 <= j < |pairs| ==> pairs[j].key != key
  {
    forall j | 0 <= j < |pairs| ensures pairs[j].key != key {
      LessIrreflexive(key);
      if j > idx {
        assert Less(pairs[idx].key, pairs[j].key);
      }
    }
  }

  /** The removal deletes exactly the pairs with the key from the subtree's in-order sequence. */
  lemma {:induction false} RemoveDeletes<V>(n: Node<V>, key: string, t: int, h: nat)
    requires t >= 2 && Valid(n, t, h) && (h > 0 ==> |n.pairs| >= 1) && SortedPairs(InOrder(n))
    ensures InOrder(Remove(n, key, t, h)) == RemoveKey(InOrder(n), key)
    decreases h, 4
  {
    var idx := ScanFrom(n.pairs, key, 0);
    if idx < |n.pairs| && n.pairs[idx].key == key {
      if |n.children| == 0 {
        assert n.pairs == n.pairs[..idx] + [n.pairs[idx]] + n.pairs[idx + 1..];
        RemoveKeyAtPivot(n.pairs[..idx], n.pairs[idx], n.pairs[idx + 1..]);
        assert Remove(n, key, t, h) == Node(RemoveFromLeaf(t, n.pairs, idx), []);
      } else {
        RemoveFromNonLeafDeletes(n, idx, t, h);
        assert Remove(n, key, t, h) == RemoveFromNonLeaf(n, idx, t, h);
      }
    } else if |n.children| == 0 {
      LeafMisses(n.pairs, key, idx);
      RemoveKeyMisses(n.pairs, key);
    } else {
      DescendDeletes(n, key, t, h, idx);
    }
  }

  /** A key not among an inner node's pairs is removed from the child filled for it. */
  lemma {:induction false} DescendDeletes<V>(n: Node<V>, key: string, t: int, h: nat, idx: nat)
    requires t >= 2 && Valid(n, t, h) && h > 0 && |n.pairs| >= 1 && SortedPairs(InOrder(n))
    requires idx == ScanFrom(n.pairs, key, 0) && !(idx < |n.pairs| && n.pairs[idx].key == key)
    ensures InOrder(Descend(n, key, t, h, idx)) == RemoveKey(InOrder(n), key)
    decreases h, 3
  {
    if idx < |n.pairs| {
      Trichotomy(key, n.pairs[idx].key);
    }
    ValidChild(n, t, h, idx);
    if |n.children[idx].pairs| < t {
      FilledDeletes(n, key, t, h, idx);
    } else {
      ChildDeletes(n, key, t, h, idx);
    }
  }

  /** A key below a poor child is removed from the child the fill leaves it in. */
  lemma {:induction false} FilledDeletes<V>(n: Node<V>, key: string, t: int, h: nat, idx: nat)
    requires t >= 2 && Valid(n, t, h) && h > 0 && 1 <= |n.pairs| && idx <= |n.pairs|
    requires |n.children[idx].pairs| < t && SortedPairs(InOrder(n))
    requires forall j :: 0 <= j < idx ==> Less(n.pairs[j].key, key)
    requires idx < |n.pairs| ==> Less(key, n.pairs[idx].key)
    ensures var n1 := Fill(n, idx, t, h);
            var j := if idx == |n.pairs| && idx > |n1.pairs| then idx - 1 else idx;
            j < |n1.children| && |n1.children[j].pairs| >= t
            && InOrder(RemoveInChild(n1, key, t, h, j)) == RemoveKey(InOrder(n), key)
    decreases h, 2
  {
    FilledChildRoutes(n, idx, t, h, key);
    var n1 := Fill(n, idx, t, h);
    var j := if idx == |n.pairs| && idx > |n1.pairs| then idx - 1 else idx;
    ChildDeletes(n1, key, t, h, j);
  }

  /** Removing a key from the child it routes to removes it from the whole subtree. */
  lemma {:induction false} ChildDeletes<V>(n: Node<V>, key: string, t: int, h: nat, j: nat)
    requires t >= 2 && Valid(n, t, h) && h > 0 && SortedPairs(InOrder(n)) && j < |n.children|
    requires j > 0 ==> Less(n.pairs[j - 1].key, key)
    requires j < |n.pairs| ==> Less(key, n.pairs[j].key)
    requires |n.children[j].pairs| >= t
    ensures InOrder(RemoveInChild(n, key, t, h, j)) == RemoveKey(InOrder(n), key)
    decreases h, 1
  {
    ValidChild(n, t, h, j);
    Route(n, t, h, j, key);
    RemoveDeletes(n.children[j], key, t, h - 1);
    RemoveBelowChild(n, j, Remove(n.children[j], key, t, h - 1), key);
  }

  /**
   * An inner node split at pair i: the pieces of its in-order sequence are sorted, and removing
   * the pair's key leaves everything else.
   */
  /** Every child of a node whose pairs are sorted in order holds sorted pairs. */
  lemma ChildSorted<V>(n: Node<V>, i: nat)
    requires 0 < |n.children| && i < |n.children| && SortedPairs(InOrder(n))
    ensures SortedPairs(InOrder(n.children[i]))
  {
    InOrderAround(n, i);
    SortedSlice(Before(n, i), InOrder(n.children[i]), After(n, i));
  }

  /** A separating pair sits, in sorted order, between the pairs of its two children. */
  lemma PivotSorted<V>(n: Node<V>, idx: nat)
    requires |n.children| == |n.pairs| + 1 && idx < |n.pairs| && SortedPairs(InOrder(n))
    ensures SortedPairs(InOrder(n.children[idx]) + [n.pairs[idx]] + InOrder(n.children[idx + 1]))
  {
    var mid := InOrder(n.children[idx]) + [n.pairs[idx]] + InOrder(n.children[idx + 1]);
    InOrderAtPair(n, idx);
    assert InOrder(n) == Before(n, idx) + mid + After(n, idx + 1);
    SortedSlice(Before(n, idx), mid, After(n, idx + 1));
  }

  lemma PivotFacts<V>(n: Node<V>, idx: nat)
    requires |n.children| == |n.pairs| + 1 && idx < |n.pairs| && SortedPairs(InOrder(n))
    ensures var k := n.pairs[idx];
            var i0 := InOrder(n.children[idx]);
            var i1 := InOrder(n.children[idx + 1]);
            && SortedPairs(i0) && SortedPairs(i1) && SortedPairs(i0 + [k] + i1)
            && RemoveKey(InOrder(n), k.key) == Before(n, idx) + i0 + i1 + After(n, idx + 1)
  {
    var k := n.pairs[idx];
    var i0 := InOrder(n.children[idx]);
    var i1 := InOrder(n.children[idx + 1]);
    var before := Before(n, idx);
    var after := After(n, idx + 1);
    InOrderAtPair(n, idx);
    assert InOrder(n) == (before + i0) + [k] + (i1 + after);
    RemoveKeyAtPivot(before + i0, k, i1 + after);
    assert InOrder(n) == before + (i0 + [k] + i1) + after;
    SortedSlice(before, i0 + [k] + i1, after);
    SortedSlice(i0, [k], i1);
  }

  /** Removing an inner node's pair i deletes exactly that pair from the subtree's in-order sequence. */
  lemma {:induction false} RemoveFromNonLeafDeletes<V>(n: Node<V>, idx: nat, t: int, h: nat)
    requires t >= 2 && Valid(n, t, h) && h > 0 && idx < |n.pairs| && SortedPairs(InOrder(n))
    ensures InOrder(RemoveFromNonLeaf(n, idx, t, h)) == RemoveKey(InOrder(n), n.pairs[idx].key)
    decreases h, 2
  {
    PivotFacts(n, idx);
    ValidChild(n, t, h, idx);
    ValidChild(n, t, h, idx + 1);
    if |n.children[idx].pairs| >= t {
      PredecessorDeletes(n, idx, t, h);
    } else if |n.children[idx + 1].pairs| >= t {
      SuccessorDeletes(n, idx, t, h);
    } else {
      MergeDeletes(n, idx, t, h);
      MergeBranch(n, idx, t, h);
    }
  }

  lemma {:induction false} PredecessorDeletes<V>(n: Node<V>, idx: nat, t: int, h: nat)
    requires t >= 2 && Valid(n, t, h) && h > 0 && idx < |n.pairs| && SortedPairs(InOrder(n))
    requires |n.children[idx].pairs| >= t
    ensures InOrder(RemoveFromNonLeaf(n, idx, t, h))
            == Before(n, idx) + InOrder(n.children[idx]) + InOrder(n.children[idx + 1]) + After(n, idx + 1)
    decreases h, 1
  {
    ChildSorted(n, idx);
    PredecessorBranch(n, idx, t, h);
    PredecessorRemoved(n.children[idx], t, h);
    var r := RemoveFromNonLeaf(n, idx, t, h);
    PredecessorCase(n, idx, r.pairs[idx], r.children[idx]);
  }

  /** With a rich left child, removing pivot idx replaces it by its predecessor, removed below. */
  lemma PredecessorBranch<V>(n: Node<V>, idx: nat, t: int, h: nat)
    requires t >= 2 && Valid(n, t, h) && h > 0 && idx < |n.pairs| && |n.children[idx].pairs| >= t
    ensures Valid(n.children[idx], t, h - 1)
    ensures var pred := RightmostPair(n.children[idx], t, h - 1);
            RemoveFromNonLeaf(n, idx, t, h)
            == Node(n.pairs[idx := pred], n.children[idx := Remove(n.children[idx], pred.key, t, h - 1)])
  {
    ValidChild(n, t, h, idx);
  }

  /** Removing a child's last pair in order from it leaves the child's other pairs. */
  lemma {:induction false} PredecessorRemoved<V>(c: Node<V>, t: int, h: nat)
    requires t >= 2 && h > 0 && Valid(c, t, h - 1) && |c.pairs| >= t && SortedPairs(InOrder(c))
    ensures var xs := InOrder(c);
            |xs| > 0 && InOrder(Remove(c, RightmostPair(c, t, h - 1).key, t, h - 1)) == xs[..|xs| - 1]
    decreases h, 0
  {
    var pred := RightmostPair(c, t, h - 1);
    var xs := InOrder(c);
    assert xs == xs[..|xs| - 1] + [pred] + [];
    RemoveKeyAtPivot(xs[..|xs| - 1], pred, []);
    RemoveDeletes(c, pred.key, t, h - 1);
  }

  lemma {:induction false} SuccessorDeletes<V>(n: Node<V>, idx: nat, t: int, h: nat)
    requires t >= 2 && Valid(n, t, h) && h > 0 && idx < |n.pairs| && SortedPairs(InOrder(n))
    requires |n.children[idx].pairs| < t <= |n.children[idx + 1].pairs|
    ensures InOrder(RemoveFromNonLeaf(n, idx, t, h))
            == Before(n, idx) + InOrder(n.children[idx]) + InOrder(n.children[idx + 1]) + After(n, idx + 1)
    decreases h, 1
  {
    ChildSorted(n, idx + 1);
    SuccessorBranch(n, idx, t, h);
    SuccessorRemoved(n.children[idx + 1], t, h);
    var r := RemoveFromNonLeaf(n, idx, t, h);
    SuccessorCase(n, idx, r.pairs[idx], r.children[idx + 1]);
  }

  /** With a poor left child and a rich right one, pivot idx is replaced by its successor, removed below. */
  lemma SuccessorBranch<V>(n: Node<V>, idx: nat, t: int, h: nat)
    requires t >= 2 && Valid(n, t, h) && h > 0 && idx < |n.pairs|
    requires |n.children[idx].pairs| < t <= |n.children[idx + 1].pairs|
    ensures Valid(n.children[idx + 1], t, h - 1)
    ensures var succ := LeftmostPair(n.children[idx + 1], t, h - 1);
            RemoveFromNonLeaf(n, idx, t, h)
            == Node(n.pairs[idx := succ], n.children[idx + 1 := Remove(n.children[idx + 1], succ.key, t, h - 1)])
  {
    ValidChild(n, t, h, idx);
    ValidChild(n, t, h, idx + 1);
  }

  /** Removing a child's first pair in order from it leaves the child's other pairs. */
  lemma {:induction false} SuccessorRemoved<V>(c: Node<V>, t: int, h: nat)
    requires t >= 2 && h > 0 && Valid(c, t, h - 1) && |c.pairs| >= t && SortedPairs(InOrder(c))
    ensures var ys := InOrder(c);
            |ys| > 0 && InOrder(Remove(c, LeftmostPair(c, t, h - 1).key, t, h - 1)) == ys[1..]
    decreases h, 0
  {
    var succ := LeftmostPair(c, t, h - 1);
    var ys := InOrder(c);
    assert ys == [] + [succ] + ys[1..];
    RemoveKeyAtPivot([], succ, ys[1..]);
    RemoveDeletes(c, succ.key, t, h - 1);
  }

  lemma {:induction false} MergeDeletes<V>(n: Node<V>, idx: nat, t: int, h: nat)
    requires t >= 2 && Valid(n, t, h) && h > 0 && idx < |n.pairs| && SortedPairs(InOrder(n))
    requires |n.children[idx].pairs| == t - 1 && |n.children[idx + 1].pairs| < t
    ensures InOrder(RemoveInChild(Merge(n, idx, t, h), n.pairs[idx].key, t, h, idx))
            == Before(n, idx) + InOrder(n.children[idx]) + InOrder(n.children[idx + 1]) + After(n, idx + 1)
    decreases h, 1
  {
    var k := n.pairs[idx];
    PivotSorted(n, idx);
    var m := Merge(n, idx, t, h);
    MergedChildDeletes(m, idx, InOrder(n.children[idx]), k, InOrder(n.children[idx + 1]), t, h);
    MergeCase(n, idx, t, h, Remove(m.children[idx], k.key, t, h - 1));
  }

  /**
   * Removing the pivot k from the merged child, which holds a0, then k, then a1, leaves a0
   * followed by a1 in it.
   */
  lemma {:induction false} MergedChildDeletes<V>(m: Node<V>, idx: nat, a0: seq<Pair<V>>, k: Pair<V>, a1: seq<Pair<V>>, t: int, h: nat)
    requires t >= 2 && Valid(m, t, h) && h > 0 && idx < |m.children| && |m.children[idx].pairs| >= t
    requires InOrder(m.children[idx]) == a0 + [k] + a1 && SortedPairs(a0 + [k] + a1)
    ensures Valid(m.children[idx], t, h - 1)
    ensures InOrder(Remove(m.children[idx], k.key, t, h - 1)) == a0 + a1
    ensures RemoveInChild(m, k.key, t, h, idx) == Node(m.pairs, m.children[idx := Remove(m.children[idx], k.key, t, h - 1)])
    decreases h, 0
  {
    ValidChild(m, t, h, idx);
    RemoveDeletes(m.children[idx], k.key, t, h - 1);
    RemoveKeyAtPivot(a0, k, a1);
    RemoveInChildIs(m, k.key, t, h, idx);
  }

  /** With both children around pair idx below t pairs, the key is removed from their merge. */
  lemma MergeBranch<V>(n: Node<V>, idx: nat, t: int, h: nat)
    requires t >= 2 && Valid(n, t, h) && h > 0 && idx < |n.pairs|
    requires |n.children[idx].pairs| == t - 1 && |n.children[idx + 1].pairs| < t
    ensures var m := Merge(n, idx, t, h);
            RemoveFromNonLeaf(n, idx, t, h) == RemoveInChild(m, n.pairs[idx].key, t, h, idx)
  {
    ValidChild(n, t, h, idx);
    ValidChild(n, t, h, idx + 1);
  }

  /** Removing in child j replaces that child by the removal from it. */
  lemma RemoveInChildIs<V>(n: Node<V>, key: string, t: int, h: nat, j: nat)
    requires t >= 2 && Valid(n, t, h) && h > 0 && j < |n.children| && |n.children[j].pairs| >= t
    requires Valid(n.children[j], t, h - 1)
    ensures RemoveInChild(n, key, t, h, j) == Node(n.pairs, n.children[j := Remove(n.children[j], key, t, h - 1)])
  {
    ValidChild(n, t, h, j);
  }

  /** Pair i replaced by the last pair of child i, which that child loses: pair i is gone. */
  lemma PredecessorCase<V>(n: Node<V>, idx: nat, pred: Pair<V>, c: Node<V>)
    requires |n.children| == |n.pairs| + 1 && idx < |n.pairs|
    requires var xs := InOrder(n.children[idx]);
             |xs| > 0 && pred == xs[|xs| - 1] && InOrder(c) == xs[..|xs| - 1]
    ensures InOrder(Node(n.pairs[idx := pred], n.children[idx := c]))
            == Before(n, idx) + InOrder(n.children[idx]) + InOrder(n.children[idx + 1]) + After(n, idx + 1)
  {
    var xs := InOrder(n.children[idx]);
    var c1 := n.children[idx + 1];
    assert n.children[idx := c] == n.children[idx := c][idx + 1 := c1];
    InOrderAroundPair(n, idx, c, pred, c1);
    assert xs[..|xs| - 1] + [pred] + InOrder(c1) == xs + [] + InOrder(c1);
    Regroup(Before(n, idx), xs[..|xs| - 1], [pred], InOrder(c1), xs, [], InOrder(c1), After(n, idx + 1));
  }

  /** Pair i replaced by the first pair of child i + 1, which that child loses: pair i is gone. */
  lemma SuccessorCase<V>(n: Node<V>, idx: nat, succ: Pair<V>, c: Node<V>)
    requires |n.children| == |n.pairs| + 1 && idx < |n.pairs|
    requires var ys := InOrder(n.children[idx + 1]);
             |ys| > 0 && succ == ys[0] && InOrder(c) == ys[1..]
    ensures InOrder(Node(n.pairs[idx := succ], n.children[idx + 1 := c]))
            == Before(n, idx) + InOrder(n.children[idx]) + InOrder(n.children[idx + 1]) + After(n, idx + 1)
  {
    var ys := InOrder(n.children[idx + 1]);
    var c0 := n.children[idx];
    assert n.children[idx + 1 := c] == n.children[idx := c0][idx + 1 := c];
    InOrderAroundPair(n, idx, c0, succ, c);
    assert InOrder(c0) + [succ] + ys[1..] == InOrder(c0) + [] + ys;
    Regroup(Before(n, idx), InOrder(c0), [succ], ys[1..], InOrder(c0), [], ys, After(n, idx + 1));
  }

  /** Children i and i + 1 merged around pair i, which the merged child then loses: pair i is gone. */
  lemma MergeCase<V>(n: Node<V>, idx: nat, t: int, h: nat, c: Node<V>)
    requires t >= 2 && Valid(n, t, h) && h > 0 && idx < |n.pairs|
    requires |n.children[idx].pairs| == t - 1 && |n.children[idx + 1].pairs| < t
    requires InOrder(c) == InOrder(n.children[idx]) + InOrder(n.children[idx + 1])
    ensures var m := Merge(n, idx, t, h);
            InOrder(Node(m.pairs, m.children[idx := c]))
            == Before(n, idx) + InOrder(n.children[idx]) + InOrder(n.children[idx + 1]) + After(n, idx + 1)
  {
    var m := Merge(n, idx, t, h);
    MergeAround(n, idx);
    InOrderReplaceChild(m, idx, c);
  }
}
