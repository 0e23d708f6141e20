/**
 * The persistent B-tree as its clients see it: an optional root node, the minimum degree and
 * the closed flag. Search, insert and remove work on the root; a full root splits and the tree
 * grows by one level, a root emptied by a removal gives way to its only child.
 */
module BTrees {
  import opened Wrappers
  import opened Text
  import opened Chunks
  import opened PairSequences
  import opened BTreeNodes
  import BTreeRemoval

  /** What the tree's operations throw: a failed argument check, or use of a closed tree. */
  datatype TreeError = IllegalArgument | TreeClosed | IllegalMonitorState

  /** `PersistentBTree`: no root for the empty tree. */
  datatype Tree<V> = Tree(root: Option<Node<V>>, degree: int, closed: bool)

  /** The tree's pairs in key order. */
  function Contents<V>(tr: Tree<V>): seq<Pair<V>> {
    match tr.root
    case None => []
    case Some(n) => InOrder(n)
  }

  /**
   * What every operation keeps: degree at least 2, and a root, if any, that is a valid subtree of
   * its own height holding at least one pair, with its keys in increasing order.
   */
  predicate Inv<V>(tr: Tree<V>) {
    && tr.degree >= 2
    && (tr.root.Some? ==>
          var n := tr.root.value;
          Valid(n, tr.degree, Height(n)) && |n.pairs| >= 1 && SortedPairs(InOrder(n)))
  }

  /** The first constructor: a new empty tree; the degree must be at least 2. */
  function Create<V>(degree: int): (r: Result<Tree<V>, TreeError>)
    ensures r.Ok? <==> degree >= 2
    ensures r.Ok? ==> Inv(r.value) && Contents(r.value) == [] && !r.value.closed
  {
    if degree >= 2 then Ok(Tree(None, degree, false)) else Err(IllegalArgument)
  }

  /** The second constructor: a tree around an existing root; the degree must be at least 2. */
  function CreateWithRoot<V>(degree: int, root: Node<V>): (r: Result<Tree<V>, TreeError>)
    ensures r.Ok? <==> degree >= 2
    ensures r.Ok? ==> Contents(r.value) == InOrder(root) && !r.value.closed
  {
    if degree >= 2 then Ok(Tree(Some(root), degree, false)) else Err(IllegalArgument)
  }

  /** `search`: the key's value, nothing when the tree is empty; a closed tree refuses. */
  function Search<V>(tr: Tree<V>, key: string): (r: Result<Option<V>, TreeError>)
    requires Inv(tr)
    ensures r.Err? <==> tr.closed
    ensures r.Ok? ==> r.value == Lookup(Contents(tr), key)
  {
    if tr.closed then Err(TreeClosed)
    else match tr.root
      case None => Ok(None)
      case Some(n) =>
        SearchFindsInOrder(n, tr.degree, Height(n), key);
        Ok(BTreeNodes.Search(n, key))
  }

  /** The first half of `insertFull`: a new root over the full old root, whose split it then holds. */
  function SplitRoot<V>(n: Node<V>, t: int, h: nat): (r: Node<V>)
    requires t >= 2 && Valid(n, t, h) && IsFull(n, t)
    ensures Valid(r, t, h + 1) && |r.pairs| == 1 && |r.children| == 2 && InOrder(r) == InOrder(n)
    ensures |r.children[0].pairs| == t - 1 && |r.children[1].pairs| == t - 1
  {
    var s := Node([], [n]);
    assert Valid(s, t, h + 1);
    OnlyChildInOrder(s);
    ValidChild(s, t, h + 1, 0);
    SplitChildKeepsValid(s, 0, t, h + 1);
    SplitChildKeepsInOrder(s, 0, t);
    SplitChild(s, 0, t)
  }

  /**
   * `insertFull`: a new root with the full old root as its only child, that child split, and the
   * pair inserted into the half that covers its key. The tree is one level higher.
   */
  function InsertFull<V>(n: Node<V>, key: string, v: V, t: int, h: nat): (r: Node<V>)
    requires t >= 2 && Valid(n, t, h) && IsFull(n, t)
    requires SortedPairs(InOrder(n)) && Lookup(InOrder(n), key).None?
    ensures Valid(r, t, h + 1) && |r.pairs| == 1
    ensures InOrder(r) == InsertSorted(InOrder(n), Pair(key, v))
  {
    var s := SplitRoot(n, t, h);
    InsertIntoChild(s, ChooseHalf(s, key), key, v, t, h + 1)
  }

  /** The pair inserted into child i, which is not full and whose range holds the key. */
  function InsertIntoChild<V>(s: Node<V>, i: nat, key: string, v: V, t: int, h: nat): (r: Node<V>)
    requires t >= 2 && Valid(s, t, h) && h > 0 && i < |s.children| && !IsFull(s.children[i], t)
    requires SortedPairs(InOrder(s)) && Lookup(InOrder(s), key).None?
    requires i > 0 ==> Less(s.pairs[i - 1].key, key)
    requires i < |s.pairs| ==> Less(key, s.pairs[i].key)
    ensures Valid(r, t, h) && |r.pairs| == |s.pairs|
    ensures InOrder(r) == InsertSorted(InOrder(s), Pair(key, v))
  {
    DescendInto(s, t, h, i, key);
    var c := InsertNonFull(s.children[i], key, v, t, h - 1);
    InsertBelowChild(s, t, h, i, c, Pair(key, v));
    Node(s.pairs, s.children[i := c])
  }

  /** The child of the split root whose range holds a key absent from the tree. */
  function ChooseHalf<V>(s: Node<V>, key: string): (i: nat)
    requires |s.pairs| == 1 && |s.children| == 2 && Lookup(InOrder(s), key).None?
    ensures i < |s.children|
    ensures i > 0 ==> Less(s.pairs[i - 1].key, key)
    ensures i < |s.pairs| ==> Less(key, s.pairs[i].key)
  {
    PairInInOrder(s, 0);
    Trichotomy(key, s.pairs[0].key);
    if Less(s.pairs[0].key, key) then 1 else 0
  }

  /**
   * `insert`: on an empty tree a one-pair root; a present key gets the new value and its old value
   * is returned; otherwise the pair is added below the root, splitting a full root first.
   */
  function Insert<V>(tr: Tree<V>, key: string, v: V): (r: Result<(Tree<V>, Option<V>), TreeError>)
    requires Inv(tr)
    ensures r.Err? <==> tr.closed
    ensures r.Ok? ==> var (tr', prev) := r.value;
            && Inv(tr') && tr'.degree == tr.degree && !tr'.closed
            && prev == Lookup(Contents(tr), key)
            && Contents(tr') == if prev.Some? then ReplaceValue(Contents(tr), key, v)
                                else InsertSorted(Contents(tr), Pair(key, v))
  {
    if tr.closed then Err(TreeClosed)
    else match tr.root
      case None =>
        Ok((Tree(Some(Node([Pair(key, v)], [])), tr.degree, false), None))
      case Some(n) =>
        var t := tr.degree;
        var h := Height(n);
        SearchFindsInOrder(n, t, h, key);
        SearchAndInsertReplaces(n, t, h, key, v);
        var (n', prev) := SearchAndInsert(n, key, v);
        if prev.Some? then
          ValidHeight(n', t, h);
          ReplaceValueSorted(InOrder(n), key, v);
          Ok((Tree(Some(n'), t, false), prev))
        else if IsFull(n, t) then
          var r := InsertFull(n, key, v, t, h);
          ValidHeight(r, t, h + 1);
          InsertSortedIsSorted(InOrder(n), Pair(key, v));
          Ok((Tree(Some(r), t, false), None))
        else
          var r := InsertNonFull(n, key, v, t, h);
          ValidHeight(r, t, h);
          InsertSortedIsSorted(InOrder(n), Pair(key, v));
          Ok((Tree(Some(r), t, false), None))
  }

  /** An inner node without pairs holds exactly its only child's pairs. */
  lemma OnlyChildInOrder<V>(n: Node<V>)
    requires |n.pairs| == 0 && |n.children| == 1
    ensures InOrder(n) == InOrder(n.children[0])
  {
    InOrderAround(n, 0);
    assert Before(n, 0) == [] && After(n, 0) == [];
  }

  /**
   * `remove`: false on an empty tree; otherwise the key is removed below the root, and a root left
   * without pairs is dropped for its only child, or for nothing when it is a leaf. The result says
   * whether the key was present.
   */
  function Remove<V>(tr: Tree<V>, key: string): (r: Result<(Tree<V>, bool), TreeError>)
    requires Inv(tr)
    ensures r.Err? <==> tr.closed
    ensures r.Ok? ==> var (tr', found) := r.value;
            && Inv(tr') && tr'.degree == tr.degree && !tr'.closed
            && (found <==> Lookup(Contents(tr), key).Some?)
            && Contents(tr') == RemoveKey(Contents(tr), key)
  {
    if tr.closed then Err(TreeClosed)
    else match tr.root
      case None => Ok((tr, false))
      case Some(n) =>
        var t := tr.degree;
        var h := Height(n);
        var found := Lookup(InOrder(n), key).Some?;
        var r := BTreeRemoval.Remove(n, key, t, h);
        BTreeRemoval.RemoveDeletes(n, key, t, h);
        RemoveKeySorted(InOrder(n), key);
        if |r.pairs| == 0 then
          if |r.children| == 0 then
            Ok((Tree(None, t, false), found))
          else
            OnlyChildInOrder(r);
            ValidChild(r, t, h, 0);
            ValidHeight(r.children[0], t, h - 1);
            Ok((Tree(Some(r.children[0]), t, false), found))
        else
          ValidHeight(r, t, h);
          Ok((Tree(Some(r), t, false), found))
  }

  /** `close`: later operations are refused until the tree is reopened. */
  function Close<V>(tr: Tree<V>): (r: Tree<V>)
    ensures r.closed && Contents(r) == Contents(tr) && r.degree == tr.degree
  {
    tr.(closed := true)
  }

  /**
   * `reopen`: operations are accepted again. Reopening releases the write lock that `close`
   * took, so on a tree that is not closed the release fails with an illegal-monitor-state error.
   */
  function Reopen<V>(tr: Tree<V>): (r: Result<Tree<V>, TreeError>)
    ensures r.Err? <==> !tr.closed
    ensures r.Err? ==> r.error == IllegalMonitorState
    ensures r.Ok? ==> !r.value.closed && Contents(r.value) == Contents(tr) && r.value.degree == tr.degree
  {
    if !tr.closed then Err(IllegalMonitorState) else Ok(tr.(closed := false))
  }

  /* ---------------- properties across operations ---------------- */

  /** After an insert, the key finds the inserted value and every other key what it found before. */
  lemma SearchAfterInsert<V>(tr: Tree<V>, key: string, v: V, k: string)
    requires Inv(tr) && !tr.closed
    ensures var tr' := Insert(tr, key, v).value.0;
            Search(tr', k) == Ok(if k == key then Some(v) else Lookup(Contents(tr), k))
  {
    var (tr', prev) := Insert(tr, key, v).value;
    if prev.Some? {
      LookupAfterReplace(Contents(tr), key, v, k);
    } else {
      LookupAfterInsertSorted(Contents(tr), Pair(key, v), k);
    }
  }

  /** After a removal, the key finds nothing and every other key what it found before. */
  lemma SearchAfterRemove<V>(tr: Tree<V>, key: string, k: string)
    requires Inv(tr) && !tr.closed
    ensures var tr' := Remove(tr, key).value.0;
            Search(tr', k) == Ok(if k == key then None else Lookup(Contents(tr), k))
  {
    LookupAfterRemoveKey(Contents(tr), key, k);
  }

  /** Removing a key just inserted into a tree without it gives back the same contents. */
  lemma RemoveUndoesInsert<V>(tr: Tree<V>, key: string, v: V)
    requires Inv(tr) && !tr.closed && Lookup(Contents(tr), key).None?
    ensures var tr' := Insert(tr, key, v).value.0;
            var (tr'', found) := Remove(tr', key).value;
            found && Contents(tr'') == Contents(tr)
  {
    var xs := Contents(tr);
    var tr' := Insert(tr, key, v).value.0;
    LookupAfterInsertSorted(xs, Pair(key, v), key);
    RemoveInsertedKey(xs, Pair(key, v));
  }

  /** Removing a key that was absent before sorted insertion takes the insertion back. */
  lemma {:induction false} RemoveInsertedKey<V>(xs: seq<Pair<V>>, p: Pair<V>)
    requires Lookup(xs, p.key).None?
    ensures RemoveKey(InsertSorted(xs, p), p.key) == xs
    decreases |xs|
  {
    if |xs| == 0 {
      assert RemoveKey([p], p.key) == RemoveKey([p][1..], p.key);
    } else if Less(p.key, xs[0].key) {
      assert ([p] + xs)[1..] == xs;
      RemoveKeyMisses(xs, p.key);
    } else {
      assert Lookup(xs[1..], p.key).None? by {
        assert forall j :: 0 <= j < |xs[1..]| ==> xs[1..][j] == xs[j + 1];
      }
      RemoveInsertedKey(xs[1..], p);
      assert InsertSorted(xs, p) == [xs[0]] + InsertSorted(xs[1..], p);
      assert ([xs[0]] + InsertSorted(xs[1..], p))[1..] == InsertSorted(xs[1..], p);
      assert xs == [xs[0]] + xs[1..];
    }
  }

  /** A new pair inserted under a full root makes the tree one level higher. */
  lemma FullRootGrows<V>(tr: Tree<V>, key: string, v: V)
    requires Inv(tr) && !tr.closed && tr.root.Some? && IsFull(tr.root.value, tr.degree)
    requires Lookup(Contents(tr), key).None?
    ensures var tr' := Insert(tr, key, v).value.0;
            tr'.root.Some? && Height(tr'.root.value) == Height(tr.root.value) + 1
  {
    var n := tr.root.value;
    var h := Height(n);
    SearchFindsInOrder(n, tr.degree, h, key);
    ValidHeight(InsertFull(n, key, v, tr.degree, h), tr.degree, h + 1);
  }

  /**
   * Every operation on a closed tree is refused, reopening accepts them again, and closing
   * then reopening an open tree gives the tree back.
   */
  lemma ClosedRefuses<V>(tr: Tree<V>, key: string, v: V)
    requires Inv(tr)
    ensures var c := Close(tr);
            Search(c, key).Err? && Insert(c, key, v).Err? && Remove(c, key).Err?
            && Reopen(c).Ok? && Search(Reopen(c).value, key) == Ok(Lookup(Contents(tr), key))
            && (!tr.closed ==> Reopen(c) == Ok(tr))
  {
  }
}
