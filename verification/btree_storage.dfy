/**
 * The B-tree backed persistent storage: each key is stored under the hexadecimal form of its
 * hash, paired with the original key and the value, and the tree's results are mapped onto the
 * protocol's status codes.
 */
module BTreeStorages {
  import opened Wrappers
  import opened Chunks
  import opened PairSequences
  import opened Messages
  import opened Hashing
  import opened BTreeNodes
  import opened BTrees

  /** The storage's exceptions: a failed get or a failed put, and a rejected minimum degree. */
  datatype StorageError = GetException | PutException | IllegalArgumentException

  /** `BTreePersistentStorage`: the tree holds, under each hashed key, the original key and value. */
  datatype BTreeStorage = BTreeStorage(tree: Tree<Pair<string>>, alg: HashingAlgorithm)

  /** What the storage's operations need: a well-formed tree and a hash that stays in range. */
  ghost predicate StorageInv(s: BTreeStorage) {
    Inv(s.tree) && ValidAlgorithm(s.alg)
  }

  /** The tree key of a client key: `hash(key).toString(16)`. */
  function TreeKey(alg: HashingAlgorithm, key: string): (k: string)
    requires ValidAlgorithm(alg)
    ensures forall i :: 0 <= i < |k| ==> IsLowerHexDigit(k[i])
  {
    HashToHex(Hash(alg, key))
  }

  /** The original key and value stored under a client key's tree key, if any. */
  function Stored(s: BTreeStorage, key: string): Option<Pair<string>>
    requires ValidAlgorithm(s.alg)
  {
    Lookup(Contents(s.tree), TreeKey(s.alg, key))
  }

  /**
   * The constructor: the tree is built around the loaded root when loading succeeded (`Some`,
   * possibly an empty tree) and is a new empty tree when it failed (`None`); a minimum degree
   * below 2 is rejected either way.
   */
  function Open(degree: int, loaded: Option<Option<Node<Pair<string>>>>, alg: HashingAlgorithm)
    : (r: Result<BTreeStorage, StorageError>)
    ensures r.Ok? <==> degree >= 2
    ensures r.Ok? ==> r.value.alg == alg && !r.value.tree.closed && r.value.tree.degree == degree
    ensures r.Ok? ==> Contents(r.value.tree) == match loaded
                        case Some(Some(root)) => InOrder(root)
                        case _ => []
    ensures r.Ok? && !loaded.Some? ==> Inv(r.value.tree)
  {
    if degree < 2 then Err(IllegalArgumentException)
    else match loaded
      case Some(root) => Ok(BTreeStorage(Tree(root, degree, false), alg))
      case None => Ok(BTreeStorage(Create(degree).value, alg))
  }

  /** `get`: GET_ERROR with the key on a miss, GET_SUCCESS with the stored key and value on a hit. */
  function Get(s: BTreeStorage, key: string): (r: Result<KVMessage, StorageError>)
    requires StorageInv(s)
    ensures r.Err? <==> s.tree.closed
    ensures r.Ok? ==> match Stored(s, key)
                      case None => r.value == KeyMessage(key, GetError)
                      case Some(p) => r.value == KeyValueMessage(p.key, p.value, GetSuccess)
  {
    match BTrees.Search(s.tree, TreeKey(s.alg, key))
    case Err(_) => Err(GetException)
    case Ok(None) => Ok(KeyMessage(key, GetError))
    case Ok(Some(p)) => Ok(KeyValueMessage(p.key, p.value, GetSuccess))
  }

  /**
   * `put`: a missing value deletes the key, DELETE_SUCCESS when the tree held it and DELETE_ERROR
   * otherwise; a value is inserted with the key, PUT_UPDATE when a different value was stored
   * before and PUT_SUCCESS when none or the same one was.
   */
  function Put(s: BTreeStorage, key: string, value: Option<string>)
    : (r: Result<(BTreeStorage, KVMessage), StorageError>)
    requires StorageInv(s)
    ensures r.Err? <==> s.tree.closed
    ensures r.Ok? ==> var (s', msg) := r.value;
            && StorageInv(s') && s'.alg == s.alg
            && match value
               case None =>
                 msg == KeyMessage(key, if Stored(s, key).Some? then DeleteSuccess else DeleteError)
               case Some(v) =>
                 var prev := Stored(s, key);
                 msg == KeyValueMessage(key, v,
                          if prev.Some? && prev.value.value != v then PutUpdate else PutSuccess)
  {
    var k := TreeKey(s.alg, key);
    match value
    case None =>
      (match BTrees.Remove(s.tree, k)
       case Err(_) => Err(PutException)
       case Ok((tr, deleted)) =>
         Ok((s.(tree := tr), KeyMessage(key, if deleted then DeleteSuccess else DeleteError))))
    case Some(v) =>
      match Insert(s.tree, k, Pair(key, v))
      case Err(_) => Err(PutException)
      case Ok((tr, prev)) =>
        var status := if prev.Some? && v != prev.value.value then PutUpdate else PutSuccess;
        Ok((s.(tree := tr), KeyValueMessage(key, v, status)))
  }

  /** `close`: the tree refuses operations, so gets and puts fail. */
  function CloseStorage(s: BTreeStorage): (r: BTreeStorage)
    ensures r.tree.closed && Contents(r.tree) == Contents(s.tree) && r.alg == s.alg
  {
    s.(tree := Close(s.tree))
  }

  /** `reopen`: the tree accepts operations again; a storage that is not closed fails as the tree does. */
  function ReopenStorage(s: BTreeStorage): (r: Result<BTreeStorage, TreeError>)
    ensures r.Err? <==> !s.tree.closed
    ensures r.Err? ==> r.error == IllegalMonitorState
    ensures r.Ok? ==> !r.value.tree.closed && Contents(r.value.tree) == Contents(s.tree) && r.value.alg == s.alg
  {
    var t :- Reopen(s.tree);
    Ok(s.(tree := t))
  }

  /* ---------------- properties across operations ---------------- */

  /** A put followed by a get of the same key finds the key and the value just put. */
  lemma GetAfterPut(s: BTreeStorage, key: string, v: string)
    requires StorageInv(s) && !s.tree.closed
    ensures var s' := Put(s, key, Some(v)).value.0;
            Get(s', key) == Ok(KeyValueMessage(key, v, GetSuccess))
  {
    SearchAfterInsert(s.tree, TreeKey(s.alg, key), Pair(key, v), TreeKey(s.alg, key));
  }

  /** A delete followed by a get of the same key misses. */
  lemma GetAfterDelete(s: BTreeStorage, key: string)
    requires StorageInv(s) && !s.tree.closed
    ensures var s' := Put(s, key, None).value.0;
            Get(s', key) == Ok(KeyMessage(key, GetError))
  {
    SearchAfterRemove(s.tree, TreeKey(s.alg, key), TreeKey(s.alg, key));
  }

  /** A put or delete of one key leaves a get of any key with a different hash unchanged. */
  lemma PutKeepsOtherKeys(s: BTreeStorage, key: string, value: Option<string>, other: string)
    requires StorageInv(s) && !s.tree.closed
    requires TreeKey(s.alg, other) != TreeKey(s.alg, key)
    ensures var s' := Put(s, key, value).value.0;
            Get(s', other) == Get(s, other)
  {
    var k := TreeKey(s.alg, key);
    var k' := TreeKey(s.alg, other);
    match value
    case None => SearchAfterRemove(s.tree, k, k');
    case Some(v) => SearchAfterInsert(s.tree, k, Pair(key, v), k');
  }

  /** Putting a value that is already stored reports PUT_SUCCESS and changes nothing a get sees. */
  lemma PutTwiceIsSuccess(s: BTreeStorage, key: string, v: string)
    requires StorageInv(s) && !s.tree.closed
    ensures var s' := Put(s, key, Some(v)).value.0;
            Put(s', key, Some(v)).value.1 == KeyValueMessage(key, v, PutSuccess)
            && Get(Put(s', key, Some(v)).value.0, key) == Get(s', key)
  {
    var k := TreeKey(s.alg, key);
    var s' := Put(s, key, Some(v)).value.0;
    SearchAfterInsert(s.tree, k, Pair(key, v), k);
    SearchAfterInsert(s'.tree, k, Pair(key, v), k);
  }
}
