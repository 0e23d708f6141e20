/**
 * A storage with an LFU cache in front of it: puts and deletes go to the backing storage first
 * and reach the cache only when the storage reports success; gets are answered by the cache when
 * it holds the key and by the storage otherwise, whose answer then fills the cache.
 *
 * The backing storage is not part of this module: each operation takes the storage's reply as a
 * parameter, `Err` standing for the storage throwing.
 */
module CachedStorages {
  import opened Wrappers
  import opened Messages
  import opened LfuCaches

  /**
   * The exceptions the cached storage lets escape: its own put and get exceptions, a rejected
   * cache size, and the cache's own argument check, which is not a put or get exception and so
   * is not caught and rewrapped.
   */
  datatype CachedError = PutException | GetException | IllegalArgument | CacheRejected

  /** The constructor: only the LFU strategy is modelled; the cache size must be positive. */
  function Open(cacheSize: int): (r: Result<Cache, CachedError>)
    ensures r.Ok? <==> cacheSize > 0
    ensures r.Ok? ==> CacheInv(r.value) && r.value.slots == map[] && r.value.maxEntries == cacheSize
    ensures r.Err? ==> r.error == IllegalArgument
  {
    match New(cacheSize)
    case Ok(c) => Ok(c)
    case Err(_) => Err(IllegalArgument)
  }

  /** The statuses a put may meet from the storage or the cache without an exception. */
  predicate PermittedPutStatus(s: StatusType) {
    s == PutUpdate || s == PutSuccess || s == PutError
  }

  /**
   * The put path after the storage replied with `status`: an unexpected status throws, a
   * PUT_ERROR is passed on with the cache untouched, and a success puts the value into the cache
   * and is passed on.
   */
  function FinalizePut(c: Cache, key: string, v: string, status: StatusType)
    : (r: Result<(Cache, KVMessage), CachedError>)
    requires CacheInv(c)
    ensures !PermittedPutStatus(status) ==> r == Err(PutException)
    ensures status == PutError ==> r == Ok((c, KeyValueMessage(key, v, PutError)))
    ensures status == PutSuccess || status == PutUpdate ==>
              r.Ok? && r.value.1 == KeyValueMessage(key, v, status)
              && CacheInv(r.value.0) && key in r.value.0.slots && r.value.0.slots[key].value == v
              && (forall k :: k != key && k in r.value.0.slots ==>
                    k in c.slots && r.value.0.slots[k].value == c.slots[k].value)
  {
    if !PermittedPutStatus(status) then Err(PutException)
    else if status == PutError then Ok((c, KeyValueMessage(key, v, PutError)))
    else
      var (c', cached) := LfuCaches.Put(c, key, Some(v)).value;
      if !PermittedPutStatus(cached.status) then Err(PutException)
      else if cached.status == PutError then Ok((c', KeyValueMessage(key, v, PutError)))
      else Ok((c', KeyValueMessage(key, v, status)))
  }

  /** The statuses a delete may meet from the storage or the cache without an exception. */
  predicate PermittedDeleteStatus(s: StatusType) {
    s == DeleteSuccess || s == DeleteError
  }

  /**
   * The delete path after the storage replied, as written: an unexpected status throws, a
   * DELETE_ERROR is passed on, and a DELETE_SUCCESS puts a missing value into the cache, which
   * the cache's argument check rejects.
   */
  function FinalizeDeleteAsWritten(c: Cache, key: string, status: StatusType)
    : (r: Result<(Cache, KVMessage), CachedError>)
    requires CacheInv(c)
    ensures !PermittedDeleteStatus(status) ==> r == Err(PutException)
    ensures status == DeleteError ==> r == Ok((c, KeyMessage(key, DeleteError)))
    ensures status == DeleteSuccess ==> r == Err(CacheRejected)
  {
    if !PermittedDeleteStatus(status) then Err(PutException)
    else if status == DeleteError then Ok((c, KeyMessage(key, DeleteError)))
    else
      match LfuCaches.Put(c, key, None)
      case Err(_) => Err(CacheRejected)
      case Ok((c', cached)) =>
        if !PermittedDeleteStatus(cached.status) then Err(PutException)
        else Ok((c', KeyMessage(key, DeleteSuccess)))
  }

  /**
   * The delete path with the cache kept in step: a DELETE_SUCCESS drops the key from the cache
   * instead of putting a missing value into it.
   */
  function FinalizeDelete(c: Cache, key: string, status: StatusType)
    : (r: Result<(Cache, KVMessage), CachedError>)
    requires CacheInv(c)
    ensures !PermittedDeleteStatus(status) ==> r == Err(PutException)
    ensures status == DeleteError ==> r == Ok((c, KeyMessage(key, DeleteError)))
    ensures status == DeleteSuccess ==>
              r.Ok? && r.value.1 == KeyMessage(key, DeleteSuccess) && CacheInv(r.value.0)
              && r.value.0.slots.Keys == c.slots.Keys - {key}
              && (forall k :: k in r.value.0.slots ==> r.value.0.slots[k].value == c.slots[k].value)
  {
    if !PermittedDeleteStatus(status) then Err(PutException)
    else if status == DeleteError then Ok((c, KeyMessage(key, DeleteError)))
    else Ok((Invalidate(c, key), KeyMessage(key, DeleteSuccess)))
  }

  /** `put` as written: the storage is asked first; a missing value is a delete. */
  function PutAsWritten(c: Cache, key: string, value: Option<string>, reply: Result<KVMessage, Thrown>)
    : (r: Result<(Cache, KVMessage), CachedError>)
    requires CacheInv(c)
    ensures reply.Err? ==> r == Err(PutException)
    ensures reply.Ok? && value.None? ==> r == FinalizeDeleteAsWritten(c, key, reply.value.status)
    ensures reply.Ok? && value.Some? ==> r == FinalizePut(c, key, value.value, reply.value.status)
  {
    match reply
    case Err(_) => Err(PutException)
    case Ok(m) =>
      if value.None? then FinalizeDeleteAsWritten(c, key, m.status)
      else FinalizePut(c, key, value.value, m.status)
  }

  /** `put` with the corrected delete path. */
  function Put(c: Cache, key: string, value: Option<string>, reply: Result<KVMessage, Thrown>)
    : (r: Result<(Cache, KVMessage), CachedError>)
    requires CacheInv(c)
    ensures reply.Err? ==> r == Err(PutException)
    ensures reply.Ok? && value.None? ==> r == FinalizeDelete(c, key, reply.value.status)
    ensures reply.Ok? && value.Some? ==> r == FinalizePut(c, key, value.value, reply.value.status)
    ensures r.Ok? ==> CacheInv(r.value.0) && r.value.0.maxEntries == c.maxEntries
  {
    match reply
    case Err(_) => Err(PutException)
    case Ok(m) =>
      if value.None? then FinalizeDelete(c, key, m.status)
      else FinalizePut(c, key, value.value, m.status)
  }

  /**
   * After a cache miss, the storage's value goes into the cache; the cache must report
   * PUT_SUCCESS, and a missing value is rejected by the cache's argument check.
   */
  function UpdateCache(c: Cache, key: string, value: Option<string>): (r: Result<(Cache, KVMessage), CachedError>)
    requires CacheInv(c) && key !in c.slots
    ensures value.None? <==> r == Err(CacheRejected)
    ensures value.Some? ==>
              && r.Ok? && r.value.1 == KeyValueMessage(key, value.value, GetSuccess)
              && CacheInv(r.value.0) && key in r.value.0.slots && r.value.0.slots[key].value == value.value
              && (forall k :: k != key && k in r.value.0.slots ==>
                    k in c.slots && r.value.0.slots[k].value == c.slots[k].value)
  {
    match LfuCaches.Put(c, key, value)
    case Err(_) => Err(CacheRejected)
    case Ok((c', cached)) =>
      if cached.status == PutSuccess then Ok((c', KeyValueMessage(key, value.value, GetSuccess)))
      else Err(GetException)
  }

  /**
   * A cache miss: a storage hit fills the cache and gives GET_SUCCESS, a storage miss gives
   * GET_ERROR, and anything else, the storage throwing included, gives a get exception.
   */
  function HandleMiss(c: Cache, key: string, reply: Result<KVMessage, Thrown>)
    : (r: Result<(Cache, KVMessage), CachedError>)
    requires CacheInv(c) && key !in c.slots
    ensures reply.Err? ==> r == Err(GetException)
    ensures reply.Ok? && reply.value.status == GetError ==> r == Ok((c, KeyMessage(key, GetError)))
    ensures reply.Ok? && reply.value.status == GetSuccess ==> r == UpdateCache(c, key, reply.value.value)
    ensures reply.Ok? && reply.value.status != GetSuccess && reply.value.status != GetError ==>
              r == Err(GetException)
  {
    match reply
    case Err(_) => Err(GetException)
    case Ok(m) =>
      if m.status == GetSuccess then UpdateCache(c, key, m.value)
      else if m.status == GetError then Ok((c, KeyMessage(key, GetError)))
      else Err(GetException)
  }

  /**
   * `get`: the cache is asked first; a hit is answered from the cache and a miss from the
   * storage, as `HandleMiss` describes.
   */
  function Get(c: Cache, key: string, reply: Result<KVMessage, Thrown>)
    : (r: Result<(Cache, KVMessage), CachedError>)
    requires CacheInv(c)
    ensures key in c.slots ==>
              && r.Ok? && r.value.1 == KeyValueMessage(key, c.slots[key].value, GetSuccess)
              && CacheInv(r.value.0) && SameValues(c, r.value.0)
    ensures key !in c.slots ==> r == HandleMiss(c, key, reply)
    ensures r.Ok? ==> CacheInv(r.value.0) && r.value.0.maxEntries == c.maxEntries
  {
    var (c1, cached) := LfuCaches.Get(c, key);
    if cached.status == GetSuccess then Ok((c1, cached))
    else if cached.status == GetError then HandleMiss(c1, key, reply)
    else Err(GetException)
  }

  /* ---------------- the cache against a well-behaved storage ---------------- */

  /** What a storage holding `store` answers to a get. */
  function StoreGet(store: map<string, string>, key: string): KVMessage {
    if key in store then KeyValueMessage(key, store[key], GetSuccess) else KeyMessage(key, GetError)
  }

  /**
   * What a storage holding `store` does on a put: a missing value deletes, DELETE_SUCCESS when
   * the key was there; a value is stored, PUT_UPDATE when it replaced a different one.
   */
  function StorePut(store: map<string, string>, key: string, value: Option<string>): (map<string, string>, KVMessage) {
    match value
    case None => (store - {key}, KeyMessage(key, if key in store then DeleteSuccess else DeleteError))
    case Some(v) =>
      (store[key := v], KeyValueMessage(key, v, if key in store && store[key] != v then PutUpdate else PutSuccess))
  }

  /** Every cached key is stored with the cached value. */
  predicate Coherent(c: Cache, store: map<string, string>) {
    forall k :: k in c.slots ==> k in store && store[k] == c.slots[k].value
  }

  /** Over a storage the cache agrees with, a get answers exactly what the storage would, and the cache still agrees. */
  lemma GetMatchesStore(c: Cache, store: map<string, string>, key: string)
    requires CacheInv(c) && Coherent(c, store)
    ensures var r := Get(c, key, Ok(StoreGet(store, key)));
            r.Ok? && r.value.1 == StoreGet(store, key) && Coherent(r.value.0, store)
  {
    var reply := Ok(StoreGet(store, key));
    if key !in c.slots && key in store {
      assert Get(c, key, reply) == UpdateCache(c, key, Some(store[key]));
    }
  }

  /** Over a storage the cache agrees with, a put or delete answers what the storage answered, and the cache still agrees. */
  lemma PutMatchesStore(c: Cache, store: map<string, string>, key: string, value: Option<string>)
    requires CacheInv(c) && Coherent(c, store)
    ensures var (store', m) := StorePut(store, key, value);
            var r := Put(c, key, value, Ok(m));
            r.Ok? && r.value.1 == m && Coherent(r.value.0, store')
  {
  }

  /** A cache hit does not depend on the storage: any reply, a throw included, gives the same answer. */
  lemma HitIgnoresStorage(c: Cache, key: string, reply1: Result<KVMessage, Thrown>, reply2: Result<KVMessage, Thrown>)
    requires CacheInv(c) && key in c.slots
    ensures Get(c, key, reply1) == Get(c, key, reply2)
  {
  }

  /** As written, deleting a key the storage holds fails with the cache's argument check, after the storage deleted it. */
  lemma DeleteAsWrittenFails(c: Cache, store: map<string, string>, key: string)
    requires CacheInv(c) && key in store
    ensures var (store', m) := StorePut(store, key, None);
            m.status == DeleteSuccess && key !in store'
            && PutAsWritten(c, key, None, Ok(m)) == Err(CacheRejected)
  {
  }
}
