/**
 * The storage command processor: it routes a request by its status, checks that the server is
 * responsible for the key and, for writes, not write locked, forwards the request to the storage,
 * and decides whether a write is replicated to the key's other replicas.
 *
 * The server state's answers and the storage's reply are parameters; `Err` stands for the call
 * throwing.
 */
module StorageCommandProcessors {
  import opened Wrappers
  import opened Messages
  import opened ServerStates

  /** What the server state answers for one key. */
  datatype Env = Env(
    readResponsible: Result<bool, Thrown>,
    writeResponsible: Result<bool, Thrown>,
    server: ServerState,
    replicationActive: bool)

  /**
   * The processor's answer, whether it called the storage, and whether it replicates the write
   * to the other servers responsible for the key.
   */
  datatype Outcome = Outcome(reply: KVMessage, storageCalled: bool, replicate: bool)

  /**
   * `putWithoutChecks`: the write goes to the storage; a storage exception becomes DELETE_ERROR
   * for a delete and PUT_ERROR for a put; otherwise the storage's reply is returned, and the write
   * is replicated unless `avoid`, when `force` or when replication is active and the storage
   * reported success.
   */
  function PutWithoutChecks(env: Env, key: Option<string>, value: Option<string>, force: bool, avoid: bool,
                            stored: Result<KVMessage, Thrown>): (r: Outcome)
    ensures r.storageCalled
    ensures stored.Err? ==> !r.replicate && r.reply == KVMessage(key, value, if value.None? then DeleteError else PutError)
    ensures stored.Ok? ==> r.reply == stored.value
    ensures r.replicate <==> stored.Ok? && !avoid && (force || (env.replicationActive && IsSuccessfulPut(stored.value.status)))
  {
    match stored
    case Err(_) =>
      Outcome(if value.None? then KVMessage(key, None, DeleteError) else KVMessage(key, value, PutError), true, false)
    case Ok(m) =>
      Outcome(m, true, !avoid && (force || (env.replicationActive && IsSuccessfulPut(m.status))))
  }

  /**
   * `put`: a server not responsible for writing the key answers SERVER_NOT_RESPONSIBLE, a failed
   * responsibility check ERROR, a write-locked server SERVER_WRITE_LOCK, all without touching the
   * storage; otherwise the write goes through without forced or avoided replication.
   */
  function PutChecked(env: Env, key: Option<string>, value: Option<string>, stored: Result<KVMessage, Thrown>)
    : (r: Outcome)
    ensures env.writeResponsible.Err? ==> r == Outcome(StatusMessage(Error), false, false)
    ensures env.writeResponsible == Ok(false) ==> r == Outcome(StatusMessage(ServerNotResponsible), false, false)
    ensures env.writeResponsible == Ok(true) && !CanWrite(env.server) ==>
              r == Outcome(StatusMessage(ServerWriteLock), false, false)
    ensures r.storageCalled <==> env.writeResponsible == Ok(true) && CanWrite(env.server)
  {
    match env.writeResponsible
    case Err(_) => Outcome(StatusMessage(Error), false, false)
    case Ok(responsible) =>
      if !responsible then Outcome(StatusMessage(ServerNotResponsible), false, false)
      else if CanWrite(env.server) then PutWithoutChecks(env, key, value, false, false, stored)
      else Outcome(StatusMessage(ServerWriteLock), false, false)
  }

  /**
   * `get`: a server not responsible for reading the key answers SERVER_NOT_RESPONSIBLE, a failed
   * responsibility check ERROR; otherwise the storage answers, a storage exception giving
   * GET_ERROR. A get never replicates.
   */
  function GetChecked(env: Env, key: Option<string>, stored: Result<KVMessage, Thrown>): (r: Outcome)
    ensures !r.replicate
    ensures env.readResponsible.Err? ==> r.reply == StatusMessage(Error) && !r.storageCalled
    ensures env.readResponsible == Ok(false) ==> r.reply == StatusMessage(ServerNotResponsible) && !r.storageCalled
    ensures env.readResponsible == Ok(true) ==>
              r.storageCalled && r.reply == match stored
                                            case Ok(m) => m
                                            case Err(_) => KVMessage(key, None, GetError)
  {
    match env.readResponsible
    case Err(_) => Outcome(StatusMessage(Error), false, false)
    case Ok(responsible) =>
      if !responsible then Outcome(StatusMessage(ServerNotResponsible), false, false)
      else match stored
        case Ok(m) => Outcome(m, true, false)
        case Err(_) => Outcome(KVMessage(key, None, GetError), true, false)
  }

  /** The request statuses the processor handles; it answers nothing (Java's null) to the rest. */
  predicate Handled(s: StatusType) {
    s == Put || s == PutServer || s == PutServerOwner || s == DeleteServer || s == Delete || s == Get
  }

  /**
   * `process`: PUT and DELETE take the checked write path, GET the checked read path, and the
   * server-to-server PUT_SERVER, PUT_SERVER_OWNER and DELETE_SERVER the unchecked write path.
   * A client write reaches the storage only on a responsible, writable server and replicates only
   * a reported success; a read never replicates; a server write always reaches the storage and
   * only an owner's answered put replicates. DELETE and DELETE_SERVER reach the storage as a
   * write without a value, which is what a throwing storage's DELETE_ERROR reflects.
   */
  function Process(env: Env, command: KVMessage, stored: Result<KVMessage, Thrown>): (r: Option<Outcome>)
    ensures r.Some? <==> Handled(command.status)
    ensures command.status == Put || command.status == Delete ==>
              && (r.value.storageCalled <==> env.writeResponsible == Ok(true) && CanWrite(env.server))
              && (r.value.replicate <==>
                    r.value.storageCalled && env.replicationActive && stored.Ok? && IsSuccessfulPut(stored.value.status))
              && (!r.value.storageCalled ==> r.value.reply.status in {Error, ServerNotResponsible, ServerWriteLock})
    ensures command.status == Get ==>
              !r.value.replicate && (r.value.storageCalled <==> env.readResponsible == Ok(true))
              && (!r.value.storageCalled ==> r.value.reply.status in {Error, ServerNotResponsible})
    ensures command.status == PutServer || command.status == PutServerOwner || command.status == DeleteServer ==>
              r.value.storageCalled && (r.value.replicate <==> command.status == PutServerOwner && stored.Ok?)
    ensures r.Some? && r.value.storageCalled && stored.Ok? ==> r.value.reply == stored.value
    ensures r.Some? && r.value.storageCalled && stored.Err? ==>
              r.value.reply.key == command.key
              && r.value.reply.status == if command.status == Get then GetError
                                         else if command.status == Delete || command.status == DeleteServer
                                                 || command.value.None? then DeleteError
                                         else PutError
  {
    match command.status
    case Put => Some(PutChecked(env, command.key, command.value, stored))
    case PutServer => Some(PutWithoutChecks(env, command.key, command.value, false, true, stored))
    case PutServerOwner => Some(PutWithoutChecks(env, command.key, command.value, true, false, stored))
    case DeleteServer => Some(PutWithoutChecks(env, command.key, None, false, true, stored))
    case Delete => Some(PutChecked(env, command.key, None, stored))
    case Get => Some(GetChecked(env, command.key, stored))
    case _ => None
  }

  /* ---------------- properties across requests ---------------- */

  /** A write-locked server leaves the storage untouched and replicates nothing, whatever the client asks. */
  lemma WriteLockBlocksClientWrites(env: Env, command: KVMessage, stored: Result<KVMessage, Thrown>)
    requires command.status == Put || command.status == Delete
    requires !CanWrite(env.server)
    ensures var r := Process(env, command, stored).value;
            !r.storageCalled && !r.replicate
            && r.reply.status in {Error, ServerNotResponsible, ServerWriteLock}
  {
  }

  /** A client's write replicates only after the storage reported success and only while replication is active. */
  lemma ClientWriteReplicatesOnlySuccess(env: Env, command: KVMessage, stored: Result<KVMessage, Thrown>)
    requires command.status == Put || command.status == Delete
    ensures var r := Process(env, command, stored).value;
            r.replicate <==> r.storageCalled && env.replicationActive && stored.Ok? && IsSuccessfulPut(stored.value.status)
  {
  }

  /** A responsible, writable server answers a client write exactly as the unchecked path would. */
  lemma CheckedMatchesUnchecked(env: Env, key: Option<string>, value: Option<string>, stored: Result<KVMessage, Thrown>)
    requires env.writeResponsible == Ok(true) && CanWrite(env.server)
    ensures PutChecked(env, key, value, stored) == PutWithoutChecks(env, key, value, false, false, stored)
  {
  }

  /** Server-to-server writes skip the checks: they reach the storage in every server state. */
  lemma ServerWritesAlwaysReachStorage(env: Env, command: KVMessage, stored: Result<KVMessage, Thrown>)
    requires command.status in {PutServer, PutServerOwner, DeleteServer}
    ensures Process(env, command, stored).value.storageCalled
    ensures Process(env, command, stored).value.replicate <==> command.status == PutServerOwner && stored.Ok?
  {
  }
}
