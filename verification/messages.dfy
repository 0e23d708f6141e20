/**
 * The key-value protocol's message: a status (request, response or control code),
 * an optional key and an optional value.
 */
module Messages {
  import opened Wrappers

  /**
   * Every status code a server handles. The first 45 are the codes the peer authenticator
   * classifies; `PutServerOwner` and `DeleteServer` are the two replication codes the
   * storage command processor and the wrapping storage add on top of them.
   */
  datatype StatusType =
    | Get | Put | Keyrange | Delete
    | ServerHandoffAck | ServerWriteUnlock | GetError | GetSuccess | PutServer | PutError
    | PutSuccess | PutUpdate | DeleteSuccess | DeleteError | ServerStopped | ServerHandoffSuccess
    | ServerNotResponsible | ServerStart | ServerAck | ServerWriteLock | ServerShutdown
    | ServerHeartBeat | KeyrangeSuccess | ChordClosestPrecedingFinger | ChordFindSuccessor
    | ChordGetPredecessor | ChordNotify | ChordGetStateStr | ChordHeartbeat
    | ChordHeartbeatResponse | ChordFindSuccessorResponse | ChordClosestPrecedingFingerResponse
    | ChordGetPredecessorResponse | ChordGetSuccessors | ChordGetSuccessorResponse | ChordNotifyAck
    | EcsWriteLock | EcsWriteUnlock | EcsHandoff | EcsSetKeyrange | EcsHeartBeat | EcsAck
    | EcsWaitingForHandoff
    | Error | ChordGetStateStrResponse
    | PutServerOwner | DeleteServer

  /** A message; `None` stands for Java's null key or value. */
  datatype KVMessage = KVMessage(key: Option<string>, value: Option<string>, status: StatusType)

  /** A message carrying a key and no value. */
  function KeyMessage(key: string, status: StatusType): KVMessage {
    KVMessage(Some(key), None, status)
  }

  /** A message carrying both a key and a value. */
  function KeyValueMessage(key: string, value: string, status: StatusType): KVMessage {
    KVMessage(Some(key), Some(value), status)
  }

  /** A message carrying only a status. */
  function StatusMessage(status: StatusType): KVMessage {
    KVMessage(None, None, status)
  }

  /** The statuses a storage reports after a successful put or delete. */
  predicate IsSuccessfulPut(status: StatusType) {
    status == DeleteSuccess || status == PutSuccess || status == PutUpdate
  }
}
