/**
 * Classification of a connection's peer from the status of the first message it sends,
 * and the two per-peer flags the connection handler consults.
 */
module PeerAuthentication {
  import opened Wrappers
  import opened Messages

  /** The kind of peer on the other end of a connection. */
  datatype PeerType = Client | Server | Ecs | Any

  /** Whether the peer is greeted on connection: only clients are. */
  function NeedsGreet(p: PeerType): bool {
    match p
    case Client => true
    case Server => false
    case Ecs => false
    case Any => false
  }

  /** Whether the peer may act while the server is stopped: every peer but a client. */
  function CanBypassStop(p: PeerType): bool {
    match p
    case Client => false
    case Server => true
    case Ecs => true
    case Any => true
  }

  /** The requests a key-value client issues. */
  predicate IsClientRequest(s: StatusType) {
    s.Get? || s.Put? || s.Keyrange? || s.Delete?
  }

  /** The control messages of the external configuration service. */
  predicate IsEcsMessage(s: StatusType) {
    s.EcsWriteLock? || s.EcsWriteUnlock? || s.EcsHandoff? || s.EcsSetKeyrange?
    || s.EcsHeartBeat? || s.EcsAck? || s.EcsWaitingForHandoff?
  }

  /** The two replication statuses that postdate the authenticator's enumeration. */
  predicate IsReplicationStatus(s: StatusType) {
    s.PutServerOwner? || s.DeleteServer?
  }

  /**
   * The peer type a message status reveals. The source's switch covers every status it
   * knew; the two later replication statuses have no case and give `None` here.
   */
  function Authenticate(s: StatusType): (r: Option<PeerType>)
    ensures r.None? <==> IsReplicationStatus(s)
    ensures r == Some(Client) <==> IsClientRequest(s)
  {
    match s
    case Get | Put | Keyrange | Delete => Some(Client)
    case ServerHandoffAck | ServerWriteUnlock | GetError | GetSuccess | PutServer | PutError
      | PutSuccess | PutUpdate | DeleteSuccess | DeleteError | ServerStopped | ServerHandoffSuccess
      | ServerNotResponsible | ServerStart | ServerAck | ServerWriteLock | ServerShutdown
      | ServerHeartBeat | KeyrangeSuccess | ChordClosestPrecedingFinger | ChordFindSuccessor
      | ChordGetPredecessor | ChordNotify | ChordGetStateStr | ChordHeartbeat
      | ChordHeartbeatResponse | ChordFindSuccessorResponse | ChordClosestPrecedingFingerResponse
      | ChordGetPredecessorResponse | ChordGetSuccessors | ChordGetSuccessorResponse
      | ChordNotifyAck => Some(Server)
    case EcsWriteLock | EcsWriteUnlock | EcsHandoff | EcsSetKeyrange | EcsHeartBeat | EcsAck
      | EcsWaitingForHandoff => Some(Ecs)
    case Error | ChordGetStateStrResponse => Some(Any)
    case PutServerOwner | DeleteServer => None
  }

  /**
   * The configuration service's control messages, and only they, reveal the service; the
   * error status and the state-string response, and only they, reveal a peer of any kind.
   */
  lemma AuthenticateControlPeers(s: StatusType)
    ensures Authenticate(s) == Some(Ecs) <==> IsEcsMessage(s)
    ensures Authenticate(s) == Some(Any) <==> (s.Error? || s.ChordGetStateStrResponse?)
  {
  }

  /** Only a client needs a greet, and only a client cannot bypass the stopped state. */
  lemma GreetAndBypassAreComplementary(p: PeerType)
    ensures NeedsGreet(p) <==> p == Client
    ensures CanBypassStop(p) <==> !NeedsGreet(p)
  {
  }

  /**
   * For every classified status, the peer is greeted exactly when the status is a client
   * request, and may bypass a stopped server exactly when it is not.
   */
  lemma GreetIffClientRequest(s: StatusType)
    requires !IsReplicationStatus(s)
    ensures Authenticate(s).Some?
    ensures NeedsGreet(Authenticate(s).value) <==> IsClientRequest(s)
    ensures CanBypassStop(Authenticate(s).value) <==> !IsClientRequest(s)
  {
    GreetAndBypassAreComplementary(Authenticate(s).value);
  }
}
