/**
 * The server's state machine: one of four states, set outright by the control operations, and a
 * queue of keys whose deletion waits for a key-range change to finish.
 */
module ServerStates {

  /** `ServerState.State`. */
  datatype State = Active | Stopped | Shutdown | WriteLock

  /** `AbstractServerState`: the current state and the queued deletes. */
  datatype ServerState = ServerState(state: State, deleteQueue: seq<string>)

  /** The constructor: the given start state and nothing queued. */
  function Init(start: State): (r: ServerState)
    ensures r.state == start && |r.deleteQueue| == 0
  {
    ServerState(start, [])
  }

  predicate IsStopped(s: ServerState) { s.state == Stopped }

  predicate IsShutdown(s: ServerState) { s.state == Shutdown }

  predicate IsActive(s: ServerState) { s.state == Active }

  /** Writes are refused only under the write lock. */
  predicate CanWrite(s: ServerState) { s.state != WriteLock }

  /** `stop`: the server is stopped and still accepts writes. */
  function Stop(s: ServerState): (r: ServerState)
    ensures IsStopped(r) && !IsActive(r) && !IsShutdown(r) && CanWrite(r)
    ensures r.deleteQueue == s.deleteQueue
  {
    s.(state := Stopped)
  }

  /** `writeLock`: writes are refused; the server is neither active, stopped nor shut down. */
  function WriteLockServer(s: ServerState): (r: ServerState)
    ensures !CanWrite(r) && !IsActive(r) && !IsStopped(r) && !IsShutdown(r)
    ensures r.deleteQueue == s.deleteQueue
  {
    s.(state := WriteLock)
  }

  /** `shutdown`: the server is shutting down and still accepts writes. */
  function ShutdownServer(s: ServerState): (r: ServerState)
    ensures IsShutdown(r) && !IsActive(r) && !IsStopped(r) && CanWrite(r)
    ensures r.deleteQueue == s.deleteQueue
  {
    s.(state := Shutdown)
  }

  /** `start`: the server is active, which also lifts a write lock. */
  function Start(s: ServerState): (r: ServerState)
    ensures IsActive(r) && !IsStopped(r) && !IsShutdown(r) && CanWrite(r)
    ensures r.deleteQueue == s.deleteQueue
  {
    s.(state := Active)
  }

  /**
   * In every state exactly one of "stopped", "shut down", "active" and "write locked" holds, so
   * the first three are mutually exclusive and a server that cannot write is none of them.
   */
  lemma ExactlyOneHolds(s: ServerState)
    ensures !(IsStopped(s) && IsShutdown(s)) && !(IsStopped(s) && IsActive(s)) && !(IsShutdown(s) && IsActive(s))
    ensures !CanWrite(s) <==> !IsStopped(s) && !IsShutdown(s) && !IsActive(s)
  {
  }

  /** The last control operation decides the state, whatever came before. */
  lemma LastControlWins(s: ServerState)
    ensures Start(Stop(s)) == Start(s) && Stop(WriteLockServer(s)) == Stop(s)
    ensures WriteLockServer(ShutdownServer(s)) == WriteLockServer(s) && ShutdownServer(Start(s)) == ShutdownServer(s)
  {
  }

  /**
   * `executeStoredDeletes`: every queued key is deleted from the storage, a delete that throws
   * (its position in the queue is one of `failing`) is skipped, and the queue is emptied. A
   * key survives only if every one of its queued deletes throws. The storage is a map here.
   */
  method ExecuteStoredDeletes(s: ServerState, store: map<string, string>, failing: set<nat>)
    returns (r: ServerState, store': map<string, string>)
    ensures r.state == s.state && r.deleteQueue == []
    ensures forall k :: k in store' <==>
              k in store && forall i :: 0 <= i < |s.deleteQueue| && s.deleteQueue[i] == k ==> i in failing
    ensures forall k :: k in store' ==> store'[k] == store[k]
  {
    store' := store;
    var i := 0;
    while i < |s.deleteQueue|
      invariant 0 <= i <= |s.deleteQueue|
      invariant forall k :: k in store' <==>
                  k in store && forall j :: 0 <= j < i && s.deleteQueue[j] == k ==> j in failing
      invariant forall k :: k in store' ==> store'[k] == store[k]
    {
      var key := s.deleteQueue[i];
      if i !in failing {
        store' := store' - {key};
      }
      i := i + 1;
    }
    r := s.(deleteQueue := []);
  }
}
