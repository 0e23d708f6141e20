/**
 * The storage a client or a server uses to talk to a remote server: it checks key and value
 * sizes, turns a get, put or delete into the request message that matches its mode, and passes
 * the remote reply back, a communication failure becoming a get or put exception.
 *
 * The network exchange is a parameter: the reply received for the request sent, `Err` standing
 * for the communication client throwing.
 */
module WrappingStorages {
  import opened Wrappers
  import opened Messages
  import opened Chunks
  import StorageCommandProcessors

  const BytesPerKb: int := 1024
  const MaxKeySizeBytes: int := 20
  const MaxValueSizeKb: int := 120
  const MaxValueSizeBytes: int := MaxValueSizeKb * BytesPerKb

  /** `MessageMode`: who is sending, which decides the request statuses used. */
  datatype MessageMode = Client | Server | ServerOwner

  /** `WrappingPersistentStorage`: only its mode matters here. */
  datatype WrappingStorage = WrappingStorage(mode: MessageMode)

  datatype WrappingError = GetException | PutException

  /** An octet. */
  newtype Byte = x: int | 0 <= x < 256

  /** The ISO-8859-1 byte of one character: itself below 256, '?' otherwise. */
  function Latin1Byte(c: char): (b: Byte)
    ensures c as int < 256 ==> b as int == c as int
    ensures c as int >= 256 ==> b == 63
  {
    if c as int < 256 then c as int as Byte else 63
  }

  /** ISO-8859-1 encoding: one byte per character. */
  function Latin1(s: string): (b: seq<Byte>)
    ensures |b| == |s|
    ensures forall i :: 0 <= i < |s| ==> b[i] == Latin1Byte(s[i])
  {
    if |s| == 0 then [] else [Latin1Byte(s[0])] + Latin1(s[1..])
  }

  /** The byte length of a string as sent over the wire. */
  function ByteLength(s: string): int {
    |Latin1(s)|
  }

  /** The two constructors: the mode defaults to the client's. */
  function New(mode: Option<MessageMode>): (r: WrappingStorage)
    ensures r.mode == mode.GetOr(Client)
  {
    WrappingStorage(mode.GetOr(Client))
  }

  function SetMessageMode(s: WrappingStorage, mode: MessageMode): (r: WrappingStorage)
    ensures r.mode == mode
  {
    WrappingStorage(mode)
  }

  /** The status of a put request: PUT, PUT_SERVER or PUT_SERVER_OWNER by mode. */
  function PutStatus(mode: MessageMode): StatusType {
    match mode
    case Client => Put
    case Server => PutServer
    case ServerOwner => PutServerOwner
  }

  /** The status of a delete request: DELETE for a client, DELETE_SERVER for either server mode. */
  function DeleteStatus(mode: MessageMode): StatusType {
    match mode
    case Client => Delete
    case Server => DeleteServer
    case ServerOwner => DeleteServer
  }

  /** The request `get` sends, or a get exception for a key of 20 bytes or more. */
  function GetRequest(key: string): (r: Result<KVMessage, WrappingError>)
    ensures r.Ok? <==> |key| < MaxKeySizeBytes
    ensures r.Ok? ==> r.value == KeyMessage(key, Get)
    ensures r.Err? ==> r.error == GetException
  {
    if ByteLength(key) >= MaxKeySizeBytes then Err(GetException)
    else Ok(KeyMessage(key, Get))
  }

  /**
   * The request `put` sends: a put exception for a key of 20 bytes or more or a value of 120 KiB
   * or more; otherwise a delete request when the value is missing and a put request carrying it
   * when it is present, with the mode's status.
   */
  function PutRequest(s: WrappingStorage, key: string, value: Option<string>): (r: Result<KVMessage, WrappingError>)
    ensures r.Ok? <==> |key| < MaxKeySizeBytes && (value.Some? ==> |value.value| < MaxValueSizeBytes)
    ensures r.Ok? ==> r.value.key == Some(key) && r.value.value == value
    ensures r.Ok? ==> r.value.status == if value.None? then DeleteStatus(s.mode) else PutStatus(s.mode)
    ensures r.Err? ==> r.error == PutException
  {
    if ByteLength(key) >= MaxKeySizeBytes then Err(PutException)
    else if value.Some? && ByteLength(value.value) >= MaxValueSizeBytes then Err(PutException)
    else if value.None? then Ok(KeyMessage(key, DeleteStatus(s.mode)))
    else Ok(KeyValueMessage(key, value.value, PutStatus(s.mode)))
  }

  /** `get`: the request is sent and the reply returned; a communication failure is a get exception. */
  function GetRemote(key: string, received: Result<KVMessage, Thrown>): (r: Result<KVMessage, WrappingError>)
    ensures r.Ok? <==> GetRequest(key).Ok? && received.Ok?
    ensures r.Ok? ==> r.value == received.value
  {
    match GetRequest(key)
    case Err(e) => Err(e)
    case Ok(_) => if received.Err? then Err(GetException) else Ok(received.value)
  }

  /** `put`: the request is sent and the reply returned; a communication failure is a put exception. */
  function PutRemote(s: WrappingStorage, key: string, value: Option<string>, received: Result<KVMessage, Thrown>)
    : (r: Result<KVMessage, WrappingError>)
    ensures r.Ok? <==> PutRequest(s, key, value).Ok? && received.Ok?
    ensures r.Ok? ==> r.value == received.value
    ensures r.Err? ==> r.error == PutException
  {
    match PutRequest(s, key, value)
    case Err(e) => Err(e)
    case Ok(_) => if received.Err? then Err(PutException) else Ok(received.value)
  }

  /** `getRange`: a remote storage offers no range scan. */
  function GetRange(lower: string, upper: string): (r: seq<Pair<string>>)
    ensures |r| == 0
  {
    []
  }

  /* ---------------- properties ---------------- */

  /** The size check on keys and values measures characters: ISO-8859-1 spends one byte on each. */
  lemma ByteLengthIsLength(s: string)
    ensures ByteLength(s) == |s|
  {
  }

  /**
   * Every request a wrapping storage sends is one the storage command processor handles: a client
   * takes the checked write path, a server the one that does not replicate further, and a server
   * acting as owner the one that always replicates on success.
   */
  lemma RequestsAreHandled(s: WrappingStorage, key: string, value: Option<string>,
                           env: StorageCommandProcessors.Env, stored: Result<KVMessage, Thrown>)
    requires PutRequest(s, key, value).Ok?
    ensures var m := PutRequest(s, key, value).value;
            var r := StorageCommandProcessors.Process(env, m, stored);
            && StorageCommandProcessors.Handled(m.status) && r.Some?
            && (s.mode == Client ==> r.value == StorageCommandProcessors.PutChecked(env, Some(key), value, stored))
            && (s.mode == Server ==> r.value == StorageCommandProcessors.PutWithoutChecks(env, Some(key), value, false, true, stored))
            && (s.mode == ServerOwner && value.Some? ==>
                  r.value == StorageCommandProcessors.PutWithoutChecks(env, Some(key), value, true, false, stored))
  {
  }

  /** A server acting as owner deletes with the plain server status, so its deletes are not replicated further. */
  lemma OwnerDeleteDoesNotReplicate(key: string, env: StorageCommandProcessors.Env, stored: Result<KVMessage, Thrown>)
    requires |key| < MaxKeySizeBytes
    ensures var m := PutRequest(WrappingStorage(ServerOwner), key, None).value;
            m.status == DeleteServer && !StorageCommandProcessors.Process(env, m, stored).value.replicate
  {
  }
}
