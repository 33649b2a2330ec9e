/** Values that cross the relay's sockets, once the transport encoding
    (base64 over UTF-8 JSON) has been peeled off, and the constants both
    server versions share. */
module Wire {

  datatype Option<+T> = None | Some(value: T)

  newtype byte = x: int | 0 <= x < 256

  /** Every read asks the socket for at most this many bytes. */
  const ChunkSize: nat := 1024

  /** What one `recv(1024)` returns; the empty chunk means the peer closed. */
  type Chunk = c: seq<byte> | |c| <= ChunkSize

  /** Sockets are opaque handles; the model numbers them in accept order. */
  type SockId = nat

  /** The shared secret a v1.5 client must present in its first frame. */
  const Secret: string := "cat-message-v1.5"
  const VerifyCommand: string := "verify"
  const HistoryCommand: string := "load_history"

  /** Failure notices of the v1.5 handshake: wrong secret, no verify command. */
  const InvalidSecretNotice: string := "验证失败: 无效的验证信息"
  const MissingSecretNotice: string := "验证失败: 未收到验证信息"

  /** One decoded inbound JSON object; an absent key is None. */
  datatype Frame = Frame(
    command: Option<string>,
    payload: Option<string>,
    username: Option<string>,
    message: Option<string>,
    ip: Option<string>,
    time: Option<string>)

  /** One transcript entry. */
  datatype Msg = Msg(username: string, message: string, ip: string, time: string)

  /** Everything the server ever writes to a client socket. */
  datatype Outbound =
    | VerifyOk
    | VerifyFail(notice: string)
    | OnlineUsers(count: nat)
    | History(data: seq<Msg>)
    | Chat(frame: Frame)

  /** The transcript file as the server finds it on disk. */
  datatype Stored = Missing | Unreadable | Saved(entries: seq<Msg>)
}
