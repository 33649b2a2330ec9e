/** `handle_client` and the accept step, for both releases of the server:
    version 1.2 (server.py) relays every frame, version 1.5 (src/server.py)
    first runs a shared-secret handshake and answers history requests. The
    functions say what one frame, the end of a session and a whole session
    do to the server state; the methods do it to a Server and are proved to
    agree. */
module Session {
  import opened Wire
  import opened Framing
  import opened Relay
  import opened Runtime

  /** server.py is release 1.2, src/server.py release 1.5. */
  datatype Version = V12 | V15

  /** The one frame that verifies a v1.5 session. */
  predicate IsHandshake(f: Frame) {
    f.command == Some(VerifyCommand) && f.payload == Some(Secret)
  }

  /** One decoded frame on socket `sock`, whose peer address is `ip`, at
      server time `now`; the flag says whether the session goes on. */
  function Step(ver: Version, st: State, sock: SockId, frame: Frame, ip: string, now: string): (State, bool) {
    if ver == V15 && sock !in st.verified then
      if frame.command == Some(VerifyCommand) then
        if frame.payload == Some(Secret) then
          var answered := Send(st, VerifyOk, sock);
          (Presence(answered.(verified := answered.verified + {sock})), true)
        else
          (Send(st, VerifyFail(InvalidSecretNotice), sock), false)
      else
        (Send(st, VerifyFail(MissingSecretNotice), sock), false)
    else if ver == V15 && frame.command == Some(HistoryCommand) then
      (ReplayHistory(st, sock), true)
    else
      Deliver(st, Stamp(frame, ip, now), sock)
  }

  /** The end of a session: deregister the socket if it is still
      registered (v1.5 then tells the others the new count), and close it. */
  function EndOf(ver: Version, st: State, sock: SockId): State {
    var gone := st.(clients := Remove(st.clients, sock));
    var told := if ver == V15 && sock in st.clients then Presence(gone) else gone;
    told.(closed := told.closed + {sock})
  }

  /** A whole session from stream position `pos`: read a frame, decode it,
      act on it, until the peer closes, a frame does not decode, the socket
      has been closed under the handler, or a step ends the session.
      `decode` stands for base64, UTF-8 and JSON decoding, and `clock(k)` is
      the server time while the k-th frame is handled. */
  function Run(ver: Version, st: State, sock: SockId, chunks: seq<Chunk>, pos: nat,
               decode: seq<byte> -> Option<Frame>, ip: string, clock: nat -> string, k: nat): State
    requires pos <= |chunks|
    decreases |chunks| - pos
  {
    if sock in st.closed then EndOf(ver, st, sock)
    else
      var read := ReadSpec(chunks, pos);
      if read.0 == [] then EndOf(ver, st, sock)
      else match decode(read.0)
        case None => EndOf(ver, st, sock)
        case Some(frame) =>
          var stepped := Step(ver, st, sock, frame, ip, clock(k));
          if stepped.1 then Run(ver, stepped.0, sock, chunks, read.1, decode, ip, clock, k + 1)
          else EndOf(ver, stepped.0, sock)
  }

  /** The body of `handle_client`'s loop for one decoded frame. */
  method OnFrame(srv: Server, ver: Version, sock: SockId, frame: Frame, ip: string, now: string)
    returns (cont: bool)
    requires srv.Valid() && sock < srv.nextId
    modifies srv
    ensures srv.Valid() && srv.nextId == old(srv.nextId)
    ensures (srv.Snapshot(), cont) == Step(ver, old(srv.Snapshot()), sock, frame, ip, now)
  {
    if ver == V15 && sock !in srv.verified {
      if frame.command == Some(VerifyCommand) {
        if frame.payload == Some(Secret) {
          srv.SendToClient(VerifyOk, sock);
          srv.MarkVerified(sock);
          srv.BroadcastOnlineUsers();
          return true;
        }
        srv.SendToClient(VerifyFail(InvalidSecretNotice), sock);
        return false;
      }
      srv.SendToClient(VerifyFail(MissingSecretNotice), sock);
      return false;
    }
    if ver == V15 && frame.command == Some(HistoryCommand) {
      srv.SendChatHistory(sock);
      return true;
    }
    var data := frame.(ip := Some(ip));
    if data.time.None? {
      data := data.(time := Some(now));
    }
    cont := srv.Broadcast(data, sock);
  }

  /** What `handle_client` does after its loop. */
  method EndSession(srv: Server, ver: Version, sock: SockId)
    requires srv.Valid() && sock < srv.nextId
    modifies srv
    ensures srv.Valid() && srv.nextId == old(srv.nextId)
    ensures srv.Snapshot() == EndOf(ver, old(srv.Snapshot()), sock)
  {
    if sock in srv.clients {
      srv.Deregister(sock);
      if ver == V15 {
        srv.BroadcastOnlineUsers();
        assert sock !in multiset(srv.clients);
      }
    }
    srv.Close(sock);
  }

  /** `handle_client`: the receive loop over one socket's input stream. */
  method HandleClient(srv: Server, ver: Version, sock: SockId, chunks: seq<Chunk>,
                      decode: seq<byte> -> Option<Frame>, ip: string, clock: nat -> string)
    requires srv.Valid() && sock < srv.nextId
    modifies srv
    ensures srv.Valid() && srv.nextId == old(srv.nextId)
    ensures srv.Snapshot() == Run(ver, old(srv.Snapshot()), sock, chunks, 0, decode, ip, clock, 0)
  {
    var pos, k := 0, 0;
    while true
      invariant srv.Valid() && srv.nextId == old(srv.nextId) && pos <= |chunks|
      invariant Run(ver, old(srv.Snapshot()), sock, chunks, 0, decode, ip, clock, 0)
             == Run(ver, srv.Snapshot(), sock, chunks, pos, decode, ip, clock, k)
      decreases |chunks| - pos
    {
      if sock in srv.closed {
        break;
      }
      var raw, next := ReadMessage(chunks, pos);
      if raw == [] {
        break;
      }
      var decoded := decode(raw);
      if decoded.None? {
        break;
      }
      ghost var before := srv.Snapshot();
      var cont := OnFrame(srv, ver, sock, decoded.value, ip, clock(k));
      if !cont {
        assert Run(ver, before, sock, chunks, pos, decode, ip, clock, k) == EndOf(ver, srv.Snapshot(), sock);
        break;
      }
      pos, k := next, k + 1;
    }
    EndSession(srv, ver, sock);
  }

  /** The accept step of `start_server`: register the new socket at once;
      release 1.2 also sends it the whole transcript before its handler
      starts. */
  method Admit(srv: Server, ver: Version) returns (s: SockId)
    requires srv.Valid()
    modifies srv
    ensures srv.Valid() && srv.nextId == old(srv.nextId) + 1
    ensures srv.clients == old(srv.clients) + [s] && s !in old(srv.clients)
    ensures srv.log == old(srv.log) && srv.verified == old(srv.verified) && s !in srv.verified
    ensures srv.closed == old(srv.closed) && srv.broken == old(srv.broken)
    ensures forall x :: x != s ==> Sent(srv.Snapshot(), x) == Sent(old(srv.Snapshot()), x)
    ensures Sent(srv.Snapshot(), s) ==
      if ver == V12 && s !in srv.broken then [History(srv.log)] else []
  {
    s := srv.Accept();
    if ver == V12 {
      srv.SendChatHistory(s);
    }
  }
}
