# cat-message relay server, modelled in Dafny

This project models the sequential core of the cat-message chat relay
server in two releases. `server.py` is release 1.2 and `src/server.py` is
release 1.5. The socket plumbing underneath is left out. What is modelled:

- **Frame reader** (`read_message`). A frame is all the 1024-byte reads up
  to and including the first short one. An empty read ends the frame and
  adds no bytes.
- **Per-connection handler** (`handle_client`).
  - In 1.5 it is a two-state machine. An unverified session must first send
    the `verify` command with the exact shared secret. After that, a
    `load_history` frame replays the transcript to the requester, and any
    other frame is stamped and broadcast.
  - In 1.2 every frame is stamped and broadcast.
- **Client registry.** This is the global `clients` list. Sockets are
  appended at accept. They are removed when their session ends or when a
  send to them fails.
- **Broadcast engine.** `broadcast` sends to every registered socket
  except the origin and then logs the message. `broadcast_online_users`
  (1.5 only) sends the registry size to every registered socket.
- **Transcript.** This is `MESSAGE_LOG` and its file. It is loaded at
  startup, appended by `save_message_to_file` and, in 1.5 only, cleared by
  the `clear_history` console command.

## Layout

- `wire.dfy` (`Wire`): the data model.
  - Sockets are opaque ids, and bytes and reads are bounded chunks.
  - A decoded frame is a record of optional string fields.
  - A transcript entry is `Msg`.
  - What the server sends is `Outbound`, and the transcript file is `Stored`.
  - The protocol constants also live here.
- `framing.dfy` (`Framing`): `read_message`. `ReadSpec` is its
  specification and `ReadMessage` its loop.
- `relay.dfy` (`Relay`): the server's shared state as the value `State`.
  Functions say what each shared operation does to it:
  - `Send` for `send_to_client`.
  - `FanOut` for the loop over the live list.
  - `Presence` and `Deliver` for the two broadcasts.
  - `Save`, `ReplayHistory` and `Stamp`.
  - Lemmas about these functions.
- `runtime.dfy` (`Runtime.Server`): a class holding the same state as
  mutable fields. Each method corresponds to one function of the source. It
  is proved to leave exactly the state the matching `Relay` function
  computes, and to keep the invariant `Relay.Inv`. The invariant says:
  - No socket is registered twice.
  - Registered sockets are open.
  - The transcript file parses to the in-memory transcript.
- `session.dfy` (`Session`): `handle_client` and the accept step for both
  releases.
  - `Step` gives the effect of one frame, `EndOf` the end of a session and
    `Run` a whole session over an input stream.
  - `OnFrame`, `EndSession`, `HandleClient` and `Admit` do the same to a
    `Server` and are proved equal to those functions.
- `session_facts.dfy` (`SessionFacts`): what a session promises.
  - The handshake accepts exactly the secret.
  - A rejected session ignores everything after its first frame.
  - History goes to the requester only.
  - Chat never echoes to its sender and logs exactly one entry.
  - Ending a session deregisters the socket, announces the new count in 1.5
    and is idempotent.

Release differences:
- Version 1.2 has no handshake and no history command (`Session.Step`).
- Its accept step sends the transcript (`Session.Admit`).
- Its session end sends no presence update (`Session.EndOf`).
- Its console loop (server.py:113-118) knows only `stop`: it has no
  `clear_history` command, so `Runtime.Server.ClearHistory` models release
  1.5 only.

`read_message`, `save_message_to_file`, `broadcast`, `send_to_client`,
`send_chat_history` and the startup load are the same text in both files,
and each is modelled once.

The fan-out loops iterate by index over the live `clients` list, as
Python's `for` does. A failed send removes the current client, so the
client after it slides into the slot already visited and is skipped for
that broadcast. `Relay.FanOut` reproduces this, and
`Relay.FanOutSkipsSuccessor` exhibits it on three sockets. The general
guarantees are:
- `FanOutOnlyPending`: nobody outside the list, and never the origin,
  receives anything.
- `FanOutAtMostOnce`: nobody receives two copies.
- `FanOutHealthy`: when every pending send succeeds, everybody is reached.

## Model

| member | source | states |
|---|---|---|
| Framing.ReadSpec | src/server.py:61-70 | the frame read is the in-order concatenation of exactly the chunks consumed; every consumed chunk but the last is a full 1024-byte read; the last is short or empty, or the stream ended; an empty first read yields no bytes; release 1.2 has the same at server.py:41-50 |
| Framing.ReadIsUnique | src/server.py:61-70 | the reading characterisation allows one result only, so it defines the reader |
| Framing.ReadMessage | src/server.py:61-70 | the buffer-extending loop returns exactly the characterised frame and the position after it; release 1.2 has the same at server.py:41-50 |
| Relay.Remove | src/server.py:109-110 | `clients.remove` takes away one occurrence of the socket and nothing else, and removing an absent socket changes nothing |
| Relay.RemoveFirst | src/server.py:139-140 | `clients.remove` drops the first occurrence of the socket and keeps every other socket in its order |
| Relay.RemoveShift | src/server.py:139-140 | removing the client at index i shifts every later client down one slot, which is why the live-list loop skips the next one |
| Relay.RemoveDistinct | src/server.py:139-140 | on a registry without repeats, removal leaves the socket unregistered, keeps no repeats and adds nobody |
| Relay.Send | src/server.py:133-141 | a send never touches the transcript, the verified sessions or the broken set, and can only shrink the registry |
| Relay.SendFacts | src/server.py:133-141 | a failed send deregisters and closes the socket and records nothing; a successful one appends the frame to that socket's outbox only and leaves the registry unchanged; release 1.2 has the same at server.py:84-92 |
| Relay.SendKeepsInv | src/server.py:133-141 | a send keeps the registry free of repeats and closed sockets, and keeps the file in step with the transcript |
| Relay.FanOut | src/server.py:128-130 | the loop over the live list leaves transcript and verified set alone and can only shrink the registry |
| Relay.FanOutKeepsInv | src/server.py:118-119 | the whole loop preserves the server invariant |
| Relay.FanOutOnlyPending | src/server.py:128-130 | only sockets still ahead of the loop index can receive anything, and the origin never does |
| Relay.FanOutAtMostOnce | src/server.py:128-130 | whatever sends fail, every socket receives at most one copy of a broadcast |
| Relay.FanOutHealthy | src/server.py:128-130 | when every pending send succeeds, the registry is unchanged and each pending socket other than the origin receives exactly one copy |
| Relay.FanOutSkipsSuccessor | src/server.py:128-130 | with clients [1, 2, 3], socket 1 broken and origin 3, socket 1 is dropped and healthy, registered socket 2 receives nothing |
| Relay.DeliverFacts | src/server.py:127-131 | Relay.Deliver, the model of `broadcast`, never echoes to the origin and gives everyone at most one copy; it logs iff username and message are present, then exactly one entry at the end of the transcript; the file then equals the transcript; release 1.2 has the same at server.py:78-82 |
| Relay.DeliverHealthy | src/server.py:127-130 | with every registered socket healthy, exactly the registered sockets other than the origin receive the chat frame, once each |
| Relay.PresenceHealthy | src/server.py:114-119 | Relay.Presence, the model of `broadcast_online_users`: with every registered socket healthy, each one, unverified ones included, receives the registry size taken before the loop |
| Relay.ReplayHistoryFacts | src/server.py:143-150 | Relay.ReplayHistory, the model of `send_chat_history`: history goes to the requester only and is the whole current transcript; a failed send is swallowed and neither registry nor transcript changes; release 1.2 has the same at server.py:94-101 |
| Relay.SaveReloads | src/server.py:121-125 | Relay.Save, the model of `save_message_to_file`, and Relay.LoadLog, the file read back: after a save the file reloads to the transcript, which is the old transcript unchanged with the new entry at its end; registry and outboxes are untouched |
| Relay.StampedRecord | src/server.py:131 | Relay.Record, the entry `save_message_to_file` is called with: for a stamped frame it exists exactly when username and message are present (the indexing raises otherwise) and holds the frame's own fields, the peer address and the stamped time |
| Relay.DeliverKeepsInv | src/server.py:127-131 | a broadcast keeps the server invariant and appends at most one entry to the transcript, leaving earlier entries unchanged |
| Relay.StampFacts | src/server.py:101-103 | Relay.Stamp: the stamped frame carries the peer address, keeps a client-supplied time or gets the server time, and keeps every other field |
| Runtime.Server.Start | src/server.py:50-57 | the transcript is Relay.LoadLog of the file: the stored list, or empty when the file is missing or unreadable; nobody is registered; release 1.2 has the same at server.py:30-37 |
| Runtime.Server.Accept | src/server.py:211-214 | a fresh socket is appended to the registry at once, unverified, with nothing sent |
| Runtime.Server.SendToClient | src/server.py:133-141 | the send acts on the server exactly as Relay.Send and keeps the invariant |
| Runtime.Server.BroadcastOnlineUsers | src/server.py:114-119 | the index loop over the live list acts exactly as Relay.Presence and keeps the invariant |
| Runtime.Server.SaveMessage | src/server.py:121-125 | one entry is appended to the transcript and the file is rewritten to equal it; release 1.2 has the same at server.py:72-76 |
| Runtime.Server.Broadcast | src/server.py:127-131 | the loop then the save act exactly as Relay.Deliver; the result flag is false when a missing key made the save raise; release 1.2 has the same at server.py:78-82 |
| Runtime.Server.SendChatHistory | src/server.py:143-150 | acts exactly as Relay.ReplayHistory |
| Runtime.Server.ClearHistory | src/server.py:188-197 | the release 1.5 console command: the transcript and its file become empty and nothing else changes |
| Runtime.Server.Deregister | src/server.py:109-110 | the socket is off the registry afterwards; nothing else changes |
| Runtime.Server.Close | src/server.py:112 | the socket is marked closed; nothing else changes |
| Runtime.Server.MarkVerified | src/server.py:87 | the session is marked verified; nothing else changes |
| Session.OnFrame | src/server.py:82-105 | one decoded frame acts on the server exactly as Session.Step, and the result flag says whether the session goes on |
| Session.EndSession | src/server.py:109-112 | the end of a session acts exactly as Session.EndOf; release 1.2 has the same at server.py:68-70 |
| Session.HandleClient | src/server.py:72-112 | the receive loop turns the input stream into exactly the state Session.Run describes, keeping the invariant; release 1.2 has the same at server.py:52-70 |
| Session.Admit | src/server.py:211-214 | accept appends the new socket to the registry before any handshake and sends it nothing; in release 1.2 (server.py:125-129) it also sends the whole transcript, unless that send fails |
| SessionFacts.HandshakeIff | src/server.py:82-97 | an unverified session goes on, and becomes verified, iff the frame is `verify` with exactly the secret; the transcript is unchanged either way |
| SessionFacts.HandshakeAccepted | src/server.py:82-89 | on success the sender gets "ok", then every registered socket, unverified ones included, gets the registry size; registry and transcript are unchanged |
| SessionFacts.HandshakeRejected | src/server.py:90-97 | any other first frame ends the session; only the sender is sent anything, the invalid-secret or missing-secret notice, and the transcript and verified set are unchanged |
| SessionFacts.ReadPrefix | src/server.py:61-70 | a frame depends only on the chunks it consumes |
| SessionFacts.RejectedSessionEnds | src/server.py:90-112 | a session whose first frame is not the handshake ends with the failure notice followed by deregistration, presence update and close; the transcript is untouched; later input changes nothing |
| SessionFacts.HistoryReplayed | src/server.py:98-100 | a verified `load_history` sends the whole transcript to the requester only, keeps registry and transcript, and the session goes on |
| SessionFacts.ChatRelayed | src/server.py:101-108 | a chat frame is stamped with the peer address and, if absent, the time; it never returns to its sender and reaches others at most once; the session goes on iff username and message are present, which is exactly when one entry is logged; release 1.2 has the same at server.py:58-67 |
| SessionFacts.StepKeepsInv | src/server.py:82-105 | Session.Step, one frame of `handle_client` in either release, keeps the server invariant and appends at most one entry at the end of the transcript (the handshake and history branches append none, by HandshakeIff and HistoryReplayed) |
| SessionFacts.HandshakeKeepsInv | src/server.py:82-97 | a frame of an unverified 1.5 session keeps the invariant and leaves the transcript as it was |
| SessionFacts.RunFacts | src/server.py:72-112 | Session.Run, a whole `handle_client` session over any input and any decoder: it always ends with its socket deregistered and closed, keeps the invariant, and only appends to the transcript |
| SessionFacts.EndKeepsInv | src/server.py:109-112 | the end of a session keeps the server invariant |
| SessionFacts.EndFacts | src/server.py:109-112 | Session.EndOf, the end of `handle_client`: the ended socket is off the registry and closed, nobody new is registered, the transcript is unchanged and the socket itself is sent nothing; release 1.2 has the same at server.py:68-70 |
| SessionFacts.EndNotifies | src/server.py:109-111 | when a registered 1.5 session ends and the others are healthy, each remaining socket is told the count, one smaller |
| SessionFacts.EndIdempotent | server.py:68-70 | ending a session a second time changes nothing more |

## Left out

- Sockets, `accept`, `recv`, `sendall`, `getpeername` and the server timeout.
  - A socket is an id, and its input is a sequence of reads.
  - Whether a send succeeds is given by the set of broken sockets, plus the
    sockets already closed.
  - The peer address and the current time are parameters.
  - A closed socket's next read ends its session.
  - The end of the read sequence stands for the peer closing. A blocking
    read that never returns is not modelled.
  - A frame whose length is an exact multiple of 1024 merges with the next
    read, as it does in the source.
- Threads, the console listener, `shutdown_flag` and races on the shared
  `clients` list. The model runs one operation at a time. Interleavings of
  handlers are not modelled.
- Base64, UTF-8 and JSON. `decode` is a parameter of `Session.Run`, and a
  frame that fails to decode ends the session. The encoded bytes of what is
  sent are not modelled, only which frame is sent to whom.
- Frames whose fields hold non-string JSON values, and keys other than the
  six modelled. A JSON `null` time is not distinguished from an absent one.
- A transcript file that parses to something other than a list of entries
  counts as unreadable.
- File-write failures. `Runtime.Server.SaveMessage` and
  `Runtime.Server.ClearHistory` always succeed in writing. `config.ini`, the
  log file and the banner output are not modelled.
- The update check (`get_latest_github_release`, `check_for_update`), which
  is an HTTP request with console output only.
- Closing every client at shutdown, which is I/O only.
- Session.HandleClient: the `verified` flag is a set of sockets in the
  server state, where the source keeps it as a local of the handler.
- Relay.FanOutHealthy, Relay.PresenceHealthy, Relay.DeliverHealthy and
  SessionFacts.HandshakeAccepted: exact delivery is stated only when every
  pending send succeeds. With failures, the guarantees are the weaker
  at-most-once and never-to-origin facts, plus the skip shown by
  Relay.FanOutSkipsSuccessor.
