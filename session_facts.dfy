/** What the handler promises, stated over Session's functions: the v1.5
    handshake, history replay, chat relaying in both releases, and the end
    of a session. */
module SessionFacts {
  import opened Wire
  import opened Framing
  import opened Relay
  import opened Session

  /** The notice a rejected v1.5 handshake frame is answered with. */
  function RejectNotice(f: Frame): string {
    if f.command == Some(VerifyCommand) then InvalidSecretNotice else MissingSecretNotice
  }

  /** An unverified v1.5 session goes on, and becomes verified, exactly when
      the frame is the verify command with the exact secret; the transcript
      is untouched either way. */
  lemma HandshakeIff(st: State, sock: SockId, frame: Frame, ip: string, now: string)
    requires sock !in st.verified
    ensures var (r, cont) := Step(V15, st, sock, frame, ip, now);
      && (cont <==> IsHandshake(frame))
      && (sock in r.verified <==> IsHandshake(frame))
      && r.verified - {sock} == st.verified
      && r.log == st.log && r.disk == st.disk
  {
  }

  /** A successful handshake with every socket healthy: the new session is
      answered "ok" and then every registered socket, itself and unverified
      ones included, is told the registry size. */
  lemma HandshakeAccepted(st: State, sock: SockId, frame: Frame, ip: string, now: string)
    requires Distinct(st.clients) && sock !in st.verified && IsHandshake(frame)
    requires !Fails(st, sock) && forall c :: c in st.clients ==> !Fails(st, c)
    ensures var (r, cont) := Step(V15, st, sock, frame, ip, now);
      && cont && r.verified == st.verified + {sock}
      && r.clients == st.clients && r.log == st.log
      && forall s: SockId :: Sent(r, s) == Sent(st, s)
           + (if s == sock then [VerifyOk] else [])
           + (if s in st.clients then [OnlineUsers(|st.clients|)] else [])
  {
    var answered := Send(st, VerifyOk, sock);
    SendFacts(st, VerifyOk, sock);
    var marked := answered.(verified := answered.verified + {sock});
    PresenceHealthy(marked);
    forall s: SockId
      ensures Sent(Presence(marked), s) == Sent(st, s)
           + (if s == sock then [VerifyOk] else [])
           + (if s in st.clients then [OnlineUsers(|st.clients|)] else [])
    {
      assert Sent(marked, s) == Sent(answered, s);
    }
  }

  /** Any other first frame: the session ends, nobody but the sender hears
      of it, and the sender gets the failure notice unless its socket is
      already dead, in which case it is deregistered and closed. */
  lemma HandshakeRejected(st: State, sock: SockId, frame: Frame, ip: string, now: string)
    requires Distinct(st.clients) && sock !in st.verified && !IsHandshake(frame)
    ensures var (r, cont) := Step(V15, st, sock, frame, ip, now);
      && !cont && r.verified == st.verified && r.log == st.log && r.disk == st.disk
      && (forall s: SockId :: s != sock ==> Sent(r, s) == Sent(st, s))
      && (!Fails(st, sock) ==>
            r.clients == st.clients && Sent(r, sock) == Sent(st, sock) + [VerifyFail(RejectNotice(frame))])
      && (Fails(st, sock) ==> sock !in r.clients && sock in r.closed && Sent(r, sock) == Sent(st, sock))
  {
    SendFacts(st, VerifyFail(RejectNotice(frame)), sock);
  }

  /** A frame read from a stream depends only on the chunks it consumes. */
  lemma {:induction false} ReadPrefix(chunks: seq<Chunk>, pos: nat, m: nat)
    requires pos <= |chunks| && ReadSpec(chunks, pos).1 <= m <= |chunks|
    ensures ReadSpec(chunks[..m], pos) == ReadSpec(chunks, pos)
    decreases |chunks| - pos
  {
    var cut := chunks[..m];
    if pos < |chunks| {
      assert cut[pos] == chunks[pos];
      if |chunks[pos]| != 0 && !Short(chunks[pos]) {
        ReadPrefix(chunks, pos + 1, m);
      }
    }
  }

  /** A v1.5 session whose first frame is not the handshake is over after
      that frame: it is answered with the failure notice and ended, the
      transcript is untouched, and whatever the client sends afterwards
      changes nothing. */
  lemma RejectedSessionEnds(st: State, sock: SockId, chunks: seq<Chunk>,
                            decode: seq<byte> -> Option<Frame>, ip: string, clock: nat -> string)
    requires sock !in st.verified && sock !in st.closed
    requires var read := ReadSpec(chunks, 0);
      read.0 != [] && decode(read.0).Some? && !IsHandshake(decode(read.0).value)
    ensures var read := ReadSpec(chunks, 0);
      var r := Run(V15, st, sock, chunks, 0, decode, ip, clock, 0);
      && r == EndOf(V15, Send(st, VerifyFail(RejectNotice(decode(read.0).value)), sock), sock)
      && r.log == st.log && r.verified == st.verified
      && r == Run(V15, st, sock, chunks[..read.1], 0, decode, ip, clock, 0)
  {
    ReadPrefix(chunks, 0, ReadSpec(chunks, 0).1);
  }

  /** A verified v1.5 session asking for history gets the whole current
      transcript, and only it: registry, transcript and every other outbox
      stay as they were, and a failed send is swallowed without
      deregistering anyone. */
  lemma HistoryReplayed(st: State, sock: SockId, frame: Frame, ip: string, now: string)
    requires sock in st.verified && frame.command == Some(HistoryCommand)
    ensures var (r, cont) := Step(V15, st, sock, frame, ip, now);
      && cont && r.clients == st.clients && r.log == st.log && r.closed == st.closed
      && (forall s: SockId :: s != sock ==> Sent(r, s) == Sent(st, s))
      && Sent(r, sock) == Sent(st, sock) + (if Fails(st, sock) then [] else [History(st.log)])
  {
    ReplayHistoryFacts(st, sock);
  }

  /** A chat frame (every frame in 1.2, a verified non-history frame in 1.5)
      is stamped with the peer address and, if it has none, the server time;
      it never goes back to its sender and reaches each other socket at most
      once; and the transcript gains exactly one entry at its end when the
      frame has a username and a message, and none otherwise, in which case
      the session ends. */
  lemma ChatRelayed(ver: Version, st: State, sock: SockId, frame: Frame, ip: string, now: string)
    requires Distinct(st.clients)
    requires ver == V12 || (sock in st.verified && frame.command != Some(HistoryCommand))
    ensures var (r, cont) := Step(ver, st, sock, frame, ip, now);
      var g := Stamp(frame, ip, now);
      && g.ip == Some(ip)
      && g.time == (if frame.time.Some? then frame.time else Some(now))
      && g.username == frame.username && g.message == frame.message
      && Sent(r, sock) == Sent(st, sock)
      && (forall s: SockId :: Sent(r, s) == Sent(st, s) || Sent(r, s) == Sent(st, s) + [Chat(g)])
      && (cont <==> frame.username.Some? && frame.message.Some?)
      && r.log == st.log + (if cont then [Msg(frame.username.value, frame.message.value, ip, g.time.value)] else [])
      && r.verified == st.verified
  {
    var g := Stamp(frame, ip, now);
    StampFacts(frame, ip, now);
    DeliverFacts(st, g, sock);
  }

  /** The end of a session in either release: the socket is off the
      registry and closed, nobody new is registered, the transcript is
      unchanged and the socket itself is sent nothing more. Release 1.2
      sends nobody anything. */
  lemma EndFacts(ver: Version, st: State, sock: SockId)
    requires Distinct(st.clients)
    ensures var r := EndOf(ver, st, sock);
      && sock !in r.clients && sock in r.closed
      && (forall x :: x in r.clients ==> x in st.clients)
      && r.log == st.log && r.disk == st.disk && r.verified == st.verified
      && Sent(r, sock) == Sent(st, sock)
      && (ver == V12 ==> r.outbox == st.outbox && r.clients == Remove(st.clients, sock))
  {
    var gone := st.(clients := Remove(st.clients, sock));
    RemoveDistinct(st.clients, sock);
    if ver == V15 && sock in st.clients {
      PresenceSkips(gone, sock);
    }
  }

  /** The presence update of an unregistered socket's departure: nobody new
      is registered and the departed socket is sent nothing. */
  lemma PresenceSkips(st: State, sock: SockId)
    requires sock !in st.clients
    ensures var r := Presence(st);
      && (forall x :: x in r.clients ==> x in st.clients)
      && Sent(r, sock) == Sent(st, sock)
  {
    var r := Presence(st);
    FanOutOnlyPending(st, OnlineUsers(|st.clients|), None, 0, sock);
    forall x | x in r.clients ensures x in st.clients {
      assert x in multiset(r.clients);
    }
  }

  /** From a list without repeats, Remove takes out x and only x. */
  lemma RemoveMembership(xs: seq<SockId>, x: SockId, y: SockId)
    requires Distinct(xs)
    ensures y in Remove(xs, x) <==> y in xs && y != x
  {
    RemoveDistinct(xs, x);
    if y in xs && y != x {
      assert multiset(Remove(xs, x))[y] == multiset(xs)[y];
    }
  }

  /** When a registered v1.5 session ends and the others are healthy, each
      remaining socket is told the new, smaller count. */
  lemma EndNotifies(st: State, sock: SockId)
    requires Distinct(st.clients) && sock in st.clients
    requires forall c :: c in st.clients && c != sock ==> !Fails(st, c)
    ensures var r := EndOf(V15, st, sock);
      && r.clients == Remove(st.clients, sock)
      && forall s: SockId :: Sent(r, s) == Sent(st, s)
           + (if s in st.clients && s != sock then [OnlineUsers(|st.clients| - 1)] else [])
  {
    DepartureHealthy(st, sock);
    EndNotifiesOne(st, sock, sock);
    forall s: SockId
      ensures Sent(EndOf(V15, st, sock), s) == Sent(st, s)
           + (if s in st.clients && s != sock then [OnlineUsers(|st.clients| - 1)] else [])
    {
      EndNotifiesOne(st, sock, s);
    }
  }

  /** EndNotifies for one socket s. */
  lemma EndNotifiesOne(st: State, sock: SockId, s: SockId)
    requires Distinct(st.clients) && sock in st.clients
    requires var gone := st.(clients := Remove(st.clients, sock));
      && Distinct(gone.clients) && |gone.clients| == |st.clients| - 1
      && forall c :: c in gone.clients ==> !Fails(gone, c)
    ensures var r := EndOf(V15, st, sock);
      && r.clients == Remove(st.clients, sock)
      && Sent(r, s) == Sent(st, s) + (if s in st.clients && s != sock then [OnlineUsers(|st.clients| - 1)] else [])
  {
    var gone := st.(clients := Remove(st.clients, sock));
    PresenceHealthyAt(gone, s);
    RemoveMembership(st.clients, sock, s);
  }

  /** Taking a registered socket off a registry whose other members are
      healthy leaves a registry, one shorter, of healthy distinct sockets. */
  lemma DepartureHealthy(st: State, sock: SockId)
    requires Distinct(st.clients) && sock in st.clients
    requires forall c :: c in st.clients && c != sock ==> !Fails(st, c)
    ensures var gone := st.(clients := Remove(st.clients, sock));
      && Distinct(gone.clients) && |gone.clients| == |st.clients| - 1
      && forall c :: c in gone.clients ==> !Fails(gone, c)
  {
    RemoveDistinct(st.clients, sock);
    RemoveShift(st.clients, sock, IndexOf(st.clients, sock));
  }

  /** Every frame keeps the server invariant, and the transcript only ever
      gains one entry at its end. */
  lemma StepKeepsInv(ver: Version, st: State, sock: SockId, frame: Frame, ip: string, now: string, n: nat)
    requires Inv(st, n) && sock < n
    ensures var r := Step(ver, st, sock, frame, ip, now).0;
      Inv(r, n) && st.log <= r.log && |r.log| <= |st.log| + 1
  {
    if ver == V15 && sock !in st.verified {
      HandshakeKeepsInv(st, sock, frame, ip, now, n);
    } else if ver == V15 && frame.command == Some(HistoryCommand) {
      ReplayHistoryKeepsInv(st, sock, n);
    } else {
      DeliverKeepsInv(st, Stamp(frame, ip, now), sock, n);
    }
  }

  /** StepKeepsInv for a frame of an unverified v1.5 session. */
  lemma HandshakeKeepsInv(st: State, sock: SockId, frame: Frame, ip: string, now: string, n: nat)
    requires Inv(st, n) && sock < n && sock !in st.verified
    ensures var r := Step(V15, st, sock, frame, ip, now).0;
      Inv(r, n) && r.log == st.log
  {
    if IsHandshake(frame) {
      SendKeepsInv(st, VerifyOk, sock, n);
      var answered := Send(st, VerifyOk, sock);
      var marked := answered.(verified := answered.verified + {sock});
      assert Inv(marked, n);
      FanOutKeepsInv(marked, OnlineUsers(|marked.clients|), None, 0, n);
    } else {
      SendKeepsInv(st, VerifyFail(RejectNotice(frame)), sock, n);
    }
  }

  /** The end of a session keeps the server invariant. */
  lemma EndKeepsInv(ver: Version, st: State, sock: SockId, n: nat)
    requires Inv(st, n) && sock < n
    ensures Inv(EndOf(ver, st, sock), n)
  {
    var gone := st.(clients := Remove(st.clients, sock));
    RemoveDistinct(st.clients, sock);
    assert Inv(gone, n);
    if ver == V15 && sock in st.clients {
      FanOutKeepsInv(gone, OnlineUsers(|gone.clients|), None, 0, n);
      PresenceSkips(gone, sock);
    }
  }

  /** Every session, however its input goes, ends with its socket off the
      registry and closed; the invariant holds throughout, and the
      transcript is only appended to, never rewritten. */
  lemma {:induction false} RunFacts(ver: Version, st: State, sock: SockId, chunks: seq<Chunk>, pos: nat,
                                    decode: seq<byte> -> Option<Frame>, ip: string, clock: nat -> string,
                                    k: nat, n: nat)
    requires Inv(st, n) && sock < n && pos <= |chunks|
    ensures var r := Run(ver, st, sock, chunks, pos, decode, ip, clock, k);
      && Inv(r, n) && sock !in r.clients && sock in r.closed && st.log <= r.log
    decreases |chunks| - pos
  {
    var read := ReadSpec(chunks, pos);
    if sock in st.closed || read.0 == [] || decode(read.0).None? {
      EndFacts(ver, st, sock);
      EndKeepsInv(ver, st, sock, n);
    } else {
      var stepped := Step(ver, st, sock, decode(read.0).value, ip, clock(k));
      StepKeepsInv(ver, st, sock, decode(read.0).value, ip, clock(k), n);
      if stepped.1 {
        RunFacts(ver, stepped.0, sock, chunks, read.1, decode, ip, clock, k + 1, n);
      } else {
        EndFacts(ver, stepped.0, sock);
        EndKeepsInv(ver, stepped.0, sock, n);
      }
    }
  }

  /** Some position of x in xs. */
  function IndexOf(xs: seq<SockId>, x: SockId): (i: nat)
    requires x in xs
    ensures i < |xs| && xs[i] == x
  {
    if xs[0] == x then 0 else 1 + IndexOf(xs[1..], x)
  }

  /** Ending a session twice is the same as ending it once: deregistering
      an absent socket is a no-op, and no second presence update is sent. */
  lemma EndIdempotent(ver: Version, st: State, sock: SockId)
    requires Distinct(st.clients)
    ensures EndOf(ver, EndOf(ver, st, sock), sock) == EndOf(ver, st, sock)
  {
    EndFacts(ver, st, sock);
  }
}
