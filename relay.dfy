/** The server's shared state as a value, and what each shared operation does
    to it: sending to one socket, fanning a frame out over the live client
    list, logging a chat message and replaying the transcript. The class in
    Runtime holds the same fields and its methods are proved to follow these
    functions. */
module Relay {
  import opened Wire

  /** clients:  the global `clients` list, in accept order
      log:      the in-memory transcript `MESSAGE_LOG`
      disk:     the transcript file
      verified: sockets whose v1.5 handler has passed the handshake
      outbox:   every frame each socket has been sent so far
      broken:   sockets whose peer is gone, so that a send to them raises
      closed:   sockets the server has closed */
  datatype State = State(
    clients: seq<SockId>,
    log: seq<Msg>,
    disk: Stored,
    verified: set<SockId>,
    outbox: map<SockId, seq<Outbound>>,
    broken: set<SockId>,
    closed: set<SockId>)

  /** Frames socket s has been sent. */
  function Sent(st: State, s: SockId): seq<Outbound> {
    if s in st.outbox then st.outbox[s] else []
  }

  /** A send to s raises: its peer is gone or the server closed it already. */
  predicate Fails(st: State, s: SockId) {
    s in st.broken || s in st.closed
  }

  /** No socket is registered twice. */
  ghost predicate Distinct(xs: seq<SockId>) {
    forall x :: multiset(xs)[x] <= 1
  }

  lemma DistinctAt(xs: seq<SockId>, i: nat)
    requires Distinct(xs) && i < |xs|
    ensures xs[i] !in xs[i + 1..]
  {
    assert xs == xs[..i + 1] + xs[i + 1..];
    assert xs[..i + 1][i] == xs[i];
    assert multiset(xs)[xs[i]] == multiset(xs[..i + 1])[xs[i]] + multiset(xs[i + 1..])[xs[i]];
  }

  /** `list.remove`: drops the first occurrence of x, and nothing if x is
      absent (the callers test membership first). */
  function Remove(xs: seq<SockId>, x: SockId): (r: seq<SockId>)
    ensures multiset(r) == multiset(xs) - multiset{x}
    ensures |r| <= |xs|
    ensures x !in xs ==> r == xs
  {
    if xs == [] then []
    else if xs[0] == x then
      assert xs == [xs[0]] + xs[1..];
      xs[1..]
    else
      assert xs == [xs[0]] + xs[1..];
      [xs[0]] + Remove(xs[1..], x)
  }

  /** `list.remove` takes out the first occurrence of x and keeps every
      other element in its order. */
  lemma {:induction false} RemoveFirst(xs: seq<SockId>, x: SockId, i: nat)
    requires i < |xs| && xs[i] == x && x !in xs[..i]
    ensures Remove(xs, x) == xs[..i] + xs[i + 1..]
  {
    if i > 0 {
      var ys := xs[1..];
      assert xs[0] == xs[..i][0];
      assert xs[0] != x;
      assert ys[..i - 1] == xs[..i][1..];
      RemoveFirst(ys, x, i - 1);
      assert Remove(xs, x) == [xs[0]] + Remove(ys, x);
      assert xs[..i] == [xs[0]] + ys[..i - 1];
      assert xs[i + 1..] == ys[i..];
    }
  }

  /** Removing the element at the loop index shifts everything after it one
      place to the left. */
  lemma {:induction false} RemoveShift(xs: seq<SockId>, x: SockId, i: nat)
    requires i < |xs| && xs[i] == x
    ensures |Remove(xs, x)| == |xs| - 1
    ensures Remove(xs, x)[i..] == xs[i + 1..]
  {
    if xs[0] != x {
      RemoveShift(xs[1..], x, i - 1);
      assert xs[1..][i - 1 + 1..] == xs[i + 1..];
    }
  }

  /** `send_to_client`: the frame reaches s, or the send raises and s is
      deregistered and closed. */
  function Send(st: State, f: Outbound, s: SockId): (r: State)
    ensures r.log == st.log && r.disk == st.disk && r.verified == st.verified && r.broken == st.broken
    ensures |r.clients| <= |st.clients|
    ensures multiset(r.clients) <= multiset(st.clients)
  {
    if Fails(st, s) then
      st.(clients := Remove(st.clients, s), closed := st.closed + {s})
    else
      st.(outbox := st.outbox[s := Sent(st, s) + [f]])
  }

  /** A failed send delivers nothing, closes the recipient and takes it off
      the registry; a successful one leaves the registry and every other
      outbox alone and hands the recipient exactly the frame. */
  lemma SendFacts(st: State, f: Outbound, s: SockId)
    requires Distinct(st.clients)
    ensures var r := Send(st, f, s);
      && (Fails(st, s) ==>
        && s !in r.clients && s in r.closed && r.outbox == st.outbox
        && (forall x :: x in r.clients <==> x in st.clients && x != s))
      && (!Fails(st, s) ==>
        && r.clients == st.clients && r.closed == st.closed
        && Sent(r, s) == Sent(st, s) + [f]
        && (forall x: SockId :: x != s ==> Sent(r, x) == Sent(st, x)))
  {
    var r := Send(st, f, s);
    if Fails(st, s) {
      assert multiset(st.clients)[s] <= 1;
      forall x ensures x in r.clients <==> x in st.clients && x != s {
        assert x in r.clients <==> x in multiset(r.clients);
        assert x in st.clients <==> x in multiset(st.clients);
      }
    }
  }

  /** The suffix of the list a Python for-loop has not reached yet when its
      internal index is i. */
  function Pending(xs: seq<SockId>, i: nat): seq<SockId> {
    if i <= |xs| then xs[i..] else []
  }

  /** One turn of the loop body at index i: the client there is sent the
      frame unless it is the excepted one. */
  function Visit(st: State, f: Outbound, except: Option<SockId>, i: nat): (r: State)
    requires i < |st.clients|
    ensures r.log == st.log && r.disk == st.disk && r.verified == st.verified && r.broken == st.broken
    ensures |r.clients| <= |st.clients|
    ensures multiset(r.clients) <= multiset(st.clients)
  {
    var c := st.clients[i];
    if except == Some(c) then st else Send(st, f, c)
  }

  /** `for client in clients: ... send_to_client(f, client)` over the LIVE
      list, skipping `except`: Python keeps an index into the list, so when a
      failed send removes the current client, the next one slides into the
      slot already visited and is passed over. */
  function FanOut(st: State, f: Outbound, except: Option<SockId>, i: nat): (r: State)
    ensures r.log == st.log && r.disk == st.disk && r.verified == st.verified && r.broken == st.broken
    ensures multiset(r.clients) <= multiset(st.clients)
    decreases |st.clients| - i
  {
    if i >= |st.clients| then st
    else FanOut(Visit(st, f, except, i), f, except, i + 1)
  }

  /** `broadcast_online_users`: the current registry size, sent to every
      registered socket, unverified ones included. */
  function Presence(st: State): State {
    FanOut(st, OnlineUsers(|st.clients|), None, 0)
  }

  /** The transcript entry `save_message_to_file` builds from a frame; None
      when a key is missing and the indexing raises. */
  function Record(f: Frame): Option<Msg> {
    if f.username.Some? && f.message.Some? && f.ip.Some? && f.time.Some? then
      Some(Msg(f.username.value, f.message.value, f.ip.value, f.time.value))
    else None
  }

  /** `save_message_to_file`: append one entry and rewrite the file with the
      whole transcript. */
  function Save(st: State, m: Msg): State {
    st.(log := st.log + [m], disk := Saved(st.log + [m]))
  }

  /** `broadcast`: fan the frame out to everyone but its origin, then log it.
      The flag is false when logging raised on a missing key. */
  function Deliver(st: State, f: Frame, origin: SockId): (State, bool) {
    var sent := FanOut(st, Chat(f), Some(origin), 0);
    match Record(f)
    case None => (sent, false)
    case Some(m) => (Save(sent, m), true)
  }

  /** `send_chat_history`: the whole transcript to one socket; a failed send
      is swallowed and leaves the registry alone. */
  function ReplayHistory(st: State, s: SockId): State {
    if Fails(st, s) then st
    else st.(outbox := st.outbox[s := Sent(st, s) + [History(st.log)]])
  }

  /** What the handler does to a chat frame before broadcasting it: the peer
      address replaces any "ip", and "time" is filled in only when absent. */
  function Stamp(f: Frame, ip: string, now: string): Frame {
    f.(ip := Some(ip), time := if f.time.Some? then f.time else Some(now))
  }

  /** The startup load of the transcript file. */
  function LoadLog(d: Stored): seq<Msg> {
    if d.Saved? then d.entries else []
  }

  /** The invariant of the server state when socket ids below n have been
      handed out: no socket is registered twice, a closed socket is never
      registered, every socket mentioned was accepted, and reloading the
      transcript file would give back exactly the in-memory transcript. */
  ghost predicate Inv(st: State, n: nat) {
    && Distinct(st.clients)
    && (forall s :: s in st.clients ==> s < n && s !in st.closed)
    && (forall s :: s in st.closed ==> s < n)
    && (forall s :: s in st.outbox ==> s < n)
    && (forall s :: s in st.verified ==> s < n)
    && LoadLog(st.disk) == st.log
  }

  // ---------------------------------------------------------------------
  // Properties of sending and fan-out

  /** Removing from a list without repeats leaves one without repeats, no
      longer holding x, and holding nothing new. */
  lemma RemoveDistinct(xs: seq<SockId>, x: SockId)
    requires Distinct(xs)
    ensures Distinct(Remove(xs, x))
    ensures x !in Remove(xs, x)
    ensures forall y :: y in Remove(xs, x) ==> y in xs
  {
    var r := Remove(xs, x);
    assert multiset(xs)[x] <= 1;
    forall y ensures multiset(r)[y] <= 1 {
      assert multiset(r)[y] <= multiset(xs)[y];
    }
    forall y | y in r ensures y in xs {
      assert y in multiset(r);
    }
  }

  lemma SendKeepsInv(st: State, f: Outbound, s: SockId, n: nat)
    requires Inv(st, n) && s < n
    ensures Inv(Send(st, f, s), n)
  {
    if Fails(st, s) {
      RemoveDistinct(st.clients, s);
    }
  }

  lemma VisitKeepsInv(st: State, f: Outbound, except: Option<SockId>, i: nat, n: nat)
    requires Inv(st, n) && i < |st.clients|
    ensures Inv(Visit(st, f, except, i), n)
  {
    var c := st.clients[i];
    assert c in st.clients;
    if except != Some(c) {
      SendKeepsInv(st, f, c, n);
    }
  }

  lemma {:induction false} FanOutKeepsInv(st: State, f: Outbound, except: Option<SockId>, i: nat, n: nat)
    requires Inv(st, n)
    ensures Inv(FanOut(st, f, except, i), n)
    decreases |st.clients| - i
  {
    if i < |st.clients| {
      VisitKeepsInv(st, f, except, i, n);
      FanOutKeepsInv(Visit(st, f, except, i), f, except, i + 1, n);
    }
  }

  /** After one turn the sockets still ahead of the index are among those
      that were ahead before it. */
  lemma VisitPending(st: State, f: Outbound, except: Option<SockId>, i: nat, s: SockId)
    requires i < |st.clients| && s in Pending(Visit(st, f, except, i).clients, i + 1)
    ensures s in Pending(st.clients, i)
  {
    var c := st.clients[i];
    var next := Visit(st, f, except, i);
    var k :| i + 1 <= k < |next.clients| && next.clients[k] == s;
    if except != Some(c) && Fails(st, c) {
      RemoveShift(st.clients, c, i);
      assert next.clients[k] == next.clients[i..][k - i] == st.clients[i + 1..][k - i];
      assert st.clients[k + 1] == st.clients[i..][k + 1 - i];
    } else {
      assert next.clients == st.clients;
      assert st.clients[k] == st.clients[i..][k - i];
    }
  }

  /** One turn writes only to the client at the index, and to it exactly
      the frame, unless it is excepted or its send fails. */
  lemma VisitSent(st: State, f: Outbound, except: Option<SockId>, i: nat, s: SockId)
    requires i < |st.clients|
    ensures var c := st.clients[i];
      Sent(Visit(st, f, except, i), s) ==
        Sent(st, s) + (if s == c && except != Some(c) && !Fails(st, c) then [f] else [])
  {
  }

  /** Fan-out only ever writes to sockets still ahead of the loop index and
      never to the excepted one: in particular a chat frame never goes back
      to its origin, and nobody outside the registry receives it. */
  lemma {:induction false} FanOutOnlyPending(st: State, f: Outbound, except: Option<SockId>, i: nat, s: SockId)
    requires s !in Pending(st.clients, i) || except == Some(s)
    ensures Sent(FanOut(st, f, except, i), s) == Sent(st, s)
    decreases |st.clients| - i
  {
    if i < |st.clients| {
      var next := Visit(st, f, except, i);
      assert st.clients[i] == st.clients[i..][0];
      VisitSent(st, f, except, i, s);
      if s in Pending(next.clients, i + 1) {
        VisitPending(st, f, except, i, s);
      }
      FanOutOnlyPending(next, f, except, i + 1, s);
    }
  }

  /** One turn keeps the registry free of repeats. */
  lemma VisitKeepsDistinct(st: State, f: Outbound, except: Option<SockId>, i: nat)
    requires Distinct(st.clients) && i < |st.clients|
    ensures Distinct(Visit(st, f, except, i).clients)
  {
  }

  /** With no socket registered twice, a fan-out hands each socket at most
      one copy of the frame, whatever sends fail along the way. */
  lemma {:induction false} FanOutAtMostOnce(st: State, f: Outbound, except: Option<SockId>, i: nat, s: SockId)
    requires Distinct(st.clients)
    ensures var r := FanOut(st, f, except, i);
      Sent(r, s) == Sent(st, s) || Sent(r, s) == Sent(st, s) + [f]
    decreases |st.clients| - i
  {
    if i < |st.clients| {
      var c := st.clients[i];
      var next := Visit(st, f, except, i);
      VisitSent(st, f, except, i, s);
      if c == s && except != Some(c) && !Fails(st, c) {
        DeliveredHere(st, f, except, i);
      } else {
        VisitKeepsDistinct(st, f, except, i);
        FanOutAtMostOnce(next, f, except, i + 1, s);
      }
    }
  }

  /** Once the client at the index has been sent the frame, the rest of the
      fan-out sends it nothing more. */
  lemma DeliveredHere(st: State, f: Outbound, except: Option<SockId>, i: nat)
    requires Distinct(st.clients) && i < |st.clients| && !Fails(st, st.clients[i])
    ensures var next := Visit(st, f, except, i);
      Sent(FanOut(next, f, except, i + 1), st.clients[i]) == Sent(next, st.clients[i])
  {
    var next := Visit(st, f, except, i);
    DistinctAt(st.clients, i);
    assert next.clients == st.clients;
    FanOutOnlyPending(next, f, except, i + 1, st.clients[i]);
  }

  /** When every socket ahead of the loop index accepts the send, the
      registry is unchanged and exactly the pending sockets other than the
      excepted one receive the frame, once each. */
  lemma {:induction false} FanOutHealthy(st: State, f: Outbound, except: Option<SockId>, i: nat, s: SockId)
    requires i <= |st.clients| && Distinct(st.clients)
    requires forall j :: i <= j < |st.clients| ==> !Fails(st, st.clients[j])
    ensures var r := FanOut(st, f, except, i);
      && r.clients == st.clients && r.closed == st.closed
      && Sent(r, s) == Sent(st, s) + (if s in st.clients[i..] && except != Some(s) then [f] else [])
    decreases |st.clients| - i
  {
    if i < |st.clients| {
      var next := Visit(st, f, except, i);
      VisitHealthy(st, f, except, i, s);
      FanOutHealthy(next, f, except, i + 1, s);
    } else {
      assert st.clients[i..] == [];
    }
  }

  /** A turn on a healthy client leaves the registry as it was, keeps every
      later client healthy, and hands s the frame for this turn exactly when
      s is the client here and not excepted. */
  lemma VisitHealthy(st: State, f: Outbound, except: Option<SockId>, i: nat, s: SockId)
    requires i < |st.clients| && Distinct(st.clients)
    requires forall j :: i <= j < |st.clients| ==> !Fails(st, st.clients[j])
    ensures var next := Visit(st, f, except, i);
      && next.clients == st.clients && next.closed == st.closed && next.broken == st.broken
      && (forall j :: i + 1 <= j < |next.clients| ==> !Fails(next, next.clients[j]))
      && Sent(next, s) + (if s in st.clients[i + 1..] && except != Some(s) then [f] else [])
         == Sent(st, s) + (if s in st.clients[i..] && except != Some(s) then [f] else [])
  {
    assert !Fails(st, st.clients[i]);
    VisitSent(st, f, except, i, s);
    HealthyTurn(st.clients, i, s);
  }

  /** The pending suffix at i is the client at i followed by the pending
      suffix at i + 1, which does not hold it again. */
  lemma HealthyTurn(xs: seq<SockId>, i: nat, s: SockId)
    requires Distinct(xs) && i < |xs|
    ensures s == xs[i] ==> s in xs[i..] && s !in xs[i + 1..]
    ensures s != xs[i] ==> (s in xs[i..] <==> s in xs[i + 1..])
  {
    assert xs[i..] == [xs[i]] + xs[i + 1..];
    DistinctAt(xs, i);
  }

  /** The consequence of iterating over the live list: with clients [1, 2, 3],
      origin 3 and socket 1 gone, socket 1 is dropped, and socket 2, which is
      healthy and still registered, never receives the frame. */
  lemma FanOutSkipsSuccessor(f: Outbound)
    ensures var st := State([1, 2, 3], [], Missing, {}, map[], {1}, {});
      var r := FanOut(st, f, Some(3), 0);
      && r.clients == [2, 3] && 1 in r.closed
      && Sent(r, 2) == [] && !Fails(st, 2)
  {
    var st := State([1, 2, 3], [], Missing, {}, map[], {1}, {});
    var st1 := Send(st, f, 1);
    assert [1, 2, 3][1..] == [2, 3];
    assert st1.clients == Remove([1, 2, 3], 1) == [2, 3];
    assert Visit(st, f, Some(3), 0) == st1;
    assert FanOut(st, f, Some(3), 0) == FanOut(st1, f, Some(3), 1);
    assert Visit(st1, f, Some(3), 1) == st1;
    assert FanOut(st1, f, Some(3), 1) == FanOut(st1, f, Some(3), 2) == st1;
  }

  // ---------------------------------------------------------------------
  // Properties of broadcasting, logging and history replay

  /** After a save the file reloads to the transcript, which is the old one
      with the entry at its end. */
  lemma SaveReloads(st: State, m: Msg)
    ensures var r := Save(st, m);
      && LoadLog(r.disk) == r.log
      && |r.log| == |st.log| + 1 && r.log[..|st.log|] == st.log && r.log[|st.log|] == m
      && r.clients == st.clients && r.outbox == st.outbox && r.closed == st.closed
  {
  }

  /** A stamped frame always carries an address and a time, so it is logged
      exactly when it has a username and a message, and the entry holds the
      frame's own fields. */
  lemma StampedRecord(f: Frame, ip: string, now: string)
    ensures var g := Stamp(f, ip, now);
      && (Record(g).Some? <==> f.username.Some? && f.message.Some?)
      && (Record(g).Some? ==>
            Record(g).value == Msg(f.username.value, f.message.value, ip, g.time.value))
  {
  }

  lemma SaveKeepsInv(st: State, m: Msg, n: nat)
    requires Inv(st, n)
    ensures Inv(Save(st, m), n)
  {
  }

  lemma ReplayHistoryKeepsInv(st: State, s: SockId, n: nat)
    requires Inv(st, n) && s < n
    ensures Inv(ReplayHistory(st, s), n)
  {
  }

  /** A broadcast keeps the invariant and can only append one entry to the
      transcript. */
  lemma DeliverKeepsInv(st: State, f: Frame, origin: SockId, n: nat)
    requires Inv(st, n)
    ensures var r := Deliver(st, f, origin).0;
      Inv(r, n) && st.log <= r.log && |r.log| <= |st.log| + 1
  {
    var sent := FanOut(st, Chat(f), Some(origin), 0);
    FanOutKeepsInv(st, Chat(f), Some(origin), 0, n);
    if Record(f).Some? {
      SaveKeepsInv(sent, Record(f).value, n);
    }
  }

  /** `broadcast` never echoes to its origin, hands every other socket at
      most one copy, logs exactly one entry at the end of the transcript when
      the frame has a username and a message (and nothing otherwise), and
      leaves the transcript file equal to the transcript. */
  lemma DeliverFacts(st: State, f: Frame, origin: SockId)
    requires Distinct(st.clients) && f.ip.Some? && f.time.Some?
    ensures var (r, saved) := Deliver(st, f, origin);
      && Sent(r, origin) == Sent(st, origin)
      && (forall s: SockId :: Sent(r, s) == Sent(st, s) || Sent(r, s) == Sent(st, s) + [Chat(f)])
      && (saved <==> f.username.Some? && f.message.Some?)
      && r.log == st.log + (if saved then [Msg(f.username.value, f.message.value, f.ip.value, f.time.value)] else [])
      && r.verified == st.verified
      && (saved ==> r.disk == Saved(r.log))
      && (!saved ==> r.disk == st.disk)
  {
    FanOutOnlyPending(st, Chat(f), Some(origin), 0, origin);
    forall s ensures var r := Deliver(st, f, origin).0;
      Sent(r, s) == Sent(st, s) || Sent(r, s) == Sent(st, s) + [Chat(f)]
    {
      FanOutAtMostOnce(st, Chat(f), Some(origin), 0, s);
    }
  }

  /** With every registered socket healthy, a broadcast reaches exactly the
      registered sockets other than its origin, once each. */
  lemma DeliverHealthy(st: State, f: Frame, origin: SockId)
    requires Distinct(st.clients)
    requires forall c :: c in st.clients ==> !Fails(st, c)
    ensures var r := Deliver(st, f, origin).0;
      && r.clients == st.clients
      && forall s: SockId :: Sent(r, s) == Sent(st, s) + (if s in st.clients && s != origin then [Chat(f)] else [])
  {
    assert st.clients[0..] == st.clients;
    FanOutHealthy(st, Chat(f), Some(origin), 0, origin);
    forall s: SockId
      ensures Sent(Deliver(st, f, origin).0, s) == Sent(st, s) + (if s in st.clients && s != origin then [Chat(f)] else [])
    {
      FanOutHealthy(st, Chat(f), Some(origin), 0, s);
    }
  }

  /** With every registered socket healthy, a presence update hands each of
      them, and nobody else, the registry size. */
  lemma PresenceHealthy(st: State)
    requires Distinct(st.clients)
    requires forall c :: c in st.clients ==> !Fails(st, c)
    ensures var r := Presence(st);
      && r.clients == st.clients && r.log == st.log
      && forall s: SockId :: Sent(r, s) == Sent(st, s) + (if s in st.clients then [OnlineUsers(|st.clients|)] else [])
  {
    PresenceHealthyAt(st, 0);
    forall s: SockId
      ensures Sent(Presence(st), s) == Sent(st, s) + (if s in st.clients then [OnlineUsers(|st.clients|)] else [])
    {
      PresenceHealthyAt(st, s);
    }
  }

  /** PresenceHealthy for the one socket s. */
  lemma PresenceHealthyAt(st: State, s: SockId)
    requires Distinct(st.clients)
    requires forall c :: c in st.clients ==> !Fails(st, c)
    ensures var r := Presence(st);
      && r.clients == st.clients && r.log == st.log
      && Sent(r, s) == Sent(st, s) + (if s in st.clients then [OnlineUsers(|st.clients|)] else [])
  {
    assert st.clients[0..] == st.clients;
    FanOutHealthy(st, OnlineUsers(|st.clients|), None, 0, s);
  }

  /** History replay touches only the requester's outbox: it receives the
      whole current transcript unless its send fails, and neither the
      registry nor the transcript changes either way. */
  lemma ReplayHistoryFacts(st: State, s: SockId)
    ensures var r := ReplayHistory(st, s);
      && r.clients == st.clients && r.log == st.log && r.closed == st.closed
      && (forall x: SockId :: x != s ==> Sent(r, x) == Sent(st, x))
      && Sent(r, s) == Sent(st, s) + (if Fails(st, s) then [] else [History(st.log)])
  {
  }

  /** The stamped frame carries the server-side peer address, keeps a
      client-supplied time and otherwise gets the server's, and keeps every
      other field. */
  lemma StampFacts(f: Frame, ip: string, now: string)
    ensures var g := Stamp(f, ip, now);
      && g.ip == Some(ip) && g.time.Some?
      && (f.time.Some? ==> g.time == f.time)
      && (f.time.None? ==> g.time == Some(now))
      && g.username == f.username && g.message == f.message
      && g.command == f.command && g.payload == f.payload
  {
  }
}
