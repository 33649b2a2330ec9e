/** The server's global mutable state: the `clients` list, `MESSAGE_LOG`,
    the transcript file and what every socket has been sent. Each method is
    one function of the source and is proved to act on the fields exactly
    as the matching function of Relay acts on a State. */
module Runtime {
  import opened Wire
  import opened Relay

  class Server {
    var clients: seq<SockId>
    var log: seq<Msg>
    var disk: Stored
    /** Sockets whose v1.5 handler has left the unverified state. */
    var verified: set<SockId>
    var outbox: map<SockId, seq<Outbound>>
    /** Sockets whose peer is gone: sending to them raises. */
    var broken: set<SockId>
    var closed: set<SockId>
    /** The id the next accepted socket gets. */
    var nextId: nat

    ghost function Snapshot(): State
      reads this
    {
      State(clients, log, disk, verified, outbox, broken, closed)
    }

    ghost predicate Valid()
      reads this
    {
      Inv(Snapshot(), nextId)
    }

    /** Startup: the transcript is whatever the file parses to, and empty
        when it is missing or unreadable; nobody is connected yet. */
    constructor Start(stored: Stored, failing: set<SockId>)
      ensures Valid() && log == LoadLog(stored)
      ensures stored.Saved? ==> log == stored.entries
      ensures !stored.Saved? ==> log == []
      ensures disk == stored && clients == [] && verified == {} && outbox == map[]
      ensures closed == {} && broken == failing && nextId == 0
    {
      if stored.Saved? {
        log := stored.entries;
      } else {
        log := [];
      }
      disk := stored;
      clients := [];
      verified := {};
      outbox := map[];
      broken := failing;
      closed := {};
      nextId := 0;
    }

    /** The accept step: a fresh socket joins the registry at once, before
        any handshake. */
    method Accept() returns (s: SockId)
      requires Valid()
      modifies this
      ensures Valid()
      ensures s == old(nextId) && nextId == s + 1
      ensures clients == old(clients) + [s]
      ensures s !in old(clients) && s !in closed && s !in verified && Sent(Snapshot(), s) == []
      ensures log == old(log) && disk == old(disk) && verified == old(verified)
      ensures outbox == old(outbox) && broken == old(broken) && closed == old(closed)
    {
      s := nextId;
      assert s !in clients && s !in outbox;
      assert forall x :: multiset(clients + [s])[x] == multiset(clients)[x] + multiset([s])[x];
      clients := clients + [s];
      nextId := nextId + 1;
    }

    /** `send_to_client`. */
    method SendToClient(f: Outbound, s: SockId)
      requires Valid() && s < nextId
      modifies this
      ensures Valid() && nextId == old(nextId)
      ensures Snapshot() == Send(old(Snapshot()), f, s)
    {
      if s in broken || s in closed {
        Deregister(s);
        Close(s);
      } else {
        var prior := if s in outbox then outbox[s] else [];
        outbox := outbox[s := prior + [f]];
      }
    }

    /** `broadcast_online_users`: the count is taken once, then the loop
        walks the live list by index while failed sends shorten it. */
    method BroadcastOnlineUsers()
      requires Valid()
      modifies this
      ensures Valid() && nextId == old(nextId)
      ensures Snapshot() == Presence(old(Snapshot()))
    {
      var update := OnlineUsers(|clients|);
      var i := 0;
      while i < |clients|
        invariant Valid() && nextId == old(nextId)
        invariant FanOut(old(Snapshot()), update, None, 0) == FanOut(Snapshot(), update, None, i)
        decreases |clients| - i
      {
        var c := clients[i];
        assert c in clients;
        i := i + 1;
        SendToClient(update, c);
      }
    }

    /** `save_message_to_file`: append one entry and rewrite the file. */
    method SaveMessage(username: string, message: string, ip: string, time: string)
      requires Valid()
      modifies this
      ensures Valid() && nextId == old(nextId)
      ensures Snapshot() == Save(old(Snapshot()), Msg(username, message, ip, time))
    {
      log := log + [Msg(username, message, ip, time)];
      disk := Saved(log);
    }

    /** `broadcast`: send to every registered socket but the origin, then
        log the frame; `saved` is false when a missing key made logging
        raise, after the fan-out has already happened. */
    method Broadcast(f: Frame, origin: SockId) returns (saved: bool)
      requires Valid()
      modifies this
      ensures Valid() && nextId == old(nextId)
      ensures (Snapshot(), saved) == Deliver(old(Snapshot()), f, origin)
    {
      var i := 0;
      while i < |clients|
        invariant Valid() && nextId == old(nextId)
        invariant FanOut(old(Snapshot()), Chat(f), Some(origin), 0) == FanOut(Snapshot(), Chat(f), Some(origin), i)
        decreases |clients| - i
      {
        var c := clients[i];
        assert c in clients;
        i := i + 1;
        if c != origin {
          SendToClient(Chat(f), c);
        }
      }
      if f.username.Some? && f.message.Some? && f.ip.Some? && f.time.Some? {
        SaveMessage(f.username.value, f.message.value, f.ip.value, f.time.value);
        saved := true;
      } else {
        saved := false;
      }
    }

    /** `send_chat_history`: errors are swallowed. */
    method SendChatHistory(s: SockId)
      requires Valid() && s < nextId
      modifies this
      ensures Valid() && nextId == old(nextId)
      ensures Snapshot() == ReplayHistory(old(Snapshot()), s)
    {
      if !(s in broken || s in closed) {
        var prior := if s in outbox then outbox[s] else [];
        outbox := outbox[s := prior + [History(log)]];
      }
    }

    /** The `clear_history` console command of release 1.5 (release 1.2 has
        no such command): empty transcript, in memory and on disk. */
    method ClearHistory()
      requires Valid()
      modifies this
      ensures Valid() && nextId == old(nextId)
      ensures log == [] && disk == Saved([])
      ensures clients == old(clients) && verified == old(verified) && outbox == old(outbox)
      ensures broken == old(broken) && closed == old(closed)
    {
      log := [];
      disk := Saved([]);
    }

    /** `if s in clients: clients.remove(s)`. */
    method Deregister(s: SockId)
      requires Valid()
      modifies this
      ensures Valid() && nextId == old(nextId)
      ensures Snapshot() == old(Snapshot()).(clients := Remove(old(clients), s))
      ensures s !in clients
    {
      RemoveDistinct(clients, s);
      if s in clients {
        clients := Remove(clients, s);
      }
    }

    /** `s.close()` on a socket no longer registered. */
    method Close(s: SockId)
      requires Valid() && s < nextId && s !in clients
      modifies this
      ensures Valid() && nextId == old(nextId)
      ensures Snapshot() == old(Snapshot()).(closed := old(closed) + {s})
    {
      closed := closed + {s};
    }

    /** The handshake's `verified = True`. */
    method MarkVerified(s: SockId)
      requires Valid() && s < nextId
      modifies this
      ensures Valid() && nextId == old(nextId)
      ensures Snapshot() == old(Snapshot()).(verified := old(verified) + {s})
    {
      verified := verified + {s};
    }
  }
}
