/** The reconnecting client: its connection state and its offline queue, as changed inside each section that
    holds the connection mutex. ClientRuns interleaves these sections. */
module Client {
  import opened Identifiers

  datatype ConnectionState = Disconnected | Connecting | Syncing | Online | Closing

  /** Connections are numbered in the order in which they are installed. */
  type Conn = nat

  /** `call` tells apart equal messages handed over by different calls of `SendOrQueue`. */
  datatype Message = Message(call: nat, bytes: string)

  datatype Shared = Shared(state: ConnectionState, conn: Option<Conn>, queue: seq<Message>)

  const NEW_CLIENT: Shared := Shared(Disconnected, None, [])

  predicate WritesDirectly(s: Shared) {
    s.state == Online && s.conn.Some?
  }

  function Enqueued(s: Shared, m: Message): Shared {
    s.(queue := s.queue + [m])
  }

  /** `MarkDisconnected`, for a connection that may be stale. */
  function Dropped(s: Shared, c: Conn): Shared {
    if s.conn != Some(c) then s
    else s.(conn := None, state := if s.state == Closing then Closing else Disconnected)
  }

  predicate ShouldReconnect(s: Shared, c: Conn) {
    s.conn == Some(c) && s.state != Closing
  }

  predicate MayReconnect(s: Shared) {
    s.state == Disconnected && s.conn == None
  }

  /** `ReconnectOnce` once the dialed connection has joined. */
  function Installed(s: Shared, c: Conn): Shared {
    if s.state == Connecting then s.(state := Syncing, conn := Some(c)) else s
  }

  /** `ReconnectOnce` once dialing has failed. */
  function DialAbandoned(s: Shared): Shared {
    if s.state == Connecting then s.(state := Disconnected, conn := None) else s
  }

  predicate Flushing(s: Shared, c: Conn) {
    s.conn == Some(c) && s.state == Syncing
  }

  /** The first section of a round of `FlushOfflineQueue`. */
  function FlushChecked(s: Shared, c: Conn): Shared {
    if Flushing(s, c) && s.queue == [] then s.(state := Online) else s
  }

  function FlushNext(s: Shared, c: Conn): Option<Message> {
    if Flushing(s, c) && s.queue != [] then Some(s.queue[0]) else None
  }

  /** The second section, after the write. On an empty queue the program would panic. */
  function Popped(s: Shared, c: Conn): Shared {
    if Flushing(s, c) && s.queue != [] then s.(queue := s.queue[1..]) else s
  }

  function Closed(s: Shared): Shared {
    s.(state := Closing, conn := None)
  }

  class CollaborativeClient {
    var state: ConnectionState
    var conn: Option<Conn>
    var offlineQueue: seq<Message>

    ghost function View(): Shared
      reads this
    {
      Shared(state, conn, offlineQueue)
    }

    constructor ()
      ensures View() == NEW_CLIENT
      ensures state == Disconnected && conn == None && offlineQueue == []
    {
      state, conn, offlineQueue := Disconnected, None, [];
    }

    method EnqueueOffline(message: Message)
      modifies this
      ensures View() == Enqueued(old(View()), message)
      ensures offlineQueue == old(offlineQueue) + [message] && state == old(state) && conn == old(conn)
    {
      offlineQueue := offlineQueue + [message];
    }

    /** The first section of `SendOrQueue`: queue the message unless a connection is online. */
    method BeginSend(message: Message) returns (direct: Option<Conn>)
      modifies this
      ensures direct == if WritesDirectly(old(View())) then old(conn) else None
      ensures View() == if WritesDirectly(old(View())) then old(View()) else Enqueued(old(View()), message)
      ensures direct.Some? <==> old(state) == Online && old(conn).Some?
      ensures direct.Some? ==> direct == old(conn) && offlineQueue == old(offlineQueue)
      ensures direct.None? ==> offlineQueue == old(offlineQueue) + [message]
      ensures state == old(state) && conn == old(conn)
    {
      if state != Online || conn.None? {
        offlineQueue := offlineQueue + [message];
        return None;
      }
      return conn;
    }

    method MarkDisconnected(c: Conn) returns (shouldReconnect: bool)
      modifies this
      ensures View() == Dropped(old(View()), c) && (shouldReconnect <==> ShouldReconnect(old(View()), c))
      ensures offlineQueue == old(offlineQueue)
      ensures old(conn) != Some(c) ==> conn == old(conn) && state == old(state) && !shouldReconnect
      ensures old(conn) == Some(c) ==> conn == None && (shouldReconnect <==> old(state) != Closing)
      ensures old(conn) == Some(c) ==> state == if old(state) == Closing then Closing else Disconnected
    {
      shouldReconnect := false;
      if conn == Some(c) {
        conn := None;
        if state != Closing {
          state := Disconnected;
          shouldReconnect := true;
        }
      }
    }

    /** `SendOrQueue` when nothing interferes and the write ends as `accepts` says: the message is refused if
        empty, and otherwise written or at the end of the queue; a failed write drops the connection. */
    method SendOrQueue(message: Message, accepts: bool) returns (ok: bool, written: bool)
      modifies this
      ensures ok <==> message.bytes != ""
      ensures written <==> ok && old(state) == Online && old(conn).Some? && accepts
      ensures !ok || written ==> View() == old(View())
      ensures ok && !written ==> offlineQueue == old(offlineQueue) + [message]
      ensures ok && !written ==> if old(state) == Online && old(conn).Some? then state == Disconnected && conn == None
                                 else state == old(state) && conn == old(conn)
    {
      if |message.bytes| == 0 {
        return false, false;
      }
      var direct := BeginSend(message);
      if direct.None? {
        return true, false;
      }
      if accepts {
        return true, true;
      }
      EnqueueOffline(message);
      var shouldReconnect := MarkDisconnected(direct.value);
      return true, false;
    }

    method BeginReconnect() returns (began: bool)
      modifies this
      ensures began <==> MayReconnect(old(View()))
      ensures View() == if began then old(View()).(state := Connecting) else old(View())
      ensures began <==> old(state) == Disconnected && old(conn) == None
      ensures state == (if began then Connecting else old(state)) && conn == old(conn) && offlineQueue == old(offlineQueue)
    {
      if state == Disconnected && conn.None? {
        state := Connecting;
        return true;
      }
      return false;
    }

    /** `ReconnectOnce`; `dialed` is the joined connection, if dialing succeeded. */
    method ReconnectOnce(dialed: Option<Conn>) returns (ok: bool)
      modifies this
      ensures ok <==> dialed.Some? && old(state) == Connecting
      ensures View() == if dialed.Some? then Installed(old(View()), dialed.value) else DialAbandoned(old(View()))
      ensures offlineQueue == old(offlineQueue)
      ensures ok ==> state == Syncing && conn == dialed
      ensures old(state) != Connecting ==> state == old(state) && conn == old(conn)
      ensures old(state) == Connecting && dialed.None? ==> state == Disconnected && conn == None
    {
      if dialed.None? {
        if state == Connecting {
          state, conn := Disconnected, None;
        }
        return false;
      }
      if state != Connecting {
        return false;
      }
      state, conn := Syncing, dialed;
      return true;
    }

    method FlushHead(c: Conn) returns (head: Option<Message>)
      modifies this
      ensures View() == FlushChecked(old(View()), c) && head == FlushNext(old(View()), c)
      ensures conn == old(conn) && offlineQueue == old(offlineQueue)
      ensures head.Some? <==> conn == Some(c) && old(state) == Syncing && offlineQueue != []
      ensures head.Some? ==> head.value == offlineQueue[0] && state == Syncing
      ensures state == if conn == Some(c) && old(state) == Syncing && offlineQueue == [] then Online else old(state)
    {
      if conn != Some(c) || state != Syncing {
        return None;
      }
      if |offlineQueue| == 0 {
        state := Online;
        return None;
      }
      return Some(offlineQueue[0]);
    }

    method PopHead(c: Conn) returns (proceed: bool)
      requires conn == Some(c) && state == Syncing ==> offlineQueue != []
      modifies this
      ensures View() == Popped(old(View()), c) && (proceed <==> Flushing(old(View()), c))
      ensures proceed <==> old(conn) == Some(c) && old(state) == Syncing
      ensures offlineQueue == (if proceed then old(offlineQueue)[1..] else old(offlineQueue)) && state == old(state) && conn == old(conn)
    {
      if conn != Some(c) || state != Syncing {
        return false;
      }
      offlineQueue := offlineQueue[1..];
      return true;
    }

    /** `FlushOfflineQueue` when nothing interferes and the connection takes `lasting` writes before one fails:
        the messages go out in order from the head; either all do and the client is online, or the first one
        that was refused heads the queue that is kept for the next connection. */
    method FlushOfflineQueue(c: Conn, lasting: nat) returns (written: seq<Message>)
      modifies this
      ensures if old(conn) == Some(c) && old(state) == Syncing
              then && written + offlineQueue == old(offlineQueue)
                   && |written| == (if lasting < |old(offlineQueue)| then lasting else |old(offlineQueue)|)
                   && (if |written| == |old(offlineQueue)| then state == Online && conn == old(conn)
                       else state == Disconnected && conn == None)
              else View() == old(View()) && written == []
    {
      written := [];
      ghost var flushing := Flushing(View(), c);
      while true
        invariant flushing == Flushing(View(), c)
        invariant !flushing ==> View() == old(View()) && written == []
        invariant flushing ==> written + offlineQueue == old(offlineQueue) && |written| <= lasting && conn == old(conn)
        decreases |offlineQueue|
      {
        var head := FlushHead(c);
        if head.None? {
          return;
        }
        if |written| == lasting {
          var shouldReconnect := MarkDisconnected(c);
          return;
        }
        written := written + [head.value];
        var proceed := PopHead(c);
        if !proceed {
          return;
        }
      }
    }

    method Close() returns (was: Option<Conn>)
      modifies this
      ensures View() == Closed(old(View())) && was == old(conn)
      ensures state == Closing && conn == None && offlineQueue == old(offlineQueue)
    {
      was := conn;
      state, conn := Closing, None;
    }
  }
}
