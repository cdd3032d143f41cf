/** Every interleaving of senders, flusher, reconnect loop, readers and closer: each event is one section under
    the connection mutex, one socket write with either outcome, or one channel operation. */
module ClientRuns {
  import opened Identifiers
  import opened Client

  /** Where a call of `SendOrQueue` stands. */
  datatype Sender =
    | Writing(m: Message, c: Conn)
    | WriteFailed(m: Message, c: Conn)
    | Requeued(m: Message, c: Conn)
    | Done(m: Message)

  /** Where the holder of the flush mutex stands. */
  datatype Flusher =
    | NoFlush
    | AtCheck(c: Conn)
    | AtWrite(c: Conn, m: Message)
    | Written(c: Conn, m: Message)
    | FlushFailed(c: Conn)

  datatype Loop = Waiting | Woken | Dialing | Sleeping | Stopped

  /** A write that succeeded. */
  datatype Transmission = Transmission(c: Conn, m: Message, flushed: bool)

  /** `signal` is the token in the reconnect channel and `owed` counts the calls about to put one there.
      `nextConn` is the next connection. `enqueued`, `popped` and `wire` record the past. */
  datatype System = System(
    shared: Shared, senders: map<nat, Sender>, flusher: Flusher, loop: Loop, signal: bool, owed: nat, nextConn: Conn,
    enqueued: seq<Message>, popped: nat, wire: seq<Transmission>)

  /** `Start` has begun the loop and is about to signal. */
  const STARTED: System := System(NEW_CLIENT, map[], NoFlush, Waiting, false, 1, 0, [], 0, [])

  datatype Event =
    | Send(m: Message)
    | SenderWrites(k: nat)
    | SenderFails(k: nat)
    | SenderRequeues(k: nat)
    | SenderDisconnects(k: nat)
    | ReaderDisconnects(c: Conn)
    | FlushStarts(c: Conn)
    | FlushChecks
    | FlushWrites
    | FlushFails
    | FlushDisconnects
    | FlushPops
    | Signals
    | LoopWakes
    | LoopBegins
    | DialSucceeds
    | DialFails
    | LoopRetries
    | LoopStops
    | Closes

  predicate Enabled(s: System, e: Event) {
    match e
    case Send(m) => m.bytes != "" && m.call !in s.senders
    case SenderWrites(k) => k in s.senders && s.senders[k].Writing?
    case SenderFails(k) => k in s.senders && s.senders[k].Writing?
    case SenderRequeues(k) => k in s.senders && s.senders[k].WriteFailed?
    case SenderDisconnects(k) => k in s.senders && s.senders[k].Requeued?
    case ReaderDisconnects(c) => c < s.nextConn
    case FlushStarts(c) => s.flusher == NoFlush && c < s.nextConn
    case FlushChecks => s.flusher.AtCheck?
    case FlushWrites => s.flusher.AtWrite?
    case FlushFails => s.flusher.AtWrite?
    case FlushDisconnects => s.flusher.FlushFailed?
    case FlushPops => s.flusher.Written?
    case Signals => s.owed > 0
    case LoopWakes => s.loop == Waiting && s.signal
    case LoopBegins => s.loop == Woken
    case DialSucceeds => s.loop == Dialing
    case DialFails => s.loop == Dialing
    case LoopRetries => s.loop == Sleeping
    case LoopStops => s.shared.state == Closing && (s.loop == Waiting || s.loop == Sleeping)
    case Closes => true
  }

  function Drop(s: System, c: Conn): System {
    s.(shared := Dropped(s.shared, c), owed := if ShouldReconnect(s.shared, c) then s.owed + 1 else s.owed)
  }

  function Queue(s: System, m: Message): System {
    s.(shared := Enqueued(s.shared, m), enqueued := s.enqueued + [m])
  }

  function Transmit(s: System, c: Conn, m: Message, flushed: bool): System {
    s.(wire := s.wire + [Transmission(c, m, flushed)])
  }

  function Apply(s: System, e: Event): System
    requires Enabled(s, e)
  {
    match e
    case Send(m) =>
      if WritesDirectly(s.shared) then s.(senders := s.senders[m.call := Writing(m, s.shared.conn.value)])
      else Queue(s, m).(senders := s.senders[m.call := Done(m)])
    case SenderWrites(k) =>
      var p := s.senders[k];
      Transmit(s, p.c, p.m, false).(senders := s.senders[k := Done(p.m)])
    case SenderFails(k) => s.(senders := s.senders[k := WriteFailed(s.senders[k].m, s.senders[k].c)])
    case SenderRequeues(k) =>
      var p := s.senders[k];
      Queue(s, p.m).(senders := s.senders[k := Requeued(p.m, p.c)])
    case SenderDisconnects(k) =>
      var p := s.senders[k];
      Drop(s, p.c).(senders := s.senders[k := Done(p.m)])
    case ReaderDisconnects(c) => Drop(s, c)
    case FlushStarts(c) => s.(flusher := AtCheck(c))
    case FlushChecks =>
      var c := s.flusher.c;
      s.(shared := FlushChecked(s.shared, c),
         flusher := match FlushNext(s.shared, c) case Some(m) => AtWrite(c, m) case None => NoFlush)
    case FlushWrites => Transmit(s, s.flusher.c, s.flusher.m, true).(flusher := Written(s.flusher.c, s.flusher.m))
    case FlushFails => s.(flusher := FlushFailed(s.flusher.c))
    case FlushDisconnects => Drop(s, s.flusher.c).(flusher := NoFlush)
    case FlushPops =>
      var c := s.flusher.c;
      if Flushing(s.shared, c) then s.(shared := Popped(s.shared, c), popped := s.popped + 1, flusher := AtCheck(c))
      else s.(flusher := NoFlush)
    case Signals => s.(owed := s.owed - 1, signal := true)
    case LoopWakes => s.(signal := false, loop := Woken)
    case LoopBegins =>
      if MayReconnect(s.shared) then s.(shared := s.shared.(state := Connecting), loop := Dialing)
      else s.(loop := Waiting)
    case DialSucceeds =>
      s.(shared := Installed(s.shared, s.nextConn), nextConn := s.nextConn + 1,
         loop := if s.shared.state == Connecting then Waiting else Sleeping)
    case DialFails => s.(shared := DialAbandoned(s.shared), loop := Sleeping)
    case LoopRetries => s.(loop := Woken)
    case LoopStops => s.(loop := Stopped)
    case Closes => s.(shared := Closed(s.shared))
  }

  ghost predicate Runs(s: System, es: seq<Event>, t: System)
    decreases |es|
  {
    if es == [] then t == s
    else Enabled(s, es[0]) && Runs(Apply(s, es[0]), es[1..], t)
  }

  ghost predicate Reachable(s: System) {
    exists es :: Runs(STARTED, es, s)
  }

  // ----- The invariant, layer by layer

  /** A connection is installed exactly while syncing or online; only the loop connects. */
  ghost predicate Connected(s: System) {
    && (s.shared.conn.Some? <==> s.shared.state == Syncing || s.shared.state == Online)
    && (s.shared.conn.Some? ==> s.shared.conn.value < s.nextConn)
    && (s.shared.state == Connecting ==> s.loop == Dialing)
    && (s.loop == Dialing ==> s.shared.state == Connecting || s.shared.state == Closing)
    && (s.loop == Stopped ==> s.shared.state == Closing)
  }

  /** A disconnected client has its reconnect signal on the way, or a loop that will look. */
  ghost predicate WillReconnect(s: System) {
    s.shared.state == Disconnected ==> s.signal || s.owed > 0 || s.loop == Woken || s.loop == Sleeping
  }

  ghost predicate SentAs(wire: seq<Transmission>, m: Message, flushed: bool) {
    exists t :: t in wire && t.m == m && t.flushed == flushed
  }

  /** The queue is what has been enqueued and not popped, and everything popped has been written. */
  ghost predicate Conserved(s: System) {
    && s.popped <= |s.enqueued| && s.shared.queue == s.enqueued[s.popped..]
    && forall i :: 0 <= i < s.popped ==> SentAs(s.wire, s.enqueued[i], true)
  }

  /** Between its check and its pop, the flusher's message stays at the head. */
  ghost predicate HeadHeld(s: System) {
    && (s.flusher != NoFlush ==> s.flusher.c < s.nextConn)
    && (s.flusher.AtWrite? || s.flusher.Written? ==> s.popped < |s.enqueued| && s.enqueued[s.popped] == s.flusher.m)
    && (s.flusher.Written? ==> SentAs(s.wire, s.flusher.m, true))
  }

  /** A call writes its message itself or enqueues it, never both, and enqueues it once. */
  ghost predicate Accounted(p: Sender, k: nat, enqueued: seq<Message>, wire: seq<Transmission>, nextConn: Conn) {
    && p.m.call == k
    && (p.Writing? || p.WriteFailed? ==> p.m !in enqueued && !SentAs(wire, p.m, false) && p.c < nextConn)
    && (p.Requeued? ==> p.m in enqueued && !SentAs(wire, p.m, false) && p.c < nextConn)
    && (p.Done? ==> (p.m in enqueued <==> !SentAs(wire, p.m, false)))
  }

  ghost predicate OwnMessage(senders: map<nat, Sender>, m: Message) {
    m.call in senders && senders[m.call].m == m
  }

  ghost predicate Calls(senders: map<nat, Sender>, enqueued: seq<Message>, wire: seq<Transmission>, nextConn: Conn) {
    && (forall k :: k in senders ==> Accounted(senders[k], k, enqueued, wire, nextConn))
    && (forall m :: m in enqueued ==> OwnMessage(senders, m))
    && (forall t :: t in wire ==> OwnMessage(senders, t.m))
    && (forall i, j :: 0 <= i < j < |enqueued| ==> enqueued[i] != enqueued[j])
  }

  /** What the flusher has written on a connection. */
  ghost function FlushedOn(wire: seq<Transmission>, c: Conn): seq<Message>
    decreases |wire|
  {
    if wire == [] then []
    else
      var n := |wire| - 1;
      FlushedOn(wire[..n], c) + if wire[n].c == c && wire[n].flushed then [wire[n].m] else []
  }

  /** The messages flushed on `c` are the last ones enqueued before position `end`, in order. */
  ghost predicate FlushedUpTo(wire: seq<Transmission>, enqueued: seq<Message>, c: Conn, end: nat) {
    var f := FlushedOn(wire, c);
    |f| <= end <= |enqueued| && f == enqueued[end - |f|..end]
  }

  ghost predicate InOrder(s: System, c: Conn) {
    && (exists end: nat :: FlushedUpTo(s.wire, s.enqueued, c, end))
    && (c >= s.nextConn ==> FlushedOn(s.wire, c) == [])
    && (s.flusher.AtWrite? && s.flusher.c == c ==> FlushedUpTo(s.wire, s.enqueued, c, s.popped))
    && (s.flusher.Written? && s.flusher.c == c ==> FlushedUpTo(s.wire, s.enqueued, c, s.popped + 1))
    && (Flushing(s.shared, c) && !(s.flusher.Written? && s.flusher.c == c) ==> FlushedUpTo(s.wire, s.enqueued, c, s.popped))
  }

  /** The connection is no longer being flushed, and never will be again. */
  ghost predicate PastFlushing(s: System, c: Conn) {
    c < s.nextConn && !Flushing(s.shared, c) && !(s.flusher.AtWrite? && s.flusher.c == c)
  }

  /** A direct write belongs to a connection that is past flushing, so no flushed message follows it there. */
  ghost predicate DirectLater(s: System) {
    && (s.flusher.AtWrite? && s.shared.conn == Some(s.flusher.c) ==> s.shared.state == Syncing)
    && (forall k :: k in s.senders && s.senders[k].Writing? ==> PastFlushing(s, s.senders[k].c))
    && (forall t :: t in s.wire && !t.flushed ==> PastFlushing(s, t.c))
    && (forall i, j :: 0 <= i < j < |s.wire| && s.wire[j].flushed && !s.wire[i].flushed ==> s.wire[i].c != s.wire[j].c)
  }

  ghost predicate Invariant(s: System) {
    && Connected(s) && WillReconnect(s) && Conserved(s) && HeadHeld(s) && Calls(s.senders, s.enqueued, s.wire, s.nextConn)
    && (forall c :: InOrder(s, c)) && DirectLater(s)
  }

  lemma ConnectedKept(s: System, e: Event)
    requires Enabled(s, e) && Connected(s)
    requires s.flusher != NoFlush ==> s.flusher.c < s.nextConn
    ensures Connected(Apply(s, e))
  {
  }

  lemma WillReconnectKept(s: System, e: Event)
    requires Enabled(s, e) && Connected(s) && WillReconnect(s)
    ensures WillReconnect(Apply(s, e))
  {
  }

  lemma SentAsGrows(wire: seq<Transmission>, t: Transmission)
    ensures forall m, flushed :: SentAs(wire, m, flushed) ==> SentAs(wire + [t], m, flushed)
    ensures forall m, flushed :: SentAs(wire + [t], m, flushed) ==> SentAs(wire, m, flushed) || (t.m == m && t.flushed == flushed)
    ensures SentAs(wire + [t], t.m, t.flushed)
  {
    assert (wire + [t])[|wire|] == t;
  }

  lemma ConservedKept(s: System, e: Event)
    requires Enabled(s, e) && Conserved(s) && HeadHeld(s)
    ensures Conserved(Apply(s, e))
  {
    hide SentAs;
    match e
    case SenderWrites(k) => SentAsGrows(s.wire, Transmission(s.senders[k].c, s.senders[k].m, false));
    case FlushWrites => SentAsGrows(s.wire, Transmission(s.flusher.c, s.flusher.m, true));
    case _ =>
  }

  lemma HeadHeldKept(s: System, e: Event)
    requires Enabled(s, e) && Conserved(s) && HeadHeld(s)
    ensures HeadHeld(Apply(s, e))
  {
    hide SentAs;
    match e
    case SenderWrites(k) => SentAsGrows(s.wire, Transmission(s.senders[k].c, s.senders[k].m, false));
    case FlushWrites => SentAsGrows(s.wire, Transmission(s.flusher.c, s.flusher.m, true));
    case _ =>
  }

  // ----- Every call is accounted for

  lemma CallSends(senders: map<nat, Sender>, enqueued: seq<Message>, wire: seq<Transmission>, nextConn: Conn, m: Message, c: Conn)
    requires Calls(senders, enqueued, wire, nextConn) && m.call !in senders
    ensures c < nextConn ==> Calls(senders[m.call := Writing(m, c)], enqueued, wire, nextConn)
    ensures Calls(senders[m.call := Done(m)], enqueued + [m], wire, nextConn)
  {
    assert m !in enqueued && forall t :: t in wire ==> t.m != m;
  }

  lemma CallWrites(senders: map<nat, Sender>, enqueued: seq<Message>, wire: seq<Transmission>, nextConn: Conn, k: nat)
    requires Calls(senders, enqueued, wire, nextConn) && k in senders && senders[k].Writing?
    ensures var p := senders[k];
            Calls(senders[k := Done(p.m)], enqueued, wire + [Transmission(p.c, p.m, false)], nextConn)
  {
    var p := senders[k];
    SentAsGrows(wire, Transmission(p.c, p.m, false));
    assert Accounted(p, k, enqueued, wire, nextConn);
  }

  lemma CallRequeues(senders: map<nat, Sender>, enqueued: seq<Message>, wire: seq<Transmission>, nextConn: Conn, k: nat)
    requires Calls(senders, enqueued, wire, nextConn) && k in senders && senders[k].WriteFailed?
    ensures var p := senders[k];
            Calls(senders[k := Requeued(p.m, p.c)], enqueued + [p.m], wire, nextConn)
  {
    hide SentAs;
    assert Accounted(senders[k], k, enqueued, wire, nextConn);
  }

  lemma CallFlushed(senders: map<nat, Sender>, enqueued: seq<Message>, wire: seq<Transmission>, nextConn: Conn, t: Transmission)
    requires Calls(senders, enqueued, wire, nextConn) && t.m in enqueued && t.flushed
    ensures Calls(senders, enqueued, wire + [t], nextConn)
  {
    SentAsGrows(wire, t);
  }

  lemma CallMoves(senders: map<nat, Sender>, enqueued: seq<Message>, wire: seq<Transmission>, nextConn: Conn, k: nat)
    requires Calls(senders, enqueued, wire, nextConn) && k in senders
    ensures var p := senders[k];
            && (p.Writing? ==> Calls(senders[k := WriteFailed(p.m, p.c)], enqueued, wire, nextConn))
            && (p.Requeued? ==> Calls(senders[k := Done(p.m)], enqueued, wire, nextConn))
  {
    hide SentAs;
    assert Accounted(senders[k], k, enqueued, wire, nextConn);
  }

  lemma CallsKept(s: System, e: Event)
    requires Enabled(s, e) && Calls(s.senders, s.enqueued, s.wire, s.nextConn) && HeadHeld(s) && Connected(s)
    ensures var t := Apply(s, e);
            Calls(t.senders, t.enqueued, t.wire, t.nextConn)
  {
    hide SentAs, Calls;
    match e
    case Send(m) => CallSends(s.senders, s.enqueued, s.wire, s.nextConn, m, if s.shared.conn.Some? then s.shared.conn.value else 0);
    case SenderWrites(k) => CallWrites(s.senders, s.enqueued, s.wire, s.nextConn, k);
    case SenderFails(k) => CallMoves(s.senders, s.enqueued, s.wire, s.nextConn, k);
    case SenderRequeues(k) => CallRequeues(s.senders, s.enqueued, s.wire, s.nextConn, k);
    case SenderDisconnects(k) => CallMoves(s.senders, s.enqueued, s.wire, s.nextConn, k);
    case FlushWrites => CallFlushed(s.senders, s.enqueued, s.wire, s.nextConn, Transmission(s.flusher.c, s.flusher.m, true));
    case DialSucceeds => MoreConnections(s.senders, s.enqueued, s.wire, s.nextConn);
    case _ =>
  }

  lemma MoreConnections(senders: map<nat, Sender>, enqueued: seq<Message>, wire: seq<Transmission>, nextConn: Conn)
    requires Calls(senders, enqueued, wire, nextConn)
    ensures Calls(senders, enqueued, wire, nextConn + 1)
  {
    hide SentAs;
  }

  // ----- Flushing keeps to the order of the queue

  lemma FlushedOnNext(wire: seq<Transmission>, t: Transmission, c: Conn)
    ensures FlushedOn(wire + [t], c) == FlushedOn(wire, c) + if t.c == c && t.flushed then [t.m] else []
  {
    assert (wire + [t])[..|wire|] == wire;
  }

  lemma NothingFlushed(wire: seq<Transmission>, enqueued: seq<Message>, c: Conn)
    requires FlushedOn(wire, c) == []
    ensures forall end: nat :: end <= |enqueued| ==> FlushedUpTo(wire, enqueued, c, end)
  {
  }

  lemma EnqueueKeepsOrder(wire: seq<Transmission>, enqueued: seq<Message>, m: Message, c: Conn)
    ensures forall end: nat :: FlushedUpTo(wire, enqueued, c, end) ==> FlushedUpTo(wire, enqueued + [m], c, end)
  {
  }

  lemma TransmitElsewhere(wire: seq<Transmission>, t: Transmission, enqueued: seq<Message>, c: Conn)
    requires !(t.c == c && t.flushed)
    ensures FlushedOn(wire + [t], c) == FlushedOn(wire, c)
    ensures forall end: nat :: FlushedUpTo(wire, enqueued, c, end) ==> FlushedUpTo(wire + [t], enqueued, c, end)
  {
    FlushedOnNext(wire, t, c);
  }

  lemma TransmitHead(wire: seq<Transmission>, t: Transmission, enqueued: seq<Message>, c: Conn, end: nat)
    requires t.c == c && t.flushed && FlushedUpTo(wire, enqueued, c, end) && end < |enqueued| && enqueued[end] == t.m
    ensures FlushedUpTo(wire + [t], enqueued, c, end + 1)
  {
    FlushedOnNext(wire, t, c);
  }

  lemma InOrderKept(s: System, e: Event, c: Conn)
    requires Enabled(s, e) && Connected(s) && Conserved(s) && HeadHeld(s) && InOrder(s, c)
    ensures InOrder(Apply(s, e), c)
  {
    hide FlushedOn, FlushedUpTo, SentAs;
    match e
    case Send(m) => EnqueueKeepsOrder(s.wire, s.enqueued, m, c);
    case SenderRequeues(k) => EnqueueKeepsOrder(s.wire, s.enqueued, s.senders[k].m, c);
    case SenderWrites(k) => TransmitElsewhere(s.wire, Transmission(s.senders[k].c, s.senders[k].m, false), s.enqueued, c);
    case FlushWrites =>
      var t := Transmission(s.flusher.c, s.flusher.m, true);
      if t.c == c {
        TransmitHead(s.wire, t, s.enqueued, c, s.popped);
      } else {
        TransmitElsewhere(s.wire, t, s.enqueued, c);
      }
    case _ => QuietInOrder(s, e, c);
  }

  /** The events that neither enqueue nor write. */
  lemma QuietInOrder(s: System, e: Event, c: Conn)
    requires Enabled(s, e) && Connected(s) && Conserved(s) && HeadHeld(s) && InOrder(s, c)
    requires !e.Send? && !e.SenderRequeues? && !e.SenderWrites? && !e.FlushWrites?
    ensures InOrder(Apply(s, e), c)
  {
    hide FlushedOn, FlushedUpTo, SentAs;
    if c == s.nextConn {
      NothingFlushed(s.wire, s.enqueued, c);
    }
  }

  lemma PastFlushingStays(s: System, e: Event, c: Conn)
    requires Enabled(s, e) && Connected(s) && PastFlushing(s, c)
    ensures PastFlushing(Apply(s, e), c)
  {
  }

  lemma SendsPastFlushing(s: System, m: Message)
    requires Enabled(s, Send(m)) && Connected(s) && DirectLater(s) && WritesDirectly(s.shared)
    ensures PastFlushing(s, s.shared.conn.value)
  {
  }

  lemma DirectLaterKept(s: System, e: Event)
    requires Enabled(s, e) && Connected(s) && DirectLater(s)
    ensures DirectLater(Apply(s, e))
  {
    forall c | PastFlushing(s, c)
      ensures PastFlushing(Apply(s, e), c)
    {
      PastFlushingStays(s, e, c);
    }
    FlusherAlone(s);
    hide PastFlushing;
    match e
    case Send(m) =>
      if WritesDirectly(s.shared) {
        SendsPastFlushing(s, m);
      }
    case _ =>
  }

  lemma FlusherAlone(s: System)
    requires DirectLater(s)
    ensures s.flusher.AtWrite? ==> forall i :: 0 <= i < |s.wire| && !s.wire[i].flushed ==> s.wire[i].c != s.flusher.c
  {
  }

  // ----- Every run

  lemma InvariantKept(s: System, e: Event)
    requires Enabled(s, e) && Invariant(s)
    ensures Invariant(Apply(s, e))
  {
    hide Connected, WillReconnect, Conserved, Calls, InOrder, DirectLater, Apply;
    DirectLaterKept(s, e);
    ConnectedKept(s, e);
    WillReconnectKept(s, e);
    ConservedKept(s, e);
    HeadHeldKept(s, e);
    CallsKept(s, e);
    forall c
      ensures InOrder(Apply(s, e), c)
    {
      InOrderKept(s, e, c);
    }
  }

  lemma {:induction false} RunKeepsInvariant(s: System, es: seq<Event>, t: System)
    requires Invariant(s) && Runs(s, es, t)
    ensures Invariant(t)
    decreases |es|
  {
    hide Invariant, Apply;
    if es != [] {
      InvariantKept(s, es[0]);
      RunKeepsInvariant(Apply(s, es[0]), es[1..], t);
    }
  }

  lemma ReachableInvariant(s: System)
    requires Reachable(s)
    ensures Invariant(s)
  {
    var es :| Runs(STARTED, es, s);
    forall c
      ensures InOrder(STARTED, c)
    {
      assert FlushedUpTo([], [], c, 0);
    }
    assert Invariant(STARTED);
    RunKeepsInvariant(STARTED, es, s);
  }

  // ----- No message is lost

  /** A completed call either has written its message itself and never queued it, or has queued it once; in
      that case the message is still in the queue, or the flusher has written it. */
  lemma AcceptedNotLost(s: System, k: nat)
    requires Reachable(s) && k in s.senders && s.senders[k].Done?
    ensures var m := s.senders[k].m;
            && m.call == k
            && (SentAs(s.wire, m, false) <==> m !in s.enqueued)
            && (m in s.enqueued ==> m in s.shared.queue || SentAs(s.wire, m, true))
  {
    ReachableInvariant(s);
    var m := s.senders[k].m;
    assert Accounted(s.senders[k], k, s.enqueued, s.wire, s.nextConn);
    if m in s.enqueued {
      var i :| 0 <= i < |s.enqueued| && s.enqueued[i] == m;
      assert i >= s.popped ==> s.shared.queue[i - s.popped] == m;
    }
  }

  /** The queue is first in, first out, and loses nothing: what was enqueued is what was popped, in order,
      followed by the queue; no message was enqueued twice, and all that was popped was written before. */
  lemma QueueConserves(s: System)
    requires Reachable(s)
    ensures s.popped <= |s.enqueued| && s.enqueued == s.enqueued[..s.popped] + s.shared.queue
    ensures forall i, j :: 0 <= i < j < |s.enqueued| ==> s.enqueued[i] != s.enqueued[j]
    ensures forall i :: 0 <= i < s.popped ==> SentAs(s.wire, s.enqueued[i], true)
  {
    ReachableInvariant(s);
  }

  /** Between its write and its pop, the flusher's message is written and still heads the queue: the pop
      removes that message, and never meets an empty queue. */
  lemma WrittenHeadStays(s: System)
    requires Reachable(s) && s.flusher.Written?
    ensures s.shared.queue != [] && s.shared.queue[0] == s.flusher.m && SentAs(s.wire, s.flusher.m, true)
  {
    ReachableInvariant(s);
  }

  /** Each connection carries a contiguous stretch of the queue's history, in order and without repetition,
      whatever was flushed on other connections. */
  lemma FlushedInOrder(s: System, c: Conn)
    requires Reachable(s)
    ensures exists end: nat :: FlushedUpTo(s.wire, s.enqueued, c, end)
    ensures forall i, j :: 0 <= i < j < |FlushedOn(s.wire, c)| ==> FlushedOn(s.wire, c)[i] != FlushedOn(s.wire, c)[j]
  {
    ReachableInvariant(s);
    assert InOrder(s, c);
    QueueConserves(s);
    var end: nat :| FlushedUpTo(s.wire, s.enqueued, c, end);
    hide Invariant, InOrder, Reachable;
    StretchDistinct(FlushedOn(s.wire, c), s.enqueued, end);
  }

  lemma StretchDistinct(f: seq<Message>, enqueued: seq<Message>, end: nat)
    requires |f| <= end <= |enqueued| && f == enqueued[end - |f|..end]
    requires forall i, j :: 0 <= i < j < |enqueued| ==> enqueued[i] != enqueued[j]
    ensures forall i, j :: 0 <= i < j < |f| ==> f[i] != f[j]
  {
    forall i, j | 0 <= i < j < |f|
      ensures f[i] != f[j]
    {
      assert f[i] == enqueued[end - |f| + i] && f[j] == enqueued[end - |f| + j];
    }
  }

  /** A call that starts outside Online queues its message behind all others and starts no write; only an
      online client lets a call write past the queue. */
  lemma SendOutsideOnline(s: System, m: Message)
    requires Reachable(s) && Enabled(s, Send(m))
    ensures var t := Apply(s, Send(m));
            if s.shared.state == Online
            then t.shared == s.shared && s.shared.conn.Some? && t.senders[m.call] == Writing(m, s.shared.conn.value)
            else t.shared.queue == s.shared.queue + [m] && t.senders[m.call] == Done(m) && t.wire == s.wire
  {
    ReachableInvariant(s);
  }

  /** On one connection all flushed messages come before all messages that calls wrote themselves: a message
      never overtakes the queue. */
  lemma NeverOvertakes(s: System, i: nat, j: nat)
    requires Reachable(s) && i < j < |s.wire| && s.wire[i].c == s.wire[j].c && s.wire[j].flushed
    ensures s.wire[i].flushed
  {
    ReachableInvariant(s);
  }

  // ----- The connection state machine

  /** A connection is installed exactly in the states Syncing and Online. */
  lemma ConnectionExactly(s: System)
    requires Reachable(s)
    ensures s.shared.conn.Some? <==> s.shared.state == Syncing || s.shared.state == Online
    ensures s.shared.state == Connecting <==> s.loop == Dialing && s.shared.state != Closing
  {
    ReachableInvariant(s);
  }

  /** A reconnect is requested exactly when an installed connection is lost other than by closing. */
  lemma OwesExactly(s: System, e: Event)
    requires Reachable(s) && Enabled(s, e)
    ensures Apply(s, e).owed > s.owed <==> s.shared.conn.Some? && Apply(s, e).shared.state == Disconnected
    ensures s.shared.state == Closing ==> Apply(s, e).owed <= s.owed
  {
    ReachableInvariant(s);
  }

  ghost predicate Disconnects(s: System, e: Event, c: Conn) {
    || e == ReaderDisconnects(c)
    || (e == FlushDisconnects && s.flusher.FlushFailed? && s.flusher.c == c)
    || (e.SenderDisconnects? && e.k in s.senders && s.senders[e.k].Requeued? && s.senders[e.k].c == c)
  }

  /** All state changes there are. Online is entered only by the flusher of the installed connection, at an
      instant when the queue is empty; Disconnected only by a failed dial or a failure on the installed
      connection. */
  lemma StateChanges(s: System, e: Event)
    requires Reachable(s) && Enabled(s, e) && Apply(s, e).shared.state != s.shared.state
    ensures match Apply(s, e).shared.state
            case Connecting => e == LoopBegins && s.shared.state == Disconnected && Apply(s, e).shared.conn == None
            case Syncing => e == DialSucceeds && s.shared.state == Connecting && s.shared.conn == None
                            && Apply(s, e).shared.conn == Some(s.nextConn)
            case Online => e == FlushChecks && s.shared.state == Syncing && s.shared.conn == Some(s.flusher.c)
                           && Apply(s, e).shared == Shared(Online, s.shared.conn, []) && s.shared.queue == []
            case Disconnected =>
              || (e == DialFails && s.shared.state == Connecting)
              || (s.shared.conn.Some? && Disconnects(s, e, s.shared.conn.value)
                  && (s.shared.state == Syncing || s.shared.state == Online))
            case Closing => e == Closes
  {
    ReachableInvariant(s);
  }

  /** An installed connection is given up only by a failure on that very connection, or by closing. */
  lemma OnlyOwnFailureDisconnects(s: System, e: Event, c: Conn)
    requires Reachable(s) && Enabled(s, e) && s.shared.conn == Some(c)
    ensures Apply(s, e).shared.conn == (if Disconnects(s, e, c) || e == Closes then None else Some(c))
    ensures forall d :: d != c && Disconnects(s, e, d) ==> Apply(s, e).shared == s.shared && Apply(s, e).owed == s.owed
  {
    hide Apply, Disconnects, Enabled;
    ReachableInvariant(s);
    InstalledStays(s, e, c);
    StaleDisconnect(s, e, c);
  }

  lemma InstalledStays(s: System, e: Event, c: Conn)
    requires Enabled(s, e) && Connected(s) && s.shared.conn == Some(c)
    ensures Apply(s, e).shared.conn == (if Disconnects(s, e, c) || e == Closes then None else Some(c))
  {
  }

  lemma StaleDisconnect(s: System, e: Event, c: Conn)
    requires Enabled(s, e) && s.shared.conn == Some(c)
    ensures forall d :: d != c && Disconnects(s, e, d) ==> Apply(s, e).shared == s.shared && Apply(s, e).owed == s.owed
  {
  }

  /** Closing is final: no later event reconnects or takes a message out of the queue. */
  lemma {:induction false} ClosingIsFinal(s: System, es: seq<Event>, t: System)
    requires s.shared.state == Closing && s.shared.conn == None && Runs(s, es, t)
    ensures t.shared.state == Closing && t.shared.conn == None && s.shared.queue <= t.shared.queue
    decreases |es|
  {
    if es != [] {
      ClosingIsFinal(Apply(s, es[0]), es[1..], t);
    }
  }

  /** No wakeup is lost: while the client is disconnected, a signal is in the channel or about to be put
      there, or the loop is about to look again. */
  lemma NoLostWakeup(s: System)
    requires Reachable(s) && s.shared.state == Disconnected
    ensures s.signal || s.owed > 0 || s.loop == Woken || s.loop == Sleeping
    ensures s.loop != Stopped && s.loop != Dialing
  {
    ReachableInvariant(s);
  }

  // ----- Online does not mean that the queue is empty

  lemma {:induction false} RunsThen(s: System, es: seq<Event>, mid: System, es': seq<Event>, t: System)
    requires Runs(s, es, mid) && Runs(mid, es', t)
    ensures Runs(s, es + es', t)
    decreases |es|
  {
    hide Apply, Enabled;
    if es == [] {
      assert es + es' == es';
    } else {
      RunsThen(Apply(s, es[0]), es[1..], mid, es', t);
      assert (es + es')[1..] == es[1..] + es';
    }
  }

  lemma RunsOne(s: System, e: Event)
    requires Enabled(s, e)
    ensures Runs(s, [e], Apply(s, e))
  {
    assert [e][1..] == [];
  }

  lemma RunsTwo(s: System, e: Event, e': Event)
    requires Enabled(s, e) && Enabled(Apply(s, e), e')
    ensures Runs(s, [e, e'], Apply(Apply(s, e), e'))
  {
    RunsOne(Apply(s, e), e');
    assert [e, e'][1..] == [e'];
  }

  lemma Joins(s: System) returns (es: seq<Event>)
    requires s.shared == NEW_CLIENT && s.owed > 0 && s.loop == Waiting
    ensures Runs(s, es, s.(shared := Shared(Syncing, Some(s.nextConn), []), nextConn := s.nextConn + 1,
                           signal := false, owed := s.owed - 1))
  {
    var woken := s.(signal := false, owed := s.owed - 1, loop := Woken);
    RunsTwo(s, Signals, LoopWakes);
    RunsTwo(woken, LoopBegins, DialSucceeds);
    es := [Signals, LoopWakes] + [LoopBegins, DialSucceeds];
    RunsThen(s, [Signals, LoopWakes], woken, [LoopBegins, DialSucceeds], Apply(Apply(woken, LoopBegins), DialSucceeds));
  }

  /** A disconnected client with an empty queue and a signal on the way can come online. */
  lemma ComesOnline(s: System) returns (es: seq<Event>)
    requires s.shared == NEW_CLIENT && s.owed > 0 && s.loop == Waiting && s.flusher == NoFlush
    ensures Runs(s, es, s.(shared := Shared(Online, Some(s.nextConn), []), nextConn := s.nextConn + 1,
                           signal := false, owed := s.owed - 1))
  {
    var joined := s.(shared := Shared(Syncing, Some(s.nextConn), []), nextConn := s.nextConn + 1,
                     signal := false, owed := s.owed - 1);
    var joins := Joins(s);
    RunsTwo(joined, FlushStarts(s.nextConn), FlushChecks);
    es := joins + [FlushStarts(s.nextConn), FlushChecks];
    RunsThen(s, joins, joined, [FlushStarts(s.nextConn), FlushChecks], joined.(shared := Shared(Online, Some(s.nextConn), [])));
  }

  /** A client can be online, with every call completed, and still hold a message that was never written:
      its write failed on an old connection after the next one had been flushed. */
  lemma MessageStranded(m: Message) returns (s: System)
    requires m.bytes != ""
    ensures Reachable(s) && s.shared.state == Online && s.shared.queue == [m]
    ensures s.senders == map[m.call := Done(m)] && s.flusher == NoFlush && s.wire == []
  {
    var first := ComesOnline(STARTED);
    var online := STARTED.(shared := Shared(Online, Some(0), []), nextConn := 1, owed := 0);
    var writing := online.(senders := map[m.call := Writing(m, 0)]);
    var dropped := writing.(shared := NEW_CLIENT, owed := 1);
    RunsTwo(online, Send(m), ReaderDisconnects(0));
    RunsThen(STARTED, first, online, [Send(m), ReaderDisconnects(0)], dropped);
    var second := ComesOnline(dropped);
    var again := dropped.(shared := Shared(Online, Some(1), []), nextConn := 2, owed := 0);
    RunsThen(STARTED, first + [Send(m), ReaderDisconnects(0)], dropped, second, again);
    s := StrandLate(again, first + [Send(m), ReaderDisconnects(0)] + second, m);
  }

  lemma StrandLate(again: System, es: seq<Event>, m: Message) returns (s: System)
    requires Runs(STARTED, es, again) && again.senders == map[m.call := Writing(m, 0)]
    requires again.shared == Shared(Online, Some(1), [])
    ensures Reachable(s) && s.shared.state == Online && s.shared.queue == [m]
    ensures s.senders == map[m.call := Done(m)] && s.flusher == again.flusher && s.wire == again.wire
  {
    var k := m.call;
    var failed := again.(senders := map[k := WriteFailed(m, 0)]);
    var requeued := Queue(failed, m).(senders := map[k := Requeued(m, 0)]);
    s := requeued.(senders := map[k := Done(m)]);
    assert again.senders[k := WriteFailed(m, 0)] == map[k := WriteFailed(m, 0)];
    assert failed.senders[k := Requeued(m, 0)] == map[k := Requeued(m, 0)];
    assert requeued.senders[k := Done(m)] == map[k := Done(m)];
    RunsTwo(again, SenderFails(k), SenderRequeues(k));
    RunsOne(requeued, SenderDisconnects(k));
    RunsThen(STARTED, es, again, [SenderFails(k), SenderRequeues(k)], requeued);
    RunsThen(STARTED, es + [SenderFails(k), SenderRequeues(k)], requeued, [SenderDisconnects(k)], s);
  }

  /** Exactly how the queue changes while online: a call whose write has failed adds to it, and nothing is
      taken out. */
  lemma OnlineQueueChanges(s: System, e: Event)
    requires Reachable(s) && Enabled(s, e) && s.shared.state == Online
    ensures s.shared.queue <= Apply(s, e).shared.queue
    ensures Apply(s, e).shared.queue != s.shared.queue <==> e.SenderRequeues?
  {
    ReachableInvariant(s);
  }

  /** A run whose states are all online. */
  ghost predicate StaysOnline(s: System, es: seq<Event>)
    decreases |es|
  {
    s.shared.state == Online &&
    (es == [] || (Enabled(s, es[0]) && StaysOnline(Apply(s, es[0]), es[1..])))
  }

  ghost predicate Requeues(es: seq<Event>) {
    exists e :: e in es && e.SenderRequeues?
  }

  lemma ReachableNext(s: System, e: Event)
    requires Reachable(s) && Enabled(s, e)
    ensures Reachable(Apply(s, e))
  {
    var es :| Runs(STARTED, es, s);
    RunsOne(s, e);
    RunsThen(STARTED, es, s, [e], Apply(s, e));
  }

  /** Over a run that stays online nothing leaves the queue, and it is the same queue if and only if no call
      whose write had failed added to it. */
  lemma {:induction false} OnlineRunQueue(s: System, es: seq<Event>, t: System)
    requires Reachable(s) && StaysOnline(s, es) && Runs(s, es, t)
    ensures s.shared.queue <= t.shared.queue
    ensures t.shared.queue == s.shared.queue <==> !Requeues(es)
    decreases |es|
  {
    hide Apply, Enabled, Reachable;
    if es != [] {
      var e, mid := es[0], Apply(s, es[0]);
      assert es == [e] + es[1..];
      OnlineQueueChanges(s, e);
      ReachableNext(s, e);
      OnlineRunQueue(mid, es[1..], t);
    }
  }

  lemma {:induction false} RunsLast(s: System, es: seq<Event>, t: System) returns (mid: System)
    requires es != [] && Runs(s, es, t)
    ensures var n := |es| - 1;
            Runs(s, es[..n], mid) && Enabled(mid, es[n]) && t == Apply(mid, es[n])
    decreases |es|
  {
    hide Apply, Enabled;
    var n := |es| - 1;
    if n == 0 {
      mid := s;
      assert es[1..] == [];
    } else {
      mid := RunsLast(Apply(s, es[0]), es[1..], t);
      assert es[..n][1..] == es[1..][..n - 1];
    }
  }

  lemma {:induction false} StaysOnlineThen(s: System, es: seq<Event>, mid: System, e: Event)
    requires StaysOnline(s, es) && Runs(s, es, mid) && Enabled(mid, e) && Apply(mid, e).shared.state == Online
    ensures StaysOnline(s, es + [e]) && Runs(s, es + [e], Apply(mid, e))
    decreases |es|
  {
    hide Apply, Enabled;
    if es == [] {
      assert (es + [e])[1..] == [];
    } else {
      assert (es + [e])[1..] == es[1..] + [e];
      StaysOnlineThen(Apply(s, es[0]), es[1..], mid, e);
    }
  }

  /** Exactly when an online client has a queue. Every run to an online state entered Online last by the
      flusher, with an empty queue, and stayed online since; the queue is not empty if and only if since
      then a call whose write had failed put its message back. */
  lemma OnlineQueueExactly(es: seq<Event>, t: System) returns (before: seq<Event>, s: System, since: seq<Event>)
    requires Runs(STARTED, es, t) && t.shared.state == Online
    ensures es == before + [FlushChecks] + since
    ensures Runs(STARTED, before, s) && s.shared.state == Syncing && s.shared.queue == []
    ensures Enabled(s, FlushChecks) && StaysOnline(Apply(s, FlushChecks), since) && Runs(Apply(s, FlushChecks), since, t)
    ensures t.shared.queue != [] <==> Requeues(since)
  {
    before, s, since := OnlineEntry(es, t);
    assert Reachable(s);
    ReachableNext(s, FlushChecks);
    OnlineRunQueue(Apply(s, FlushChecks), since, t);
  }

  lemma {:induction false} OnlineEntry(es: seq<Event>, t: System) returns (before: seq<Event>, s: System, since: seq<Event>)
    requires Runs(STARTED, es, t) && t.shared.state == Online
    ensures es == before + [FlushChecks] + since
    ensures Runs(STARTED, before, s) && s.shared.state == Syncing && s.shared.queue == []
    ensures Enabled(s, FlushChecks) && Apply(s, FlushChecks).shared.queue == []
    ensures StaysOnline(Apply(s, FlushChecks), since) && Runs(Apply(s, FlushChecks), since, t)
    decreases |es|
  {
    hide Apply, Enabled;
    var n := |es| - 1;
    var mid := RunsLast(STARTED, es, t);
    assert es == es[..n] + [es[n]];
    assert Reachable(mid);
    if mid.shared.state == Online {
      before, s, since := OnlineEntry(es[..n], mid);
      StaysOnlineThen(Apply(s, FlushChecks), since, mid, es[n]);
      since := since + [es[n]];
    } else {
      before, s, since := es[..n], mid, [];
      StateChanges(mid, es[n]);
    }
  }
}
