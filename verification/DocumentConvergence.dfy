/** Exactly when documents converge: the condition of Confluence, lifted from lists that receive inserts in
    causal order to replicas that receive inserts and deletes in any order, with re-sends, through their
    buffers. */
module DocumentConvergence {
  import opened Identifiers
  import opened ReplicatedList
  import opened Commutation
  import opened Confluence
  import opened ConcurrentRounds
  import opened DocumentSpec
  import opened DocumentLaws
  import D = Document

  // ----- Every run delivers its inserts in a causal order

  ghost predicate LoggedIn(s: seq<InsertOp>, log: map<ID, InsertOp>) {
    forall o :: o in s ==> o.newID in log && log[o.newID] == o
  }

  ghost predicate LogGrows(log: map<ID, InsertOp>, more: map<ID, InsertOp>) {
    forall k :: k in log ==> k in more && more[k] == log[k]
  }

  lemma {:induction false} ReleasedDelivers(d: Doc, d': Doc) returns (s: seq<InsertOp>)
    requires Core(d) && Released(d, d')
    ensures Causal(Ids(d.list), s) && Deliverable(d.list, s) && d'.list == Deliver(d.list, s) && LoggedIn(s, d.insLog)
    decreases d.pendIns.Keys
  {
    hide WellFormed, Ids, Integrate, Grounded, Counted, DeleteLogExact, ElementsLogged;
    if Saturated(d) && d' == d {
      s := [];
    } else {
      var k :| Releasable(d, k) && Released(Absorb(d, d.pendIns[k]), d');
      var op := d.pendIns[k];
      AbsorbCore(d, op);
      ReleaseKeepsLog(d, k);
      var t := ReleasedDelivers(Absorb(d, op), d');
      s := [op] + t;
      Cons(d.list, op, t);
    }
  }

  lemma AbsorbDelivers(d: Doc, op: InsertOp, mid: Doc) returns (s: seq<InsertOp>)
    requires Core(d) && Real(op.newID) && op.newID !in Ids(d.list) && Ready(Ids(d.list), op) && Integrable(d.list, op)
    requires (op.newID in d.insLog ==> d.insLog[op.newID] == op) && Released(Absorb(d, op), mid)
    ensures Causal(Ids(d.list), s) && Deliverable(d.list, s) && mid.list == Deliver(d.list, s) && LoggedIn(s, d.insLog[op.newID := op])
  {
    hide Core, Ids, Integrate, Released;
    AbsorbCore(d, op);
    var t := ReleasedDelivers(Absorb(d, op), mid);
    s := [op] + t;
    Cons(d.list, op, t);
  }

  lemma InsertDelivers(d: Doc, op: InsertOp, d': Doc) returns (s: seq<InsertOp>)
    requires Inv(d) && Acceptable(d, Ins(op)) && InsertStep(d, op, d') && InsertOutcome(d, op) == Integrated
    ensures Causal(Ids(d.list), s) && Deliverable(d.list, s) && d'.list == Deliver(d.list, s)
    ensures LoggedIn(s, d.insLog[op.newID := op])
  {
    assert Core(d);
    hide Core, Ids, Integrate, Released, Inv, Causal, Deliverable, Deliver;
    var mid :| Released(Absorb(d, op), mid) && d' == ApplyPendingDeletes(mid);
    s := AbsorbDelivers(d, op, mid);
  }

  lemma StepLogs(d: Doc, m: Msg, d': Doc)
    requires Inv(d) && Acceptable(d, m) && Step(d, m, d')
    ensures LogGrows(d.insLog, d'.insLog) && (m.Ins? ==> d'.insLog == d.insLog[m.op.newID := m.op])
  {
    hide Inv, Step;
    StepKeeps(d, m, d');
  }

  lemma SameList(d: Doc, m: Msg, d': Doc)
    requires Step(d, m, d') && !(m.Ins? && InsertOutcome(d, m.op) == Integrated)
    ensures d'.list == d.list
  {
  }

  lemma StepDelivers(d: Doc, m: Msg, d': Doc) returns (s: seq<InsertOp>)
    requires Inv(d) && Acceptable(d, m) && Step(d, m, d')
    ensures Causal(Ids(d.list), s) && Deliverable(d.list, s) && d'.list == Deliver(d.list, s) && LoggedIn(s, d'.insLog)
    ensures LogGrows(d.insLog, d'.insLog)
  {
    StepLogs(d, m, d');
    if m.Ins? && InsertOutcome(d, m.op) == Integrated {
      s := InsertDelivers(d, m.op, d');
    } else {
      hide Inv, Step, Acceptable, InsertOutcome;
      SameList(d, m, d');
      s := [];
    }
  }

  /** The inserts that a run has added to the list. */
  ghost function Joined(d: Doc, e: Doc): set<InsertOp> {
    set k | k in Ids(e.list) && k !in Ids(d.list) && k in e.insLog :: e.insLog[k]
  }

  /** Whatever the order of the messages, the buffers and the iteration order, a run integrates its inserts
      in some causal order: its list is that delivery, and the inserts are the logged ones that joined. */
  lemma {:induction false} RunDelivers(d: Doc, ms: seq<Msg>, e: Doc) returns (s: seq<InsertOp>)
    requires Inv(d) && AllAcceptable(d, ms) && Run(d, ms, e)
    ensures Causal(Ids(d.list), s) && Deliverable(d.list, s) && e.list == Deliver(d.list, s)
    ensures LoggedIn(s, e.insLog) && Ops(s) == Joined(d, e) && LogGrows(d.insLog, e.insLog)
    decreases |ms|
  {
    InvWellFormed(d);
    if ms == [] {
      s := [];
      JoinedAre(d, e, s);
    } else {
      hide Inv, Step, AllAcceptable, Acceptable, Joined, Ids, LoggedIn, LogGrows, WellFormed;
      var mid :| Step(d, ms[0], mid) && Run(mid, ms[1..], e);
      FirstAcceptable(d, ms);
      AcceptableAfter(d, ms, mid);
      var s1 := StepDelivers(d, ms[0], mid);
      var s2 := RunDelivers(mid, ms[1..], e);
      s := s1 + s2;
      hide Causal, Deliverable, Deliver, Run;
      DeliverOn(d.list, s1, s2);
      LoggedOn(d.insLog, s1, mid.insLog, s2, e.insLog);
      JoinedAre(d, e, s);
    }
  }

  lemma LoggedOn(log: map<ID, InsertOp>, s: seq<InsertOp>, mid: map<ID, InsertOp>, t: seq<InsertOp>, more: map<ID, InsertOp>)
    requires LoggedIn(s, mid) && LoggedIn(t, more) && LogGrows(log, mid) && LogGrows(mid, more)
    ensures LoggedIn(s + t, more) && LogGrows(log, more)
  {
  }

  lemma DeliverOn(l: seq<Elem>, s: seq<InsertOp>, t: seq<InsertOp>)
    requires WellFormed(l) && Causal(Ids(l), s) && Deliverable(l, s)
    requires Causal(Ids(Deliver(l, s)), t) && Deliverable(Deliver(l, s), t)
    ensures Causal(Ids(l), s + t) && Deliverable(l, s + t) && Deliver(l, s + t) == Deliver(Deliver(l, s), t)
  {
    DeliverKeeps(l, s);
    CausalConcat(Ids(l), s, t);
    DeliverConcat(l, s, t);
  }

  lemma InvWellFormed(d: Doc)
    requires Inv(d)
    ensures WellFormed(d.list)
  {
  }

  lemma JoinedAre(d: Doc, e: Doc, s: seq<InsertOp>)
    requires WellFormed(d.list) && Causal(Ids(d.list), s) && Deliverable(d.list, s) && e.list == Deliver(d.list, s)
    requires LoggedIn(s, e.insLog)
    ensures Ops(s) == Joined(d, e)
  {
    DeliverKeeps(d.list, s);
    CausalFresh(Ids(d.list), s);
    forall o
      ensures o in Ops(s) <==> o in Joined(d, e)
    {
      if o in s {
        assert o.newID in NewIDs(s);
      }
    }
  }

  /** Replicas in one state that receive the same messages end in one state, if any two inserts that can
      meet satisfy the diamond condition. */
  lemma DocumentsConverge(d: Doc, r: Doc, ms: seq<Msg>, ms': seq<Msg>, e: Doc, e': Doc, ops: set<InsertOp>)
    requires Inv(d) && Inv(r) && SameDocument(d, r) && SameMessages(ms, ms')
    requires AllAcceptable(d, ms) && AllAcceptable(r, ms') && Run(d, ms, e) && Run(r, ms', e')
    requires LocallyConfluent(d.list, ops) && Joined(d, e) <= ops
    ensures SameDocument(e, e')
  {
    hide Inv, AllAcceptable, Run, Joined, Ids, LocallyConfluent, Causal, Deliverable;
    var s := RunDelivers(d, ms, e);
    var s' := RunDelivers(r, ms', e');
    LogsAgree(d, r, ms, ms', e, e');
    LogsDetermine(e, e');
    SameJoined(d, e, r, e');
    InvWellFormed(d);
    LocallyConfluentConverges(d.list, s, s', ops);
  }

  lemma SameJoined(d: Doc, e: Doc, r: Doc, e': Doc)
    requires d.list == r.list && Ids(e.list) == Ids(e'.list) && e.insLog == e'.insLog
    ensures Joined(d, e) == Joined(r, e')
  {
  }

  // ----- When one replica goes through, so does every other

  /** Another replica ended in `e`, after the causal order `p` from the list `l`. */
  ghost predicate Goal(l: seq<Elem>, p: seq<InsertOp>, e: Doc) {
    && WellFormed(l) && Causal(Ids(l), p) && Deliverable(l, p) && LocallyConfluent(l, Ops(p))
    && Inv(e) && e.list == Deliver(l, p) && LoggedIn(p, e.insLog)
  }

  ghost predicate PartOf(l: seq<Elem>, p: seq<InsertOp>, t: seq<InsertOp>) {
    Causal(Ids(l), t) && Deliverable(l, t) && Ops(t) <= Ops(p)
  }

  ghost predicate ReachedBy(l: seq<Elem>, p: seq<InsertOp>, r: seq<Elem>, t: seq<InsertOp>) {
    PartOf(l, p, t) && r == Deliver(l, t)
  }

  /** The state `d` is on the way to `e`: its list is a delivery of part of `p`, its log part of that of `e`. */
  ghost predicate Toward(l: seq<Elem>, p: seq<InsertOp>, e: Doc, d: Doc) {
    (exists t :: ReachedBy(l, p, d.list, t)) && LogGrows(d.insLog, e.insLog)
  }

  /** In a saturated state a logged insert with both neighbours in the list is in the list. */
  lemma ReadyJoins(e: Doc, op: InsertOp)
    requires Inv(e) && op.newID in e.insLog && e.insLog[op.newID] == op && Ready(Ids(e.list), op)
    ensures op.newID in Ids(e.list)
  {
    assert forall k :: k in e.pendIns ==> e.pendIns[k] == e.insLog[k] && !Ready(Ids(e.list), e.pendIns[k]);
  }

  /** The next insert is one of `p`, and can be integrated in the order in which it comes. */
  lemma NextOf(l: seq<Elem>, p: seq<InsertOp>, e: Doc, t: seq<InsertOp>, op: InsertOp)
    requires Goal(l, p, e) && PartOf(l, p, t)
    requires op.newID in e.insLog && e.insLog[op.newID] == op && Real(op.newID)
    requires op.newID !in Ids(Deliver(l, t)) && Ready(Ids(Deliver(l, t)), op)
    ensures PartOf(l, p, t + [op]) && Integrable(Deliver(l, t), op)
    ensures Deliver(l, t + [op]) == Integrate(Deliver(l, t), op)
  {
    DeliverKeeps(l, t);
    NextIn(l, p, e, t, op);
    ExtendsSafely(l, p, t, op);
  }

  lemma ExtendsSafely(l: seq<Elem>, p: seq<InsertOp>, t: seq<InsertOp>, op: InsertOp)
    requires WellFormed(l) && Causal(Ids(l), p) && Deliverable(l, p) && LocallyConfluent(l, Ops(p)) && PartOf(l, p, t)
    requires op in p && Real(op.newID) && op.newID !in Ids(l) + NewIDs(t) && Ready(Ids(l) + NewIDs(t), op)
    ensures PartOf(l, p, t + [op]) && Integrable(Deliver(l, t), op)
    ensures Deliver(l, t + [op]) == Integrate(Deliver(l, t), op)
  {
    ExtendsCausally(Ids(l), p, t, op);
    DeliverOne(l, t, op);
    hide Deliver, Deliverable, Causal, Ids, LocallyConfluent;
    var rest := Completion(Ids(l), p, t + [op]);
    LocallyConfluentConverges(l, p, t + [op] + rest, Ops(p));
    DeliverConcat(l, t + [op], rest);
  }

  lemma ExtendsCausally(ids: set<ID>, p: seq<InsertOp>, t: seq<InsertOp>, op: InsertOp)
    requires Causal(ids, t) && Ops(t) <= Ops(p)
    requires op in p && Real(op.newID) && op.newID !in ids + NewIDs(t) && Ready(ids + NewIDs(t), op)
    ensures Causal(ids, t + [op]) && Ops(t + [op]) <= Ops(p)
  {
    assert [op][1..] == [];
    CausalConcat(ids, t, [op]);
    assert Ops(t + [op]) == Ops(t) + {op};
  }

  lemma DeliverOne(l: seq<Elem>, t: seq<InsertOp>, op: InsertOp)
    requires Deliverable(l, t)
    ensures Deliverable(l, t + [op]) <==> Integrable(Deliver(l, t), op)
    ensures Deliverable(l, t + [op]) ==> Deliver(l, t + [op]) == Integrate(Deliver(l, t), op)
  {
    assert [op][1..] == [];
    DeliverConcat(l, t, [op]);
  }

  lemma NextIn(l: seq<Elem>, p: seq<InsertOp>, e: Doc, t: seq<InsertOp>, op: InsertOp)
    requires Goal(l, p, e) && PartOf(l, p, t)
    requires op.newID in e.insLog && e.insLog[op.newID] == op
    requires op.newID !in Ids(l) + NewIDs(t) && Ready(Ids(l) + NewIDs(t), op)
    ensures op in p
  {
    DeliverKeeps(l, p);
    forall x | x in NewIDs(t)
      ensures x in NewIDs(p)
    {
      var o :| o in t && o.newID == x;
      assert o in Ops(t);
    }
    ReadyJoins(e, op);
    var o :| o in p && o.newID == op.newID;
  }

  lemma AbsorbToward(l: seq<Elem>, p: seq<InsertOp>, e: Doc, d: Doc, op: InsertOp)
    requires Goal(l, p, e) && Core(d) && Toward(l, p, e, d)
    requires op.newID in e.insLog && e.insLog[op.newID] == op && Real(op.newID)
    requires op.newID !in Ids(d.list) && Ready(Ids(d.list), op)
    ensures Integrable(d.list, op) && Core(Absorb(d, op)) && Toward(l, p, e, Absorb(d, op))
  {
    hide Goal, PartOf, Core, Ids, Integrable, Integrate;
    var t :| ReachedBy(l, p, d.list, t);
    NextOf(l, p, e, t, op);
    assert ReachedBy(l, p, Integrate(d.list, op), t + [op]);
    AbsorbCore(d, op);
  }

  lemma PendingLoggedToo(l: seq<Elem>, p: seq<InsertOp>, e: Doc, d: Doc, k: ID)
    requires Core(d) && Toward(l, p, e, d) && k in d.pendIns
    ensures d.pendIns[k].newID == k && Real(k) && k !in Ids(d.list) && k in e.insLog && e.insLog[k] == d.pendIns[k]
  {
  }

  lemma {:induction false} TowardSafe(l: seq<Elem>, p: seq<InsertOp>, e: Doc, d: Doc)
    requires Goal(l, p, e) && Core(d) && Toward(l, p, e, d)
    ensures Safe(d)
    decreases d.pendIns.Keys
  {
    hide Goal, Core, Toward, Ids, Integrable, Integrate;
    forall k | k in d.pendIns && d.pendIns[k].newID == k && Ready(Ids(d.list), d.pendIns[k])
      ensures Integrable(d.list, d.pendIns[k]) && Safe(Absorb(d, d.pendIns[k]))
    {
      PendingLoggedToo(l, p, e, d, k);
      AbsorbToward(l, p, e, d, d.pendIns[k]);
      TowardSafe(l, p, e, Absorb(d, d.pendIns[k]));
    }
  }

  lemma {:induction false} ReleasedToward(l: seq<Elem>, p: seq<InsertOp>, e: Doc, d: Doc, d': Doc)
    requires Goal(l, p, e) && Core(d) && Toward(l, p, e, d) && Released(d, d')
    ensures Toward(l, p, e, d')
    decreases d.pendIns.Keys
  {
    hide Goal, Core, Toward, Ids, Integrate, Saturated;
    if !(Saturated(d) && d' == d) {
      var k :| Releasable(d, k) && Released(Absorb(d, d.pendIns[k]), d');
      PendingLoggedToo(l, p, e, d, k);
      ReadyWhenIntegrable(d.list, d.pendIns[k]);
      AbsorbToward(l, p, e, d, d.pendIns[k]);
      ReleasedToward(l, p, e, Absorb(d, d.pendIns[k]), d');
    }
  }

  lemma ReadyWhenIntegrable(l: seq<Elem>, op: InsertOp)
    requires Integrable(l, op)
    ensures Ready(Ids(l), op)
  {
  }

  ghost predicate LoggedMsg(m: Msg, log: map<ID, InsertOp>) {
    m.Ins? ==> m.op.newID in log && log[m.op.newID] == m.op
  }

  lemma InsertToward(l: seq<Elem>, p: seq<InsertOp>, e: Doc, d: Doc, op: InsertOp)
    requires Goal(l, p, e) && Inv(d) && Toward(l, p, e, d) && Acceptable(d, Ins(op)) && LoggedMsg(Ins(op), e.insLog)
    requires InsertOutcome(d, op) == Integrated
    ensures Integrable(d.list, op) && Safe(Absorb(d, op))
    ensures forall mid :: Released(Absorb(d, op), mid) ==> Toward(l, p, e, ApplyPendingDeletes(mid))
  {
    assert Core(d);
    hide Goal, Core, Inv, Ids, Integrable, Integrate, Released, Safe;
    AbsorbToward(l, p, e, d, op);
    TowardSafe(l, p, e, Absorb(d, op));
    forall mid | Released(Absorb(d, op), mid)
      ensures Toward(l, p, e, ApplyPendingDeletes(mid))
    {
      ReleasedToward(l, p, e, Absorb(d, op), mid);
    }
  }

  lemma StepToward(l: seq<Elem>, p: seq<InsertOp>, e: Doc, d: Doc, m: Msg)
    requires Goal(l, p, e) && Inv(d) && Toward(l, p, e, d) && Acceptable(d, m) && LoggedMsg(m, e.insLog)
    ensures SafeToReceive(d, m)
    ensures forall d' :: Step(d, m, d') ==> Toward(l, p, e, d')
  {
    if m.Ins? && InsertOutcome(d, m.op) == Integrated {
      hide Goal, Inv, Toward, Acceptable, Released, Safe, Integrable, Integrate, Ids;
      InsertToward(l, p, e, d, m.op);
    } else {
      hide Goal, Inv, Toward, Acceptable, Step, InsertOutcome;
      forall d' | Step(d, m, d')
        ensures Toward(l, p, e, d')
      {
        OtherToward(l, p, e, d, m, d');
      }
    }
  }

  lemma OtherToward(l: seq<Elem>, p: seq<InsertOp>, e: Doc, d: Doc, m: Msg, d': Doc)
    requires Inv(d) && Toward(l, p, e, d) && Acceptable(d, m) && LoggedMsg(m, e.insLog)
    requires Step(d, m, d') && !(m.Ins? && InsertOutcome(d, m.op) == Integrated)
    ensures Toward(l, p, e, d')
  {
    hide Inv, Step, Acceptable, InsertOutcome, ReachedBy;
    SameList(d, m, d');
    StepKeeps(d, m, d');
  }

  lemma {:induction false} TowardRunSafe(l: seq<Elem>, p: seq<InsertOp>, e: Doc, d: Doc, ms: seq<Msg>)
    requires Goal(l, p, e) && Inv(d) && Toward(l, p, e, d) && AllAcceptable(d, ms)
    requires forall m :: m in ms ==> LoggedMsg(m, e.insLog)
    ensures SafeRun(d, ms)
    decreases |ms|
  {
    hide Goal, Inv, Toward, AllAcceptable, Step, SafeToReceive, Acceptable;
    if ms != [] {
      FirstAcceptable(d, ms);
      assert ms[0] in ms;
      StepToward(l, p, e, d, ms[0]);
      forall mid | Step(d, ms[0], mid)
        ensures SafeRun(mid, ms[1..])
      {
        AcceptableAfter(d, ms, mid);
        TowardRunSafe(l, p, e, mid, ms[1..]);
      }
    }
  }

  /** A replica in the same state that is sent the same messages, in any order and with any repetitions. */
  ghost predicate Replica(d: Doc, ms: seq<Msg>, r: Doc, ms': seq<Msg>) {
    Inv(r) && SameDocument(d, r) && AllAcceptable(r, ms') && SameMessages(ms, ms')
  }

  /** Every replica goes through without walking off its list, and ends in the state `e`. */
  ghost predicate ReplicasConverge(d: Doc, ms: seq<Msg>, e: Doc) {
    forall r, ms' :: Replica(d, ms, r, ms') ==> GoesTo(r, ms', e)
  }

  ghost predicate GoesTo(r: Doc, ms: seq<Msg>, e: Doc) {
    SafeRun(r, ms) && forall e' :: Run(r, ms, e') ==> SameDocument(e, e')
  }

  lemma RunGoal(d: Doc, ms: seq<Msg>, e: Doc) returns (p: seq<InsertOp>)
    requires Inv(d) && AllAcceptable(d, ms) && Run(d, ms, e) && LocallyConfluent(d.list, Joined(d, e))
    ensures Goal(d.list, p, e) && LogGrows(d.insLog, e.insLog) && Toward(d.list, p, e, d)
  {
    hide AllAcceptable, Run, LocallyConfluent, Joined, Inv;
    p := RunDelivers(d, ms, e);
    LogsAgree(d, d, ms, ms, e, e);
    InvWellFormed(d);
    assert ReachedBy(d.list, p, d.list, []);
  }

  /** If one replica goes through, and any two inserts that can meet satisfy the diamond condition, then
      every replica goes through and ends in the same state. */
  lemma ReplicaGoes(d: Doc, ms: seq<Msg>, e: Doc, r: Doc, ms': seq<Msg>)
    requires Inv(d) && AllAcceptable(d, ms) && Run(d, ms, e) && LocallyConfluent(d.list, Joined(d, e))
    requires Replica(d, ms, r, ms')
    ensures GoesTo(r, ms', e)
  {
    var p := RunGoal(d, ms, e);
    AllLogged(d, ms, e);
    hide AllAcceptable, Run, LocallyConfluent, Joined, Inv, Goal, LoggedMsg;
    TowardRunSafe(d.list, p, e, r, ms');
    forall e' | Run(r, ms', e')
      ensures SameDocument(e, e')
    {
      DocumentsConverge(d, r, ms, ms', e, e', Joined(d, e));
    }
  }

  /** A run logs its inserts, and its log holds nothing else that is new. */
  lemma AllLogged(d: Doc, ms: seq<Msg>, e: Doc)
    requires Inv(d) && AllAcceptable(d, ms) && Run(d, ms, e)
    ensures forall m :: m in ms ==> LoggedMsg(m, e.insLog)
    ensures forall k :: k in e.insLog && k !in d.insLog ==> Ins(e.insLog[k]) in ms
  {
    assert forall m :: m in ms ==> Acceptable(d, m);
    hide Inv, Run;
    RunKeeps(d, ms, e);
    forall m | m in ms
      ensures LoggedMsg(m, e.insLog)
    {
      if m.Ins? {
        LoggedInsertsAt(d.insLog, ms, m.op.newID);
      }
    }
    forall k | k in e.insLog && k !in d.insLog
      ensures Ins(e.insLog[k]) in ms
    {
      LoggedInsertsAt(d.insLog, ms, k);
      var m :| m in ms && m.Ins? && m.op.newID == k;
      assert m == Ins(e.insLog[k]);
    }
  }

  // ----- The condition is needed

  ghost function Sends(s: seq<InsertOp>): seq<Msg> {
    seq(|s|, i requires 0 <= i < |s| => Ins(s[i]))
  }

  lemma SendsConcat(s: seq<InsertOp>, t: seq<InsertOp>, rest: seq<Msg>)
    ensures Sends(s + t) + rest == Sends(s) + (Sends(t) + rest)
  {
  }

  /** No insert that is pending in `d` will ever join before `e`. */
  ghost predicate NoneReleased(d: Doc, e: Doc) {
    && Inv(e) && Ids(d.list) <= Ids(e.list)
    && forall k :: k in d.pendIns ==> k !in Ids(e.list) && k in e.insLog && e.insLog[k] == d.pendIns[k]
  }

  lemma StaysPending(d: Doc, e: Doc, ids: set<ID>)
    requires NoneReleased(d, e) && ids <= Ids(e.list)
    ensures NoneReady(ids, d.pendIns)
  {
    forall k | k in d.pendIns
      ensures !Ready(ids, d.pendIns[k])
    {
      assert k in e.pendIns && e.pendIns[k] == d.pendIns[k] && !Ready(Ids(e.list), e.pendIns[k]);
    }
  }

  lemma AbsorbStays(d: Doc, e: Doc, op: InsertOp)
    requires Core(d) && NoneReleased(d, e) && Acceptable(d, Ins(op))
    requires op.newID in Ids(e.list) && op.newID !in Ids(d.list) && Integrable(d.list, op)
    ensures Saturated(Absorb(d, op)) && NoneReleased(Absorb(d, op), e)
  {
    hide Core, Inv, Integrate, Integrable;
    AbsorbCore(d, op);
    assert d.pendIns - {op.newID} == d.pendIns;
    StaysPending(d, e, Ids(Absorb(d, op).list));
  }

  lemma DeliverFirst(d: Doc, e: Doc, op: InsertOp) returns (mid: Doc)
    requires Inv(d) && NoneReleased(d, e) && Acceptable(d, Ins(op))
    requires op.newID in Ids(e.list) && op.newID !in Ids(d.list) && Ready(Ids(d.list), op) && Integrable(d.list, op)
    ensures Step(d, Ins(op), mid) && mid.list == Integrate(d.list, op) && NoneReleased(mid, e)
  {
    AbsorbStays(d, e, op);
    hide Inv, Core, Acceptable, Integrate, Integrable, Ids, Saturated, Released, NoneReleased, ApplyPendingDeletes;
    ReleasedNow(Absorb(d, op));
    ReleasedStep(d, op, Absorb(d, op));
    DeletesStay(Absorb(d, op), e);
    mid := ApplyPendingDeletes(Absorb(d, op));
  }

  lemma ReleasedStep(d: Doc, op: InsertOp, mid: Doc)
    requires InsertOutcome(d, op) == Integrated && Integrable(d.list, op) && Released(Absorb(d, op), mid)
    ensures InsertStep(d, op, ApplyPendingDeletes(mid))
  {
  }

  lemma DeletesStay(d: Doc, e: Doc)
    requires NoneReleased(d, e)
    ensures NoneReleased(ApplyPendingDeletes(d), e) && ApplyPendingDeletes(d).list == d.list
  {
  }

  lemma RunsVia(d: Doc, ms: seq<Msg>, next: Doc, mid: Doc, rest: seq<Msg>)
    requires ms != [] && Step(d, ms[0], next)
    requires SafeRun(next, ms[1..]) ==> SafeRun(mid, rest)
    requires forall f :: Run(mid, rest, f) ==> Run(next, ms[1..], f)
    ensures SafeRun(d, ms) ==> SafeRun(mid, rest)
    ensures forall f :: Run(mid, rest, f) ==> Run(d, ms, f)
  {
    hide Step, SafeToReceive;
  }

  lemma SendFirst(d: Doc, e: Doc, s: seq<InsertOp>, rest: seq<Msg>) returns (next: Doc)
    requires Inv(d) && NoneReleased(d, e) && AllAcceptable(d, Sends(s) + rest) && s != [] && s[0].newID in Ids(e.list)
    requires Causal(Ids(d.list), s) && Deliverable(d.list, s)
    ensures Inv(next) && NoneReleased(next, e) && AllAcceptable(next, Sends(s[1..]) + rest)
    ensures Causal(Ids(next.list), s[1..]) && Deliverable(next.list, s[1..]) && Deliver(next.list, s[1..]) == Deliver(d.list, s)
    ensures Step(d, Ins(s[0]), next)
  {
    InvWellFormed(d);
    SendsHead(s, rest);
    hide Inv, Step, Acceptable, AllAcceptable, NoneReleased, WellFormed, Integrate, Sends, Ids;
    var ms := Sends(s) + rest;
    FirstAcceptable(d, ms);
    IntegrateKeeps(d.list, s[0]);
    next := DeliverFirst(d, e, s[0]);
    AcceptableAfter(d, ms, next);
  }

  lemma SendsHead(s: seq<InsertOp>, rest: seq<Msg>)
    requires s != []
    ensures var ms := Sends(s) + rest;
            ms != [] && ms[0] == Ins(s[0]) && ms[1..] == Sends(s[1..]) + rest
  {
  }

  /** The messages of a causal order are integrated one by one as they come. */
  lemma {:induction false} DeliveryRun(d: Doc, e: Doc, s: seq<InsertOp>, rest: seq<Msg>) returns (mid: Doc)
    requires Inv(d) && NoneReleased(d, e) && AllAcceptable(d, Sends(s) + rest)
    requires Causal(Ids(d.list), s) && Deliverable(d.list, s) && forall o :: o in s ==> o.newID in Ids(e.list)
    ensures Inv(mid) && AllAcceptable(mid, rest) && mid.list == Deliver(d.list, s)
    ensures SafeRun(d, Sends(s) + rest) ==> SafeRun(mid, rest)
    ensures forall f :: Run(mid, rest, f) ==> Run(d, Sends(s) + rest, f)
    decreases |s|
  {
    if s == [] {
      assert Sends(s) + rest == rest;
      mid := d;
    } else {
      SendsHead(s, rest);
      hide Inv, Step, SafeRun, Run, AllAcceptable, NoneReleased, Ids, Causal, Deliverable, Deliver, Sends;
      var next := SendFirst(d, e, s, rest);
      mid := DeliveryRun(next, e, s[1..], rest);
      RunsVia(d, Sends(s) + rest, next, mid, rest);
    }
  }

  /** One replica ran `ms` from `d` to `e`, and no insert that was pending in `d` joined on the way. */
  ghost predicate FreshRun(d: Doc, ms: seq<Msg>, e: Doc) {
    Inv(d) && AllAcceptable(d, ms) && Run(d, ms, e) && forall k :: k in d.pendIns ==> k !in Ids(e.list)
  }

  lemma FreshRunReleasesNone(d: Doc, ms: seq<Msg>, e: Doc)
    requires FreshRun(d, ms, e)
    ensures NoneReleased(d, e)
  {
    var s := RunDelivers(d, ms, e);
    RunKeeps(d, ms, e);
    RunKeepsOrder(d, ms, e);
    forall k | k in d.pendIns
      ensures k in e.insLog && e.insLog[k] == d.pendIns[k]
    {
      assert d.pendIns[k] == d.insLog[k];
    }
  }

  /** Inserts that joined may be sent first, in any order: it is the same set of messages. */
  lemma SentFirst(d: Doc, ms: seq<Msg>, e: Doc, u: seq<InsertOp>)
    requires FreshRun(d, ms, e) && ReplicasConverge(d, ms, e) && Ops(u) <= Joined(d, e)
    ensures AllAcceptable(d, Sends(u) + ms) && GoesTo(d, Sends(u) + ms, e)
    ensures forall o :: o in u ==> o.newID in Ids(e.list)
  {
    AllLogged(d, ms, e);
    forall o | o in u
      ensures Ins(o) in ms && o.newID in Ids(e.list)
    {
      assert o in Ops(u) && o in Joined(d, e);
      JoinedIsNew(d, ms, e, o);
    }
    var ms' := Sends(u) + ms;
    forall m
      ensures m in ms <==> m in ms'
    {
      if m in ms {
        var i :| 0 <= i < |ms| && ms[i] == m;
        assert ms'[|u| + i] == m;
      }
    }
    hide Inv, Run, Acceptable, GoesTo, Sends;
    SameAcceptable(d, ms, ms');
    assert Replica(d, ms, d, ms');
  }

  lemma JoinedIsNew(d: Doc, ms: seq<Msg>, e: Doc, o: InsertOp)
    requires FreshRun(d, ms, e) && o in Joined(d, e)
    ensures o.newID in e.insLog && e.insLog[o.newID] == o && o.newID !in d.insLog && o.newID in Ids(e.list)
  {
    RunKeeps(d, ms, e);
  }

  lemma SameAcceptable(d: Doc, ms: seq<Msg>, ms': seq<Msg>)
    requires AllAcceptable(d, ms) && SameMessages(ms, ms')
    ensures AllAcceptable(d, ms')
  {
    hide Acceptable, Agree;
  }

  /** Whatever order the inserts joined in first, `e` has kept it. */
  lemma OrderSettled(d: Doc, ms: seq<Msg>, e: Doc, u: seq<InsertOp>)
    requires FreshRun(d, ms, e) && ReplicasConverge(d, ms, e) && Ops(u) <= Joined(d, e)
    requires Causal(Ids(d.list), u) && Deliverable(d.list, u)
    ensures OrderKept(Deliver(d.list, u), e.list)
  {
    FreshRunReleasesNone(d, ms, e);
    SentFirst(d, ms, e, u);
    hide Inv, Run, SafeRun, NoneReleased, Sends, AllAcceptable, Causal, Deliverable, Deliver, OrderKept, ReplicasConverge;
    var mid := DeliveryRun(d, e, u, ms);
    var f := SafeRunEnds(mid, ms);
    RunKeepsOrder(mid, ms, f);
  }

  /** The next insert is integrated without walking off the list. */
  lemma NextGoes(d: Doc, ms: seq<Msg>, e: Doc, u: seq<InsertOp>, a: InsertOp)
    requires FreshRun(d, ms, e) && ReplicasConverge(d, ms, e) && Ops(u + [a]) <= Joined(d, e)
    requires Causal(Ids(d.list), u + [a]) && Deliverable(d.list, u)
    ensures Integrable(Deliver(d.list, u), a)
  {
    FreshRunReleasesNone(d, ms, e);
    SentFirst(d, ms, e, u + [a]);
    SendsConcat(u, [a], ms);
    CausalLast(d.list, u, a);
    assert forall o :: o in u ==> o in u + [a];
    hide Inv, Run, SafeRun, NoneReleased, AllAcceptable, Causal, Deliverable, Deliver, ReplicasConverge, Sends, Ids, Joined;
    var mid := DeliveryRun(d, e, u, Sends([a]) + ms);
    ReceivesFirst(mid, a, ms);
  }

  lemma CausalLast(l: seq<Elem>, u: seq<InsertOp>, a: InsertOp)
    requires Causal(Ids(l), u + [a]) && WellFormed(l)
    ensures Causal(Ids(l), u) && Real(a.newID)
    ensures Deliverable(l, u) ==> a.newID !in Ids(Deliver(l, u)) && Ready(Ids(Deliver(l, u)), a)
  {
    CausalConcat(Ids(l), u, [a]);
    if Deliverable(l, u) {
      DeliverKeeps(l, u);
    }
  }

  lemma ReceivesFirst(d: Doc, a: InsertOp, rest: seq<Msg>)
    requires SafeRun(d, Sends([a]) + rest) && a.newID !in Ids(d.list) && Ready(Ids(d.list), a)
    ensures Integrable(d.list, a)
  {
    assert (Sends([a]) + rest)[0] == Ins(a);
    assert SafeToReceive(d, Ins(a));
  }

  /** Two inserts that meet satisfy the diamond condition: otherwise two orders leave them in different
      orders, and both are kept in `e`. */
  lemma MustSatisfy(d: Doc, ms: seq<Msg>, e: Doc, s: seq<InsertOp>, a: InsertOp, b: InsertOp)
    requires FreshRun(d, ms, e) && ReplicasConverge(d, ms, e) && Meet(d.list, Joined(d, e), s, a, b)
    ensures MeetDiamond(d.list, s, a, b)
  {
    hide FreshRun, ReplicasConverge, Joined, DiamondCondition;
    FreshWellFormed(d, ms, e);
    MeetOps(s, a, b);
    MeetOps(s, b, a);
    MeetsConcurrently(d, ms, e, s, a, b);
    var r := Deliver(d.list, s);
    CommuteIff(r, a, b);
    BothDelivered(d.list, s, a, b);
    BothDelivered(d.list, s, b, a);
    OrderSettled(d, ms, e, s + [a, b]);
    OrderSettled(d, ms, e, s + [b, a]);
    DeliveredTwo(r, a, b);
    DeliveredTwo(r, b, a);
    hide Deliver, Deliverable, Causal, Integrable, Integrate, WellFormed, Ids, Precedes;
    KeptTwice(Integrate(Integrate(r, a), b), Integrate(Integrate(r, b), a), e.list, a.newID, b.newID);
  }

  lemma KeptTwice(l: seq<Elem>, l': seq<Elem>, f: seq<Elem>, x: ID, y: ID)
    requires OrderKept(l, f) && OrderKept(l', f) && x != y
    requires x in Ids(l) && y in Ids(l) && x in Ids(l') && y in Ids(l')
    ensures !(Precedes(l, x, y) <==> Precedes(l', y, x))
  {
    hide Precedes;
    OneOrTheOther(f, x, y);
    assert Precedes(f, x, y) <==> Precedes(l, x, y);
    assert Precedes(f, y, x) <==> Precedes(l', y, x);
  }

  lemma FreshWellFormed(d: Doc, ms: seq<Msg>, e: Doc)
    requires FreshRun(d, ms, e)
    ensures WellFormed(d.list)
  {
  }

  lemma MeetOps(s: seq<InsertOp>, a: InsertOp, b: InsertOp)
    ensures Ops(s + [a, b]) == Ops(s) + {a, b} && Ops(s + [a]) == Ops(s) + {a}
    ensures s + [a] + [b] == s + [a, b]
  {
  }

  lemma MeetsConcurrently(d: Doc, ms: seq<Msg>, e: Doc, s: seq<InsertOp>, a: InsertOp, b: InsertOp)
    requires FreshRun(d, ms, e) && ReplicasConverge(d, ms, e) && Meet(d.list, Joined(d, e), s, a, b)
    ensures Concurrent(Deliver(d.list, s), a, b)
  {
    var ids := Ids(d.list);
    FreshWellFormed(d, ms, e);
    MeetOps(s, a, b);
    MeetOps(s, b, a);
    CausalConcat(ids, s + [a], [b]);
    CausalConcat(ids, s + [b], [a]);
    CausalLast(d.list, s, a);
    CausalLast(d.list, s, b);
    MeetFresh(ids, s, a, b);
    FreshPair(ids, s, a, b);
    DeliverKeeps(d.list, s);
    hide FreshRun, ReplicasConverge, Joined, Causal, Deliverable, Deliver;
    NextGoes(d, ms, e, s, a);
    NextGoes(d, ms, e, s, b);
  }

  lemma FreshPair(ids: set<ID>, s: seq<InsertOp>, a: InsertOp, b: InsertOp)
    requires Causal(ids, s + [a, b])
    ensures a.newID != b.newID
  {
    CausalConcat(ids, s, [a, b]);
    assert [a, b][1..] == [b];
  }

  lemma BothDelivered(l: seq<Elem>, s: seq<InsertOp>, a: InsertOp, b: InsertOp)
    requires Deliverable(l, s) && Integrable(Deliver(l, s), a) && Integrable(Integrate(Deliver(l, s), a), b)
    ensures Deliverable(l, s + [a, b]) && Deliver(l, s + [a, b]) == Integrate(Integrate(Deliver(l, s), a), b)
  {
    MeetOps(s, a, b);
    DeliverOne(l, s, a);
    DeliverOne(l, s + [a], b);
  }

  /** Exactly when documents converge. One replica ran the messages `ms` from `d` and ended in `e`. Every
      replica that receives them, inserts and deletes, in any order and with any repetitions, goes through
      without walking off its list and ends in the same state, if and only if any two of the inserts that
      can meet satisfy the diamond condition in the list where they meet. */
  lemma DocumentsConvergeIff(d: Doc, ms: seq<Msg>, e: Doc)
    requires FreshRun(d, ms, e)
    ensures ReplicasConverge(d, ms, e) <==> LocallyConfluent(d.list, Joined(d, e))
  {
    hide Inv, Run, AllAcceptable, Replica, GoesTo, Joined, MeetDiamond;
    if LocallyConfluent(d.list, Joined(d, e)) {
      forall r, ms' | Replica(d, ms, r, ms')
        ensures GoesTo(r, ms', e)
      {
        ReplicaGoes(d, ms, e, r, ms');
      }
    }
    if ReplicasConverge(d, ms, e) {
      forall s: seq<InsertOp>, a, b | Meet(d.list, Joined(d, e), s, a, b)
        ensures MeetDiamond(d.list, s, a, b)
      {
        MustSatisfy(d, ms, e, s, a, b);
      }
    }
  }

  // ----- A delta is integrated in its order

  /** Inserts of a delta are integrated in the order in which they stand in it. */
  lemma DeltaSplits(d: Doc, xs: seq<InsertOp>, ys: seq<InsertOp>, e: Doc)
    ensures Run(d, D.DeltaMessages(xs + ys, []), e) <==>
            exists mid :: Run(d, D.DeltaMessages(xs, []), mid) && Run(mid, D.DeltaMessages(ys, []), e)
  {
    assert D.DeltaMessages(xs + ys, []) == D.DeltaMessages(xs, []) + D.DeltaMessages(ys, []);
    RunConcat(d, D.DeltaMessages(xs, []), D.DeltaMessages(ys, []), e);
  }

  lemma DeltaOfOne(d: Doc, op: InsertOp, id: ID, e: Doc)
    ensures Run(d, D.DeltaMessages([op], []), e) <==> InsertStep(d, op, e)
    ensures Run(d, D.DeltaMessages([], [id]), e) <==> e == DeleteStep(d, id)
  {
    assert D.DeltaMessages([op], []) == [Ins(op)] && D.DeltaMessages([], [id]) == [Del(id)];
    RunOne(d, Ins(op), e);
    RunOne(d, Del(id), e);
  }

  /** All deletes come after all inserts, and keep their order too. */
  lemma DeltaDeletesLast(d: Doc, xs: seq<InsertOp>, dels: seq<ID>, more: seq<ID>, e: Doc)
    ensures Run(d, D.DeltaMessages(xs, dels + more), e) <==>
            exists mid :: Run(d, D.DeltaMessages(xs, dels), mid) && Run(mid, D.DeltaMessages([], more), e)
  {
    assert D.DeltaMessages(xs, dels + more) == D.DeltaMessages(xs, dels) + D.DeltaMessages([], more);
    RunConcat(d, D.DeltaMessages(xs, dels), D.DeltaMessages([], more), e);
  }

  lemma DeltaCons(s: seq<InsertOp>)
    requires s != []
    ensures D.DeltaMessages(s, [])[0] == Ins(s[0]) && D.DeltaMessages(s, [])[1..] == D.DeltaMessages(s[1..], [])
  {
  }

  /** With nothing pending, an insert that is ready is integrated at once and releases nothing. */
  lemma ReadyStep(d: Doc, op: InsertOp, e: Doc)
    requires Inv(d) && d.pendIns == map[] && InsertStep(d, op, e) && op.newID !in Ids(d.list) && Ready(Ids(d.list), op)
    ensures Integrable(d.list, op) && e.list == Integrate(d.list, op) && e.pendIns == map[]
    ensures d.pendDel == {} ==> e.pendDel == {} && e.tomb == d.tomb
  {
    hide Inv, Core, Ids, Integrate;
    var mid :| Released(Absorb(d, op), mid) && e == ApplyPendingDeletes(mid);
    NoReleases(Absorb(d, op), mid);
  }

  /** A delta whose inserts stand in a causal order is delivered in exactly that order, from a state with nothing
      pending: its run has exactly one outcome. */
  lemma {:induction false} CausalDelta(d: Doc, s: seq<InsertOp>, e: Doc)
    requires Inv(d) && d.pendIns == map[] && AllAcceptable(d, D.DeltaMessages(s, [])) && Causal(Ids(d.list), s)
    requires Run(d, D.DeltaMessages(s, []), e)
    ensures Deliverable(d.list, s) && e.list == Deliver(d.list, s) && e.pendIns == map[]
    ensures d.pendDel == {} ==> e.pendDel == {} && e.tomb == d.tomb
    decreases |s|
  {
    if s != [] {
      var ms := D.DeltaMessages(s, []);
      DeltaCons(s);
      InvWellFormed(d);
      hide Inv, AllAcceptable, Integrate, Ids, WellFormed, D.DeltaMessages;
      var mid :| Step(d, ms[0], mid) && Run(mid, ms[1..], e);
      ReadyStep(d, s[0], mid);
      IntegrateKeeps(d.list, s[0]);
      AcceptableAfter(d, ms, mid);
      CausalDelta(mid, s[1..], e);
    }
  }

  lemma ReadySafe(d: Doc, op: InsertOp)
    requires d.pendIns == map[] && Integrable(d.list, op)
    ensures SafeToReceive(d, Ins(op))
  {
    assert Absorb(d, op).pendIns == map[];
  }

  /** Such a delta never walks off the list if the order can be delivered. */
  lemma {:induction false} CausalDeltaSafe(d: Doc, s: seq<InsertOp>)
    requires Inv(d) && d.pendIns == map[] && AllAcceptable(d, D.DeltaMessages(s, []))
    requires Causal(Ids(d.list), s) && Deliverable(d.list, s)
    ensures SafeRun(d, D.DeltaMessages(s, []))
    decreases |s|
  {
    if s != [] {
      var ms := D.DeltaMessages(s, []);
      DeltaCons(s);
      InvWellFormed(d);
      hide Inv, AllAcceptable, Integrate, Ids, WellFormed, D.DeltaMessages, SafeToReceive, Step;
      ReadySafe(d, s[0]);
      IntegrateKeeps(d.list, s[0]);
      forall mid | Step(d, ms[0], mid)
        ensures SafeRun(mid, ms[1..])
      {
        StepOfInsert(d, s[0], mid);
        ReadyStep(d, s[0], mid);
        AcceptableAfter(d, ms, mid);
        CausalDeltaSafe(mid, s[1..]);
      }
    }
  }

  lemma StepOfInsert(d: Doc, op: InsertOp, e: Doc)
    ensures Step(d, Ins(op), e) <==> InsertStep(d, op, e)
  {
  }

  /** The counterexample on documents: two new replicas that integrate the same four inserts, one as the delta
      `a b x y` and the other as `x y a b`, go through and end with the texts `axyb` and `axby`. */
  lemma DocumentsDiverge(c: string, e: Doc)
    requires Inv(NewDoc(c)) && c != "A" && c != "B"
    ensures var (a, b, x, y) := DivergingInserts();
            var ms, ms' := D.DeltaMessages([a, b, x, y], []), D.DeltaMessages([x, y, a, b], []);
            && SafeRun(NewDoc(c), ms) && AllAcceptable(NewDoc(c), ms) && SafeRun(NewDoc(c), ms') && AllAcceptable(NewDoc(c), ms')
            && (Run(NewDoc(c), ms, e) ==> |e.list| >= 2 && Text(e) == "axyb")
            && (Run(NewDoc(c), ms', e) ==> |e.list| >= 2 && Text(e) == "axby")
  {
    var (a, b, x, y) := DivergingInserts();
    ReplicaA();
    ReplicaB();
    DivergedText(c, [a, b, x, y], [a, x, y, b], e);
    DivergedText(c, [x, y, a, b], [a, x, b, y], e);
  }

  lemma DivergedText(c: string, s: seq<InsertOp>, t: seq<InsertOp>, e: Doc)
    requires Inv(NewDoc(c)) && c != "A" && c != "B" && |t| == 4
    requires var (a, b, x, y) := DivergingInserts();
             s == [a, b, x, y] || s == [x, y, a, b]
    requires Deliverable(EMPTY_LIST, s) && Deliver(EMPTY_LIST, s) == Line(t)
    ensures AllAcceptable(NewDoc(c), D.DeltaMessages(s, [])) && SafeRun(NewDoc(c), D.DeltaMessages(s, []))
    ensures Run(NewDoc(c), D.DeltaMessages(s, []), e) ==>
              |e.list| >= 2 && Text(e) == [t[0].content, t[1].content, t[2].content, t[3].content]
  {
    EmptyListIds();
    DivergingAcceptable(c, s);
    hide Deliver, Deliverable, Causal, Run, SafeRun, Inv, DivergingInserts, AllAcceptable, D.DeltaMessages, Ids;
    CausalDeltaSafe(NewDoc(c), s);
    if Run(NewDoc(c), D.DeltaMessages(s, []), e) {
      CausalDelta(NewDoc(c), s, e);
      LineText(t, e);
    }
  }

  lemma DivergingAcceptable(c: string, s: seq<InsertOp>)
    requires c != "A" && c != "B"
    requires var (a, b, x, y) := DivergingInserts();
             s == [a, b, x, y] || s == [x, y, a, b]
    ensures AllAcceptable(NewDoc(c), D.DeltaMessages(s, [])) && Causal({START, END}, s)
  {
    var (a, b, x, y) := DivergingInserts();
    TwoTypists(a, b, x, y);
    TwoTypists(x, y, a, b);
    forall m | m in D.DeltaMessages(s, [])
      ensures m == Ins(a) || m == Ins(b) || m == Ins(x) || m == Ins(y)
    {
    }
  }

  lemma TwoTypists(u: InsertOp, v: InsertOp, w: InsertOp, z: InsertOp)
    requires Typed(u, v) && Typed(w, z) && {u.newID, v.newID} !! {w.newID, z.newID}
    ensures Causal({START, END}, [u, v, w, z])
  {
    assert [u, v, w, z] == [u, v] + [w, z];
    TypedCausal({START, END}, u, v);
    CausalConcat({START, END}, [u, v], [w, z]);
    TypedCausal({START, END} + NewIDs([u, v]), w, z);
  }

  /** The inserts of a client that types two characters into an empty document. */
  ghost predicate Typed(u: InsertOp, v: InsertOp) {
    && Real(u.newID) && Real(v.newID) && u.newID != v.newID
    && u.originID == START && u.rightID == END && v.originID == u.newID && v.rightID == END
  }

  lemma TypedCausal(ids: set<ID>, u: InsertOp, v: InsertOp)
    requires Typed(u, v) && START in ids && END in ids && u.newID !in ids && v.newID !in ids
    ensures Causal(ids, [u, v])
  {
    assert [u, v][1..] == [v] && [v][1..] == [];
  }

  lemma LineText(s: seq<InsertOp>, e: Doc)
    requires |s| == 4 && e.list == Line(s) && e.tomb == {}
    ensures Text(e) == [s[0].content, s[1].content, s[2].content, s[3].content]
  {
    VisibleAll(e.list[1..|e.list| - 1]);
  }

  lemma {:induction false} VisibleAll(l: seq<Elem>)
    ensures |Visible(l, {})| == |l| && forall i :: 0 <= i < |l| ==> Visible(l, {})[i] == l[i].content
  {
    if l != [] {
      VisibleAll(l[1..]);
    }
  }

  // ----- What divergence leads to, on the heap

  /** A document in the state of the diverged replica B: the walk of `conflictZone` for A's next insert
      never meets the right neighbour, and reaches nil. */
  lemma DivergedWalkReachesNil(ns: seq<D.Element>, tomb: set<ID>)
    requires var (a, b, x, y) := DivergingInserts();
             && Deliverable(EMPTY_LIST, [x, y, a, b])
             && D.Chain(ns) && D.Carries(ns, Deliver(EMPTY_LIST, [x, y, a, b]), tomb)
    ensures var (a, b, x, y) := DivergingInserts();
            var l := Deliver(EMPTY_LIST, [x, y, a, b]);
            && y.newID in Ids(l) && b.newID in Ids(l) && |l| == |ns|
            && var first := ns[IndexOf(l, y.newID)].right;
               && (forall n: nat :: D.Walked(ns, first, n) != ns[IndexOf(l, b.newID)])
               && D.Walked(ns, first, |ns|) == null
  {
    var (a, b, x, y) := DivergingInserts();
    var l := Deliver(EMPTY_LIST, [x, y, a, b]);
    DivergenceWalksOff();
    ReplicaB();
    DivergedDistinct();
    hide Deliver, Deliverable, DivergingInserts, D.Chain, D.Carries, D.Walked;
    CarriesLength(ns, l, tomb);
    D.ZoneWalkEndsIff(ns, l, tomb, y.newID, b.newID);
  }

  lemma CarriesLength(ns: seq<D.Element>, l: seq<Elem>, tomb: set<ID>)
    requires D.Carries(ns, l, tomb)
    ensures |ns| == |l|
  {
  }
}
