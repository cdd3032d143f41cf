/** What holds of every run of remote operations, in any order, whatever the history. */
module DocumentLaws {
  import opened Identifiers
  import opened ReplicatedList
  import opened DocumentSpec

  // ----- What is integrated depends on what was received, not on the order

  lemma {:induction false} SupportedIsIntegrated(d: Doc, x: ID, n: nat)
    requires Core(d) && Saturated(d) && Supported(d.insLog, x, n)
    ensures x in Ids(d.list)
    decreases n
  {
    if Sentinel(x) {
      assert d.list[0].id == START && d.list[|d.list| - 1].id == END;
    } else {
      SupportedIsIntegrated(d, d.insLog[x].originID, n - 1);
      SupportedIsIntegrated(d, d.insLog[x].rightID, n - 1);
      assert x in d.pendIns ==> Ready(Ids(d.list), d.pendIns[x]);
    }
  }

  /** The integrated inserts are exactly those whose transitive neighbours have all been received; the
      pending ones are exactly the others. */
  lemma IntegratedExactly(d: Doc)
    requires Inv(d)
    ensures forall x :: x in Ids(d.list) <==> SupportedBy(d.insLog, x)
    ensures forall x :: x in d.pendIns <==> x in d.insLog && !SupportedBy(d.insLog, x)
  {
    forall x
      ensures x in Ids(d.list) <==> SupportedBy(d.insLog, x)
    {
      if SupportedBy(d.insLog, x) {
        var n: nat :| Supported(d.insLog, x, n);
        SupportedIsIntegrated(d, x, n);
      }
    }
    forall x | x in d.insLog
      ensures x in d.pendIns <==> x !in Ids(d.list)
    {
    }
  }

  lemma {:induction false} VisibleWithout(l: seq<Elem>)
    ensures |Visible(l, {})| == |l|
  {
    if l != [] {
      VisibleWithout(l[1..]);
    }
  }

  lemma {:induction false} IdsCount(l: seq<Elem>)
    requires Distinct(l)
    ensures |Ids(l)| == |l|
  {
    if l != [] {
      var n := |l| - 1;
      IdsCount(l[..n]);
      assert l[n].id !in Ids(l[..n]);
      forall x | x in Ids(l)
        ensures x in Ids(l[..n]) + {l[n].id}
      {
        var i := IndexOf(l, x);
        assert i < n ==> l[..n][i].id == x;
      }
      assert Ids(l) == Ids(l[..n]) + {l[n].id};
    }
  }

  /** The counter: every element that is neither a sentinel nor a tombstone, once. */
  lemma CounterCounts(d: Doc)
    requires Core(d)
    ensures d.counter == |Ids(d.list)| - 2 - |d.tomb|
  {
    hide WellFormed, Visible, Ids, InsertLogExact, ElementsLogged, Grounded;
    RealNotSentinel(d.tomb, d.delLog);
    assert d.tomb <= Ids(d.list) - {START, END};
    VisibleCount(d.list, d.tomb);
  }

  lemma VisibleCount(l: seq<Elem>, tomb: set<ID>)
    requires WellFormed(l) && tomb <= Ids(l) - {START, END}
    ensures |Visible(l[1..|l| - 1], tomb)| == |Ids(l)| - 2 - |tomb|
  {
    TombstoneAll(l, {}, tomb);
    assert {} + tomb == tomb;
    VisibleWithout(l[1..|l| - 1]);
    IdsCount(l);
  }

  ghost predicate SameUpToOrder(d: Doc, e: Doc) {
    && Ids(d.list) == Ids(e.list) && d.tomb == e.tomb && d.counter == e.counter
    && d.pendIns == e.pendIns && d.pendDel == e.pendDel
    && d.insLog == e.insLog && d.delLog == e.delLog
  }

  /** The same state on another replica: only the client's own name and clock differ. */
  ghost predicate SameDocument(d: Doc, e: Doc) {
    e == d.(clientID := e.clientID, clock := e.clock)
  }

  /** Two documents with the same logs agree on everything but the order of their elements. */
  lemma LogsDetermine(d: Doc, e: Doc)
    requires Inv(d) && Inv(e) && d.insLog == e.insLog && d.delLog == e.delLog
    ensures SameUpToOrder(d, e)
  {
    IntegratedExactly(d);
    IntegratedExactly(e);
    InvCore(d);
    InvCore(e);
    hide Inv, Core, SupportedBy, Ids;
    assert Ids(d.list) == Ids(e.list);
    SamePending(d.pendIns, e.pendIns, d.insLog);
    TombstonesOf(d);
    TombstonesOf(e);
    CounterCounts(d);
    CounterCounts(e);
  }

  lemma InvCore(d: Doc)
    requires Inv(d)
    ensures Core(d) && forall k :: k in d.pendIns ==> k in d.insLog && d.pendIns[k] == d.insLog[k]
  {
  }

  lemma SamePending(p: map<ID, InsertOp>, q: map<ID, InsertOp>, log: map<ID, InsertOp>)
    requires forall k :: k in p <==> k in q
    requires forall k :: k in p ==> k in log && p[k] == log[k]
    requires forall k :: k in q ==> k in log && q[k] == log[k]
    ensures p == q
  {
    assert p.Keys == q.Keys;
  }

  lemma TombstonesOf(d: Doc)
    requires Inv(d)
    ensures d.tomb == d.delLog * Ids(d.list) && d.pendDel == d.delLog - Ids(d.list)
  {
  }

  // ----- Runs

  ghost predicate Agree(m: Msg, m': Msg) {
    m.Ins? && m'.Ins? && m.op.newID == m'.op.newID ==> m == m'
  }

  /** The messages of a run are acceptable, and an identifier determines its insert among them too. */
  ghost predicate AllAcceptable(d: Doc, ms: seq<Msg>) {
    && (forall m :: m in ms ==> Acceptable(d, m))
    && (forall m, m' :: m in ms && m' in ms ==> Agree(m, m'))
  }

  ghost function LoggedInserts(log: map<ID, InsertOp>, ms: seq<Msg>): map<ID, InsertOp>
    decreases |ms|
  {
    if ms == [] then log
    else LoggedInserts(if ms[0].Ins? then log[ms[0].op.newID := ms[0].op] else log, ms[1..])
  }

  ghost function DeleteTargets(ms: seq<Msg>): set<ID> {
    set m | m in ms && m.Del? :: m.id
  }

  lemma FirstAcceptable(d: Doc, ms: seq<Msg>)
    requires ms != [] && AllAcceptable(d, ms)
    ensures Acceptable(d, ms[0])
  {
    assert ms[0] in ms;
  }

  lemma AcceptableAfter(d: Doc, ms: seq<Msg>, d': Doc)
    requires ms != [] && Inv(d) && AllAcceptable(d, ms) && Step(d, ms[0], d')
    ensures Inv(d') && AllAcceptable(d', ms[1..])
  {
    FirstAcceptable(d, ms);
    hide Inv, Step, Acceptable, Agree;
    StepKeeps(d, ms[0], d');
    assert ms[0] in ms;
    forall m | m in ms[1..]
      ensures Acceptable(d', m)
    {
      assert m in ms && Agree(ms[0], m) && Acceptable(d, m);
      StillAcceptable(d, ms[0], d', m);
    }
    assert forall m :: m in ms[1..] ==> m in ms;
  }

  lemma StillAcceptable(d: Doc, first: Msg, d': Doc, m: Msg)
    requires Acceptable(d, m) && Agree(first, m) && d'.clientID == d.clientID && d'.clock == d.clock
    requires d'.insLog == if first.Ins? then d.insLog[first.op.newID := first.op] else d.insLog
    ensures Acceptable(d', m)
  {
  }

  /** Every run of remote operations keeps the invariant, and logs exactly what it received. */
  lemma {:induction false} RunKeeps(d: Doc, ms: seq<Msg>, d': Doc)
    requires Inv(d) && AllAcceptable(d, ms) && Run(d, ms, d')
    ensures Inv(d') && d'.clientID == d.clientID && d'.clock == d.clock
    ensures d'.insLog == LoggedInserts(d.insLog, ms) && d'.delLog == d.delLog + DeleteTargets(ms)
    decreases |ms|
  {
    if ms != [] {
      hide Inv, Step, AllAcceptable, DeleteTargets;
      var mid :| Step(d, ms[0], mid) && Run(mid, ms[1..], d');
      AcceptableAfter(d, ms, mid);
      FirstAcceptable(d, ms);
      StepKeeps(d, ms[0], mid);
      RunKeeps(mid, ms[1..], d');
      TargetsCons(ms, d.delLog);
    }
  }

  lemma TargetsCons(ms: seq<Msg>, log: set<ID>)
    requires ms != []
    ensures log + DeleteTargets(ms) == (if ms[0].Del? then log + {ms[0].id} else log) + DeleteTargets(ms[1..])
  {
    assert ms == [ms[0]] + ms[1..];
  }

  lemma {:induction false} LoggedInsertsAt(log: map<ID, InsertOp>, ms: seq<Msg>, k: ID)
    requires forall m, m' :: m in ms && m' in ms ==> Agree(m, m')
    requires forall m :: m in ms && m.Ins? && m.op.newID in log ==> log[m.op.newID] == m.op
    ensures k in LoggedInserts(log, ms) <==> k in log || exists m :: m in ms && m.Ins? && m.op.newID == k
    ensures k in log ==> k in LoggedInserts(log, ms) && LoggedInserts(log, ms)[k] == log[k]
    ensures forall m :: m in ms && m.Ins? && m.op.newID == k ==> k in LoggedInserts(log, ms) && LoggedInserts(log, ms)[k] == m.op
    decreases |ms|
  {
    if ms != [] {
      assert ms == [ms[0]] + ms[1..];
      var log' := if ms[0].Ins? then log[ms[0].op.newID := ms[0].op] else log;
      forall m | m in ms[1..]
        ensures Agree(ms[0], m)
      {
        assert ms[0] in ms && m in ms;
      }
      LoggedInsertsAt(log', ms[1..], k);
    }
  }

  ghost predicate SameMessages(ms: seq<Msg>, ms': seq<Msg>) {
    forall m :: m in ms <==> m in ms'
  }

  lemma SameLogs(log: map<ID, InsertOp>, ms: seq<Msg>, ms': seq<Msg>)
    requires SameMessages(ms, ms')
    requires forall m, m' :: m in ms && m' in ms ==> Agree(m, m')
    requires forall m :: m in ms && m.Ins? && m.op.newID in log ==> log[m.op.newID] == m.op
    ensures LoggedInserts(log, ms) == LoggedInserts(log, ms')
  {
    var a, b := LoggedInserts(log, ms), LoggedInserts(log, ms');
    forall k
      ensures k in a <==> k in b
      ensures k in a ==> a[k] == b[k]
    {
      LoggedInsertsAt(log, ms, k);
      LoggedInsertsAt(log, ms', k);
    }
  }

  /** Replicas with the same logs that receive the same messages have the same logs afterwards. */
  lemma LogsAgree(d: Doc, e: Doc, ms: seq<Msg>, ms': seq<Msg>, d': Doc, e': Doc)
    requires Inv(d) && Inv(e) && d.insLog == e.insLog && d.delLog == e.delLog && SameMessages(ms, ms')
    requires AllAcceptable(d, ms) && AllAcceptable(e, ms') && Run(d, ms, d') && Run(e, ms', e')
    ensures Inv(d') && Inv(e') && d'.insLog == e'.insLog && d'.delLog == e'.delLog
    ensures d'.clientID == d.clientID && d'.clock == d.clock && e'.clientID == e.clientID && e'.clock == e.clock
  {
    hide Inv, Run;
    RunKeeps(d, ms, d');
    RunKeeps(e, ms', e');
    SameLogs(d.insLog, ms, ms');
    assert DeleteTargets(ms) == DeleteTargets(ms');
  }

  /** Order does not matter for what a replica knows: two runs over the same messages, in any order, with
      any repetitions and any iteration order inside, integrate the same inserts, keep the same ones
      pending, and have the same tombstones, counter and logs. Only the order of elements may differ. */
  lemma RunsAgreeUpToOrder(d: Doc, ms: seq<Msg>, ms': seq<Msg>, e: Doc, e': Doc)
    requires Inv(d) && AllAcceptable(d, ms) && SameMessages(ms, ms')
    requires Run(d, ms, e) && Run(d, ms', e')
    ensures SameUpToOrder(e, e')
  {
    LogsAgree(d, d, ms, ms', e, e');
    LogsDetermine(e, e');
  }

  // ----- Duplicates

  ghost predicate Received(d: Doc, m: Msg) {
    match m
    case Ins(op) => op.newID in d.insLog
    case Del(id) => id in d.delLog
  }

  /** Re-delivering a message that was received before, integrated or still pending, changes nothing. */
  lemma DuplicateAbsorbed(d: Doc, m: Msg, d': Doc)
    requires Inv(d) && Acceptable(d, m) && Received(d, m)
    ensures Step(d, m, d') <==> d' == d
  {
    match m
    case Ins(op) =>
      if op.newID !in Ids(d.list) {
        assert op.newID in d.pendIns && d.pendIns[op.newID] == op;
        assert d.pendIns[op.newID := op] == d.pendIns && d.insLog[op.newID := op] == d.insLog;
      }
    case Del(id) =>
      if id !in Ids(d.list) {
        assert d.pendDel + {id} == d.pendDel && d.delLog + {id} == d.delLog;
      }
  }

  /** The run without its re-sends: what was received before, or earlier in the run, is dropped. */
  ghost function Dedup(insIDs: set<ID>, delIDs: set<ID>, ms: seq<Msg>): seq<Msg>
    decreases |ms|
  {
    if ms == [] then []
    else match ms[0]
      case Ins(op) =>
        if op.newID in insIDs then Dedup(insIDs, delIDs, ms[1..])
        else [ms[0]] + Dedup(insIDs + {op.newID}, delIDs, ms[1..])
      case Del(id) =>
        if id in delIDs then Dedup(insIDs, delIDs, ms[1..])
        else [ms[0]] + Dedup(insIDs, delIDs + {id}, ms[1..])
  }

  /** A run with at-least-once delivery ends where its de-duplicated run ends. */
  lemma {:induction false} DedupSameRun(d: Doc, ms: seq<Msg>, d': Doc)
    requires Inv(d) && AllAcceptable(d, ms)
    ensures Run(d, ms, d') <==> Run(d, Dedup(d.insLog.Keys, d.delLog, ms), d')
    decreases |ms|
  {
    if ms != [] {
      var m, rest := ms[0], ms[1..];
      FirstAcceptable(d, ms);
      hide Inv, Step, Run, AllAcceptable, Acceptable;
      if Received(d, m) {
        DedupSkip(d, ms, d');
        DuplicateAbsorbed(d, m, d);
        AcceptableAfter(d, ms, d);
        DedupSameRun(d, rest, d');
      } else {
        forall mid | Step(d, m, mid)
          ensures Run(mid, rest, d') <==> Run(mid, Dedup(mid.insLog.Keys, mid.delLog, rest), d')
          ensures Dedup(d.insLog.Keys, d.delLog, ms) == [m] + Dedup(mid.insLog.Keys, mid.delLog, rest)
        {
          AcceptableAfter(d, ms, mid);
          DedupFirst(d, ms, mid);
          DedupSameRun(mid, rest, d');
        }
        DedupKeep(d, ms, d');
      }
    }
  }

  lemma DedupFirst(d: Doc, ms: seq<Msg>, mid: Doc)
    requires Inv(d) && ms != [] && Acceptable(d, ms[0]) && Step(d, ms[0], mid) && !Received(d, ms[0])
    ensures Dedup(d.insLog.Keys, d.delLog, ms) == [ms[0]] + Dedup(mid.insLog.Keys, mid.delLog, ms[1..])
  {
    hide Inv, Acceptable, Step;
    StepKeeps(d, ms[0], mid);
    assert ms[0].Ins? ==> mid.insLog.Keys == d.insLog.Keys + {ms[0].op.newID};
  }

  lemma DedupSkip(d: Doc, ms: seq<Msg>, d': Doc)
    requires Inv(d) && ms != [] && Acceptable(d, ms[0]) && Received(d, ms[0])
    ensures Run(d, ms, d') <==> Run(d, ms[1..], d')
  {
    if Run(d, ms, d') {
      var mid :| Step(d, ms[0], mid) && Run(mid, ms[1..], d');
      DuplicateAbsorbed(d, ms[0], mid);
    }
    DuplicateAbsorbed(d, ms[0], d);
  }

  lemma DedupKeep(d: Doc, ms: seq<Msg>, d': Doc)
    requires ms != []
    requires !Received(d, ms[0])
    requires forall mid :: Step(d, ms[0], mid) ==>
               && (Run(mid, ms[1..], d') <==> Run(mid, Dedup(mid.insLog.Keys, mid.delLog, ms[1..]), d'))
               && Dedup(d.insLog.Keys, d.delLog, ms) == [ms[0]] + Dedup(mid.insLog.Keys, mid.delLog, ms[1..])
    ensures Run(d, ms, d') <==> Run(d, Dedup(d.insLog.Keys, d.delLog, ms), d')
  {
    var s := Dedup(d.insLog.Keys, d.delLog, ms);
    assert s != [] && s[0] == ms[0];
    if Run(d, ms, d') {
      var mid :| Step(d, ms[0], mid) && Run(mid, ms[1..], d');
      assert s[1..] == Dedup(mid.insLog.Keys, mid.delLog, ms[1..]);
    }
    if Run(d, s, d') {
      var mid :| Step(d, s[0], mid) && Run(mid, s[1..], d');
      assert s[1..] == Dedup(mid.insLog.Keys, mid.delLog, ms[1..]);
    }
  }

  // ----- Nothing is ever reordered or removed

  ghost predicate OrderKept(l: seq<Elem>, l': seq<Elem>) {
    && Ids(l) <= Ids(l')
    && forall x, y :: x in Ids(l) && y in Ids(l) ==> (Precedes(l', x, y) <==> Precedes(l, x, y))
  }

  lemma OrderKeptTransitive(l: seq<Elem>, l': seq<Elem>, l'': seq<Elem>)
    requires OrderKept(l, l') && OrderKept(l', l'')
    ensures OrderKept(l, l'')
  {
    forall x, y | x in Ids(l) && y in Ids(l)
      ensures Precedes(l'', x, y) <==> Precedes(l, x, y)
    {
      assert Precedes(l', x, y) <==> Precedes(l, x, y);
    }
  }

  lemma {:induction false} ReleasedKeepsOrder(d: Doc, d': Doc)
    requires Core(d) && Released(d, d')
    ensures OrderKept(d.list, d'.list)
    decreases d.pendIns.Keys
  {
    if !(Saturated(d) && d' == d) {
      var k :| Releasable(d, k) && Released(Absorb(d, d.pendIns[k]), d');
      AbsorbCore(d, d.pendIns[k]);
      IntegrateKeeps(d.list, d.pendIns[k]);
      ReleasedKeepsOrder(Absorb(d, d.pendIns[k]), d');
      OrderKeptTransitive(d.list, Absorb(d, d.pendIns[k]).list, d'.list);
    }
  }

  /** Over a whole run, existing elements are never removed and never change their relative order. */
  lemma {:induction false} RunKeepsOrder(d: Doc, ms: seq<Msg>, d': Doc)
    requires Inv(d) && AllAcceptable(d, ms) && Run(d, ms, d')
    ensures OrderKept(d.list, d'.list)
    decreases |ms|
  {
    if ms != [] {
      var mid :| Step(d, ms[0], mid) && Run(mid, ms[1..], d');
      AcceptableAfter(d, ms, mid);
      assert ms[0] in ms;
      StepKeepsOrder(d, ms[0], mid);
      RunKeepsOrder(mid, ms[1..], d');
      OrderKeptTransitive(d.list, mid.list, d'.list);
    }
  }

  lemma StepKeepsOrder(d: Doc, m: Msg, d': Doc)
    requires Inv(d) && Acceptable(d, m) && Step(d, m, d')
    ensures OrderKept(d.list, d'.list)
  {
    if m.Ins? && InsertOutcome(d, m.op) == Integrated {
      var mid :| Released(Absorb(d, m.op), mid) && d' == ApplyPendingDeletes(mid);
      AbsorbKeepsOrder(d, m.op, mid);
      assert d'.list == mid.list;
    } else {
      assert d'.list == d.list;
    }
  }

  lemma AbsorbKeepsOrder(d: Doc, op: InsertOp, mid: Doc)
    requires Core(d) && Real(op.newID) && op.newID !in Ids(d.list) && Integrable(d.list, op)
    requires op.newID in d.insLog ==> d.insLog[op.newID] == op
    requires Released(Absorb(d, op), mid)
    ensures OrderKept(d.list, mid.list)
  {
    AbsorbCore(d, op);
    ReleasedKeepsOrder(Absorb(d, op), mid);
    IntegrateKeeps(d.list, op);
    OrderKeptTransitive(d.list, Integrate(d.list, op), mid.list);
  }

  /** Releasing always comes to an end: when no order walks off the list, a saturated state is reached. */
  lemma {:induction false} ReleaseEnds(d: Doc) returns (d': Doc)
    requires Core(d) && Safe(d)
    ensures Released(d, d')
    decreases d.pendIns.Keys
  {
    if Saturated(d) {
      d' := d;
    } else {
      var k :| k in d.pendIns && Ready(Ids(d.list), d.pendIns[k]);
      assert d.pendIns[k].newID == k;
      AbsorbCore(d, d.pendIns[k]);
      d' := ReleaseEnds(Absorb(d, d.pendIns[k]));
      assert Releasable(d, k);
    }
  }

  lemma StepEnds(d: Doc, m: Msg) returns (d': Doc)
    requires Inv(d) && Acceptable(d, m) && SafeToReceive(d, m)
    ensures Step(d, m, d')
  {
    match m
    case Del(id) => d' := DeleteStep(d, id);
    case Ins(op) =>
      match InsertOutcome(d, op)
      case AlreadyInserted => d' := d;
      case Pending => d' := d.(pendIns := d.pendIns[op.newID := op], insLog := d.insLog[op.newID := op]);
      case Integrated =>
        AbsorbCore(d, op);
        var mid := ReleaseEnds(Absorb(d, op));
        d' := ApplyPendingDeletes(mid);
  }

  /** Every run that never walks off the list comes to an end. */
  lemma {:induction false} SafeRunEnds(d: Doc, ms: seq<Msg>) returns (d': Doc)
    requires Inv(d) && AllAcceptable(d, ms) && SafeRun(d, ms)
    ensures Run(d, ms, d')
    decreases |ms|
  {
    if ms == [] {
      d' := d;
    } else {
      FirstAcceptable(d, ms);
      var mid := StepEnds(d, ms[0]);
      AcceptableAfter(d, ms, mid);
      d' := SafeRunEnds(mid, ms[1..]);
    }
  }

  /** A run over two sequences of messages is a run over the first, then one over the second. */
  lemma {:induction false} RunConcat(d: Doc, xs: seq<Msg>, ys: seq<Msg>, e: Doc)
    ensures Run(d, xs + ys, e) <==> exists mid :: Run(d, xs, mid) && Run(mid, ys, e)
    decreases |xs|
  {
    hide Step;
    if xs == [] {
      assert xs + ys == ys && Run(d, xs, d);
    } else {
      assert (xs + ys)[0] == xs[0] && (xs + ys)[1..] == xs[1..] + ys;
      forall next
        ensures Run(next, xs[1..] + ys, e) <==> exists mid :: Run(next, xs[1..], mid) && Run(mid, ys, e)
      {
        RunConcat(next, xs[1..], ys, e);
      }
      if Run(d, xs + ys, e) {
        var next :| Step(d, xs[0], next) && Run(next, xs[1..] + ys, e);
        var mid :| Run(next, xs[1..], mid) && Run(mid, ys, e);
        assert Run(d, xs, mid);
      }
      if mid :| Run(d, xs, mid) && Run(mid, ys, e) {
        var next :| Step(d, xs[0], next) && Run(next, xs[1..], mid);
        assert Run(next, xs[1..] + ys, e);
      }
    }
  }

  lemma RunOne(d: Doc, m: Msg, e: Doc)
    ensures Run(d, [m], e) <==> Step(d, m, e)
  {
    assert [m][1..] == [];
    assert Run(e, [], e);
  }
}
