/** Documents that receive a sequential history converge: every order, duplicates, deletes before their
    inserts, every iteration order inside. */
module SequentialConvergence {
  import opened Identifiers
  import opened ReplicatedList
  import opened DocumentSpec
  import opened DocumentLaws
  import opened LocalEdits
  import opened SequentialHistory

  /** The document holds part of the history: its list is the full list restricted to what it has. */
  ghost predicate Holds(h: seq<InsertOp>, d: Doc) {
    && ValidHistory(h)
    && d.list == Keep(ListOf(h), Ids(d.list))
    && forall k :: k in d.insLog ==> d.insLog[k] in h
  }

  lemma HoldsClosed(h: seq<InsertOp>, d: Doc)
    requires Core(d) && Holds(h, d)
    ensures Closed(h, Ids(d.list))
  {
    forall o | o in h && o.newID in Ids(d.list)
      ensures Ready(Ids(d.list), o)
    {
      HistoryDistinct(h, o, o);
      assert o.newID in d.insLog;
      HistoryDistinct(h, o, d.insLog[o.newID]);
    }
  }

  /** No insert of the history ever walks off the list, and each keeps the document within the history. */
  lemma AbsorbHolds(h: seq<InsertOp>, d: Doc, op: InsertOp)
    requires Core(d) && Holds(h, d) && op in h && op.newID !in Ids(d.list) && Ready(Ids(d.list), op)
    ensures Integrable(d.list, op) && Core(Absorb(d, op)) && Holds(h, Absorb(d, op))
  {
    HoldsClosed(h, d);
    DeliveryKeeps(h, Ids(d.list), op);
    HistoryDistinct(h, op, op);
    if op.newID in d.insLog {
      HistoryDistinct(h, op, d.insLog[op.newID]);
    }
    AbsorbCore(d, op);
  }

  lemma {:induction false} HoldsSafe(h: seq<InsertOp>, d: Doc)
    requires Core(d) && Holds(h, d)
    ensures Safe(d)
    decreases d.pendIns.Keys
  {
    forall k | k in d.pendIns && d.pendIns[k].newID == k && Ready(Ids(d.list), d.pendIns[k])
      ensures Integrable(d.list, d.pendIns[k]) && Safe(Absorb(d, d.pendIns[k]))
    {
      assert d.pendIns[k] == d.insLog[k];
      AbsorbHolds(h, d, d.pendIns[k]);
      HoldsSafe(h, Absorb(d, d.pendIns[k]));
    }
  }

  lemma {:induction false} ReleasedHolds(h: seq<InsertOp>, d: Doc, d': Doc)
    requires Core(d) && Holds(h, d) && Released(d, d')
    ensures Core(d') && Holds(h, d')
    decreases d.pendIns.Keys
  {
    if !(Saturated(d) && d' == d) {
      var k :| Releasable(d, k) && Released(Absorb(d, d.pendIns[k]), d');
      assert d.pendIns[k] == d.insLog[k];
      AbsorbHolds(h, d, d.pendIns[k]);
      ReleasedHolds(h, Absorb(d, d.pendIns[k]), d');
    }
  }

  ghost predicate OfHistory(h: seq<InsertOp>, m: Msg) {
    m.Ins? ==> m.op in h
  }

  ghost predicate AllOfHistory(h: seq<InsertOp>, ms: seq<Msg>) {
    forall m :: m in ms ==> OfHistory(h, m)
  }

  /** Receiving any message of the history is safe and stays within the history. */
  lemma StepHolds(h: seq<InsertOp>, d: Doc, m: Msg)
    requires Inv(d) && Holds(h, d) && Acceptable(d, m) && OfHistory(h, m)
    ensures SafeToReceive(d, m)
    ensures forall d' :: Step(d, m, d') ==> Holds(h, d')
  {
    match m
    case Del(id) =>
    case Ins(op) =>
      if InsertOutcome(d, op) == Integrated {
        AbsorbHolds(h, d, op);
        HoldsSafe(h, Absorb(d, op));
        forall mid | Released(Absorb(d, op), mid)
          ensures Holds(h, ApplyPendingDeletes(mid))
        {
          ReleasedHolds(h, Absorb(d, op), mid);
        }
      }
  }

  lemma {:induction false} RunHolds(h: seq<InsertOp>, d: Doc, ms: seq<Msg>, d': Doc)
    requires Inv(d) && Holds(h, d) && AllAcceptable(d, ms) && AllOfHistory(h, ms) && Run(d, ms, d')
    ensures Inv(d') && Holds(h, d')
    decreases |ms|
  {
    if ms != [] {
      var mid :| Step(d, ms[0], mid) && Run(mid, ms[1..], d');
      assert ms[0] in ms;
      StepHolds(h, d, ms[0]);
      AcceptableAfter(d, ms, mid);
      RunHolds(h, mid, ms[1..], d');
    }
  }

  /** Within a history the logs determine the document, the order of its elements included. */
  lemma LogsDetermineList(h: seq<InsertOp>, d: Doc, e: Doc)
    requires Inv(d) && Inv(e) && Holds(h, d) && Holds(h, e) && d.insLog == e.insLog && d.delLog == e.delLog
    ensures e == d.(clientID := e.clientID, clock := e.clock)
  {
    LogsDetermine(d, e);
  }

  /** Sequential convergence. Two new replicas receive the same messages of a history: inserts and deletes
      in any two orders, with any repetitions, deletes before their inserts, through the pending buffers
      with any iteration order. They end in the same document: list, origins, tombstones, counter,
      pending buffers and logs. This holds for every subset of the history, delivered in full or not. */
  lemma SequentialConverges(h: seq<InsertOp>, a: string, b: string, ms: seq<Msg>, ms': seq<Msg>, d: Doc, e: Doc)
    requires ValidHistory(h) && AllOfHistory(h, ms) && SameMessages(ms, ms')
    requires Inv(NewDoc(a)) && AllAcceptable(NewDoc(a), ms) && Run(NewDoc(a), ms, d)
    requires Inv(NewDoc(b)) && AllAcceptable(NewDoc(b), ms') && Run(NewDoc(b), ms', e)
    ensures e == d.(clientID := b)
  {
    hide Holds, Inv, Run;
    NewDocHolds(h, a);
    NewDocHolds(h, b);
    RunHolds(h, NewDoc(a), ms, d);
    RunHolds(h, NewDoc(b), ms', e);
    LogsAgree(NewDoc(a), NewDoc(b), ms, ms', d, e);
    LogsDetermineList(h, d, e);
  }

  lemma NewDocHolds(h: seq<InsertOp>, a: string)
    requires ValidHistory(h) && Inv(NewDoc(a))
    ensures Holds(h, NewDoc(a))
  {
    EmptyListIds();
    KeepEnds(h);
  }

  lemma KeepEnds(h: seq<InsertOp>)
    requires ValidHistory(h)
    ensures Keep(ListOf(h), {START, END}) == EMPTY_LIST
  {
    hide Keep, ListOf, ValidHistory, WellFormed, NewIDs;
    HistoryList(h);
    EndsKept(ListOf(h));
  }

  lemma EndsKept(l: seq<Elem>)
    requires WellFormed(l)
    ensures Keep(l, {START, END}) == EMPTY_LIST
  {
    InnerReal(l);
    hide Keep, WellFormed;
    KeepEndsOf(l, {START, END});
  }

  lemma InnerReal(l: seq<Elem>)
    requires WellFormed(l)
    ensures |l| >= 2 && l[0] == EMPTY_LIST[0] && l[|l| - 1] == EMPTY_LIST[1]
    ensures forall m :: 0 < m < |l| - 1 ==> l[m].id !in {START, END}
  {
    forall m | 0 < m < |l| - 1
      ensures l[m].id !in {START, END}
    {
      assert Real(l[m].id);
    }
  }

  lemma KeepEndsOf(l: seq<Elem>, s: set<ID>)
    requires |l| >= 2 && l[0].id in s && l[|l| - 1].id in s && forall m :: 0 < m < |l| - 1 ==> l[m].id !in s
    ensures Keep(l, s) == [l[0], l[|l| - 1]]
  {
    var n := |l| - 1;
    KeepSplit(l, s, n);
    KeepUpTo(l, s, 0, n);
    assert Keep(l[..0], s) == [] && Keep(l[n + 1..], s) == [];
  }

  // ----- When everything was received

  ghost predicate HasAll(h: seq<InsertOp>, d: Doc) {
    forall o :: o in h ==> o.newID in d.insLog
  }

  lemma ReadyIsIntegrated(d: Doc, k: ID)
    requires Core(d) && Saturated(d) && k in d.insLog && Ready(Ids(d.list), d.insLog[k])
    ensures k in Ids(d.list)
  {
    assert forall j :: j in d.pendIns ==> !Ready(Ids(d.list), d.insLog[j]);
  }

  lemma {:induction false} AllIntegrated(h: seq<InsertOp>, full: seq<InsertOp>, d: Doc)
    requires Inv(d) && Holds(full, d) && HasAll(full, d)
    requires ValidHistory(h) && h <= full
    ensures Ids(ListOf(h)) <= Ids(d.list)
    decreases |h|
  {
    if h == [] {
      EmptyListIds();
      assert d.list[0].id == START && d.list[|d.list| - 1].id == END;
    } else {
      var h', op := h[..|h| - 1], h[|h| - 1];
      AllIntegrated(h', full, d);
      HistoryList(h');
      IntegrateKeeps(ListOf(h'), op);
      assert op == full[|h| - 1] && op in full;
      HistoryDistinct(full, op, d.insLog[op.newID]);
      ReadyIsIntegrated(d, op.newID);
    }
  }

  /** A replica that received the whole history holds exactly its list and waits for no insert; it waits
      for no delete either when only elements of the history were deleted. */
  lemma CompleteHistory(h: seq<InsertOp>, d: Doc)
    requires Inv(d) && Holds(h, d) && HasAll(h, d)
    ensures d.list == ListOf(h) && d.pendIns == map[]
    ensures d.delLog <= NewIDs(h) ==> d.pendDel == {} && d.tomb == d.delLog
  {
    AllIntegrated(h, h, d);
    HistoryList(h);
    KeepAll(ListOf(h), Ids(d.list));
    NonePending(h, d);
    TombstonesOf(d);
  }

  lemma NonePending(h: seq<InsertOp>, d: Doc)
    requires Inv(d) && Holds(h, d) && NewIDs(h) <= Ids(d.list)
    ensures d.pendIns == map[]
  {
    forall k | k in d.insLog
      ensures k in NewIDs(h)
    {
      assert d.insLog[k] in h && d.insLog[k].newID == k;
    }
    assert d.pendIns.Keys <= d.insLog.Keys <= NewIDs(h);
    assert d.pendIns.Keys == {};
  }

  // ----- How histories grow

  /** The author of the next insert: a local edit on a replica that holds the whole history extends the
      history, and the replica then holds the whole longer history. */
  lemma LocalInsertExtends(h: seq<InsertOp>, d: Doc, i: int, c: char)
    requires Inv(d) && Holds(h, d) && HasAll(h, d) && 0 <= i <= d.counter
    ensures var h', d' := h + [LocalInsertOp(d, i, c)], LocalInsert(d, i, c);
            ValidHistory(h') && Holds(h', d') && HasAll(h', d') && d'.list == ListOf(h')
  {
    var op, d' := LocalInsertOp(d, i, c), LocalInsert(d, i, c);
    CompleteHistory(h, d);
    LocalInsertIsRemote(d, i, c);
    LocalEditsKeep(d, i, c);
    var k := FindVisible(d.list, d.tomb, 1, i);
    IndexOfIs(d.list, k - 1);
    IndexOfIs(d.list, k);
    var h' := h + [op];
    assert h'[..|h|] == h && h'[|h|] == op;
    assert ListOf(h') == Integrate(ListOf(h), op) == d'.list;
    KeepAll(d'.list, Ids(d'.list));
  }

  /** Everyone else still holds part of the longer history. */
  lemma HoldsLonger(h: seq<InsertOp>, op: InsertOp, d: Doc)
    requires Inv(d) && Holds(h, d) && ValidHistory(h + [op])
    ensures Holds(h + [op], d)
  {
    var h' := h + [op];
    assert h'[..|h|] == h && h'[|h|] == op;
    HistoryList(h);
    HeldIDs(ListOf(h), d);
    KeepInserted(ListOf(h), InsertIndex(ListOf(h), op), NewElem(op), Ids(d.list));
  }

  lemma KeepInserted(l: seq<Elem>, k: nat, e: Elem, s: set<ID>)
    requires k <= |l| && e.id !in s
    ensures Keep(InsertAt(l, k, e), s) == Keep(l, s)
  {
    hide Keep;
    var r := InsertAt(l, k, e);
    KeepSplit(r, s, k);
    assert r[..k] == l[..k] && r[k + 1..] == l[k..] && r[k] == e;
    KeepConcat(l[..k], l[k..], s);
    assert l == l[..k] + l[k..];
  }

  lemma HeldIDs(l: seq<Elem>, d: Doc)
    requires d.list == Keep(l, Ids(d.list))
    ensures Ids(d.list) <= Ids(l)
  {
    forall x | x in Ids(d.list)
      ensures x in Ids(l)
    {
      assert d.list[IndexOf(d.list, x)] in Keep(l, Ids(d.list));
    }
  }
}
