/** The state of a document as a value, and what each operation does to it. Where the program iterates
    over a map, the operation is a relation that allows every iteration order. */
module DocumentSpec {
  import opened Identifiers
  import opened ReplicatedList

  /** `tomb` holds the identifiers of the deleted elements. The buffer of pending deletes and the delete
      log store nothing beyond their keys, so both are sets. */
  datatype Doc = Doc(
    list: seq<Elem>, tomb: set<ID>, counter: int, clientID: string, clock: int,
    pendIns: map<ID, InsertOp>, pendDel: set<ID>, insLog: map<ID, InsertOp>, delLog: set<ID>)

  function NewDoc(clientID: string): Doc {
    Doc(EMPTY_LIST, {}, 0, clientID, 0, map[], {}, map[], {})
  }

  datatype Msg = Ins(op: InsertOp) | Del(id: ID)

  // ----- Visible text

  ghost function Visible(l: seq<Elem>, tomb: set<ID>): string {
    if l == [] then []
    else (if l[0].id in tomb then [] else [l[0].content]) + Visible(l[1..], tomb)
  }

  ghost function Text(d: Doc): string
    requires |d.list| >= 2
  {
    Visible(d.list[1..|d.list| - 1], d.tomb)
  }

  // ----- Invariant

  ghost predicate Sentinel(id: ID) {
    id == START || id == END
  }

  /** `x` is a sentinel, or its insert was received and both its neighbours are supported in turn. */
  ghost predicate Supported(log: map<ID, InsertOp>, x: ID, n: nat)
    decreases n
  {
    Sentinel(x) ||
    (n > 0 && x in log && Supported(log, log[x].originID, n - 1) && Supported(log, log[x].rightID, n - 1))
  }

  ghost predicate SupportedBy(log: map<ID, InsertOp>, x: ID) {
    exists n: nat :: Supported(log, x, n)
  }

  /** The insert log is the disjoint union of the integrated and the pending inserts, and agrees with the
      pending ones. */
  ghost predicate InsertLogExact(ids: set<ID>, pendIns: map<ID, InsertOp>, insLog: map<ID, InsertOp>) {
    && insLog.Keys == (ids - {START, END}) + pendIns.Keys
    && ids !! pendIns.Keys
    && (forall k :: k in insLog ==> Real(k) && insLog[k].newID == k)
    && (forall k :: k in pendIns ==> k in insLog && pendIns[k] == insLog[k])
  }

  ghost predicate LoggedElem(insLog: map<ID, InsertOp>, e: Elem) {
    e.id in insLog && e == NewElem(insLog[e.id])
  }

  /** Every integrated element is the one its logged insert describes. */
  ghost predicate ElementsLogged(l: seq<Elem>, insLog: map<ID, InsertOp>) {
    forall i :: 0 < i < |l| - 1 ==> LoggedElem(insLog, l[i])
  }

  /** Every integrated insert has both neighbours in the list, reached through inserts that were received. */
  ghost predicate Grounded(ids: set<ID>, insLog: map<ID, InsertOp>) {
    && (forall k :: k in insLog && k in ids ==> Ready(ids, insLog[k]))
    && (forall k :: k in ids ==> SupportedBy(insLog, k))
  }

  /** The delete log is the disjoint union of the tombstones and the pending deletes. */
  ghost predicate DeleteLogExact(ids: set<ID>, tomb: set<ID>, pendDel: set<ID>, delLog: set<ID>) {
    && delLog == tomb + pendDel && tomb !! pendDel
    && tomb <= ids
    && (forall x :: x in delLog ==> Real(x))
  }

  ghost predicate Counted(l: seq<Elem>, tomb: set<ID>, counter: int) {
    |l| >= 2 && counter == |Visible(l[1..|l| - 1], tomb)|
  }

  /** What holds at every moment, also while pending inserts are being released. */
  ghost predicate Core(d: Doc) {
    && WellFormed(d.list)
    && InsertLogExact(Ids(d.list), d.pendIns, d.insLog)
    && ElementsLogged(d.list, d.insLog)
    && Grounded(Ids(d.list), d.insLog)
    && DeleteLogExact(Ids(d.list), d.tomb, d.pendDel, d.delLog)
    && Counted(d.list, d.tomb, d.counter)
  }

  /** No pending insert could be integrated. */
  ghost predicate Saturated(d: Doc) {
    NoneReady(Ids(d.list), d.pendIns)
  }

  ghost predicate NoneReady(ids: set<ID>, pendIns: map<ID, InsertOp>) {
    forall k :: k in pendIns ==> !Ready(ids, pendIns[k])
  }

  ghost predicate NotAhead(clientID: string, clock: int, x: ID) {
    x.clientID == clientID ==> x.clock < clock
  }

  ghost predicate OpNotAhead(clientID: string, clock: int, op: InsertOp) {
    NotAhead(clientID, clock, op.newID) && NotAhead(clientID, clock, op.originID) && NotAhead(clientID, clock, op.rightID)
  }

  /** No received operation mentions an identifier that this client has yet to generate. */
  ghost predicate OwnIdsFresh(clientID: string, clock: int, insLog: map<ID, InsertOp>, delLog: set<ID>) {
    && clientID != START.clientID && clientID != END.clientID && clock >= 0
    && (forall k :: k in insLog ==> OpNotAhead(clientID, clock, insLog[k]))
    && (forall x :: x in delLog ==> NotAhead(clientID, clock, x))
  }

  /** What holds between operations. */
  ghost predicate Inv(d: Doc) {
    Core(d) && Saturated(d) && d.pendDel !! Ids(d.list) && OwnIdsFresh(d.clientID, d.clock, d.insLog, d.delLog)
  }

  // ----- Remote operations

  /** Integrate `op`, taking it out of the pending buffer if it was there. */
  ghost function Absorb(d: Doc, op: InsertOp): Doc
    requires Integrable(d.list, op)
  {
    d.(list := Integrate(d.list, op),
       pendIns := d.pendIns - {op.newID},
       insLog := d.insLog[op.newID := op],
       counter := d.counter + 1)
  }

  ghost predicate Releasable(d: Doc, k: ID) {
    k in d.pendIns && d.pendIns[k].newID == k && Integrable(d.list, d.pendIns[k])
  }

  /** `processPending`: pending inserts that are ready are integrated, in any order, until none is left. */
  ghost predicate Released(d: Doc, d': Doc)
    decreases d.pendIns.Keys
  {
    || (Saturated(d) && d' == d)
    || exists k :: Releasable(d, k) && Released(Absorb(d, d.pendIns[k]), d')
  }

  /** Whatever the order, no release walks off the list. */
  ghost predicate Safe(d: Doc)
    decreases d.pendIns.Keys
  {
    forall k :: k in d.pendIns && d.pendIns[k].newID == k && Ready(Ids(d.list), d.pendIns[k]) ==>
      Integrable(d.list, d.pendIns[k]) && Safe(Absorb(d, d.pendIns[k]))
  }

  /** `processPendingDeletes`. */
  ghost function ApplyPendingDeletes(d: Doc): Doc {
    var hit := d.pendDel * Ids(d.list);
    d.(tomb := d.tomb + hit, pendDel := d.pendDel - hit, counter := d.counter - |hit|)
  }

  datatype Outcome = Integrated | Pending | AlreadyInserted

  ghost function InsertOutcome(d: Doc, op: InsertOp): Outcome {
    if op.newID in Ids(d.list) then AlreadyInserted
    else if Ready(Ids(d.list), op) then Integrated
    else Pending
  }

  ghost predicate InsertStep(d: Doc, op: InsertOp, d': Doc) {
    match InsertOutcome(d, op)
    case AlreadyInserted => d' == d
    case Pending => d' == d.(pendIns := d.pendIns[op.newID := op], insLog := d.insLog[op.newID := op])
    case Integrated =>
      Integrable(d.list, op) &&
      exists mid :: Released(Absorb(d, op), mid) && d' == ApplyPendingDeletes(mid)
  }

  ghost function DeleteStep(d: Doc, id: ID): Doc {
    if id !in Ids(d.list) then d.(pendDel := d.pendDel + {id}, delLog := d.delLog + {id})
    else if id in d.tomb then d
    else d.(tomb := d.tomb + {id}, counter := d.counter - 1, delLog := d.delLog + {id})
  }

  ghost predicate Step(d: Doc, m: Msg, d': Doc) {
    match m
    case Ins(op) => InsertStep(d, op, d')
    case Del(id) => d' == DeleteStep(d, id)
  }

  ghost predicate Run(d: Doc, ms: seq<Msg>, d': Doc)
    decreases |ms|
  {
    if ms == [] then d' == d else exists mid :: Step(d, ms[0], mid) && Run(mid, ms[1..], d')
  }

  /** What the program assumes of a received message: an identifier determines its insert, sentinels are
      not deleted, and nobody else uses this client's future identifiers. */
  ghost predicate Acceptable(d: Doc, m: Msg) {
    match m
    case Ins(op) =>
      && Real(op.newID) && (op.newID in d.insLog ==> d.insLog[op.newID] == op)
      && OpNotAhead(d.clientID, d.clock, op)
    case Del(id) => Real(id) && NotAhead(d.clientID, d.clock, id)
  }

  /** Receiving the message does not walk off the list, whatever the iteration order. */
  ghost predicate SafeToReceive(d: Doc, m: Msg) {
    m.Ins? && InsertOutcome(d, m.op) == Integrated ==> Integrable(d.list, m.op) && Safe(Absorb(d, m.op))
  }

  /** Nor does any message of a run, whatever the iteration orders before it. */
  ghost predicate SafeRun(d: Doc, ms: seq<Msg>)
    decreases |ms|
  {
    ms == [] || (SafeToReceive(d, ms[0]) && forall mid :: Step(d, ms[0], mid) ==> SafeRun(mid, ms[1..]))
  }

  // ----- Visible text: lemmas

  lemma {:induction false} VisibleConcat(a: seq<Elem>, b: seq<Elem>, tomb: set<ID>)
    ensures Visible(a + b, tomb) == Visible(a, tomb) + Visible(b, tomb)
  {
    if a == [] {
      assert a + b == b;
    } else {
      assert (a + b)[1..] == a[1..] + b;
      VisibleConcat(a[1..], b, tomb);
    }
  }

  lemma {:induction false} VisibleSame(l: seq<Elem>, tomb: set<ID>, tomb': set<ID>)
    requires forall e :: e in l ==> (e.id in tomb <==> e.id in tomb')
    ensures Visible(l, tomb) == Visible(l, tomb')
  {
    if l != [] {
      VisibleSame(l[1..], tomb, tomb');
    }
  }

  /** A new element adds its character at its position. */
  lemma TextAfterInsert(l: seq<Elem>, k: nat, e: Elem, tomb: set<ID>)
    requires 0 < k < |l| && e.id !in tomb
    ensures Visible(InsertAt(l, k, e)[1..|l|], tomb) == Visible(l[1..k], tomb) + [e.content] + Visible(l[k..|l| - 1], tomb)
    ensures Visible(l[1..|l| - 1], tomb) == Visible(l[1..k], tomb) + Visible(l[k..|l| - 1], tomb)
  {
    assert InsertAt(l, k, e)[1..|l|] == l[1..k] + [e] + l[k..|l| - 1];
    assert l[1..|l| - 1] == l[1..k] + l[k..|l| - 1];
    VisibleConcat(l[1..k] + [e], l[k..|l| - 1], tomb);
    VisibleConcat(l[1..k], [e], tomb);
    VisibleConcat(l[1..k], l[k..|l| - 1], tomb);
    assert Visible([e], tomb) == [e.content];
  }

  /** A new tombstone removes the character at its position. */
  lemma TextAfterDelete(l: seq<Elem>, k: nat, tomb: set<ID>)
    requires Distinct(l) && 0 < k < |l| - 1 && l[k].id !in tomb
    ensures Visible(l[1..|l| - 1], tomb + {l[k].id}) == Visible(l[1..k], tomb) + Visible(l[k + 1..|l| - 1], tomb)
    ensures Visible(l[1..|l| - 1], tomb) == Visible(l[1..k], tomb) + [l[k].content] + Visible(l[k + 1..|l| - 1], tomb)
  {
    var a, b, tomb' := l[1..k], l[k + 1..|l| - 1], tomb + {l[k].id};
    assert l[1..|l| - 1] == a + [l[k]] + b;
    VisibleConcat(a + [l[k]], b, tomb);
    VisibleConcat(a, [l[k]], tomb);
    VisibleConcat(a + [l[k]], b, tomb');
    VisibleConcat(a, [l[k]], tomb');
    VisibleSame(a, tomb, tomb');
    VisibleSame(b, tomb, tomb');
    assert Visible([l[k]], tomb) == [l[k].content] && Visible([l[k]], tomb') == [];
  }

  // ----- Preservation of the invariant

  lemma {:induction false} SupportedMonotone(log: map<ID, InsertOp>, log': map<ID, InsertOp>, x: ID, n: nat, n': nat)
    requires Supported(log, x, n) && n <= n'
    requires forall k :: k in log ==> k in log' && log'[k] == log[k]
    ensures Supported(log', x, n')
    decreases n
  {
    if !Sentinel(x) {
      SupportedMonotone(log, log', log[x].originID, n - 1, n' - 1);
      SupportedMonotone(log, log', log[x].rightID, n - 1, n' - 1);
    }
  }

  lemma SupportedByMore(log: map<ID, InsertOp>, log': map<ID, InsertOp>, x: ID)
    requires SupportedBy(log, x)
    requires forall k :: k in log ==> k in log' && log'[k] == log[k]
    ensures SupportedBy(log', x)
  {
    var n: nat :| Supported(log, x, n);
    SupportedMonotone(log, log', x, n, n);
  }

  lemma SupportedByNeighbours(log: map<ID, InsertOp>, x: ID)
    requires x in log && SupportedBy(log, log[x].originID) && SupportedBy(log, log[x].rightID)
    ensures SupportedBy(log, x)
  {
    var n1: nat :| Supported(log, log[x].originID, n1);
    var n2: nat :| Supported(log, log[x].rightID, n2);
    var n := if n1 < n2 then n2 else n1;
    SupportedMonotone(log, log, log[x].originID, n1, n);
    SupportedMonotone(log, log, log[x].rightID, n2, n);
    assert Supported(log, x, n + 1);
  }

  lemma GroundedMore(ids: set<ID>, insLog: map<ID, InsertOp>, op: InsertOp)
    requires Grounded(ids, insLog)
    requires op.newID !in ids && Ready(ids, op)
    requires op.newID in insLog ==> insLog[op.newID] == op
    ensures Grounded(ids + {op.newID}, insLog[op.newID := op])
  {
    var log' := insLog[op.newID := op];
    forall x | x in ids
      ensures SupportedBy(log', x)
    {
      SupportedByMore(insLog, log', x);
    }
    SupportedByNeighbours(log', op.newID);
  }

  lemma ElementsLoggedMore(l: seq<Elem>, insLog: map<ID, InsertOp>, k: nat, op: InsertOp)
    requires ElementsLogged(l, insLog) && 0 < k < |l|
    requires op.newID in insLog ==> insLog[op.newID] == op
    ensures ElementsLogged(InsertAt(l, k, NewElem(op)), insLog[op.newID := op])
  {
    var r := InsertAt(l, k, NewElem(op));
    forall i | 0 < i < |r| - 1
      ensures LoggedElem(insLog[op.newID := op], r[i])
    {
      if i != k {
        assert r[i] == l[if i < k then i else i - 1];
      }
    }
  }

  lemma InsertLogExactMore(ids: set<ID>, pendIns: map<ID, InsertOp>, insLog: map<ID, InsertOp>, op: InsertOp)
    requires InsertLogExact(ids, pendIns, insLog) && Real(op.newID)
    ensures InsertLogExact(ids + {op.newID}, pendIns - {op.newID}, insLog[op.newID := op])
  {
  }

  lemma CountedMore(l: seq<Elem>, tomb: set<ID>, counter: int, op: InsertOp)
    requires Integrable(l, op) && op.newID !in tomb && Counted(l, tomb, counter)
    ensures Counted(Integrate(l, op), tomb, counter + 1)
  {
    TextAfterInsert(l, InsertIndex(l, op), NewElem(op), tomb);
  }

  lemma AbsorbCore(d: Doc, op: InsertOp)
    requires Core(d) && Real(op.newID) && op.newID !in Ids(d.list) && Integrable(d.list, op)
    requires op.newID in d.insLog ==> d.insLog[op.newID] == op
    ensures Core(Absorb(d, op)) && Ids(Absorb(d, op).list) == Ids(d.list) + {op.newID}
  {
    IntegrateKeeps(d.list, op);
    GroundedMore(Ids(d.list), d.insLog, op);
    ElementsLoggedMore(d.list, d.insLog, InsertIndex(d.list, op), op);
    InsertLogExactMore(Ids(d.list), d.pendIns, d.insLog, op);
    CountedMore(d.list, d.tomb, d.counter, op);
    assert DeleteLogExact(Ids(d.list) + {op.newID}, d.tomb, d.pendDel, d.delLog);
  }

  /** Releasing keeps the core, the tombstones and the logs, and ends saturated. */
  lemma {:induction false} ReleasedKeeps(d: Doc, d': Doc)
    requires Core(d) && Released(d, d')
    ensures Core(d') && Saturated(d')
    ensures d' == d.(list := d'.list, pendIns := d'.pendIns, counter := d'.counter)
    ensures Ids(d.list) <= Ids(d'.list)
    decreases d.pendIns.Keys
  {
    if !(Saturated(d) && d' == d) {
      var k :| Releasable(d, k) && Released(Absorb(d, d.pendIns[k]), d');
      AbsorbCore(d, d.pendIns[k]);
      ReleaseKeepsLog(d, k);
      ReleasedKeeps(Absorb(d, d.pendIns[k]), d');
    }
  }

  /** With nothing pending, an integrated insert releases nothing else. */
  lemma NoReleases(d: Doc, d': Doc)
    requires d.pendIns == map[] && Released(d, d')
    ensures d' == d
  {
  }

  lemma ReleasedNow(d: Doc)
    requires Saturated(d)
    ensures Released(d, d)
  {
  }

  lemma ReleaseKeepsLog(d: Doc, k: ID)
    requires Core(d) && Releasable(d, k)
    ensures Absorb(d, d.pendIns[k]).insLog == d.insLog
  {
    assert d.insLog[k := d.pendIns[k]] == d.insLog;
  }

  lemma {:induction false} TombstoneAll(l: seq<Elem>, tomb: set<ID>, hit: set<ID>)
    requires WellFormed(l) && hit !! tomb && hit <= Ids(l) - {START, END}
    ensures |Visible(l[1..|l| - 1], tomb + hit)| == |Visible(l[1..|l| - 1], tomb)| - |hit|
    decreases hit
  {
    if hit == {} {
      assert tomb + hit == tomb;
    } else {
      var x :| x in hit;
      TombstoneAll(l, tomb, hit - {x});
      TombstoneOne(l, tomb + (hit - {x}), x);
      assert tomb + (hit - {x}) + {x} == tomb + hit;
    }
  }

  lemma TombstoneOne(l: seq<Elem>, tomb: set<ID>, x: ID)
    requires WellFormed(l) && x in Ids(l) - {START, END} && x !in tomb
    ensures |Visible(l[1..|l| - 1], tomb + {x})| == |Visible(l[1..|l| - 1], tomb)| - 1
  {
    TextAfterDelete(l, IndexOf(l, x), tomb);
  }

  lemma ApplyPendingDeletesKeeps(d: Doc)
    requires Core(d)
    ensures Core(ApplyPendingDeletes(d)) && ApplyPendingDeletes(d).pendDel !! Ids(d.list)
  {
    TombstonePending(d.list, d.tomb, d.pendDel, d.delLog, d.counter);
  }

  lemma TombstonePending(l: seq<Elem>, tomb: set<ID>, pendDel: set<ID>, delLog: set<ID>, counter: int)
    requires WellFormed(l) && DeleteLogExact(Ids(l), tomb, pendDel, delLog) && Counted(l, tomb, counter)
    ensures var hit := pendDel * Ids(l);
            && DeleteLogExact(Ids(l), tomb + hit, pendDel - hit, delLog)
            && Counted(l, tomb + hit, counter - |hit|)
            && pendDel - hit !! Ids(l)
  {
    var hit := pendDel * Ids(l);
    RealNotSentinel(hit, delLog);
    TombstoneAll(l, tomb, hit);
    assert tomb + hit + (pendDel - hit) == tomb + pendDel;
  }

  lemma RealNotSentinel(s: set<ID>, log: set<ID>)
    requires s <= log && forall x :: x in log ==> Real(x)
    ensures START !in s && END !in s
  {
  }

  lemma DeleteStepKeeps(d: Doc, id: ID)
    requires Core(d) && d.pendDel !! Ids(d.list) && Real(id)
    ensures Core(DeleteStep(d, id)) && DeleteStep(d, id).pendDel !! Ids(d.list)
  {
    hide InsertLogExact, ElementsLogged, Grounded, WellFormed, Visible;
    if id !in Ids(d.list) {
      assert DeleteLogExact(Ids(d.list), d.tomb, d.pendDel + {id}, d.delLog + {id});
    } else if id !in d.tomb {
      hide Ids;
      TombstoneOne(d.list, d.tomb, id);
      DeleteLogged(Ids(d.list), d.tomb, d.pendDel, d.delLog, id);
    }
  }

  lemma DeleteLogged(ids: set<ID>, tomb: set<ID>, pendDel: set<ID>, delLog: set<ID>, id: ID)
    requires DeleteLogExact(ids, tomb, pendDel, delLog) && Real(id) && id in ids && pendDel !! ids
    ensures DeleteLogExact(ids, tomb + {id}, pendDel, delLog + {id})
  {
  }

  lemma PendingKeeps(d: Doc, op: InsertOp)
    requires Core(d) && Real(op.newID) && op.newID !in Ids(d.list)
    requires op.newID in d.insLog ==> d.insLog[op.newID] == op
    ensures Core(d.(pendIns := d.pendIns[op.newID := op], insLog := d.insLog[op.newID := op]))
  {
    hide WellFormed, DeleteLogExact, Counted;
    PendingLogged(Ids(d.list), d.pendIns, d.insLog, op);
    forall i | 0 < i < |d.list| - 1
      ensures LoggedElem(d.insLog[op.newID := op], d.list[i])
    {
      assert LoggedElem(d.insLog, d.list[i]);
    }
  }

  lemma PendingLogged(ids: set<ID>, pendIns: map<ID, InsertOp>, insLog: map<ID, InsertOp>, op: InsertOp)
    requires InsertLogExact(ids, pendIns, insLog) && Grounded(ids, insLog) && Real(op.newID) && op.newID !in ids
    requires op.newID in insLog ==> insLog[op.newID] == op
    ensures InsertLogExact(ids, pendIns[op.newID := op], insLog[op.newID := op])
    ensures Grounded(ids, insLog[op.newID := op])
  {
    forall x | x in ids
      ensures SupportedBy(insLog[op.newID := op], x)
    {
      SupportedByMore(insLog, insLog[op.newID := op], x);
    }
  }

  /** Receiving an insert keeps the core and leaves nothing that could still be integrated or deleted. */
  lemma InsertStepKeeps(d: Doc, op: InsertOp, d': Doc)
    requires Core(d) && Saturated(d) && d.pendDel !! Ids(d.list)
    requires Real(op.newID) && (op.newID in d.insLog ==> d.insLog[op.newID] == op)
    requires InsertStep(d, op, d')
    ensures Core(d') && Saturated(d') && d'.pendDel !! Ids(d'.list)
    ensures d'.insLog == d.insLog[op.newID := op] && d'.delLog == d.delLog
    ensures d'.clientID == d.clientID && d'.clock == d.clock
  {
    match InsertOutcome(d, op)
    case AlreadyInserted =>
      LoggedIfPresent(d, op);
    case Pending =>
      PendingKeeps(d, op);
    case Integrated =>
      var mid :| Released(Absorb(d, op), mid) && d' == ApplyPendingDeletes(mid);
      AbsorbCore(d, op);
      ReleasedKeeps(Absorb(d, op), mid);
      ApplyPendingDeletesKeeps(mid);
  }

  lemma LoggedIfPresent(d: Doc, op: InsertOp)
    requires Core(d) && Real(op.newID) && (op.newID in d.insLog ==> d.insLog[op.newID] == op)
    requires op.newID in Ids(d.list)
    ensures d.insLog[op.newID := op] == d.insLog
  {
    assert op.newID in d.insLog;
  }

  /** Every remote operation keeps the invariant. */
  lemma StepKeeps(d: Doc, m: Msg, d': Doc)
    requires Inv(d) && Acceptable(d, m) && Step(d, m, d')
    ensures Inv(d') && d'.clientID == d.clientID && d'.clock == d.clock
    ensures d'.insLog == (if m.Ins? then d.insLog[m.op.newID := m.op] else d.insLog)
    ensures d'.delLog == (if m.Del? then d.delLog + {m.id} else d.delLog)
  {
    match m
    case Ins(op) =>
      InsertStepKeeps(d, op, d');
      OwnIdsFreshMore(d.clientID, d.clock, d.insLog, d.delLog, op);
    case Del(id) =>
      DeleteStepKeeps(d, id);
      DeleteStepLogs(d, id);
  }

  lemma DeleteStepLogs(d: Doc, id: ID)
    requires Core(d) && Saturated(d)
    ensures var d' := DeleteStep(d, id);
            && d' == d.(tomb := d'.tomb, pendDel := d'.pendDel, counter := d'.counter, delLog := d.delLog + {id})
            && Saturated(d')
  {
    hide WellFormed, InsertLogExact, ElementsLogged, Grounded, Counted, Ids;
    assert id in d.tomb ==> d.delLog + {id} == d.delLog;
  }

  lemma OwnIdsFreshMore(clientID: string, clock: int, insLog: map<ID, InsertOp>, delLog: set<ID>, op: InsertOp)
    requires OwnIdsFresh(clientID, clock, insLog, delLog) && OpNotAhead(clientID, clock, op)
    ensures OwnIdsFresh(clientID, clock, insLog[op.newID := op], delLog)
  {
  }

  lemma NewDocInv(clientID: string)
    requires clientID != "START" && clientID != "END"
    ensures Inv(NewDoc(clientID))
  {
    var d := NewDoc(clientID);
    assert Supported(d.insLog, START, 0) && Supported(d.insLog, END, 0);
    assert d.list[0].id == START && d.list[1].id == END;
    assert Ids(d.list) == {START, END};
  }
}
