/** What an exchange of deltas does to two documents. */
module SyncConvergence {
  import opened Identifiers
  import opened ReplicatedList
  import opened DocumentSpec
  import opened DocumentLaws
  import opened SequentialHistory
  import opened SequentialConvergence
  import opened Sync
  import opened Lifetime
  import opened LocalEdits
  import D = Document

  /** The delta a source in state `s` sends for a vector, in any order. */
  ghost predicate IsDelta(s: Doc, v: map<string, int>, w: map<string, seq<int>>, inserts: seq<InsertOp>, deletes: seq<ID>) {
    && (forall op :: op in inserts <==> op.newID in s.insLog && s.insLog[op.newID] == op && MissingInsert(v, op.newID))
    && (forall k :: k in deletes <==> k in s.delLog && MissingDelete(w, k))
  }

  /** The source and the peer agree on what their identifiers mean, and the source knows nothing of the
      peer's future. */
  ghost predicate Compatible(s: Doc, p: Doc) {
    && (forall k :: k in s.insLog && k in p.insLog ==> s.insLog[k] == p.insLog[k])
    && OwnIdsFresh(p.clientID, p.clock, s.insLog, s.delLog)
  }

  lemma DeltaMessage(inserts: seq<InsertOp>, deletes: seq<ID>, m: Msg)
    ensures m in D.DeltaMessages(inserts, deletes) <==> if m.Ins? then m.op in inserts else m.id in deletes
  {
    var ms := D.DeltaMessages(inserts, deletes);
    if m.Ins? && m.op in inserts {
      var i :| 0 <= i < |inserts| && inserts[i] == m.op;
      assert ms[i] == m;
    }
    if m.Del? && m.id in deletes {
      var i :| 0 <= i < |deletes| && deletes[i] == m.id;
      assert ms[|inserts| + i] == m;
    }
  }

  /** Every message of a delta is acceptable to the peer. */
  lemma DeltaAcceptable(s: Doc, p: Doc, v: map<string, int>, w: map<string, seq<int>>, inserts: seq<InsertOp>, deletes: seq<ID>)
    requires Inv(s) && Inv(p) && Compatible(s, p) && IsDelta(s, v, w, inserts, deletes)
    ensures AllAcceptable(p, D.DeltaMessages(inserts, deletes))
  {
    var ms := D.DeltaMessages(inserts, deletes);
    forall m | m in ms
      ensures Acceptable(p, m)
    {
      DeltaMessage(inserts, deletes, m);
      assert m.Ins? ==> OpNotAhead(p.clientID, p.clock, s.insLog[m.op.newID]);
      assert m.Del? ==> m.id in s.delLog;
    }
    forall m, m' | m in ms && m' in ms
      ensures Agree(m, m')
    {
      DeltaMessage(inserts, deletes, m);
      DeltaMessage(inserts, deletes, m');
    }
  }

  ghost predicate IsUnion(a: map<ID, InsertOp>, b: map<ID, InsertOp>, u: map<ID, InsertOp>) {
    && u.Keys == a.Keys + b.Keys
    && (forall k :: k in a ==> u[k] == a[k]) && (forall k :: k in b ==> u[k] == b[k])
  }

  /** The messages `ms` are a delta of the source `s` against the exact vector of the peer `p`. */
  ghost predicate SyncDelta(s: Doc, p: Doc, ms: seq<Msg>) {
    exists v, w, inserts, deletes ::
      && IsStateVector(v, p.insLog) && IsDeleteSet(w, p.delLog)
      && IsDelta(s, v, w, inserts, deletes) && ms == D.DeltaMessages(inserts, deletes)
  }

  /** Delta completeness: what the delta holds and what the peer has make up what either replica has. What
      was not sent was in the peer's log already, and the deletes sent are exactly those the peer lacks. */
  lemma DeltaComplete(s: Doc, p: Doc, ms: seq<Msg>)
    requires Inv(s) && Inv(p) && Compatible(s, p) && SyncDelta(s, p, ms)
    ensures AllAcceptable(p, ms)
    ensures IsUnion(s.insLog, p.insLog, LoggedInserts(p.insLog, ms))
    ensures DeleteTargets(ms) == s.delLog - p.delLog
    ensures forall m :: m in ms ==> if m.Ins? then m.op.newID in s.insLog && s.insLog[m.op.newID] == m.op else m.id in s.delLog
  {
    hide Inv, Compatible, IsStateVector, IsDeleteSet, IsDelta;
    var v, w, inserts, deletes :|
      && IsStateVector(v, p.insLog) && IsDeleteSet(w, p.delLog)
      && IsDelta(s, v, w, inserts, deletes) && ms == D.DeltaMessages(inserts, deletes);
    DeltaAcceptable(s, p, v, w, inserts, deletes);
    forall k
      ensures k in LoggedInserts(p.insLog, ms) <==> k in s.insLog || k in p.insLog
      ensures k in s.insLog ==> LoggedInserts(p.insLog, ms)[k] == s.insLog[k]
      ensures k in p.insLog ==> LoggedInserts(p.insLog, ms)[k] == p.insLog[k]
    {
      DeltaInserts(s, p, v, w, inserts, deletes, k);
    }
    DeltaDeletes(s, p, v, w, inserts, deletes);
    DeltaContents(s, v, w, inserts, deletes);
  }

  lemma DeltaContents(s: Doc, v: map<string, int>, w: map<string, seq<int>>, inserts: seq<InsertOp>, deletes: seq<ID>)
    requires IsDelta(s, v, w, inserts, deletes)
    ensures forall m :: m in D.DeltaMessages(inserts, deletes) ==>
              if m.Ins? then m.op.newID in s.insLog && s.insLog[m.op.newID] == m.op else m.id in s.delLog
  {
    forall m | m in D.DeltaMessages(inserts, deletes)
      ensures if m.Ins? then m.op.newID in s.insLog && s.insLog[m.op.newID] == m.op else m.id in s.delLog
    {
      DeltaMessage(inserts, deletes, m);
    }
  }

  /** Exactly which inserts a delta holds: the source's for which the peer lacks that clock or an earlier one of
      the same client. */
  lemma DeltaSendsExactly(s: Doc, p: Doc, ms: seq<Msg>, op: InsertOp)
    requires Inv(s) && SyncDelta(s, p, ms)
    ensures Ins(op) in ms <==> op.newID in s.insLog && s.insLog[op.newID] == op && GapUpTo(p.insLog, op.newID)
  {
    var v, w, inserts, deletes :|
      && IsStateVector(v, p.insLog) && IsDeleteSet(w, p.delLog)
      && IsDelta(s, v, w, inserts, deletes) && ms == D.DeltaMessages(inserts, deletes);
    DeltaMessage(inserts, deletes, Ins(op));
    if op.newID in s.insLog {
      assert Real(op.newID);
      SentExactly(v, p.insLog, op.newID);
    }
  }

  /** Integrating the delta makes the peer's logs the union of both replicas' logs. */
  lemma DeltaMakesUnion(s: Doc, p: Doc, ms: seq<Msg>, p': Doc)
    requires Inv(s) && Inv(p) && Compatible(s, p) && SyncDelta(s, p, ms) && Run(p, ms, p')
    ensures Inv(p') && IsUnion(s.insLog, p.insLog, p'.insLog) && p'.delLog == s.delLog + p.delLog
    ensures p'.clientID == p.clientID && p'.clock == p.clock
  {
    hide Inv, Compatible, SyncDelta, AllAcceptable, Run;
    DeltaComplete(s, p, ms);
    RunKeeps(p, ms, p');
  }

  lemma DeltaInserts(s: Doc, p: Doc, v: map<string, int>, w: map<string, seq<int>>, inserts: seq<InsertOp>, deletes: seq<ID>, k: ID)
    requires Inv(s) && Inv(p) && Compatible(s, p)
    requires IsStateVector(v, p.insLog) && IsDelta(s, v, w, inserts, deletes)
    ensures var log := LoggedInserts(p.insLog, D.DeltaMessages(inserts, deletes));
            && (k in log <==> k in s.insLog || k in p.insLog)
            && (k in s.insLog ==> log[k] == s.insLog[k])
            && (k in p.insLog ==> log[k] == p.insLog[k])
  {
    var ms := D.DeltaMessages(inserts, deletes);
    DeltaAcceptable(s, p, v, w, inserts, deletes);
    assert forall m :: m in ms ==> Acceptable(p, m);
    LoggedInsertsAt(p.insLog, ms, k);
    forall m | m in ms && m.Ins?
      ensures m.op.newID in s.insLog
    {
      DeltaMessage(inserts, deletes, m);
    }
    if k in s.insLog {
      assert Real(k);
      OmittedIsKnown(v, p.insLog, k);
      DeltaMessage(inserts, deletes, Ins(s.insLog[k]));
    }
  }

  lemma DeltaDeletes(s: Doc, p: Doc, v: map<string, int>, w: map<string, seq<int>>, inserts: seq<InsertOp>, deletes: seq<ID>)
    requires Inv(s) && IsDeleteSet(w, p.delLog) && IsDelta(s, v, w, inserts, deletes)
    ensures DeleteTargets(D.DeltaMessages(inserts, deletes)) == s.delLog - p.delLog
  {
    var ms := D.DeltaMessages(inserts, deletes);
    forall k
      ensures k in DeleteTargets(ms) <==> k in s.delLog && k !in p.delLog
    {
      DeltaMessage(inserts, deletes, Del(k));
      if k in s.delLog {
        assert Real(k);
        MissingDeletesExact(w, p.delLog, k);
      }
      if k in DeleteTargets(ms) {
        var m :| m in ms && m.Del? && m.id == k;
        assert m == Del(k);
      }
    }
  }

  /** One exchange each way leaves both replicas with the same logs, hence with the same integrated and
      pending inserts, tombstones, pending deletes and counter: only the order of elements may differ. */
  lemma ExchangeAgrees(s: Doc, p: Doc, ms: seq<Msg>, p': Doc, ms': seq<Msg>, s': Doc)
    requires Inv(s) && Inv(p) && Compatible(s, p) && Compatible(p, s)
    requires SyncDelta(s, p, ms) && Run(p, ms, p') && SyncDelta(p, s, ms') && Run(s, ms', s')
    ensures SameUpToOrder(p', s')
  {
    hide Inv, Compatible, SyncDelta, Run;
    DeltaMakesUnion(s, p, ms, p');
    DeltaMakesUnion(p, s, ms', s');
    UnionUnique(s.insLog, p.insLog, p'.insLog, s'.insLog);
    LogsDetermine(p', s');
  }

  lemma UnionUnique(a: map<ID, InsertOp>, b: map<ID, InsertOp>, u: map<ID, InsertOp>, u': map<ID, InsertOp>)
    requires IsUnion(a, b, u) && IsUnion(b, a, u')
    ensures u == u'
  {
    assert u.Keys == u'.Keys;
    assert forall k :: k in u ==> k in a || k in b;
  }

  /** A further exchange adds nothing: every message of its delta was received before. */
  lemma FurtherExchangeAddsNothing(s: Doc, p: Doc, ms: seq<Msg>, p': Doc)
    requires Inv(s) && Inv(p) && Compatible(s, p) && SyncDelta(s, p, ms)
    requires s.insLog.Keys <= p.insLog.Keys && s.delLog <= p.delLog
    ensures Run(p, ms, p') <==> p' == p
  {
    hide Inv, Compatible, SyncDelta, Run;
    DeltaComplete(s, p, ms);
    AllReceivedRun(p, ms, p');
  }

  /** After one exchange each way every further delta, in either direction, changes nothing. */
  lemma ExchangeSettles(s: Doc, p: Doc, ms: seq<Msg>, p': Doc, ms': seq<Msg>, s': Doc, more: seq<Msg>, p'': Doc)
    requires Inv(s) && Inv(p) && Compatible(s, p) && Compatible(p, s)
    requires SyncDelta(s, p, ms) && Run(p, ms, p') && SyncDelta(p, s, ms') && Run(s, ms', s')
    ensures Inv(s') && Inv(p') && Compatible(s', p') && Compatible(p', s')
    ensures SyncDelta(s', p', more) ==> (Run(p', more, p'') <==> p'' == p')
    ensures SyncDelta(p', s', more) ==> (Run(s', more, p'') <==> p'' == s')
  {
    hide SyncDelta, Run;
    DeltaMakesUnion(s, p, ms, p');
    DeltaMakesUnion(p, s, ms', s');
    UnionUnique(s.insLog, p.insLog, p'.insLog, s'.insLog);
    assert Compatible(s', p') && Compatible(p', s');
    if SyncDelta(s', p', more) {
      FurtherExchangeAddsNothing(s', p', more, p'');
    }
    if SyncDelta(p', s', more) {
      FurtherExchangeAddsNothing(p', s', more, p'');
    }
  }

  lemma {:induction false} AllReceivedRun(p: Doc, ms: seq<Msg>, p': Doc)
    requires Inv(p) && forall m :: m in ms ==> Acceptable(p, m) && Received(p, m)
    ensures Run(p, ms, p') <==> p' == p
    decreases |ms|
  {
    if ms != [] {
      assert ms[0] in ms;
      AllReceivedRun(p, ms[1..], p');
      forall mid
        ensures Step(p, ms[0], mid) <==> mid == p
      {
        DuplicateAbsorbed(p, ms[0], mid);
      }
    }
  }

  /** End-to-end synchronisation. The source holds a whole sequential history, the peer any part of it,
      received in any order, with anything still pending. After state vector, delta and integration, for
      every iteration order, the peer is in the source's state: list, tombstones, text, nothing pending. */
  lemma SyncCompletes(h: seq<InsertOp>, s: Doc, p: Doc, ms: seq<Msg>, p': Doc)
    requires Inv(s) && Holds(h, s) && HasAll(h, s) && Inv(p) && Holds(h, p) && Compatible(s, p)
    requires p.delLog <= s.delLog <= NewIDs(h)
    requires SyncDelta(s, p, ms) && Run(p, ms, p')
    ensures Inv(p') && p' == s.(clientID := p.clientID, clock := p.clock)
    ensures p'.list == ListOf(h) && p'.pendIns == map[] && p'.pendDel == {} && p'.tomb == s.delLog
  {
    hide Inv, Holds, HasAll, Compatible, SyncDelta, Run, AllAcceptable;
    DeltaMakesUnion(s, p, ms, p');
    DeltaComplete(s, p, ms);
    DeltaOfHistory(h, s, ms);
    RunHolds(h, p, ms, p');
    PeerLogCovered(h, s, p);
    CoveredUnion(s.insLog, p.insLog, p'.insLog);
    LogsDetermineList(h, s, p');
    SameHasAll(h, s, p');
    CompleteHistory(h, p');
  }

  lemma CoveredUnion(a: map<ID, InsertOp>, b: map<ID, InsertOp>, u: map<ID, InsertOp>)
    requires IsUnion(a, b, u) && b.Keys <= a.Keys
    ensures u == a
  {
    assert u.Keys == a.Keys;
  }

  lemma SameHasAll(h: seq<InsertOp>, s: Doc, p: Doc)
    requires HasAll(h, s) && p.insLog == s.insLog
    ensures HasAll(h, p)
  {
  }

  lemma DeltaOfHistory(h: seq<InsertOp>, s: Doc, ms: seq<Msg>)
    requires Holds(h, s)
    requires forall m :: m in ms ==> m.Ins? ==> m.op.newID in s.insLog && s.insLog[m.op.newID] == m.op
    ensures AllOfHistory(h, ms)
  {
    forall m | m in ms
      ensures OfHistory(h, m)
    {
      assert m.Ins? ==> s.insLog[m.op.newID] in h;
    }
  }

  lemma PeerLogCovered(h: seq<InsertOp>, s: Doc, p: Doc)
    requires Inv(p) && Holds(h, p) && HasAll(h, s)
    ensures p.insLog.Keys <= s.insLog.Keys
  {
    forall k | k in p.insLog
      ensures k in s.insLog
    {
      assert p.insLog[k] in h && p.insLog[k].newID == k;
    }
  }

  /** No delta of a history walks off the peer's list. */
  lemma {:induction false} HistoryRunSafe(h: seq<InsertOp>, p: Doc, ms: seq<Msg>)
    requires Inv(p) && Holds(h, p) && AllAcceptable(p, ms) && AllOfHistory(h, ms)
    ensures SafeRun(p, ms)
    decreases |ms|
  {
    if ms != [] {
      assert ms[0] in ms;
      StepHolds(h, p, ms[0]);
      forall mid | Step(p, ms[0], mid)
        ensures SafeRun(mid, ms[1..])
      {
        AcceptableAfter(p, ms, mid);
        HistoryRunSafe(h, mid, ms[1..]);
      }
    }
  }

  /** The whole exchange on heap documents: vector of the peer, delta of the source, integration. */
  method Synchronise(ghost h: seq<InsertOp>, source: D.Document, peer: D.Document)
    requires source.Valid() && peer.Valid() && source != peer && source.Repr() !! peer.Repr()
    requires Holds(h, source.doc) && HasAll(h, source.doc) && Holds(h, peer.doc)
    requires Compatible(source.doc, peer.doc) && peer.doc.delLog <= source.doc.delLog <= NewIDs(h)
    modifies peer, peer.Repr()
    ensures source.Valid() && peer.Valid() && source.doc == old(source.doc)
    ensures peer.doc == source.doc.(clientID := old(peer.clientID), clock := old(peer.clock))
    ensures Text(peer.doc) == Text(source.doc) && peer.doc.list == ListOf(h)
    ensures peer.pendingInserts == map[] && peer.pendingDeletes == {}
  {
    hide Inv, Holds, HasAll, Compatible, D.Document.Valid, AllAcceptable, SafeRun, Run, IsStateVector, IsDeleteSet, SyncDelta, Advertises;
    source.PublicFields();
    peer.PublicFields();
    var vector := new Vector(map[], map[]);
    ClocksOfDocument(peer);
    vector.GenerateStateVector(peer);
    vector.GenerateDeleteSet(peer);
    var missingInserts, missingDeletes := ComputeDelta(source, vector);
    var inserts, deletes := ComputeSerializedDelta(source, missingInserts, missingDeletes);
    ghost var s, p, ms := source.doc, peer.doc, D.DeltaMessages(inserts, deletes);
    DeltaReady(h, s, p, vector.stateVectors, vector.deleteSet, missingInserts, missingDeletes);
    peer.IntegrateDelta(inserts, deletes);
    SyncCompletes(h, s, p, ms, peer.doc);
    peer.PublicFields();
  }

  lemma DeltaReady(h: seq<InsertOp>, s: Doc, p: Doc, v: map<string, int>, w: map<string, seq<int>>, ids: seq<ID>, dels: seq<ID>)
    requires Inv(s) && Holds(h, s) && Inv(p) && Holds(h, p) && Compatible(s, p)
    requires IsStateVector(v, p.insLog) && IsDeleteSet(w, p.delLog)
    requires forall k :: k in ids <==> k in s.insLog && MissingInsert(v, k)
    requires forall k :: k in dels <==> k in s.delLog && MissingDelete(w, k)
    ensures var ms := D.DeltaMessages(Logged(s.insLog, ids), Kept(s.delLog, dels));
            SyncDelta(s, p, ms) && AllAcceptable(p, ms) && SafeRun(p, ms)
  {
    hide Inv, Holds, Compatible, AllAcceptable, SafeRun, IsStateVector, IsDeleteSet, MissingInsert, MissingDelete;
    var inserts, deletes := Logged(s.insLog, ids), Kept(s.delLog, dels);
    var ms := D.DeltaMessages(inserts, deletes);
    SerializedIsDelta(s, v, w, ids, dels);
    assert SyncDelta(s, p, ms);
    DeltaComplete(s, p, ms);
    DeltaOfHistory(h, s, ms);
    HistoryRunSafe(h, p, ms);
  }

  lemma ClocksOfDocument(d: D.Document)
    requires d.Valid()
    ensures ClocksCounted(d.insertLog)
  {
    forall k | k in d.doc.insLog
      ensures Real(k)
    {
    }
  }

  lemma SerializedIsDelta(s: Doc, v: map<string, int>, w: map<string, seq<int>>, ids: seq<ID>, dels: seq<ID>)
    requires Inv(s)
    requires forall k :: k in ids <==> k in s.insLog && MissingInsert(v, k)
    requires forall k :: k in dels <==> k in s.delLog && MissingDelete(w, k)
    ensures IsDelta(s, v, w, Logged(s.insLog, ids), Kept(s.delLog, dels))
  {
  }

  /** The vector of a document always advertises all of its own client's inserts: it misses the client only
      before the first one. */
  lemma OwnInsertsAdvertised(a: string, states: seq<Doc>, j: nat, v: map<string, int>)
    requires Life(states) && states[0] == NewDoc(a) && j < |states| && IsStateVector(v, states[j].insLog)
    ensures if states[j].clock == 0 then a !in v else a in v && v[a] == states[j].clock - 1
  {
    hide Life, Inv;
    var d := states[j];
    OwnClocksHaveNoHole(a, states, j);
    NewClientReal(a, states);
    assert ID(a, 0) in d.insLog <==> 0 < d.clock;
    if a in v {
      assert Contiguous(d.insLog, a, v[a]) && ID(a, v[a]) in d.insLog;
      assert ID(a, v[a] + 1) !in d.insLog;
    }
  }

  lemma NewClientReal(a: string, states: seq<Doc>)
    requires Life(states) && states[0] == NewDoc(a)
    ensures !SentinelClient(a)
  {
  }

  // ----- Clients that start anew and edit stay compatible

  lemma NewDocsCompatible(a: string, b: string)
    requires Inv(NewDoc(a)) && Inv(NewDoc(b))
    ensures Compatible(NewDoc(a), NewDoc(b))
  {
  }

  /** A local insert keeps two replicas of different clients compatible, both ways. */
  lemma EditsStayCompatible(s: Doc, p: Doc, i: int, c: char)
    requires Inv(s) && Inv(p) && s.clientID != p.clientID && Compatible(s, p) && Compatible(p, s)
    requires 0 <= i <= s.counter
    ensures var s' := LocalInsert(s, i, c);
            Compatible(s', p) && Compatible(p, s')
  {
    assert |s.list| >= 2;
    hide Inv, LocalInsert, LocalInsertOp, Compatible, Ids;
    EditFields(s, i, c);
    NewIDUnknown(s, p);
    NotAheadOfPeer(s, p, LocalInsertOp(s, i, c).originID);
    NotAheadOfPeer(s, p, LocalInsertOp(s, i, c).rightID);
    LoggedStaysCompatible(s, LocalInsert(s, i, c), p, LocalInsertOp(s, i, c));
  }

  lemma LoggedStaysCompatible(s: Doc, s': Doc, p: Doc, op: InsertOp)
    requires Compatible(s, p) && Compatible(p, s) && s.clientID != p.clientID
    requires op.newID == ID(s.clientID, s.clock) && op.newID !in p.insLog
    requires NotAhead(p.clientID, p.clock, op.originID) && NotAhead(p.clientID, p.clock, op.rightID)
    requires s'.insLog == s.insLog[op.newID := op] && s'.delLog == s.delLog && s'.clientID == s.clientID && s'.clock == s.clock + 1
    ensures Compatible(s', p) && Compatible(p, s')
  {
    OwnIdsFreshLater(s.clientID, s.clock, p.insLog, p.delLog);
    assert OpNotAhead(p.clientID, p.clock, op);
    OwnIdsFreshMore(p.clientID, p.clock, s.insLog, s.delLog, op);
    hide OwnIdsFresh, OpNotAhead;
  }

  lemma EditFields(s: Doc, i: int, c: char)
    requires Inv(s) && 0 <= i <= s.counter
    ensures var op, s' := LocalInsertOp(s, i, c), LocalInsert(s, i, c);
            && op.newID == ID(s.clientID, s.clock) && op.originID in Ids(s.list) && op.rightID in Ids(s.list)
            && s'.insLog == s.insLog[op.newID := op] && s'.delLog == s.delLog
            && s'.clientID == s.clientID && s'.clock == s.clock + 1
  {
    hide FindVisible;
  }

  lemma NewIDUnknown(s: Doc, p: Doc)
    requires Inv(p) && Compatible(p, s)
    ensures ID(s.clientID, s.clock) !in p.insLog
  {
    assert forall k :: k in p.insLog ==> p.insLog[k].newID == k && OpNotAhead(s.clientID, s.clock, p.insLog[k]);
  }

  /** What stands in the list of `s` is nothing that the peer has yet to generate. */
  lemma NotAheadOfPeer(s: Doc, p: Doc, x: ID)
    requires Inv(s) && Compatible(s, p) && x in Ids(s.list) && Inv(p)
    ensures NotAhead(p.clientID, p.clock, x)
  {
    if x != START && x != END {
      assert x in s.insLog && OpNotAhead(p.clientID, p.clock, s.insLog[x]) && s.insLog[x].newID == x;
    }
  }
}
