/** Rebuilding a document from a snapshot. */
module Hydration {
  import opened Identifiers
  import opened ReplicatedList
  import opened DocumentSpec
  import opened DocumentLaws
  import opened Keys
  import opened Lifetime
  import opened Storage
  import opened Sync
  import D = Document

  function Find(byID: map<ID, D.Element>, id: ID): D.Element? {
    if id in byID then byID[id] else null
  }

  ghost function Elements(byID: map<ID, D.Element>): set<D.Element> {
    set k | k in byID :: byID[k]
  }

  /** The relations of one element can be rebuilt: sentinels always, others if all three neighbours exist. */
  ghost predicate Resolvable(persisted: map<ID, PersistedElement>, byID: map<ID, D.Element>, k: ID) {
    k in persisted &&
    (SentinelClient(k.clientID) ||
     (persisted[k].originID in byID && persisted[k].leftID in byID && persisted[k].rightID in byID))
  }

  ghost predicate Related(e: D.Element, p: PersistedElement, byID: map<ID, D.Element>)
    reads e`origin, e`left, e`right
  {
    && e.origin == (if SentinelClient(e.elementID.clientID) then null else Find(byID, p.originID))
    && e.left == Find(byID, p.leftID) && e.right == Find(byID, p.rightID)
  }

  /** `RebuildRelations`: fails if and only if some relation cannot be rebuilt. */
  method RebuildRelations(persisted: map<ID, PersistedElement>, byID: map<ID, D.Element>) returns (ok: bool)
    requires forall k :: k in byID ==> byID[k].elementID == k
    modifies Elements(byID)`origin, Elements(byID)`left, Elements(byID)`right
    ensures ok <==> forall k :: k in byID ==> Resolvable(persisted, byID, k)
    ensures ok ==> forall k :: k in byID ==> Related(byID[k], persisted[k], byID)
    ensures ok ==> forall k :: k in byID && !SentinelClient(k.clientID) ==>
                     && byID[k].origin == byID[persisted[k].originID]
                     && byID[k].left == byID[persisted[k].leftID] && byID[k].right == byID[persisted[k].rightID]
    ensures ok ==> forall k :: k in byID && SentinelClient(k.clientID) ==> byID[k].origin == null
  {
    var todo := byID.Keys;
    while todo != {}
      invariant todo <= byID.Keys
      invariant forall k :: k in byID && k !in todo ==> Resolvable(persisted, byID, k) && Related(byID[k], persisted[k], byID)
      decreases todo
    {
      var k :| k in todo;
      todo := todo - {k};
      if k !in persisted {
        return false;
      }
      var p, e := persisted[k], byID[k];
      if SentinelClient(k.clientID) {
        e.origin := null;
        e.left := Find(byID, p.leftID);
        e.right := Find(byID, p.rightID);
      } else {
        if p.originID !in byID {
          return false;
        }
        e.origin := byID[p.originID];
        if p.leftID !in byID {
          return false;
        }
        e.left := byID[p.leftID];
        if p.rightID !in byID {
          return false;
        }
        e.right := byID[p.rightID];
      }
    }
    return true;
  }

  // ----- What a snapshot determines

  /** The stored relations name exactly the neighbours in the list: a stored zero identifier is mistaken for
      a neighbour when some element has that very identifier. */
  ghost predicate NeighboursRestored(d: Doc) {
    forall i :: 0 <= i < |d.list| ==>
      && (PersistedAt(d, i).leftID in Ids(d.list) <==> i > 0)
      && (PersistedAt(d, i).rightID in Ids(d.list) <==> i < |d.list| - 1)
  }

  /** Exactly when the pointers come back as they were: no element has the zero identifier. */
  lemma NeighboursRestoredIff(d: Doc)
    requires WellFormed(d.list)
    ensures NeighboursRestored(d) <==> ZERO_ID !in Ids(d.list)
  {
    if ZERO_ID !in Ids(d.list) {
      forall i | 0 <= i < |d.list|
        ensures PersistedAt(d, i).leftID in Ids(d.list) <==> i > 0
        ensures PersistedAt(d, i).rightID in Ids(d.list) <==> i < |d.list| - 1
      {
        if i > 0 { IndexOfIs(d.list, i - 1); }
        if i < |d.list| - 1 { IndexOfIs(d.list, i + 1); }
      }
    } else {
      assert PersistedAt(d, 0).leftID == ZERO_ID;
    }
  }

  /** What loading returns for a snapshot of `d`: the stored values and unlinked elements, by identifier. */
  ghost predicate Loaded(d: Doc, persisted: map<ID, PersistedElement>, byID: map<ID, D.Element>)
    reads Elements(byID)`isDeleted
  {
    && persisted.Keys == Ids(d.list) && byID.Keys == Ids(d.list)
    && (forall i :: 0 <= i < |d.list| ==> d.list[i].id in persisted && persisted[d.list[i].id] == PersistedAt(d, i))
    && (forall k :: k in byID ==> k in persisted && Hydrated(byID[k], persisted[k]))
  }

  /** The chain that the rebuilt relations link. */
  ghost function ChainOf(l: seq<Elem>, byID: map<ID, D.Element>): seq<D.Element>
    requires byID.Keys == Ids(l)
  {
    seq(|l|, i requires 0 <= i < |l| => assert l[i].id in Ids(l); byID[l[i].id])
  }

  /** What the stored identifiers resolve to. */
  lemma StoredAt(d: Doc, i: nat)
    requires WellFormed(d.list) && ZERO_ID !in Ids(d.list) && i < |d.list|
    ensures var p, ids := PersistedAt(d, i), Ids(d.list);
            && d.list[i].id in ids
            && (p.leftID in ids <==> i > 0) && (i > 0 ==> p.leftID == d.list[i - 1].id)
            && (p.rightID in ids <==> i < |d.list| - 1) && (i < |d.list| - 1 ==> p.rightID == d.list[i + 1].id)
            && (SentinelClient(d.list[i].id.clientID) <==> d.list[i].origin.None?)
            && (d.list[i].origin.Some? ==> d.list[i].origin.value == p.originID && p.originID in ids)
  {
    NeighboursRestoredIff(d);
    if 0 < i < |d.list| - 1 {
      assert Real(d.list[i].id) && OriginPrecedes(d.list, i);
    }
  }

  ghost predicate RebuiltNode(d: Doc, byID: map<ID, D.Element>, i: nat)
    requires i < |d.list| && byID.Keys == Ids(d.list)
    reads Elements(byID)
  {
    var ns := ChainOf(d.list, byID);
    && ns[i].Value() == d.list[i] && (ns[i].isDeleted <==> d.list[i].id in d.tomb)
    && ns[i].right == (if i < |ns| - 1 then ns[i + 1] else null)
    && ns[i].left == (if i > 0 then ns[i - 1] else null)
    && D.OriginIn(ns[i], byID)
  }

  lemma RebuiltAt(d: Doc, persisted: map<ID, PersistedElement>, byID: map<ID, D.Element>, i: nat)
    requires WellFormed(d.list) && ZERO_ID !in Ids(d.list) && Loaded(d, persisted, byID) && i < |d.list|
    requires forall k :: k in byID ==> Related(byID[k], persisted[k], byID)
    ensures RebuiltNode(d, byID, i)
  {
    hide WellFormed;
    StoredAt(d, i);
    var x := d.list[i].id;
    var e, p := byID[x], persisted[x];
    assert p == PersistedAt(d, i) && Hydrated(e, p) && Related(e, p, byID);
    LoadedID(d, persisted, byID, p.originID);
    NodeFrom(d, byID, i, e);
  }

  lemma NodeFrom(d: Doc, byID: map<ID, D.Element>, i: nat, e: D.Element)
    requires i < |d.list| && byID.Keys == Ids(d.list) && d.list[i].id in byID && byID[d.list[i].id] == e
    requires Hydrated(e, PersistedAt(d, i)) && Related(e, PersistedAt(d, i), byID)
    requires var p, ids := PersistedAt(d, i), Ids(d.list);
             && (p.leftID in ids <==> i > 0) && (i > 0 ==> p.leftID == d.list[i - 1].id)
             && (p.rightID in ids <==> i < |d.list| - 1) && (i < |d.list| - 1 ==> p.rightID == d.list[i + 1].id)
             && (SentinelClient(d.list[i].id.clientID) <==> d.list[i].origin.None?)
             && (d.list[i].origin.Some? ==> d.list[i].origin.value == p.originID && p.originID in ids)
             && (p.originID in byID ==> byID[p.originID].elementID == p.originID)
    ensures RebuiltNode(d, byID, i)
  {
    hide Ids;
    var ns := ChainOf(d.list, byID);
    assert ns[i] == e;
    assert i > 0 ==> ns[i - 1] == byID[d.list[i - 1].id];
    assert i < |ns| - 1 ==> ns[i + 1] == byID[d.list[i + 1].id];
  }

  lemma LoadedID(d: Doc, persisted: map<ID, PersistedElement>, byID: map<ID, D.Element>, x: ID)
    requires Loaded(d, persisted, byID)
    ensures x in byID ==> byID[x].elementID == x
  {
    if x in byID {
      var i := IndexOf(d.list, x);
      assert persisted[d.list[i].id] == PersistedAt(d, i);
    }
  }

  lemma Rebuilt(d: Doc, byID: map<ID, D.Element>)
    requires |d.list| >= 2 && byID.Keys == Ids(d.list) && forall i :: 0 <= i < |d.list| ==> RebuiltNode(d, byID, i)
    ensures var ns := ChainOf(d.list, byID);
            D.Chain(ns) && D.Carries(ns, d.list, d.tomb) && D.Indexed(ns, d.list, byID)
  {
    var ns := ChainOf(d.list, byID);
    forall i | 0 <= i < |ns|
      ensures ns[i].Value() == d.list[i] && (ns[i].isDeleted <==> d.list[i].id in d.tomb)
      ensures ns[i].right == (if i < |ns| - 1 then ns[i + 1] else null)
      ensures ns[i].left == (if i > 0 then ns[i - 1] else null)
      ensures d.list[i].id in byID && byID[d.list[i].id] == ns[i] && D.OriginIn(ns[i], byID)
    {
      assert RebuiltNode(d, byID, i);
    }
    assert RebuiltNode(d, byID, 0) && RebuiltNode(d, byID, |ns| - 1);
  }

  lemma AllResolvable(d: Doc, persisted: map<ID, PersistedElement>, byID: map<ID, D.Element>, k: ID)
    requires WellFormed(d.list) && Loaded(d, persisted, byID) && k in byID
    ensures Resolvable(persisted, byID, k)
  {
    var i := IndexOf(d.list, k);
    assert persisted[k] == PersistedAt(d, i);
    if 0 < i < |d.list| - 1 {
      assert OriginPrecedes(d.list, i);
      IndexOfIs(d.list, i - 1);
      IndexOfIs(d.list, i + 1);
    }
  }

  /** What `LoadElements` returns for a stored snapshot. */
  lemma LoadedSnapshot(b: map<string, PersistedElement>, d: Doc, persisted: map<ID, PersistedElement>, byID: map<ID, D.Element>)
    requires HoldsElements(b, d)
    requires forall k :: k in b ==> b[k].elementID in persisted
    requires forall id :: id in persisted ==> StoredFor(b, id, persisted[id])
    requires byID.Keys == persisted.Keys && forall id :: id in byID ==> Hydrated(byID[id], persisted[id])
    ensures Loaded(d, persisted, byID)
  {
    hide HoldsElements, PersistedAt, StoredFor, Hydrated, Ids, FormatID, Loaded;
    LoadedByID(b, d, persisted);
    Assembled(d, persisted, byID);
  }

  lemma Assembled(d: Doc, persisted: map<ID, PersistedElement>, byID: map<ID, D.Element>)
    requires persisted.Keys == byID.Keys == Ids(d.list) && forall id :: id in byID ==> Hydrated(byID[id], persisted[id])
    requires forall i :: 0 <= i < |d.list| ==> d.list[i].id in persisted && persisted[d.list[i].id] == PersistedAt(d, i)
    ensures Loaded(d, persisted, byID)
  {
    hide PersistedAt, Hydrated, Ids;
  }

  lemma LoadedByID(b: map<string, PersistedElement>, d: Doc, persisted: map<ID, PersistedElement>)
    requires HoldsElements(b, d)
    requires forall k :: k in b ==> b[k].elementID in persisted
    requires forall id :: id in persisted ==> StoredFor(b, id, persisted[id])
    ensures persisted.Keys == Ids(d.list)
    ensures forall i :: 0 <= i < |d.list| ==> d.list[i].id in persisted && persisted[d.list[i].id] == PersistedAt(d, i)
  {
    assert KeyedElements(b);
    hide FormatID, HoldsElements, KeyedElements, PersistedAt, StoredFor, Ids;
    LoadedByKey(b, persisted);
    LoadedKeys(b, d, persisted);
    forall i | 0 <= i < |d.list|
      ensures d.list[i].id in persisted && persisted[d.list[i].id] == PersistedAt(d, i)
    {
      LoadedAt(b, d, persisted, i);
    }
  }

  lemma LoadedAt(b: map<string, PersistedElement>, d: Doc, persisted: map<ID, PersistedElement>, i: nat)
    requires HoldsElements(b, d) && i < |d.list| && persisted.Keys == Ids(d.list)
    requires forall id :: id in persisted ==> FormatID(id) in b && persisted[id] == b[FormatID(id)]
    ensures d.list[i].id in persisted && persisted[d.list[i].id] == PersistedAt(d, i)
  {
    hide FormatID, PersistedAt;
    assert d.list[i].id in Ids(d.list);
  }

  lemma LoadedByKey(b: map<string, PersistedElement>, persisted: map<ID, PersistedElement>)
    requires KeyedElements(b) && forall id :: id in persisted ==> StoredFor(b, id, persisted[id])
    ensures forall id :: id in persisted ==> FormatID(id) in b && persisted[id] == b[FormatID(id)] && persisted[id].elementID == id
  {
    hide FormatID;
    forall id | id in persisted
      ensures FormatID(id) in b && persisted[id] == b[FormatID(id)]
    {
      var k :| k in b && b[k] == persisted[id];
      assert k == FormatID(b[k].elementID);
    }
  }

  lemma LoadedKeys(b: map<string, PersistedElement>, d: Doc, persisted: map<ID, PersistedElement>)
    requires HoldsElements(b, d)
    requires forall k :: k in b ==> b[k].elementID in persisted
    requires forall id :: id in persisted ==> FormatID(id) in b
    ensures persisted.Keys == Ids(d.list)
  {
    hide FormatID, PersistedAt;
    forall id | id in persisted
      ensures id in Ids(d.list)
    {
      FormatIDInjective(id, b[FormatID(id)].elementID);
    }
    forall id | id in Ids(d.list)
      ensures id in persisted
    {
      StoredUnderOwnKey(b, d, IndexOf(d.list, id));
    }
  }

  lemma StoredUnderOwnKey(b: map<string, PersistedElement>, d: Doc, i: nat)
    requires HoldsElements(b, d) && i < |d.list|
    ensures FormatID(d.list[i].id) in b && b[FormatID(d.list[i].id)].elementID == d.list[i].id
  {
    hide FormatID;
    assert b[FormatID(d.list[i].id)] == PersistedAt(d, i);
  }

  // ----- Pending buffers are not stored but derived from the logs

  ghost function DerivedInserts(log: map<ID, InsertOp>, ids: set<ID>): map<ID, InsertOp> {
    map k | k in log && k !in ids :: InsertOp(k, log[k].originID, log[k].rightID, log[k].content)
  }

  /** `ReconstructPendingInserts`. */
  method ReconstructPendingInserts(d: D.Document)
    modifies d`pendingInserts
    ensures d.pendingInserts == DerivedInserts(d.insertLog, d.elementsByID.Keys)
  {
    d.pendingInserts := map[];
    ghost var done := {};
    var todo := d.insertLog.Keys;
    while todo != {}
      invariant done !! todo && done + todo == d.insertLog.Keys
      invariant d.pendingInserts.Keys == done - d.elementsByID.Keys
      invariant forall k :: k in d.pendingInserts ==>
                  k in d.insertLog && d.pendingInserts[k] == InsertOp(k, d.insertLog[k].originID, d.insertLog[k].rightID, d.insertLog[k].content)
      decreases todo
    {
      var k :| k in todo;
      todo, done := todo - {k}, done + {k};
      if k !in d.elementsByID {
        var v := d.insertLog[k];
        d.pendingInserts := d.pendingInserts[k := InsertOp(k, v.originID, v.rightID, v.content)];
      }
    }
    assert d.pendingInserts.Keys == DerivedInserts(d.insertLog, d.elementsByID.Keys).Keys;
  }

  /** `ReconstructPendingDeletes`. */
  method ReconstructPendingDeletes(d: D.Document)
    modifies d`pendingDeletes
    ensures d.pendingDeletes == d.deleteLog - d.elementsByID.Keys
  {
    d.pendingDeletes := {};
    ghost var done := {};
    var todo := d.deleteLog;
    while todo != {}
      invariant done !! todo && done + todo == d.deleteLog
      invariant d.pendingDeletes == done - d.elementsByID.Keys
      decreases todo
    {
      var k :| k in todo;
      todo, done := todo - {k}, done + {k};
      if k !in d.elementsByID {
        d.pendingDeletes := d.pendingDeletes + {k};
      }
    }
  }

  /** Both buffers come back exactly: the logs determine them. Deletes that were pending while their element
      is already there would be lost, which no state between operations has. */
  lemma DerivedExactly(d: Doc)
    requires Core(d)
    ensures DerivedInserts(d.insLog, Ids(d.list)) == d.pendIns
    ensures d.delLog - Ids(d.list) == d.pendDel <==> d.pendDel !! Ids(d.list)
  {
    assert DerivedInserts(d.insLog, Ids(d.list)).Keys == d.pendIns.Keys;
  }

  // ----- The whole document

  /** What a restored document continues with: releases first, then pending deletes. */
  ghost predicate Resumed(saved: Doc, d: Doc) {
    exists mid :: Released(saved, mid) && d == ApplyPendingDeletes(mid)
  }

  lemma ResumedInv(saved: Doc, mid: Doc)
    requires Core(saved) && OwnIdsFresh(saved.clientID, saved.clock, saved.insLog, saved.delLog) && Released(saved, mid)
    ensures Inv(ApplyPendingDeletes(mid)) && Core(mid)
  {
    ReleasedKeeps(saved, mid);
    ApplyPendingDeletesKeeps(mid);
  }

  /** A settled document has nothing to release: it resumes as itself. */
  lemma SettledResumes(d: Doc, e: Doc)
    requires Inv(d)
    ensures Resumed(d, e) <==> e == d
  {
    NothingToApply(d);
    ReleasedNow(d);
    hide Inv, Core, ApplyPendingDeletes, Ids;
    forall mid | Released(d, mid)
      ensures mid == d
    {
      NothingReleasable(d);
    }
  }

  lemma NothingToApply(d: Doc)
    requires d.pendDel !! Ids(d.list)
    ensures ApplyPendingDeletes(d) == d
  {
    assert d.pendDel * Ids(d.list) == {};
  }

  lemma NothingReleasable(d: Doc)
    requires Saturated(d)
    ensures forall k :: !Releasable(d, k)
  {
    forall k | k in d.pendIns
      ensures !Integrable(d.list, d.pendIns[k])
    {
      assert !Ready(Ids(d.list), d.pendIns[k]);
    }
  }

  /** `ReconstructDocument`: loads the snapshot of a state, rebuilds the pointers, derives the pending
      buffers from the logs and resumes. */
  method ReconstructDocument(d: D.Document, bucket: RoomBucket, ghost saved: Doc) returns (ok: bool)
    requires HoldsSnapshot(bucket, saved) && Core(saved) && Safe(saved) && saved.pendDel !! Ids(saved.list)
    requires OwnIdsFresh(saved.clientID, saved.clock, saved.insLog, saved.delLog) && ZERO_ID !in Ids(saved.list)
    modifies d
    ensures ok && d.Valid() && fresh(d.Repr()) && Resumed(saved, d.doc)
  {
    hide Core, Safe, Released, HoldsSnapshot, D.Document.Linked, Inv;
    ok := Restore(d, bucket, saved);
    d.ProcessPending();
    ResumedInv(saved, d.doc);
    d.ProcessPendingDeletes();
  }

  /** `ReconstructDocument` up to the two releases. */
  method Restore(d: D.Document, bucket: RoomBucket, ghost saved: Doc) returns (ok: bool)
    requires HoldsSnapshot(bucket, saved) && Core(saved) && saved.pendDel !! Ids(saved.list) && ZERO_ID !in Ids(saved.list)
    modifies d
    ensures ok && d.Linked() && d.doc == saved && fresh(d.Repr())
  {
    hide Core, Loaded, HoldsSnapshot, Related, Resolvable, D.Document.Linked, D.Chain, D.Carries, D.Indexed, DerivedInserts, Ids;
    CoreFacts(saved);
    DerivedExactly(saved);
    var metadata, persisted, elements, insertLog, deleteLog := LoadSnapshot(bucket, saved);
    ok := RebuildRelations(persisted, elements);
    RebuiltChain(saved, persisted, elements);
    ghost var ns := ChainOf(saved.list, elements);
    assert D.Chain(ns);
    assert forall n :: n in ns ==> n in Elements(elements);
    SetData(d, metadata, elements, insertLog, deleteLog);
    assert D.Chain(ns);
    assert D.Carries(ns, saved.list, saved.tomb);
    assert D.Indexed(ns, saved.list, elements);
    Represent(d, saved, ns);
  }

  /** The assignments of `ReconstructDocument`, and the two buffers. */
  method SetData(d: D.Document, metadata: PersistedMetadata, elements: map<ID, D.Element>,
                 insertLog: map<ID, InsertOp>, deleteLog: set<ID>)
    requires START in elements && END in elements
    modifies d
    ensures d.start == elements[START] && d.end == elements[END] && d.elementsByID == elements
    ensures PersistedMetadata(d.clientID, d.clock, d.characterCounter) == metadata
    ensures d.insertLog == insertLog && d.deleteLog == deleteLog
    ensures d.pendingInserts == DerivedInserts(insertLog, elements.Keys) && d.pendingDeletes == deleteLog - elements.Keys
  {
    d.start, d.end := elements[START], elements[END];
    d.clientID, d.clock, d.characterCounter := metadata.clientID, metadata.clock, metadata.characterCounter;
    d.elementsByID := elements;
    d.insertLog, d.deleteLog := insertLog, deleteLog;
    ReconstructPendingInserts(d);
    ReconstructPendingDeletes(d);
  }

  /** With the chain and the logs of `saved` in place, the heap represents `saved`. */
  ghost method Represent(d: D.Document, saved: Doc, ns: seq<D.Element>)
    requires d.clientID == saved.clientID && d.clock == saved.clock && d.characterCounter == saved.counter
    requires d.insertLog == saved.insLog && d.deleteLog == saved.delLog
    requires d.pendingInserts == saved.pendIns && d.pendingDeletes == saved.pendDel
    requires |ns| == |saved.list| >= 2 && d.start == ns[0] && d.end == ns[|ns| - 1]
    requires D.Chain(ns) && D.Carries(ns, saved.list, saved.tomb) && D.Indexed(ns, saved.list, d.elementsByID)
    modifies d`nodes, d`doc
    ensures d.Linked() && d.doc == saved && d.nodes == ns
  {
    hide D.Chain, D.Carries, D.Indexed, D.Document.Linked;
    d.nodes, d.doc := ns, saved;
    RepresentsNow(d);
  }

  lemma RepresentsNow(d: D.Document)
    requires |d.nodes| == |d.doc.list| >= 2 && d.start == d.nodes[0] && d.end == d.nodes[|d.nodes| - 1] && d.Scalars()
    requires D.Chain(d.nodes) && D.Carries(d.nodes, d.doc.list, d.doc.tomb) && D.Indexed(d.nodes, d.doc.list, d.elementsByID)
    ensures d.Linked()
  {
  }

  /** `LoadSnapshot`. */
  method LoadSnapshot(bucket: RoomBucket, ghost saved: Doc)
    returns (metadata: PersistedMetadata, persisted: map<ID, PersistedElement>, elements: map<ID, D.Element>,
             insertLog: map<ID, InsertOp>, deleteLog: set<ID>)
    requires HoldsSnapshot(bucket, saved) && WellFormed(saved.list)
    ensures metadata == PersistedMetadata(saved.clientID, saved.clock, saved.counter)
    ensures insertLog == saved.insLog && deleteLog == saved.delLog
    ensures Loaded(saved, persisted, elements) && fresh(Elements(elements))
    ensures elements.Keys == persisted.Keys == Ids(saved.list) && forall k :: k in elements ==> elements[k].elementID == k && Resolvable(persisted, elements, k)
  {
    hide WellFormed, HoldsInserts, HoldsDeletes, Loaded, Resolvable;
    metadata := bucket.metadata.value;
    persisted, elements := LoadElements(bucket);
    insertLog := LoadInsertOperations(bucket);
    deleteLog := LoadDeleteOperations(bucket);
    LoadedSnapshot(bucket.elements, saved, persisted, elements);
    LoadedIDs(saved, persisted, elements);
  }

  /** The rebuilt relations link the chain of the saved list. */
  lemma RebuiltChain(d: Doc, persisted: map<ID, PersistedElement>, byID: map<ID, D.Element>)
    requires WellFormed(d.list) && ZERO_ID !in Ids(d.list) && Loaded(d, persisted, byID) && byID.Keys == Ids(d.list)
    requires byID.Keys <= persisted.Keys && forall k :: k in byID ==> Related(byID[k], persisted[k], byID)
    ensures var ns := ChainOf(d.list, byID);
            && D.Chain(ns) && D.Carries(ns, d.list, d.tomb) && D.Indexed(ns, d.list, byID)
            && |ns| == |d.list| >= 2 && START in byID && END in byID && ns[0] == byID[START] && ns[|ns| - 1] == byID[END]
            && forall n :: n in ns ==> n in Elements(byID)
  {
    hide D.Chain, D.Carries, D.Indexed, RebuiltNode;
    forall i | 0 <= i < |d.list|
      ensures RebuiltNode(d, byID, i)
    {
      RebuiltAt(d, persisted, byID, i);
    }
    Rebuilt(d, byID);
    ChainEnds(d, byID);
  }

  lemma LoadedIDs(d: Doc, persisted: map<ID, PersistedElement>, byID: map<ID, D.Element>)
    requires WellFormed(d.list) && Loaded(d, persisted, byID)
    ensures byID.Keys == persisted.Keys == Ids(d.list)
    ensures forall k :: k in byID ==> byID[k].elementID == k && Resolvable(persisted, byID, k)
  {
    forall k | k in byID
      ensures byID[k].elementID == k && Resolvable(persisted, byID, k)
    {
      LoadedID(d, persisted, byID, k);
      AllResolvable(d, persisted, byID, k);
    }
  }

  lemma ChainEnds(d: Doc, byID: map<ID, D.Element>)
    requires WellFormed(d.list) && byID.Keys == Ids(d.list)
    ensures var ns := ChainOf(d.list, byID);
            && START in byID && END in byID && ns[0] == byID[START] && ns[|ns| - 1] == byID[END]
            && forall n :: n in ns ==> n in Elements(byID)
  {
    assert d.list[0].id == START && d.list[|d.list| - 1].id == END;
  }

  lemma CoreFacts(d: Doc)
    requires Core(d)
    ensures WellFormed(d.list)
  {
  }

  /** The snapshot round trip, over an empty bucket or an earlier snapshot: the copy is in the state of the
      document, with the same chain of identifiers, origins, tombstones, logs, clock, counter and buffers. */
  method SnapshotRoundTrip(document: D.Document, bucket: RoomBucket) returns (copy: D.Document)
    requires document.Valid() && NothingNewerThan(bucket, document.doc) && ZERO_ID !in Ids(document.doc.list)
    modifies bucket
    ensures copy.Valid() && fresh(copy) && fresh(copy.Repr()) && copy.doc == document.doc
  {
    hide Inv, HoldsSnapshot, NothingNewerThan, Resumed, D.Document.Valid;
    document.PublicFields();
    InvSafe(document.doc);
    SaveSnapshot(bucket, document);
    copy := new D.Document("copy");
    var ok := ReconstructDocument(copy, bucket, document.doc);
    SettledResumes(document.doc, copy.doc);
  }

  // ----- Saving again over an earlier snapshot

  /** A snapshot saved at any time in a document's life may be overwritten at any later time: no stored key
      is left behind that the later state does not know. */
  lemma EarlierSnapshot(b: RoomBucket, states: seq<Doc>, j: nat)
    requires Life(states) && j < |states| && HoldsSnapshot(b, states[0])
    ensures NothingNewerThan(b, states[j])
  {
    hide Inv;
    KeysOnlyGrow(states, j);
    OlderSnapshot(b, states[0], states[j]);
  }

  lemma OlderSnapshot(b: RoomBucket, d: Doc, e: Doc)
    requires HoldsSnapshot(b, d) && KnowsMore(d, e)
    ensures NothingNewerThan(b, e)
  {
    hide FormatID, PersistedAt, Ids;
  }

  lemma InvSafe(d: Doc)
    requires Inv(d)
    ensures Core(d) && Safe(d) && d.pendDel !! Ids(d.list) && OwnIdsFresh(d.clientID, d.clock, d.insLog, d.delLog)
  {
  }
}
