/** Snapshots: the pointer structure flattened to identifiers under storage keys, and rebuilt from them.
    A bucket is a map from keys to values; the JSON text of a value is the value itself. */
module Storage {
  import opened Identifiers
  import opened ReplicatedList
  import opened DocumentSpec
  import opened Keys
  import D = Document

  /** The zero value of an identifier, stored for a missing pointer. */
  const ZERO_ID: ID := ID("", 0)

  datatype PersistedElement = PersistedElement(elementID: ID, originID: ID, leftID: ID, rightID: ID, isDeleted: bool, content: char)

  datatype PersistedMetadata = PersistedMetadata(clientID: string, clock: int, characterCounter: int)

  class RoomBucket {
    var metadata: Option<PersistedMetadata>
    var elements: map<string, PersistedElement>
    var insertLog: map<string, InsertOp>
    var deleteLog: map<string, ID>

    constructor ()
      ensures metadata == None && elements == map[] && insertLog == map[] && deleteLog == map[]
    {
      metadata, elements, insertLog, deleteLog := None, map[], map[], map[];
    }
  }

  function IDOrZero(e: D.Element?): ID {
    if e == null then ZERO_ID else e.elementID
  }

  /** `ToPersistedElement`. */
  function ToPersistedElement(e: D.Element): PersistedElement
    reads e
  {
    PersistedElement(e.elementID, IDOrZero(e.origin), IDOrZero(e.left), IDOrZero(e.right), e.isDeleted, e.content)
  }

  /** What is stored for the element at index `i` of a document. */
  function PersistedAt(d: Doc, i: nat): PersistedElement
    requires i < |d.list|
  {
    PersistedElement(
      d.list[i].id,
      if d.list[i].origin.None? then ZERO_ID else d.list[i].origin.value,
      if i == 0 then ZERO_ID else d.list[i - 1].id,
      if i == |d.list| - 1 then ZERO_ID else d.list[i + 1].id,
      d.list[i].id in d.tomb,
      d.list[i].content)
  }

  /** Every stored value is under the key of its own identifier. */
  ghost predicate KeyedElements(b: map<string, PersistedElement>) {
    forall k :: k in b ==> k == FormatID(b[k].elementID)
  }

  ghost predicate HoldsElements(b: map<string, PersistedElement>, d: Doc) {
    && KeyedElements(b)
    && (forall i :: 0 <= i < |d.list| ==> FormatID(d.list[i].id) in b && b[FormatID(d.list[i].id)] == PersistedAt(d, i))
    && (forall k :: k in b ==> b[k].elementID in Ids(d.list))
  }

  ghost predicate HoldsInserts(b: map<string, InsertOp>, log: map<ID, InsertOp>) {
    && (forall k :: k in b ==> k == FormatID(b[k].newID) && b[k].newID in log && log[b[k].newID] == b[k])
    && (forall k :: k in log ==> log[k].newID == k && FormatID(k) in b && b[FormatID(k)] == log[k])
  }

  ghost predicate HoldsDeletes(b: map<string, ID>, log: set<ID>) {
    && (forall k :: k in b ==> k == FormatID(b[k]) && b[k] in log)
    && (forall k :: k in log ==> FormatID(k) in b && b[FormatID(k)] == k)
  }

  ghost predicate HoldsSnapshot(b: RoomBucket, d: Doc)
    reads b
  {
    && b.metadata == Some(PersistedMetadata(d.clientID, d.clock, d.counter))
    && HoldsElements(b.elements, d) && HoldsInserts(b.insertLog, d.insLog) && HoldsDeletes(b.deleteLog, d.delLog)
  }

  /** The bucket is empty, or holds a snapshot of a state that knew no more than `d`. */
  ghost predicate NothingNewerThan(b: RoomBucket, d: Doc)
    reads b
  {
    NothingNewer(b.elements, b.insertLog, b.deleteLog, d)
  }

  ghost predicate NothingNewer(elements: map<string, PersistedElement>, inserts: map<string, InsertOp>, deletes: map<string, ID>, d: Doc) {
    && KeyedElements(elements) && (forall k :: k in elements ==> elements[k].elementID in Ids(d.list))
    && (forall k :: k in inserts ==> k == FormatID(inserts[k].newID) && inserts[k].newID in d.insLog)
    && (forall k :: k in deletes ==> k == FormatID(deletes[k]) && deletes[k] in d.delLog)
  }

  // ----- Saving

  lemma PersistedNode(d: D.Document, i: nat)
    requires d.Chained() && d.Woven() && i < |d.nodes|
    ensures var p := ToPersistedElement(d.nodes[i]);
            && p == PersistedAt(d.doc, i)
            && p.elementID == d.doc.list[i].id && p.content == d.doc.list[i].content && (p.isDeleted <==> p.elementID in d.doc.tomb)
            && (i > 0 ==> p.leftID == d.doc.list[i - 1].id) && (i == 0 ==> p.leftID == ZERO_ID)
            && (i < |d.nodes| - 1 ==> p.rightID == d.doc.list[i + 1].id) && (i == |d.nodes| - 1 ==> p.rightID == ZERO_ID)
            && Some(p.originID) == (if d.doc.list[i].origin.Some? then d.doc.list[i].origin else Some(ZERO_ID))
  {
    hide D.Chain, D.Carries, D.Indexed;
    d.At(i);
    d.Step(i);
    if i > 0 { d.At(i - 1); }
    if i < |d.nodes| - 1 { d.At(i + 1); }
  }

  ghost predicate KeyOf(ids: set<ID>, key: string) {
    exists k :: k in ids && FormatID(k) == key
  }

  /** The bucket after the values of `done` have been put into it: each is under its own key, and every other
      key is as it was before. */
  ghost predicate Overwritten<T>(before: map<string, T>, after: map<string, T>, log: map<ID, T>, done: set<ID>) {
    && done <= log.Keys
    && (forall k :: k in done ==> FormatID(k) in after && after[FormatID(k)] == log[k])
    && (forall key :: key in after <==> key in before || KeyOf(done, key))
    && (forall key :: key in before && !KeyOf(done, key) ==> after[key] == before[key])
  }

  /** One `Put`. No other identifier has this key, so nothing of what was put before is lost. */
  lemma PutNext<T>(before: map<string, T>, after: map<string, T>, log: map<ID, T>, done: set<ID>, k: ID)
    requires Overwritten(before, after, log, done) && k in log
    ensures Overwritten(before, after[FormatID(k) := log[k]], log, done + {k})
  {
    hide FormatID;
    var after' := after[FormatID(k) := log[k]];
    forall j | j in done + {k}
      ensures FormatID(j) in after' && after'[FormatID(j)] == log[j]
    {
      if FormatID(j) == FormatID(k) {
        FormatIDInjective(j, k);
      }
    }
    forall key
      ensures KeyOf(done + {k}, key) <==> KeyOf(done, key) || key == FormatID(k)
    {
      if KeyOf(done, key) {
        var j :| j in done && FormatID(j) == key;
        assert j in done + {k};
      }
      if key == FormatID(k) {
        assert k in done + {k};
      }
    }
  }

  /** What is stored for the elements of a document, by identifier. */
  ghost function StoredElements(d: Doc): map<ID, PersistedElement> {
    map k | k in Ids(d.list) :: PersistedAt(d, IndexOf(d.list, k))
  }

  ghost function IdsUpTo(l: seq<Elem>, i: nat): set<ID>
    requires i <= |l|
  {
    set j | 0 <= j < i :: l[j].id
  }

  /** `SaveElements`. */
  method SaveElements(bucket: RoomBucket, document: D.Document)
    requires document.Woven() && Distinct(document.doc.list)
    modifies bucket`elements
    ensures Overwritten(old(bucket.elements), bucket.elements, StoredElements(document.doc), Ids(document.doc.list))
  {
    hide D.Chain, D.Carries, D.Indexed, Overwritten, FormatID, PersistedAt;
    ghost var d, ns, before := document.doc, document.nodes, bucket.elements;
    NothingPut(before, StoredElements(d));
    assert IdsUpTo(d.list, 0) == {};
    var current: D.Element? := document.start;
    ghost var i := 0;
    while current != null
      invariant 0 <= i <= |ns| && current == if i < |ns| then ns[i] else null
      invariant Overwritten(before, bucket.elements, StoredElements(d), IdsUpTo(d.list, i))
      decreases |ns| - i
    {
      document.At(i);
      document.Step(i);
      PersistedNode(document, i);
      StoredAtIndex(d, i);
      PutNext(before, bucket.elements, StoredElements(d), IdsUpTo(d.list, i), d.list[i].id);
      bucket.elements := bucket.elements[FormatID(current.elementID) := ToPersistedElement(current)];
      current := current.right;
      i := i + 1;
    }
    assert IdsUpTo(d.list, |d.list|) == Ids(d.list);
  }

  lemma NothingPut<T>(before: map<string, T>, log: map<ID, T>)
    ensures Overwritten(before, before, log, {})
  {
  }

  lemma StoredAtIndex(d: Doc, i: nat)
    requires i < |d.list| && Distinct(d.list)
    ensures d.list[i].id in StoredElements(d) && StoredElements(d)[d.list[i].id] == PersistedAt(d, i)
    ensures IdsUpTo(d.list, i + 1) == IdsUpTo(d.list, i) + {d.list[i].id}
  {
    IndexOfIs(d.list, i);
  }

  /** `SaveInsertOperations`. */
  method SaveInsertOperations(bucket: RoomBucket, document: D.Document)
    modifies bucket`insertLog
    ensures Overwritten(old(bucket.insertLog), bucket.insertLog, document.insertLog, document.insertLog.Keys)
  {
    hide Overwritten, FormatID;
    ghost var before, log, done: set<ID> := bucket.insertLog, document.insertLog, {};
    NothingPut(before, log);
    var todo := document.insertLog.Keys;
    while todo != {}
      invariant done !! todo && done + todo == log.Keys
      invariant Overwritten(before, bucket.insertLog, log, done)
      decreases todo
    {
      var k :| k in todo;
      todo := todo - {k};
      PutNext(before, bucket.insertLog, log, done, k);
      done := done + {k};
      bucket.insertLog := bucket.insertLog[FormatID(k) := document.insertLog[k]];
    }
    assert done == log.Keys;
  }

  ghost function DeletesOf(log: set<ID>): map<ID, ID> {
    map k | k in log :: k
  }

  /** `SaveDeleteOperations`. */
  method SaveDeleteOperations(bucket: RoomBucket, document: D.Document)
    modifies bucket`deleteLog
    ensures Overwritten(old(bucket.deleteLog), bucket.deleteLog, DeletesOf(document.deleteLog), document.deleteLog)
  {
    hide Overwritten, FormatID;
    ghost var before, log, done: set<ID> := bucket.deleteLog, document.deleteLog, {};
    NothingPut(before, DeletesOf(log));
    var todo := document.deleteLog;
    while todo != {}
      invariant done !! todo && done + todo == log
      invariant Overwritten(before, bucket.deleteLog, DeletesOf(log), done)
      decreases todo
    {
      var k :| k in todo;
      todo := todo - {k};
      PutNext(before, bucket.deleteLog, DeletesOf(log), done, k);
      done := done + {k};
      bucket.deleteLog := bucket.deleteLog[FormatID(k) := k];
    }
    assert done == log;
  }

  /** Over a bucket that held nothing the document does not know, the elements are exactly the document's. */
  lemma ElementsOverwritten(before: map<string, PersistedElement>, after: map<string, PersistedElement>, d: Doc)
    requires Distinct(d.list) && Overwritten(before, after, StoredElements(d), Ids(d.list))
    requires KeyedElements(before) && forall k :: k in before ==> before[k].elementID in Ids(d.list)
    ensures HoldsElements(after, d)
  {
    hide FormatID;
    forall i | 0 <= i < |d.list|
      ensures FormatID(d.list[i].id) in after && after[FormatID(d.list[i].id)] == PersistedAt(d, i)
    {
      StoredAtIndex(d, i);
    }
    forall key | key in after
      ensures key == FormatID(after[key].elementID) && after[key].elementID in Ids(d.list)
    {
      assert KeyOf(Ids(d.list), key);
      var k :| k in Ids(d.list) && FormatID(k) == key;
      StoredAtIndex(d, IndexOf(d.list, k));
    }
  }

  lemma InsertsOverwritten(before: map<string, InsertOp>, after: map<string, InsertOp>, log: map<ID, InsertOp>)
    requires Overwritten(before, after, log, log.Keys) && forall k :: k in log ==> log[k].newID == k
    requires forall k :: k in before ==> k == FormatID(before[k].newID) && before[k].newID in log
    ensures HoldsInserts(after, log)
  {
    hide FormatID;
    forall key | key in after
      ensures key == FormatID(after[key].newID) && after[key].newID in log && log[after[key].newID] == after[key]
    {
      assert KeyOf(log.Keys, key);
      var k :| k in log.Keys && FormatID(k) == key;
    }
  }

  lemma DeletesOverwritten(before: map<string, ID>, after: map<string, ID>, log: set<ID>)
    requires Overwritten(before, after, DeletesOf(log), log)
    requires forall k :: k in before ==> k == FormatID(before[k]) && before[k] in log
    ensures HoldsDeletes(after, log)
  {
    hide FormatID;
    forall key | key in after
      ensures key == FormatID(after[key]) && after[key] in log
    {
      assert KeyOf(log, key);
      var k :| k in log && FormatID(k) == key;
    }
  }

  lemma SnapshotOverwritten(elements: map<string, PersistedElement>, inserts: map<string, InsertOp>, deletes: map<string, ID>,
                            b: RoomBucket, d: Doc)
    requires Distinct(d.list) && (forall k :: k in d.insLog ==> d.insLog[k].newID == k) && NothingNewer(elements, inserts, deletes, d)
    requires Overwritten(elements, b.elements, StoredElements(d), Ids(d.list))
    requires Overwritten(inserts, b.insertLog, d.insLog, d.insLog.Keys)
    requires Overwritten(deletes, b.deleteLog, DeletesOf(d.delLog), d.delLog)
    ensures HoldsElements(b.elements, d) && HoldsInserts(b.insertLog, d.insLog) && HoldsDeletes(b.deleteLog, d.delLog)
  {
    hide Overwritten, HoldsElements, HoldsInserts, HoldsDeletes, FormatID;
    ElementsOverwritten(elements, b.elements, d);
    InsertsOverwritten(inserts, b.insertLog, d.insLog);
    DeletesOverwritten(deletes, b.deleteLog, d.delLog);
  }

  /** `SaveSnapshot`. Any bucket gets the document's values under their keys and keeps the rest; an empty
      bucket, or one with an earlier snapshot of the same document, then holds exactly the snapshot. */
  method SaveSnapshot(bucket: RoomBucket, document: D.Document)
    requires document.Valid()
    modifies bucket
    ensures var d := document.doc;
            && bucket.metadata == Some(PersistedMetadata(d.clientID, d.clock, d.counter))
            && Overwritten(old(bucket.elements), bucket.elements, StoredElements(d), Ids(d.list))
            && Overwritten(old(bucket.insertLog), bucket.insertLog, d.insLog, d.insLog.Keys)
            && Overwritten(old(bucket.deleteLog), bucket.deleteLog, DeletesOf(d.delLog), d.delLog)
    ensures old(NothingNewerThan(bucket, document.doc)) ==> HoldsSnapshot(bucket, document.doc)
  {
    hide Inv, HoldsElements, HoldsInserts, HoldsDeletes, Overwritten, FormatID, NothingNewer;
    document.LinkedLayers();
    document.InvParts(document.doc);
    LoggedUnderOwnID(document.doc);
    ghost var elements, inserts, deletes := bucket.elements, bucket.insertLog, bucket.deleteLog;
    bucket.metadata := Some(PersistedMetadata(document.clientID, document.clock, document.characterCounter));
    SaveElements(bucket, document);
    SaveInsertOperations(bucket, document);
    SaveDeleteOperations(bucket, document);
    if NothingNewer(elements, inserts, deletes, document.doc) {
      SnapshotOverwritten(elements, inserts, deletes, bucket, document.doc);
    }
  }

  lemma LoggedUnderOwnID(d: Doc)
    requires Inv(d)
    ensures forall k :: k in d.insLog ==> d.insLog[k].newID == k
  {
  }

  // ----- Loading

  /** `LoadElements`: every stored value under its own identifier, whatever the keys; with several values for
      one identifier, one of them. */
  method LoadElements(bucket: RoomBucket) returns (persisted: map<ID, PersistedElement>, byID: map<ID, D.Element>)
    ensures forall k :: k in bucket.elements ==> bucket.elements[k].elementID in persisted
    ensures forall id :: id in persisted ==> StoredFor(bucket.elements, id, persisted[id])
    ensures byID.Keys == persisted.Keys
    ensures forall id :: id in byID ==> fresh(byID[id]) && Hydrated(byID[id], persisted[id])
  {
    persisted, byID := map[], map[];
    var b := bucket.elements;
    var todo := b.Keys;
    while todo != {}
      invariant todo <= b.Keys
      invariant forall k :: k in b && k !in todo ==> b[k].elementID in persisted
      invariant forall id :: id in persisted ==> StoredFor(b, id, persisted[id])
      invariant byID.Keys == persisted.Keys
      invariant forall id :: id in byID ==> fresh(byID[id]) && Hydrated(byID[id], persisted[id])
      decreases todo
    {
      var k :| k in todo;
      todo := todo - {k};
      var p := b[k];
      assert StoredFor(b, p.elementID, p);
      persisted := persisted[p.elementID := p];
      var element := new D.Element(p.elementID, null, null, null, p.content);
      element.isDeleted := p.isDeleted;
      byID := byID[p.elementID := element];
    }
  }

  ghost predicate StoredFor(b: map<string, PersistedElement>, id: ID, p: PersistedElement) {
    p.elementID == id && exists k :: k in b && b[k] == p
  }

  /** What `ToElement` restores. */
  ghost predicate Hydrated(e: D.Element, p: PersistedElement)
    reads e`isDeleted
  {
    e.elementID == p.elementID && e.content == p.content && e.isDeleted == p.isDeleted
  }

  method LoadInsertOperations(bucket: RoomBucket) returns (log: map<ID, InsertOp>)
    ensures forall k :: k in bucket.insertLog ==> bucket.insertLog[k].newID in log
    ensures forall id :: id in log ==> log[id].newID == id && exists k :: k in bucket.insertLog && bucket.insertLog[k] == log[id]
    ensures forall l: map<ID, InsertOp> :: HoldsInserts(bucket.insertLog, l) ==> log == l
  {
    log := map[];
    var b := bucket.insertLog;
    var todo := b.Keys;
    while todo != {}
      invariant todo <= b.Keys
      invariant forall id :: id in log ==> exists k :: k in b && b[k].newID == id && log[id] == b[k]
      invariant forall k :: k in b && k !in todo ==> b[k].newID in log
      decreases todo
    {
      var k :| k in todo;
      todo := todo - {k};
      log := log[b[k].newID := b[k]];
    }
    forall l: map<ID, InsertOp> | HoldsInserts(b, l)
      ensures log == l
    {
      LoadedInserts(b, log, l);
    }
  }

  lemma LoadedInserts(b: map<string, InsertOp>, log: map<ID, InsertOp>, l: map<ID, InsertOp>)
    requires HoldsInserts(b, l)
    requires forall id :: id in log ==> exists k :: k in b && b[k].newID == id && log[id] == b[k]
    requires forall k :: k in b ==> b[k].newID in log
    ensures log == l
  {
    forall id
      ensures id in log <==> id in l
      ensures id in log ==> log[id] == l[id]
    {
      if id in l {
        assert FormatID(id) in b && b[FormatID(id)] == l[id];
        assert b[FormatID(id)].newID == id;
      }
    }
  }

  method LoadDeleteOperations(bucket: RoomBucket) returns (log: set<ID>)
    ensures forall id :: id in log <==> exists k :: k in bucket.deleteLog && bucket.deleteLog[k] == id
    ensures forall l: set<ID> :: HoldsDeletes(bucket.deleteLog, l) ==> log == l
  {
    log := {};
    var b := bucket.deleteLog;
    var todo := b.Keys;
    while todo != {}
      invariant todo <= b.Keys
      invariant forall id :: id in log ==> exists k :: k in b && b[k] == id
      invariant forall k :: k in b && k !in todo ==> b[k] in log
      decreases todo
    {
      var k :| k in todo;
      todo := todo - {k};
      log := log + {b[k]};
    }
    forall l: set<ID> | HoldsDeletes(b, l)
      ensures log == l
    {
    }
  }
}
