/** The replicated list as a value: a sequence of elements from START to END, and the integration of
    one remote insert into it. Tombstones are kept apart (see DocumentSpec), because they never
    influence where an insert goes. */
module ReplicatedList {
  import opened Identifiers

  /** A logged insert: everything a replica needs to integrate it. */
  datatype InsertOp = InsertOp(newID: ID, originID: ID, rightID: ID, content: char)

  /** A list element; the sentinels have no origin. */
  datatype Elem = Elem(id: ID, origin: Option<ID>, content: char)

  const EMPTY_LIST: seq<Elem> := [Elem(START, None, '\0'), Elem(END, None, '\0')]

  ghost function Ids(l: seq<Elem>): set<ID> {
    set i | 0 <= i < |l| :: l[i].id
  }

  ghost function NewIDs(s: seq<InsertOp>): set<ID> {
    set o | o in s :: o.newID
  }

  ghost predicate Distinct(l: seq<Elem>) {
    forall i, j :: 0 <= i < j < |l| ==> l[i].id != l[j].id
  }

  ghost function IndexOf(l: seq<Elem>, id: ID): (i: nat)
    requires id in Ids(l)
    ensures i < |l| && l[i].id == id
  {
    var i :| 0 <= i < |l| && l[i].id == id; i
  }

  /** `x` stands to the left of `y`. */
  ghost predicate Precedes(l: seq<Elem>, x: ID, y: ID) {
    x in Ids(l) && y in Ids(l) && IndexOf(l, x) < IndexOf(l, y)
  }

  ghost predicate OriginPrecedes(l: seq<Elem>, i: nat)
    requires i < |l|
  {
    l[i].origin.Some? && Precedes(l, l[i].origin.value, l[i].id)
  }

  /** What every operation keeps of the list: sentinels at the two ends, one element per identifier,
      and every element to the right of its origin. */
  ghost predicate WellFormed(l: seq<Elem>) {
    && |l| >= 2
    && l[0] == EMPTY_LIST[0] && l[|l| - 1] == EMPTY_LIST[1]
    && Distinct(l)
    && (forall i :: 0 < i < |l| - 1 ==> Real(l[i].id))
    && (forall i :: 0 < i < |l| - 1 ==> OriginPrecedes(l, i))
  }

  /** `isOriginAfter`: walking from START's right neighbour to END, is `origin` met before the element at
      index `po`? START is never met on that walk: an element whose origin is START never crosses,
      and when `po` is START itself every other origin does. */
  ghost predicate Crossing(l: seq<Elem>, po: nat, origin: Option<ID>) {
    origin.Some? && exists q :: 1 <= q < |l| - 1 && l[q].id == origin.value && (po == 0 || q < po)
  }

  /** The scan for `newID` stops at the element at index `j`. */
  ghost predicate Blocks(l: seq<Elem>, po: nat, newID: ID, j: nat)
    requires j < |l|
  {
    Crossing(l, po, l[j].origin) || !Less(l[j].id, newID)
  }

  /** The first index from `j` on that stops the scan, or the right bound. */
  ghost function Scan(l: seq<Elem>, po: nat, pr: nat, newID: ID, j: nat): (k: nat)
    requires po < j <= pr < |l|
    ensures j <= k <= pr
    ensures forall m :: j <= m < k ==> !Blocks(l, po, newID, m)
    ensures k < pr ==> Blocks(l, po, newID, k)
    decreases pr - j
  {
    if j == pr || Blocks(l, po, newID, j) then j else Scan(l, po, pr, newID, j + 1)
  }

  ghost predicate Ready(ids: set<ID>, op: InsertOp) {
    op.originID in ids && op.rightID in ids
  }

  /** The insert can be integrated: both neighbours are present, in the right order. With the order
      reversed, the walk that collects the conflict zone runs off the end of the list. */
  ghost predicate Integrable(l: seq<Elem>, op: InsertOp) {
    Precedes(l, op.originID, op.rightID)
  }

  /** Where `findInsetionPoint` puts the new element. */
  ghost function InsertIndex(l: seq<Elem>, op: InsertOp): (k: nat)
    requires Integrable(l, op)
    ensures IndexOf(l, op.originID) < k <= IndexOf(l, op.rightID)
  {
    var po := IndexOf(l, op.originID);
    Scan(l, po, IndexOf(l, op.rightID), op.newID, po + 1)
  }

  ghost function NewElem(op: InsertOp): Elem {
    Elem(op.newID, Some(op.originID), op.content)
  }

  function InsertAt<T>(l: seq<T>, k: nat, e: T): (r: seq<T>)
    requires k <= |l|
    ensures |r| == |l| + 1
    ensures forall i :: 0 <= i < |r| ==> r[i] == if i < k then l[i] else if i == k then e else l[i - 1]
  {
    l[..k] + [e] + l[k..]
  }

  ghost function Integrate(l: seq<Elem>, op: InsertOp): seq<Elem>
    requires Integrable(l, op)
  {
    InsertAt(l, InsertIndex(l, op), NewElem(op))
  }

  lemma EmptyListIds()
    ensures WellFormed(EMPTY_LIST) && Ids(EMPTY_LIST) == {START, END}
  {
    assert EMPTY_LIST[0].id == START && EMPTY_LIST[1].id == END;
  }

  // ----- Positions

  lemma IndexOfIs(l: seq<Elem>, i: nat)
    requires Distinct(l) && i < |l|
    ensures l[i].id in Ids(l) && IndexOf(l, l[i].id) == i
  {
  }

  /** Crossing in terms of positions. */
  lemma CrossingAt(l: seq<Elem>, po: nat, origin: ID)
    requires Distinct(l) && origin in Ids(l)
    ensures var q := IndexOf(l, origin);
            Crossing(l, po, Some(origin)) <==> 1 <= q < |l| - 1 && (po == 0 || q < po)
  {
  }

  /** Siblings never cross: an element does not cross the scan of an insert with the same origin. */
  lemma SiblingsDoNotCross(l: seq<Elem>, origin: ID)
    requires Distinct(l) && origin in Ids(l)
    ensures !Crossing(l, IndexOf(l, origin), Some(origin))
  {
  }

  /** The insertion point is the end of the longest run of non-blocking elements right of the origin:
      any index with these properties is it. */
  lemma InsertIndexIs(l: seq<Elem>, op: InsertOp, k: nat)
    requires Integrable(l, op)
    requires IndexOf(l, op.originID) < k <= IndexOf(l, op.rightID)
    requires forall m :: IndexOf(l, op.originID) < m < k ==> !Blocks(l, IndexOf(l, op.originID), op.newID, m)
    requires k < IndexOf(l, op.rightID) ==> Blocks(l, IndexOf(l, op.originID), op.newID, k)
    ensures InsertIndex(l, op) == k
  {
    var po, pr := IndexOf(l, op.originID), IndexOf(l, op.rightID);
    var s := Scan(l, po, pr, op.newID, po + 1);
    assert s < pr ==> Blocks(l, po, op.newID, s);
    assert forall m :: po < m < s ==> !Blocks(l, po, op.newID, m);
  }

  /** The element at index `j` stops an insert with identifier `newID` whose origin is at `po`: its own origin
      is an element, not START, that stands left of `po`, or anywhere when `po` is START; or it is larger. */
  ghost predicate Stops(l: seq<Elem>, po: nat, newID: ID, j: nat)
    requires j < |l|
  {
    || (exists q :: 0 < q < |l| - 1 && l[j].origin == Some(l[q].id) && (q < po || po == 0))
    || l[j].id == newID || Less(newID, l[j].id)
  }

  /** The insertion point without the scan: right of the origin, past every element up to the first that stops
      the insert, or up to the right neighbour. */
  lemma InsertIndexMeans(l: seq<Elem>, op: InsertOp)
    requires Integrable(l, op)
    ensures var po, pr, k := IndexOf(l, op.originID), IndexOf(l, op.rightID), InsertIndex(l, op);
            && po < k <= pr
            && (forall j :: po < j < k ==> !Stops(l, po, op.newID, j))
            && (k < pr ==> Stops(l, po, op.newID, k))
  {
    var po, pr, k := IndexOf(l, op.originID), IndexOf(l, op.rightID), InsertIndex(l, op);
    forall j | po < j < pr
      ensures Stops(l, po, op.newID, j) <==> Blocks(l, po, op.newID, j)
    {
      LessTrichotomy(l[j].id, op.newID);
    }
    assert k == Scan(l, po, pr, op.newID, po + 1);
  }

  /** Positions after an insertion: what was right of the new element moves by one, nothing is reordered. */
  lemma InsertAtPositions(l: seq<Elem>, k: nat, e: Elem)
    requires Distinct(l) && k <= |l| && e.id !in Ids(l)
    ensures var r := InsertAt(l, k, e);
            && Distinct(r)
            && Ids(r) == Ids(l) + {e.id}
            && IndexOf(r, e.id) == k
            && forall x :: x in Ids(l) ==> IndexOf(r, x) == IndexOf(l, x) + (if IndexOf(l, x) < k then 0 else 1)
  {
    var r := InsertAt(l, k, e);
    forall i, j | 0 <= i < j < |r|
      ensures r[i].id != r[j].id
    {
      assert i < k ==> r[i] == l[i];
      assert i > k ==> r[i] == l[i - 1];
      assert j < k ==> r[j] == l[j];
      assert j > k ==> r[j] == l[j - 1];
    }
    assert r[k].id == e.id;
    assert Distinct(r);
    forall x | x in Ids(l)
      ensures x in Ids(r) && IndexOf(r, x) == IndexOf(l, x) + (if IndexOf(l, x) < k then 0 else 1)
    {
      var i := IndexOf(l, x);
      if i < k {
        assert r[i].id == x;
      } else {
        assert r[i + 1].id == x;
      }
    }
    forall x | x in Ids(r)
      ensures x in Ids(l) + {e.id}
    {
      var i := IndexOf(r, x);
      if i < k {
        assert l[i].id == x;
      } else if i > k {
        assert l[i - 1].id == x;
      }
    }
    assert Ids(r) == Ids(l) + {e.id};
  }

  /** The same for one identifier. */
  lemma PositionAfter(l: seq<Elem>, op: InsertOp, x: ID)
    requires Distinct(l) && Integrable(l, op) && op.newID !in Ids(l) && x in Ids(l) + {op.newID}
    ensures var r, k := Integrate(l, op), InsertIndex(l, op);
            && Distinct(r) && x in Ids(r)
            && IndexOf(r, x) == if x == op.newID then k
                                else if IndexOf(l, x) < k then IndexOf(l, x)
                                else IndexOf(l, x) + 1
  {
    InsertAtPositions(l, InsertIndex(l, op), NewElem(op));
  }

  /** Nothing is reordered by an insertion. */
  lemma OrderStays(l: seq<Elem>, k: nat, e: Elem)
    requires Distinct(l) && k <= |l| && e.id !in Ids(l)
    ensures forall x, y :: x in Ids(l) && y in Ids(l) ==> (Precedes(InsertAt(l, k, e), x, y) <==> Precedes(l, x, y))
  {
    InsertAtPositions(l, k, e);
    hide Distinct, Ids, InsertAt;
  }

  lemma StandsBetween(l: seq<Elem>, k: nat, e: Elem, x: ID, y: ID)
    requires Distinct(l) && k <= |l| && e.id !in Ids(l) && x in Ids(l) && y in Ids(l)
    requires IndexOf(l, x) < k <= IndexOf(l, y)
    ensures Precedes(InsertAt(l, k, e), x, e.id) && Precedes(InsertAt(l, k, e), e.id, y)
  {
    InsertAtPositions(l, k, e);
    hide Distinct, Ids, InsertAt;
  }

  lemma StaysWellFormed(l: seq<Elem>, k: nat, e: Elem)
    requires WellFormed(l) && 0 < k < |l| && Real(e.id) && e.id !in Ids(l)
    requires e.origin.Some? && Precedes(InsertAt(l, k, e), e.origin.value, e.id)
    ensures WellFormed(InsertAt(l, k, e))
  {
    var r := InsertAt(l, k, e);
    InsertAtPositions(l, k, e);
    forall i | 0 < i < |r| - 1
      ensures Real(r[i].id) && OriginPrecedes(r, i)
    {
      if i != k {
        var j := if i < k then i else i - 1;
        assert OriginPrecedes(l, j);
        OriginStays(l, k, e, j);
      }
    }
  }

  /** Integration keeps the list well-formed, adds exactly the new identifier strictly between its origin
      and its right neighbour, and never reorders what was there. */
  lemma IntegrateKeeps(l: seq<Elem>, op: InsertOp)
    requires WellFormed(l) && Integrable(l, op) && Real(op.newID) && op.newID !in Ids(l)
    ensures var r := Integrate(l, op);
            && WellFormed(r)
            && Ids(r) == Ids(l) + {op.newID}
            && Precedes(r, op.originID, op.newID) && Precedes(r, op.newID, op.rightID)
            && forall x, y :: x in Ids(l) && y in Ids(l) ==> (Precedes(r, x, y) <==> Precedes(l, x, y))
  {
    var k, e := InsertIndex(l, op), NewElem(op);
    hide WellFormed, Ids, InsertAt, Precedes, Scan, Blocks;
    DistinctWhenWellFormed(l);
    InsertAtPositions(l, k, e);
    StandsBetween(l, k, e, op.originID, op.rightID);
    OrderStays(l, k, e);
    StaysWellFormed(l, k, e);
  }

  lemma DistinctWhenWellFormed(l: seq<Elem>)
    requires WellFormed(l)
    ensures Distinct(l)
  {
  }

  lemma OriginStays(l: seq<Elem>, k: nat, e: Elem, j: nat)
    requires Distinct(l) && k <= |l| && e.id !in Ids(l) && j < |l| && OriginPrecedes(l, j)
    ensures var r, i := InsertAt(l, k, e), if j < k then j else j + 1;
            r[i] == l[j] && OriginPrecedes(r, i)
  {
    InsertAtPositions(l, k, e);
    IndexOfIs(l, j);
  }

  /** With origin and right adjacent there is no conflict zone: the element goes exactly between them. */
  lemma IntegrateAdjacent(l: seq<Elem>, op: InsertOp, k: nat)
    requires Distinct(l) && 0 < k < |l|
    requires op.originID == l[k - 1].id && op.rightID == l[k].id
    ensures Integrable(l, op) && InsertIndex(l, op) == k && Integrate(l, op) == InsertAt(l, k, NewElem(op))
  {
    IndexOfIs(l, k - 1);
    IndexOfIs(l, k);
  }
}
