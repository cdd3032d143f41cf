/** The document as the program builds it: a doubly linked list of heap elements, an index by identifier,
    and maps for logs and buffers, updated in place. The ghost fields give the chain as a sequence and
    the state as a value; every method is proved against DocumentSpec. */
module Document {
  import opened Identifiers
  import opened ReplicatedList
  import opened DocumentSpec
  import opened DocumentLaws
  import opened LocalEdits

  class Element {
    const elementID: ID
    const content: char
    var origin: Element?
    var left: Element?
    var right: Element?
    var isDeleted: bool

    constructor (id: ID, origin: Element?, left: Element?, right: Element?, content: char)
      ensures elementID == id && this.content == content
      ensures this.origin == origin && this.left == left && this.right == right && !isDeleted
    {
      this.elementID, this.content := id, content;
      this.origin, this.left, this.right, this.isDeleted := origin, left, right, false;
    }

    ghost function Value(): Elem
      reads `origin
    {
      Elem(elementID, if origin == null then None else Some(origin.elementID), content)
    }
  }

  /** START to END, `left` and `right` mutually inverse. */
  ghost predicate Chain(ns: seq<Element>)
    reads ns`left, ns`right
  {
    && |ns| >= 2 && ns[0].left == null && ns[|ns| - 1].right == null
    && (forall i {:trigger ns[i].right} :: 0 <= i < |ns| - 1 ==> ns[i].right == ns[i + 1])
    && (forall i {:trigger ns[i].left} :: 0 < i < |ns| ==> ns[i].left == ns[i - 1])
  }

  /** The elements carry the values of the list, and the tombstone flags. */
  ghost predicate Carries(ns: seq<Element>, l: seq<Elem>, tomb: set<ID>)
    reads ns`origin, ns`isDeleted
  {
    && |ns| == |l|
    && (forall i :: 0 <= i < |ns| ==> ns[i].Value() == l[i])
    && (forall i :: 0 <= i < |ns| ==> (ns[i].isDeleted <==> l[i].id in tomb))
  }

  /** The index holds exactly the chain, keyed by its own identifiers, and origins point into it. */
  ghost predicate Indexed(ns: seq<Element>, l: seq<Elem>, byID: map<ID, Element>)
    requires |ns| == |l|
    reads ns`origin
  {
    && byID.Keys == Ids(l)
    && (forall i :: 0 <= i < |ns| ==> l[i].id in byID && byID[l[i].id] == ns[i])
    && (forall i :: 0 <= i < |ns| ==> OriginIn(ns[i], byID))
  }

  ghost predicate OriginIn(e: Element, byID: map<ID, Element>)
    reads e`origin
  {
    e.origin != null ==> e.origin.elementID in byID && byID[e.origin.elementID] == e.origin
  }

  /** One step of a walk over visible elements, at index `k` left of END. */
  lemma WalkStep(ns: seq<Element>, l: seq<Elem>, tomb: set<ID>, k: nat, i: nat)
    requires Carries(ns, l, tomb) && k < |ns| - 1
    ensures Visible(l[k..|l| - 1], tomb) ==
            (if ns[k].isDeleted then [] else [ns[k].content]) + Visible(l[k + 1..|l| - 1], tomb)
    ensures FindVisible(l, tomb, k, i) ==
              if ns[k].isDeleted then FindVisible(l, tomb, k + 1, i)
              else if i == 0 then k
              else FindVisible(l, tomb, k + 1, i - 1)
  {
    assert ns[k].Value() == l[k];
    VisibleHead(l, k, |l| - 1, tomb);
  }

  lemma TextStep(ns: seq<Element>, l: seq<Elem>, tomb: set<ID>, k: nat, content: string)
    requires Carries(ns, l, tomb) && k < |ns| - 1
    ensures content + Visible(l[k..|l| - 1], tomb) ==
            (if ns[k].isDeleted then content else content + [ns[k].content]) + Visible(l[k + 1..|l| - 1], tomb)
  {
    WalkStep(ns, l, tomb, k, 0);
  }

  lemma InsertedNodes(ns: seq<Element>, k: nat, element: Element)
    requires k <= |ns|
    ensures var r := InsertAt(ns, k, element);
            |r| == |ns| + 1 && r[k] == element && forall n :: n in r ==> n == element || n in ns
  {
  }

  lemma ScanStep(l: seq<Elem>, po: nat, pr: nat, newID: ID, j: nat)
    requires po < j < pr < |l|
    ensures Scan(l, po, pr, newID, j) ==
            if Crossing(l, po, l[j].origin) || !Less(l[j].id, newID) then j else Scan(l, po, pr, newID, j + 1)
  {
  }

  lemma ScanEnd(l: seq<Elem>, po: nat, pr: nat, newID: ID)
    requires po < pr < |l|
    ensures Scan(l, po, pr, newID, pr) == pr
  {
  }

  /** Where a walk along `right` is after `n` steps from `from`; beyond END it is at nil. */
  ghost function Walked(ns: seq<Element>, from: Element?, n: nat): Element?
    reads ns`right
  {
    if n == 0 || from == null || from !in ns then from else Walked(ns, from.right, n - 1)
  }

  lemma {:induction false} WalkedTo(ns: seq<Element>, k: nat, n: nat)
    requires Chain(ns) && k < |ns|
    ensures Walked(ns, ns[k], n) == if k + n < |ns| then ns[k + n] else null
    decreases n
  {
    if n > 0 {
      if k < |ns| - 1 {
        assert ns[k].right == ns[k + 1];
        WalkedTo(ns, k + 1, n - 1);
      } else {
        assert Walked(ns, ns[k].right, n - 1) == null;
      }
    }
  }

  lemma NodesDistinct(ns: seq<Element>, l: seq<Elem>, tomb: set<ID>, i: nat, j: nat)
    requires Carries(ns, l, tomb) && Distinct(l) && i < |ns| && j < |ns| && ns[i] == ns[j]
    ensures i == j
  {
    assert ns[i].Value() == l[i] && ns[j].Value() == l[j];
  }

  /** Exactly when the walk of `conflictZone` ends at the right neighbour: the origin must precede it.
      Otherwise the walk passes END and reaches nil, which the program dereferences. */
  lemma ZoneWalkEndsIff(ns: seq<Element>, l: seq<Elem>, tomb: set<ID>, originID: ID, rightID: ID)
    requires Chain(ns) && Carries(ns, l, tomb) && Distinct(l) && originID in Ids(l) && rightID in Ids(l)
    ensures var po, right := IndexOf(l, originID), ns[IndexOf(l, rightID)];
            && (Precedes(l, originID, rightID) <==> exists n: nat :: Walked(ns, ns[po].right, n) == right)
            && Walked(ns, ns[po].right, |ns|) == null
  {
    var po, pr := IndexOf(l, originID), IndexOf(l, rightID);
    WalkedFrom(ns, po, |ns|);
    if po < pr {
      WalkedFrom(ns, po, pr - po - 1);
    }
    forall n: nat | Walked(ns, ns[po].right, n) == ns[pr]
      ensures po < pr
    {
      WalkedFrom(ns, po, n);
      NodesDistinct(ns, l, tomb, po + 1 + n, pr);
    }
  }

  lemma WalkedFrom(ns: seq<Element>, po: nat, n: nat)
    requires Chain(ns) && po < |ns|
    ensures Walked(ns, ns[po].right, n) == if po + 1 + n < |ns| then ns[po + 1 + n] else null
  {
    WalkedTo(ns, po, n + 1);
  }

  ghost predicate OnlyAt(ns: seq<Element>, e: Element, k: nat) {
    k < |ns| && ns[k] == e && forall i :: 0 <= i < |ns| && i != k ==> ns[i] != e
  }

  /** The two pointer updates that put a new element between two neighbours. */
  method LinkBetween(element: Element, left: Element, right: Element, ghost ns: seq<Element>, ghost k: nat)
    requires Chain(ns) && element !in ns && 0 < k < |ns| && OnlyAt(ns, left, k - 1) && OnlyAt(ns, right, k)
    requires element.left == left && element.right == right
    modifies left`right, right`left
    ensures Chain(InsertAt(ns, k, element))
  {
    left.right := element;
    right.left := element;
    ghost var r := InsertAt(ns, k, element);
    forall i | 0 <= i < |r| - 1
      ensures r[i].right == r[i + 1]
    {
      if i < k - 1 {
        assert r[i] == ns[i] && ns[i].right == ns[i + 1];
      } else if i > k {
        assert r[i] == ns[i - 1] && ns[i - 1].right == ns[i];
      }
    }
    forall i | 0 < i < |r|
      ensures r[i].left == r[i - 1]
    {
      if i < k {
        assert r[i] == ns[i] && ns[i].left == ns[i - 1];
      } else if i > k + 1 {
        assert r[i] == ns[i - 1] && ns[i - 1].left == ns[i - 2];
      }
    }
  }

  lemma CarriesInsert(ns: seq<Element>, l: seq<Elem>, tomb: set<ID>, k: nat, element: Element)
    requires Carries(ns, l, tomb) && k <= |ns| && !element.isDeleted && element.elementID !in tomb
    ensures Carries(InsertAt(ns, k, element), InsertAt(l, k, element.Value()), tomb)
  {
  }

  lemma IndexedInsert(ns: seq<Element>, l: seq<Elem>, byID: map<ID, Element>, k: nat, element: Element)
    requires |ns| == |l| && Indexed(ns, l, byID) && Distinct(l) && k <= |ns| && element.elementID !in Ids(l)
    requires OriginIn(element, byID)
    ensures Indexed(InsertAt(ns, k, element), InsertAt(l, k, element.Value()), byID[element.elementID := element])
  {
    var r, l', byID' := InsertAt(ns, k, element), InsertAt(l, k, element.Value()), byID[element.elementID := element];
    InsertAtPositions(l, k, element.Value());
    hide Distinct;
    forall j | 0 <= j < |ns|
      ensures l[j].id in byID' && byID'[l[j].id] == ns[j] && OriginIn(ns[j], byID')
    {
      IndexedStill(ns, l, byID, element, j);
    }
    assert OriginIn(element, byID');
    hide Ids, OriginIn, InsertAt;
    forall i | 0 <= i < |r|
      ensures l'[i].id in byID' && byID'[l'[i].id] == r[i] && OriginIn(r[i], byID')
    {
      if i != k {
        var j := if i < k then i else i - 1;
        assert r[i] == ns[j] && l'[i] == l[j];
      }
    }
  }

  lemma IndexedStill(ns: seq<Element>, l: seq<Elem>, byID: map<ID, Element>, element: Element, j: nat)
    requires |ns| == |l| && Indexed(ns, l, byID) && j < |ns| && element.elementID !in Ids(l)
    ensures var byID' := byID[element.elementID := element];
            l[j].id in byID' && byID'[l[j].id] == ns[j] && OriginIn(ns[j], byID')
  {
    assert l[j].id in Ids(l) && OriginIn(ns[j], byID);
  }

  lemma NewChain(s: Element, e: Element)
    requires s.left == null && s.right == e && e.left == s && e.right == null
    requires s.Value() == EMPTY_LIST[0] && e.Value() == EMPTY_LIST[1] && !s.isDeleted && !e.isDeleted
    ensures Chain([s, e]) && Carries([s, e], EMPTY_LIST, {}) && Indexed([s, e], EMPTY_LIST, map[START := s, END := e])
  {
    EmptyListIds();
  }

  class Document {
    var start: Element
    var end: Element
    var elementsByID: map<ID, Element>
    var characterCounter: int
    var clientID: string
    var clock: int
    var pendingInserts: map<ID, InsertOp>
    var pendingDeletes: set<ID>
    var insertLog: map<ID, InsertOp>
    var deleteLog: set<ID>

    ghost var nodes: seq<Element>
    ghost var doc: Doc

    ghost function Repr(): set<object>
      reads `nodes
    {
      set n | n in nodes
    }

    /** The chain of elements represents the list and the tombstones of `doc`. */
    ghost predicate Chained()
      reads this, nodes
    {
      && |nodes| == |doc.list| >= 2 && start == nodes[0] && end == nodes[|nodes| - 1]
      && Chain(nodes)
      && Carries(nodes, doc.list, doc.tomb)
    }

    /** So does the index. */
    ghost predicate Woven()
      reads this, nodes
    {
      Chained() && Indexed(nodes, doc.list, elementsByID)
    }

    /** The heap represents `doc`. */
    ghost predicate Linked()
      reads this, Repr()
    {
      && Woven() && Scalars()
    }

    ghost predicate Scalars()
      reads this
    {
      && characterCounter == doc.counter && clientID == doc.clientID && clock == doc.clock
      && pendingInserts == doc.pendIns && pendingDeletes == doc.pendDel
      && insertLog == doc.insLog && deleteLog == doc.delLog
    }

    ghost predicate Valid()
      reads this, Repr()
    {
      Linked() && Inv(doc)
    }

    /** `NewDocument`; the generated UUID is the parameter. */
    constructor (id: string)
      requires id != "START" && id != "END"
      ensures Valid() && doc == NewDoc(id) && fresh(nodes) && |nodes| == 2
      ensures clientID == id && clock == 0 && characterCounter == 0
      ensures pendingInserts == map[] && pendingDeletes == {} && insertLog == map[] && deleteLog == {}
    {
      var s := new Element(START, null, null, null, '\0');
      var e := new Element(END, null, null, null, '\0');
      s.right := e;
      e.left := s;
      start, end := s, e;
      elementsByID := map[START := s, END := e];
      characterCounter, clientID, clock := 0, id, 0;
      pendingInserts, pendingDeletes, insertLog, deleteLog := map[], {}, map[], {};
      nodes, doc := [s, e], NewDoc(id);
      new;
      NewChain(s, e);
      NewDocInv(id);
      hide Inv, Chain, Carries, Indexed, Linked;
      LinkedNew(id);
    }

    lemma LinkedNew(id: string)
      requires |nodes| == 2 && start == nodes[0] && end == nodes[1] && doc == NewDoc(id) && Scalars()
      requires Chain(nodes) && Carries(nodes, EMPTY_LIST, {}) && Indexed(nodes, EMPTY_LIST, elementsByID)
      ensures Linked()
    {
    }

    // ----- Walks

    lemma NodeAt(i: nat)
      requires Chained() && Distinct(doc.list) && i < |nodes|
      ensures nodes[i].elementID == doc.list[i].id && doc.list[i].id in Ids(doc.list)
      ensures IndexOf(doc.list, nodes[i].elementID) == i
    {
      assert nodes[i].Value() == doc.list[i];
    }

    lemma Lookup(id: ID)
      requires Woven() && Distinct(doc.list) && id in Ids(doc.list)
      ensures id in elementsByID && elementsByID[id] == nodes[IndexOf(doc.list, id)]
    {
    }

    lemma WovenLength()
      requires Woven()
      ensures |nodes| == |doc.list|
    {
    }

    lemma Step(i: nat)
      requires Chained() && i < |nodes|
      ensures nodes[i].right == (if i < |nodes| - 1 then nodes[i + 1] else null)
      ensures nodes[i].left == (if i > 0 then nodes[i - 1] else null)
    {
    }

    /** What the representation says of the element at index `i`. */
    lemma At(i: nat)
      requires Woven() && i < |nodes|
      ensures nodes[i].Value() == doc.list[i] && (nodes[i].isDeleted <==> doc.list[i].id in doc.tomb)
      ensures i < |nodes| - 1 ==> nodes[i].right == nodes[i + 1]
      ensures i > 0 ==> nodes[i].left == nodes[i - 1]
      ensures OriginIn(nodes[i], elementsByID) && doc.list[i].id in elementsByID && elementsByID[doc.list[i].id] == nodes[i]
    {
    }

    /** `conflictZone`. */
    method ConflictZone(originID: ID, rightID: ID) returns (zone: seq<Element>)
      requires Woven() && Distinct(doc.list) && Precedes(doc.list, originID, rightID)
      ensures zone == nodes[IndexOf(doc.list, originID) + 1..IndexOf(doc.list, rightID)]
    {
      hide Chain, Carries, Indexed;
      ghost var po, pr := IndexOf(doc.list, originID), IndexOf(doc.list, rightID);
      At(po);
      At(pr);
      var origin, right := elementsByID[originID], elementsByID[rightID];
      zone := [];
      var current := origin.right;
      ghost var k := po + 1;
      OnlyOnce(pr);
      while current != right
        invariant po < k <= pr && current == nodes[k]
        invariant zone == nodes[po + 1..k]
        decreases pr - k
      {
        zone := zone + [current];
        At(k);
        current := current.right;
        k := k + 1;
      }
    }

    lemma OriginNotBefore(e: Element, po: nat, q: nat)
      requires Woven() && Distinct(doc.list) && q < |nodes| && OriginIn(e, elementsByID)
      requires forall m :: 1 <= m < q ==> nodes[m] != e.origin
      requires q == po > 0 || q == |nodes| - 1
      ensures !Crossing(doc.list, po, e.Value().origin)
    {
      if e.origin != null {
        CrossingAt(doc.list, po, e.origin.elementID);
      }
    }

    /** `isOriginAfter`, called with the origin of the new insert, the element at `po`. */
    method IsOriginAfter(insertOperation: Element, conflictiveOperation: Element, ghost po: nat) returns (after: bool)
      requires Woven() && Distinct(doc.list)
      requires po < |nodes| && insertOperation == nodes[po] && OriginIn(conflictiveOperation, elementsByID)
      ensures after <==> Crossing(doc.list, po, conflictiveOperation.Value().origin)
    {
      hide Chain, Carries, Indexed;
      At(0);
      OnlyOnce(po);
      OnlyOnce(|nodes| - 1);
      var current := start.right;
      ghost var q := 1;
      while current != end
        invariant 1 <= q < |nodes| && current == nodes[q]
        invariant po == 0 || q <= po
        invariant forall m :: 1 <= m < q ==> nodes[m] != conflictiveOperation.origin
        decreases |nodes| - q
      {
        At(q);
        if insertOperation == current {
          OriginNotBefore(conflictiveOperation, po, q);
          return false;
        }
        if conflictiveOperation.origin == current {
          NodeAt(q);
          CrossingAt(doc.list, po, current.elementID);
          return true;
        }
        current := current.right;
        q := q + 1;
      }
      OriginNotBefore(conflictiveOperation, po, q);
      return false;
    }

    /** One step of the scan, at the element at index `j` of the conflict zone. */
    lemma ZoneAt(po: nat, pr: nat, newID: ID, j: nat)
      requires Woven() && po < j < pr < |nodes|
      ensures nodes[j].right == nodes[j + 1] && OriginIn(nodes[j], elementsByID)
      ensures |doc.list| == |nodes|
      ensures Scan(doc.list, po, pr, newID, j) ==
              if Crossing(doc.list, po, nodes[j].Value().origin) || !Less(nodes[j].elementID, newID) then j
              else Scan(doc.list, po, pr, newID, j + 1)
    {
      At(j);
      ScanStep(doc.list, po, pr, newID, j);
    }

    /** `findInsetionPoint`: the two adjacent elements at the insertion index. */
    method FindInsertionPoint(op: InsertOp) returns (left: Element, right: Element)
      requires Woven() && Distinct(doc.list) && Integrable(doc.list, op)
      ensures var k := InsertIndex(doc.list, op);
              0 < k < |nodes| && left == nodes[k - 1] && right == nodes[k]
    {
      hide Woven, Crossing, StringLess, Distinct, Ids, Scan, Blocks, OriginIn, Element.Value;
      ghost var po, pr := IndexOf(doc.list, op.originID), IndexOf(doc.list, op.rightID);
      WovenLength();
      At(po);
      var origin := elementsByID[op.originID];
      left, right := origin, origin.right;
      var conflictingElements := ConflictZone(op.originID, op.rightID);
      var i := 0;
      ghost var j := po + 1;
      while i < |conflictingElements|
        invariant po < j == po + 1 + i <= pr
        invariant left == nodes[j - 1] && right == nodes[j]
        invariant Scan(doc.list, po, pr, op.newID, j) == InsertIndex(doc.list, op)
      {
        var ops := conflictingElements[i];
        assert ops == nodes[j];
        ZoneAt(po, pr, op.newID, j);
        var crosses := IsOriginAfter(origin, ops, po);
        if crosses {
          break;
        }
        if ops.elementID.clock < op.newID.clock {
          left, right := ops, ops.right;
        } else if ops.elementID.clock > op.newID.clock {
          right := ops;
          break;
        } else {
          if StringLess(ops.elementID.clientID, op.newID.clientID) {
            left, right := ops, ops.right;
          } else {
            right := ops;
            break;
          }
        }
        i := i + 1;
        j := j + 1;
      }
      ScanEnd(doc.list, po, pr, op.newID);
      assert InsertIndex(doc.list, op) == j;
    }

    /** `findVisiblePosition`: refused outside the text; the fallback behind the loop is never reached. */
    method FindVisiblePosition(index: int) returns (found: bool, left: Element?, right: Element?)
      requires Chained() && Counted(doc.list, doc.tomb, characterCounter) && !end.isDeleted
      ensures found <==> 0 <= index <= characterCounter
      ensures found ==> var k := FindVisible(doc.list, doc.tomb, 1, index);
                        0 < k < |nodes| && left == nodes[k - 1] && right == nodes[k]
    {
      if index > characterCounter || index < 0 {
        return false, null, null;
      }
      assert Visible([], doc.tomb) == [];
      hide Chain, Carries, FindVisible, Visible;
      Step(0);
      var current := start.right;
      var visibleIndex := 0;
      ghost var k, n := 1, |nodes| - 1;
      while current != null
        invariant 1 <= k <= n && current == nodes[k] && 0 <= visibleIndex <= index && !nodes[n].isDeleted
        invariant visibleIndex + |Visible(doc.list[k..n], doc.tomb)| == characterCounter
        invariant FindVisible(doc.list, doc.tomb, 1, index) == FindVisible(doc.list, doc.tomb, k, index - visibleIndex)
        decreases n - k
      {
        Step(k);
        if k < n {
          WalkStep(nodes, doc.list, doc.tomb, k, index - visibleIndex);
        }
        if !current.isDeleted {
          if visibleIndex == index {
            return true, current.left, current;
          }
          visibleIndex := visibleIndex + 1;
        }
        current := current.right;
        k := k + 1;
      }
      assert false;
    }

    /** `findVisibleElement`: refused outside the text; the fallback behind the loop is never reached. */
    method FindVisibleElement(index: int) returns (element: Element?)
      requires Chained() && Counted(doc.list, doc.tomb, characterCounter)
      ensures element != null <==> 0 <= index < characterCounter
      ensures element != null ==> var k := FindVisible(doc.list, doc.tomb, 1, index);
                                  0 < k < |nodes| - 1 && element == nodes[k]
    {
      if index >= characterCounter || index < 0 {
        return null;
      }
      hide Chain, Carries, FindVisible;
      Step(0);
      var current := start.right;
      var visiblePosition := 0;
      ghost var k, n := 1, |nodes| - 1;
      assert Visible(doc.list[n..n], doc.tomb) == [];
      while current != null
        invariant 1 <= k < n && current == nodes[k] && 0 <= visiblePosition <= index
        invariant visiblePosition + |Visible(doc.list[k..n], doc.tomb)| == characterCounter
        invariant FindVisible(doc.list, doc.tomb, 1, index) == FindVisible(doc.list, doc.tomb, k, index - visiblePosition)
        decreases n - k
      {
        Step(k);
        WalkStep(nodes, doc.list, doc.tomb, k, index - visiblePosition);
        if !current.isDeleted {
          if visiblePosition == index {
            return current;
          }
          visiblePosition := visiblePosition + 1;
        }
        current := current.right;
        k := k + 1;
      }
      assert false;
    }

    /** `VisibleContent`. */
    method VisibleContent() returns (content: string)
      requires Chained() && Distinct(doc.list)
      ensures content == Text(doc)
    {
      assert Visible([], doc.tomb) == [];
      hide Chain, Carries, Visible, FindVisible, Distinct;
      content := [];
      Step(0);
      var current := start.right;
      ghost var k, n := 1, |nodes| - 1;
      while current != end
        invariant 1 <= k <= n && current == nodes[k]
        invariant content + Visible(doc.list[k..n], doc.tomb) == Text(doc)
        decreases n - k
      {
        Step(k);
        TextStep(nodes, doc.list, doc.tomb, k, content);
        if !current.isDeleted {
          content := content + [current.content];
        }
        current := current.right;
        k := k + 1;
      }
      OnlyOnce(n);
    }

    /** `Traverse`. */
    method Traverse() returns (elements: seq<Element>)
      requires Chained()
      ensures elements == nodes
    {
      hide Chain, Carries;
      elements := [];
      var current: Element? := start;
      ghost var k := 0;
      while current != null
        invariant 0 <= k <= |nodes| && elements == nodes[..k]
        invariant current == if k < |nodes| then nodes[k] else null
        decreases |nodes| - k
      {
        elements := elements + [current];
        Step(k);
        current := current.right;
        k := k + 1;
      }
    }

    // ----- Inserts

    /** The statements that `InsertElement` and `integrateInsert` share: allocate the element, link it
        between `left` and `right`, index it, log its operation, count it. */
    method Splice(op: InsertOp, origin: Element, left: Element, right: Element, ghost k: nat)
      requires Linked() && Distinct(doc.list) && op.newID !in Ids(doc.list) && op.newID !in doc.tomb
      requires 0 < k < |nodes| && left == nodes[k - 1] && right == nodes[k]
      requires op.originID in elementsByID && elementsByID[op.originID] == origin && origin.elementID == op.originID
      modifies this, Repr()
      ensures Linked()
      ensures doc == old(doc).(list := InsertAt(old(doc.list), k, NewElem(op)),
                               insLog := old(doc.insLog)[op.newID := op],
                               counter := old(doc.counter) + 1)
      ensures |nodes| == old(|nodes|) + 1 && nodes == InsertAt(old(nodes), k, nodes[k]) && fresh(nodes[k]) && fresh(Repr() - old(Repr()))
    {
      hide Chain, Carries, Indexed, Distinct, Ids, OnlyAt, InsertAt;
      OnlyOnce(k - 1);
      OnlyOnce(k);
      ghost var ns, l := nodes, doc.list;
      var element := new Element(op.newID, origin, left, right, op.content);
      LinkBetween(element, left, right, ns, k);
      CarriesInsert(ns, l, doc.tomb, k, element);
      IndexedInsert(ns, l, elementsByID, k, element);
      InsertedNodes(ns, k, element);
      Register(op, element, k);
    }

    /** Index, log and count the element that now stands at index `k` of the chain. */
    method Register(op: InsertOp, element: Element, ghost k: nat)
      requires 0 < k < |nodes| && |nodes| == |doc.list|
      requires Chain(InsertAt(nodes, k, element)) && Carries(InsertAt(nodes, k, element), InsertAt(doc.list, k, NewElem(op)), doc.tomb)
      requires Indexed(InsertAt(nodes, k, element), InsertAt(doc.list, k, NewElem(op)), elementsByID[op.newID := element])
      requires start == nodes[0] && end == nodes[|nodes| - 1] && Scalars()
      modifies this
      ensures Linked()
      ensures nodes == InsertAt(old(nodes), k, element)
      ensures doc == old(doc).(list := InsertAt(old(doc.list), k, NewElem(op)),
                               insLog := old(doc.insLog)[op.newID := op],
                               counter := old(doc.counter) + 1)
    {
      hide Chain, Carries, Indexed;
      elementsByID := elementsByID[op.newID := element];
      insertLog := insertLog[op.newID := op];
      characterCounter := characterCounter + 1;
      nodes, doc := InsertAt(nodes, k, element),
        doc.(list := InsertAt(doc.list, k, NewElem(op)), insLog := doc.insLog[op.newID := op], counter := doc.counter + 1);
    }

    lemma OnlyOnce(k: nat)
      requires Chained() && Distinct(doc.list) && k < |nodes|
      ensures OnlyAt(nodes, nodes[k], k)
    {
      forall i | 0 <= i < |nodes| && i != k
        ensures nodes[i] != nodes[k]
      {
        assert nodes[i].Value() == doc.list[i] && nodes[k].Value() == doc.list[k];
      }
    }

    /** `integrateInsert`. */
    method IntegrateInsert(op: InsertOp)
      requires Linked() && Distinct(doc.list) && Integrable(doc.list, op)
      requires op.newID !in Ids(doc.list) && op.newID !in doc.tomb
      modifies this, Repr()
      ensures Linked() && fresh(Repr() - old(Repr()))
      ensures doc == old(doc).(list := Integrate(old(doc.list), op),
                               insLog := old(doc.insLog)[op.newID := op],
                               counter := old(doc.counter) + 1)
    {
      hide Chain, Carries, Indexed;
      var left, right := FindInsertionPoint(op);
      Lookup(op.originID);
      At(IndexOf(doc.list, op.originID));
      var origin := elementsByID[op.originID];
      Splice(op, origin, left, right, InsertIndex(doc.list, op));
    }

    /** `generateElementID`. */
    method GenerateElementID() returns (id: ID)
      requires Linked()
      modifies this
      ensures Linked() && nodes == old(nodes) && doc == old(doc).(clock := old(doc.clock) + 1)
      ensures id == ID(old(doc.clientID), old(doc.clock))
      ensures elementsByID == old(elementsByID)
    {
      hide Chain, Carries, Indexed;
      id := ID(clientID, clock);
      clock := clock + 1;
      doc := doc.(clock := doc.clock + 1);
    }

    /** `InsertElement`; an index outside the text is refused and changes nothing. */
    method InsertElement(index: int, character: char) returns (inserted: bool, id: ID)
      requires Valid()
      modifies this, Repr()
      ensures Valid() && fresh(Repr() - old(Repr()))
      ensures inserted <==> 0 <= index <= old(characterCounter)
      ensures !inserted ==> doc == old(doc) && nodes == old(nodes)
      ensures doc == LocalInsert(old(doc), index, character)
      ensures inserted ==> id == ID(old(clientID), old(clock))
    {
      hide Linked, Woven, Chained, Inv, WellFormed, Distinct, Ids, Counted, InsertAt;
      LinkedLayers();
      InvParts(doc);
      LocalEditsKeep(doc, index, character);
      EndNotDeleted();
      var found, left, right := FindVisiblePosition(index);
      if !found {
        return false, ID("", 0);
      }
      LocalIDFresh(doc);
      ghost var k := FindVisible(doc.list, doc.tomb, 1, index);
      At(k - 1);
      At(k);
      id := GenerateElementID();
      Splice(InsertOp(id, left.elementID, right.elementID, character), left, left, right, k);
      assert doc == LocalInsert(old(doc), index, character);
      inserted := true;
    }

    lemma InvParts(d: Doc)
      requires Inv(d)
      ensures Distinct(d.list) && Counted(d.list, d.tomb, d.counter) && WellFormed(d.list) && |d.list| >= 2
    {
    }

    lemma EndNotDeleted()
      requires Valid()
      ensures !end.isDeleted
    {
      hide Chain;
      hide Indexed;
      assert doc.list[|nodes| - 1].id == END && !Real(END);
    }

    /** `processPending`: passes over the pending inserts, each in any order, until a pass integrates none. */
    method ProcessPending()
      requires Linked() && Core(doc) && Safe(doc)
      modifies this, Repr()
      ensures Linked() && Core(doc) && fresh(Repr() - old(Repr()))
      ensures Released(old(doc), doc)
    {
      hide Linked, Core, Saturated, Safe, Released;
      var progress := true;
      while progress
        invariant Linked() && Core(doc) && Safe(doc) && fresh(Repr() - old(Repr()))
        invariant forall t :: Released(doc, t) ==> Released(old(doc), t)
        invariant !progress ==> Saturated(doc)
        decreases doc.pendIns.Keys, progress
      {
        progress := false;
        ghost var before := doc;
        LinkedParts();
        var todo := pendingInserts.Keys;
        while todo != {}
          invariant Linked() && Core(doc) && Safe(doc) && fresh(Repr() - old(Repr()))
          invariant forall t :: Released(doc, t) ==> Released(old(doc), t)
          invariant todo <= doc.pendIns.Keys
          invariant if progress then doc.pendIns.Keys < before.pendIns.Keys else doc == before
          invariant !progress ==> forall k :: k in doc.pendIns && k !in todo ==> !Ready(Ids(doc.list), doc.pendIns[k])
          decreases todo
        {
          var k :| k in todo;
          todo := todo - {k};
          LinkedParts();
          var v := pendingInserts[k];
          PendingFacts(doc, k);
          if v.originID in elementsByID && v.rightID in elementsByID {
            ReleaseOne(doc, k);
            ghost var d := doc;
            IntegrateInsert(v);
            DropPending(v.newID);
            assert doc == Absorb(d, v);
            progress := true;
          }
        }
        if !progress {
          NowSaturated(doc);
        }
      }
      ReleasedNow(doc);
    }

    lemma LinkedParts()
      requires Linked()
      ensures pendingInserts == doc.pendIns && pendingDeletes == doc.pendDel && elementsByID.Keys == Ids(doc.list)
    {
    }

    /** The fields that other components read. */
    lemma PublicFields()
      requires Valid()
      ensures Inv(doc) && insertLog == doc.insLog && deleteLog == doc.delLog && clientID == doc.clientID && clock == doc.clock
      ensures pendingInserts == doc.pendIns && pendingDeletes == doc.pendDel && characterCounter == doc.counter
    {
    }

    lemma LinkedLayers()
      requires Linked()
      ensures Chained() && Woven() && Scalars()
    {
    }

    /** `delete(d.PendingInserts, id)`. */
    method DropPending(id: ID)
      requires Linked()
      modifies this
      ensures Linked() && nodes == old(nodes) && doc == old(doc).(pendIns := old(doc.pendIns) - {id})
    {
      hide Chain, Carries, Indexed;
      pendingInserts := pendingInserts - {id};
      doc := doc.(pendIns := doc.pendIns - {id});
    }

    /** `RemoteInsert`. */
    method RemoteInsert(op: InsertOp) returns (outcome: Outcome)
      requires Valid() && Acceptable(doc, Ins(op)) && SafeToReceive(doc, Ins(op))
      modifies this, Repr()
      ensures Valid() && fresh(Repr() - old(Repr()))
      ensures outcome == InsertOutcome(old(doc), op) && InsertStep(old(doc), op, doc)
      ensures outcome == AlreadyInserted <==> op.newID in old(elementsByID)
      ensures outcome == Integrated <==>
                op.newID !in old(elementsByID) && op.originID in old(elementsByID) && op.rightID in old(elementsByID)
    {
      hide Linked, Inv, Core, Saturated, Safe, Released, Distinct, Ids, Integrable, OwnIdsFresh;
      LinkedParts();
      InvFacts(doc, op);
      ghost var d := doc;
      if op.newID in elementsByID {
        return AlreadyInserted;
      }
      if op.originID !in elementsByID || op.rightID !in elementsByID {
        Buffer(op);
        StepKeeps(d, Ins(op), doc);
        return Pending;
      }
      IntegrateInsert(op);
      AbsorbCore(d, op);
      assert doc == Absorb(d, op);
      ProcessPending();
      ghost var mid := doc;
      ReleasedKeeps(Absorb(d, op), mid);
      ProcessPendingDeletes();
      StepKeeps(d, Ins(op), doc);
      return Integrated;
    }

    lemma InvFacts(d: Doc, op: InsertOp)
      requires Inv(d) && Acceptable(d, Ins(op))
      ensures Core(d) && Distinct(d.list) && (op.newID in d.insLog ==> d.insLog[op.newID] == op)
      ensures op.newID !in Ids(d.list) ==> op.newID !in d.tomb
      ensures Ready(Ids(d.list), op) && op.newID !in Ids(d.list) ==> d.pendIns - {op.newID} == d.pendIns
    {
      if op.newID in d.pendIns {
        assert !Ready(Ids(d.list), d.pendIns[op.newID]) && d.pendIns[op.newID] == d.insLog[op.newID];
      } else {
        assert d.pendIns - {op.newID} == d.pendIns;
      }
    }

    /** Buffer and log an insert whose neighbours are missing. */
    method Buffer(op: InsertOp)
      requires Linked()
      modifies this
      ensures Linked() && nodes == old(nodes)
      ensures doc == old(doc).(pendIns := old(doc.pendIns)[op.newID := op], insLog := old(doc.insLog)[op.newID := op])
    {
      hide Chain, Carries, Indexed;
      pendingInserts := pendingInserts[op.newID := op];
      insertLog := insertLog[op.newID := op];
      doc := doc.(pendIns := doc.pendIns[op.newID := op], insLog := doc.insLog[op.newID := op]);
    }

    // ----- Deletes

    /** The statements that `Delete` and `integrateDeletion` share: mark the element, count it out, log it. */
    method Tombstone(element: Element, ghost k: nat)
      requires Linked() && Distinct(doc.list) && k < |nodes| && element == nodes[k]
      modifies this, element`isDeleted
      ensures Linked() && nodes == old(nodes)
      ensures doc == old(doc).(tomb := old(doc.tomb) + {element.elementID}, counter := old(doc.counter) - 1,
                               delLog := old(doc.delLog) + {element.elementID})
    {
      hide Chain, Indexed;
      OnlyOnce(k);
      ghost var l, tomb := doc.list, doc.tomb;
      assert element.Value() == l[k];
      element.isDeleted := true;
      assert Carries(nodes, l, tomb + {l[k].id});
      hide Carries;
      characterCounter := characterCounter - 1;
      deleteLog := deleteLog + {element.elementID};
      doc := doc.(tomb := doc.tomb + {element.elementID}, counter := doc.counter - 1, delLog := doc.delLog + {element.elementID});
    }

    /** `integrateDeletion`. */
    method IntegrateDeletion(id: ID)
      requires Linked() && Distinct(doc.list) && id in Ids(doc.list)
      modifies this, Repr()
      ensures Linked() && nodes == old(nodes)
      ensures doc == old(doc).(tomb := old(doc.tomb) + {id}, counter := old(doc.counter) - 1, delLog := old(doc.delLog) + {id})
    {
      hide Chain, Carries, Indexed;
      Lookup(id);
      NodeAt(IndexOf(doc.list, id));
      Tombstone(elementsByID[id], IndexOf(doc.list, id));
    }

    /** `delete(d.PendingDeletes, id)`. */
    method DropPendingDelete(id: ID)
      requires Linked()
      modifies this
      ensures Linked() && nodes == old(nodes) && doc == old(doc).(pendDel := old(doc.pendDel) - {id})
    {
      hide Chain, Carries, Indexed;
      pendingDeletes := pendingDeletes - {id};
      doc := doc.(pendDel := doc.pendDel - {id});
    }

    /** `processPendingDeletes`: one pass, in any order. */
    method ProcessPendingDeletes()
      requires Linked() && Core(doc)
      modifies this, Repr()
      ensures Linked() && nodes == old(nodes) && doc == ApplyPendingDeletes(old(doc))
    {
      hide Linked, Core, AppliedSoFar, ApplyPendingDeletes;
      LinkedParts();
      PendingInLog(doc);
      AppliedEnds(doc);
      var todo := pendingDeletes;
      ghost var d, done: set<ID> := doc, {};
      while todo != {}
        invariant Linked() && nodes == old(nodes) && done !! todo && done + todo == d.pendDel
        invariant doc == AppliedSoFar(d, done)
        decreases todo
      {
        var id :| id in todo;
        todo, done := todo - {id}, done + {id};
        LinkedParts();
        AppliedNext(d, done - {id}, id);
        if id in elementsByID {
          IntegrateDeletion(id);
          DropPendingDelete(id);
        }
      }
      assert done == d.pendDel;
    }

    /** `RemoteDelete`. */
    method RemoteDelete(id: ID)
      requires Valid() && Acceptable(doc, Del(id))
      modifies this, Repr()
      ensures Valid() && nodes == old(nodes) && doc == DeleteStep(old(doc), id)
    {
      hide Linked, Inv, Core;
      LinkedParts();
      InvParts(doc);
      StepKeeps(doc, Del(id), DeleteStep(doc, id));
      if id !in elementsByID {
        BufferDelete(id);
        return;
      }
      var deleted := IsTombstone(id);
      if deleted {
        return;
      }
      IntegrateDeletion(id);
    }

    method IsTombstone(id: ID) returns (deleted: bool)
      requires Linked() && Distinct(doc.list) && id in Ids(doc.list)
      ensures deleted <==> id in doc.tomb
    {
      hide Chain, Carries, Indexed;
      Lookup(id);
      At(IndexOf(doc.list, id));
      deleted := elementsByID[id].isDeleted;
    }

    /** Buffer and log a delete whose element is missing. */
    method BufferDelete(id: ID)
      requires Linked()
      modifies this
      ensures Linked() && nodes == old(nodes)
      ensures doc == old(doc).(pendDel := old(doc.pendDel) + {id}, delLog := old(doc.delLog) + {id})
    {
      hide Chain, Carries, Indexed;
      pendingDeletes := pendingDeletes + {id};
      deleteLog := deleteLog + {id};
      doc := doc.(pendDel := doc.pendDel + {id}, delLog := doc.delLog + {id});
    }

    /** `Delete`; an index outside the text is refused and changes nothing. */
    method Delete(index: int) returns (deleted: bool, id: ID)
      requires Valid()
      modifies this, Repr()
      ensures Valid() && nodes == old(nodes)
      ensures deleted <==> 0 <= index < old(characterCounter)
      ensures !deleted ==> doc == old(doc)
      ensures doc == LocalDelete(old(doc), index)
      ensures deleted ==> id == old(doc.list)[FindVisible(old(doc.list), old(doc.tomb), 1, index)].id
    {
      hide Chain, Carries, Indexed, Inv;
      InvParts(doc);
      LocalEditsKeep(doc, index, '\0');
      var element := FindVisibleElement(index);
      if element == null {
        return false, ID("", 0);
      }
      NodeAt(FindVisible(doc.list, doc.tomb, 1, index));
      Tombstone(element, FindVisible(doc.list, doc.tomb, 1, index));
      return true, element.elementID;
    }

    // ----- Deltas

    /** `IntegrateDelta`: the inserts in their order, then the deletes. Pending and repeated inserts are
        not errors. */
    method IntegrateDelta(inserts: seq<InsertOp>, deletes: seq<ID>)
      requires Valid() && AllAcceptable(doc, DeltaMessages(inserts, deletes)) && SafeRun(doc, DeltaMessages(inserts, deletes))
      modifies this, Repr()
      ensures Valid() && fresh(Repr() - old(Repr()))
      ensures Run(old(doc), DeltaMessages(inserts, deletes), doc)
    {
      hide Linked, Inv, Core, AllAcceptable, InsertStep, DeleteStep, InsertOutcome, Acceptable;
      ghost var ms, d0 := DeltaMessages(inserts, deletes), doc;
      var i := 0;
      while i < |inserts|
        invariant 0 <= i <= |inserts| && Valid() && fresh(Repr() - old(Repr()))
        invariant AllAcceptable(doc, ms[i..]) && SafeRun(doc, ms[i..])
        invariant forall t :: Run(doc, ms[i..], t) ==> Run(d0, ms, t)
      {
        ghost var d := doc;
        assert ms[i..][0] == Ins(inserts[i]) && ms[i..][1..] == ms[i + 1..];
        FirstAcceptable(doc, ms[i..]);
        var outcome := RemoteInsert(inserts[i]);
        AcceptableAfter(d, ms[i..], doc);
        i := i + 1;
      }
      i := 0;
      while i < |deletes|
        invariant 0 <= i <= |deletes| && Valid() && fresh(Repr() - old(Repr()))
        invariant AllAcceptable(doc, ms[|inserts| + i..]) && SafeRun(doc, ms[|inserts| + i..])
        invariant forall t :: Run(doc, ms[|inserts| + i..], t) ==> Run(d0, ms, t)
      {
        ghost var d, j := doc, |inserts| + i;
        assert ms[j..][0] == Del(deletes[i]) && ms[j..][1..] == ms[j + 1..];
        FirstAcceptable(doc, ms[j..]);
        RemoteDelete(deletes[i]);
        AcceptableAfter(d, ms[j..], doc);
        i := i + 1;
      }
    }
  }

  ghost function DeltaMessages(inserts: seq<InsertOp>, deletes: seq<ID>): seq<Msg> {
    seq(|inserts|, i requires 0 <= i < |inserts| => Ins(inserts[i])) + seq(|deletes|, i requires 0 <= i < |deletes| => Del(deletes[i]))
  }

  /** `processPendingDeletes` after it has visited the identifiers in `done`. */
  ghost function AppliedSoFar(d: Doc, done: set<ID>): Doc {
    var hit := done * Ids(d.list);
    d.(tomb := d.tomb + hit, pendDel := d.pendDel - hit, counter := d.counter - |hit|)
  }

  lemma AppliedNext(d: Doc, done: set<ID>, id: ID)
    requires d.pendDel <= d.delLog && id in d.pendDel && id !in done
    ensures var a, b := AppliedSoFar(d, done), AppliedSoFar(d, done + {id});
            && a.list == d.list && a.delLog == d.delLog && a.delLog + {id} == a.delLog
            && b == if id in Ids(d.list)
                    then a.(tomb := a.tomb + {id}, pendDel := a.pendDel - {id}, counter := a.counter - 1)
                    else a
  {
    HitNext(Ids(d.list), done, id);
    var hit, hit' := done * Ids(d.list), (done + {id}) * Ids(d.list);
    SetsNext(d.tomb, d.pendDel, hit, id);
    assert d.delLog + {id} == d.delLog;
    assert AppliedSoFar(d, done) == d.(tomb := d.tomb + hit, pendDel := d.pendDel - hit, counter := d.counter - |hit|);
    assert AppliedSoFar(d, done + {id}) == d.(tomb := d.tomb + hit', pendDel := d.pendDel - hit', counter := d.counter - |hit'|);
  }

  lemma SetsNext(tomb: set<ID>, pendDel: set<ID>, hit: set<ID>, id: ID)
    ensures tomb + (hit + {id}) == tomb + hit + {id}
    ensures pendDel - (hit + {id}) == pendDel - hit - {id}
  {
  }

  lemma HitNext(ids: set<ID>, done: set<ID>, id: ID)
    requires id !in done
    ensures (done + {id}) * ids == if id in ids then done * ids + {id} else done * ids
    ensures id in ids ==> |(done + {id}) * ids| == |done * ids| + 1
  {
    if id in ids {
      assert (done + {id}) * ids == done * ids + {id};
    }
  }

  lemma AppliedEnds(d: Doc)
    ensures AppliedSoFar(d, {}) == d && AppliedSoFar(d, d.pendDel) == ApplyPendingDeletes(d)
  {
    hide Ids;
    assert {} * Ids(d.list) == {};
    assert d.tomb + {} == d.tomb && d.pendDel - {} == d.pendDel;
  }

  lemma PendingInLog(d: Doc)
    requires Core(d)
    ensures d.pendDel <= d.delLog && Distinct(d.list)
  {
  }

  lemma PendingFacts(d: Doc, k: ID)
    requires Core(d) && k in d.pendIns
    ensures d.pendIns[k].newID == k && k !in Ids(d.list) && k !in d.tomb && Real(k) && Distinct(d.list)
    ensures k in d.insLog && d.insLog[k] == d.pendIns[k]
  {
  }

  lemma ReleaseOne(d: Doc, k: ID)
    requires Core(d) && Safe(d) && k in d.pendIns && Ready(Ids(d.list), d.pendIns[k])
    ensures Integrable(d.list, d.pendIns[k])
    ensures Core(Absorb(d, d.pendIns[k])) && Safe(Absorb(d, d.pendIns[k]))
    ensures forall t :: Released(Absorb(d, d.pendIns[k]), t) ==> Released(d, t)
  {
    PendingFacts(d, k);
    AbsorbCore(d, d.pendIns[k]);
    assert Releasable(d, k);
  }

  lemma NowSaturated(d: Doc)
    requires forall k :: k in d.pendIns ==> !Ready(Ids(d.list), d.pendIns[k])
    ensures Saturated(d)
  {
  }
}
