/** Histories in which every insert was made between two adjacent elements of a list that already held all
    earlier inserts. Replicas of such a history converge, in whatever order they receive it. */
module SequentialHistory {
  import opened Identifiers
  import opened ReplicatedList

  ghost predicate Adjacent(l: seq<Elem>, x: ID, y: ID) {
    x in Ids(l) && y in Ids(l) && IndexOf(l, x) + 1 == IndexOf(l, y)
  }

  /** The list of a replica that integrated the whole history, one insert after the other. */
  ghost function ListOf(h: seq<InsertOp>): seq<Elem> {
    if h == [] then EMPTY_LIST
    else
      var l, op := ListOf(h[..|h| - 1]), h[|h| - 1];
      if Integrable(l, op) then Integrate(l, op) else l
  }

  ghost predicate ValidHistory(h: seq<InsertOp>) {
    h == [] ||
    var h', op := h[..|h| - 1], h[|h| - 1];
    ValidHistory(h') && Real(op.newID) && op.newID !in Ids(ListOf(h')) && Adjacent(ListOf(h'), op.originID, op.rightID)
  }

  /** A set of identifiers that holds the neighbours of each of its inserts. */
  ghost predicate Closed(h: seq<InsertOp>, s: set<ID>) {
    forall o :: o in h && o.newID in s ==> Ready(s, o)
  }

  lemma {:induction false} HistoryList(h: seq<InsertOp>)
    requires ValidHistory(h)
    ensures WellFormed(ListOf(h)) && Ids(ListOf(h)) == {START, END} + NewIDs(h)
  {
    if h == [] {
      EmptyListIds();
    } else {
      var h', op := h[..|h| - 1], h[|h| - 1];
      assert h == h' + [op];
      hide ValidHistory, ListOf, WellFormed, NewIDs, Adjacent, Integrable, Integrate, Ids;
      LastInsert(h', op);
      HistoryList(h');
      AdjacentIntegrates(ListOf(h'), op);
      NewIDsSnoc(h', op);
    }
  }

  lemma LastInsert(h: seq<InsertOp>, op: InsertOp)
    requires ValidHistory(h + [op])
    ensures ValidHistory(h) && Real(op.newID) && op.newID !in Ids(ListOf(h)) && Adjacent(ListOf(h), op.originID, op.rightID)
    ensures Integrable(ListOf(h), op) ==> ListOf(h + [op]) == Integrate(ListOf(h), op)
  {
    assert (h + [op])[..|h|] == h;
  }

  lemma AdjacentIntegrates(l: seq<Elem>, op: InsertOp)
    requires WellFormed(l) && Real(op.newID) && op.newID !in Ids(l) && Adjacent(l, op.originID, op.rightID)
    ensures Integrable(l, op) && WellFormed(Integrate(l, op)) && Ids(Integrate(l, op)) == Ids(l) + {op.newID}
  {
    IntegrateKeeps(l, op);
  }

  lemma NewIDsSnoc(h: seq<InsertOp>, op: InsertOp)
    ensures NewIDs(h + [op]) == NewIDs(h) + {op.newID}
    ensures {START, END} + NewIDs(h + [op]) == {START, END} + NewIDs(h) + {op.newID}
  {
  }

  /** In a history an identifier determines its insert. */
  lemma {:induction false} HistoryDistinct(h: seq<InsertOp>, o: InsertOp, o': InsertOp)
    requires ValidHistory(h) && o in h && o' in h && o.newID == o'.newID
    ensures o == o' && Real(o.newID)
  {
    var h', op := h[..|h| - 1], h[|h| - 1];
    assert h == h' + [op];
    HistoryList(h');
    assert forall x :: x in h' ==> x.newID in NewIDs(h');
    if o in h' && o' in h' {
      HistoryDistinct(h', o, o');
    }
  }

  /** No element of `s` stands between the neighbours of `op`. */
  ghost predicate GapFree(l: seq<Elem>, op: InsertOp, s: set<ID>) {
    forall y :: y in s && Precedes(l, op.originID, y) ==> !Precedes(l, y, op.rightID)
  }

  /** Everything between the neighbours of an insert depends on it: whoever does not have the insert has
      nothing there. */
  lemma {:induction false} NothingBetween(h: seq<InsertOp>, op: InsertOp, s: set<ID>)
    requires ValidHistory(h) && op in h && Closed(h, s) && op.newID !in s
    ensures Precedes(ListOf(h), op.originID, op.newID) && Precedes(ListOf(h), op.newID, op.rightID)
    ensures GapFree(ListOf(h), op, s)
  {
    var h', x := h[..|h| - 1], h[|h| - 1];
    var l, l' := ListOf(h'), ListOf(h);
    assert h == h' + [x];
    HistoryList(h');
    IntegrateKeeps(l, x);
    if op in h' {
      NothingBetween(h', op, s);
      assert Precedes(l', op.originID, op.newID) && Precedes(l', op.newID, op.rightID);
      forall y | y in s && Precedes(l', op.originID, y)
        ensures !Precedes(l', y, op.rightID)
      {
        if y == x.newID {
          NotInside(l, op, s, x);
        } else {
          assert Precedes(l, op.originID, y) ==> !Precedes(l, y, op.rightID);
        }
      }
    } else {
      forall y | y in s && Precedes(l', op.originID, y)
        ensures !Precedes(l', y, op.rightID)
      {
        assert y in Ids(l);
        assert Precedes(l, op.originID, y) ==> !Precedes(l, y, op.rightID);
      }
    }
  }

  /** A new element between adjacent neighbours from `s` does not land in a gap that has no element of `s`. */
  lemma NotInside(l: seq<Elem>, op: InsertOp, s: set<ID>, x: InsertOp)
    requires WellFormed(l) && GapFree(l, op, s) && Precedes(l, op.originID, op.newID) && Precedes(l, op.newID, op.rightID)
    requires Adjacent(l, x.originID, x.rightID) && Ready(s, x) && x.newID !in Ids(l) && Integrable(l, x)
    ensures Precedes(Integrate(l, x), op.originID, x.newID) ==> !Precedes(Integrate(l, x), x.newID, op.rightID)
  {
    var k := IndexOf(l, x.rightID);
    IntegrateAdjacent(l, x, k);
    PositionAfter(l, x, op.originID);
    PositionAfter(l, x, op.rightID);
    PositionAfter(l, x, x.newID);
    assert Precedes(l, op.originID, x.originID) ==> !Precedes(l, x.originID, op.rightID);
    assert Precedes(l, op.originID, x.rightID) ==> !Precedes(l, x.rightID, op.rightID);
    assert k > 0 && l[k - 1].id == x.originID;
  }

  // ----- Restriction of the full list to the inserts a replica has

  ghost function Keep(l: seq<Elem>, s: set<ID>): (r: seq<Elem>)
    ensures forall e :: e in r <==> e in l && e.id in s
  {
    if l == [] then []
    else (if l[0].id in s then [l[0]] else []) + Keep(l[1..], s)
  }

  lemma {:induction false} KeepConcat(a: seq<Elem>, b: seq<Elem>, s: set<ID>)
    ensures Keep(a + b, s) == Keep(a, s) + Keep(b, s)
  {
    if a == [] {
      assert a + b == b;
    } else {
      assert (a + b)[1..] == a[1..] + b;
      KeepConcat(a[1..], b, s);
    }
  }

  lemma {:induction false} KeepNone(l: seq<Elem>, s: set<ID>)
    requires forall e :: e in l ==> e.id !in s
    ensures Keep(l, s) == []
  {
    if l != [] {
      KeepNone(l[1..], s);
    }
  }

  lemma {:induction false} KeepAll(l: seq<Elem>, s: set<ID>)
    requires forall e :: e in l ==> e.id in s
    ensures Keep(l, s) == l
  {
    if l != [] {
      KeepAll(l[1..], s);
    }
  }

  lemma {:induction false} KeepSame(l: seq<Elem>, s: set<ID>, s': set<ID>)
    requires forall e :: e in l ==> (e.id in s <==> e.id in s')
    ensures Keep(l, s) == Keep(l, s')
  {
    if l != [] {
      KeepSame(l[1..], s, s');
    }
  }

  lemma {:induction false} KeepDistinct(l: seq<Elem>, s: set<ID>)
    requires Distinct(l)
    ensures Distinct(Keep(l, s))
  {
    if l != [] {
      KeepDistinct(l[1..], s);
      assert forall e :: e in l[1..] ==> e.id != l[0].id;
    }
  }

  /** The list around index `n`, whose neighbours among the elements of `s` are at `i` and `j`. */
  lemma KeepAround(l: seq<Elem>, s: set<ID>, i: nat, n: nat, j: nat)
    requires Distinct(l) && i < n < j < |l| && l[i].id in s && l[j].id in s
    requires forall m :: i < m < j ==> l[m].id !in s
    ensures var a, b := Keep(l[..i], s), Keep(l[j + 1..], s);
            && Keep(l, s) == a + [l[i], l[j]] + b
            && Keep(l, s + {l[n].id}) == a + [l[i], l[n], l[j]] + b
  {
    var s' := s + {l[n].id};
    forall m | i < m < j && m != n
      ensures l[m].id !in s'
    {
      assert l[m].id != l[n].id;
    }
    KeepMiddle(l, s, i, n, j);
    KeepMiddle(l, s', i, n, j);
    KeepSame(l[..i], s, s');
    KeepSame(l[j + 1..], s, s');
  }

  lemma KeepMiddle(l: seq<Elem>, s: set<ID>, i: nat, n: nat, j: nat)
    requires i < n < j < |l| && l[i].id in s && l[j].id in s
    requires forall m :: i < m < j && m != n ==> l[m].id !in s
    ensures Keep(l, s) == Keep(l[..i], s) + (if l[n].id in s then [l[i], l[n], l[j]] else [l[i], l[j]]) + Keep(l[j + 1..], s)
  {
    KeepSplit(l, s, n);
    KeepUpTo(l, s, i, n);
    KeepFrom(l, s, n, j);
    Regroup(Keep(l[..i], s), l[i], l[n], l[j], Keep(l[j + 1..], s));
  }

  lemma Regroup<T>(a: seq<T>, x: T, y: T, z: T, b: seq<T>)
    ensures a + [x] + [y] + ([z] + b) == a + [x, y, z] + b
    ensures a + [x] + [] + ([z] + b) == a + [x, z] + b
  {
  }

  lemma KeepSplit(l: seq<Elem>, s: set<ID>, n: nat)
    requires n < |l|
    ensures Keep(l, s) == Keep(l[..n], s) + (if l[n].id in s then [l[n]] else []) + Keep(l[n + 1..], s)
  {
    hide Keep;
    assert l == l[..n] + [l[n]] + l[n + 1..];
    KeepConcat(l[..n] + [l[n]], l[n + 1..], s);
    KeepConcat(l[..n], [l[n]], s);
    KeepSingle(l[n], s);
  }

  lemma KeepUpTo(l: seq<Elem>, s: set<ID>, i: nat, n: nat)
    requires i < n <= |l| && l[i].id in s && forall m :: i < m < n ==> l[m].id !in s
    ensures Keep(l[..n], s) == Keep(l[..i], s) + [l[i]]
  {
    hide Keep;
    KeepSplit(l[..n], s, i);
    assert l[..n][..i] == l[..i] && l[..n][i + 1..] == l[i + 1..n];
    KeepNone(l[i + 1..n], s);
  }

  lemma KeepFrom(l: seq<Elem>, s: set<ID>, n: nat, j: nat)
    requires n < j < |l| && l[j].id in s && forall m :: n < m < j ==> l[m].id !in s
    ensures Keep(l[n + 1..], s) == [l[j]] + Keep(l[j + 1..], s)
  {
    hide Keep;
    KeepSplit(l[n + 1..], s, j - n - 1);
    assert l[n + 1..][..j - n - 1] == l[n + 1..j] && l[n + 1..][j - n..] == l[j + 1..];
    KeepNone(l[n + 1..j], s);
  }

  lemma KeepSingle(x: Elem, s: set<ID>)
    ensures Keep([x], s) == if x.id in s then [x] else []
  {
    assert [x][1..] == [];
  }

  /** The elements of a history's list are the ones its inserts describe. */
  lemma {:induction false} HistoryElem(h: seq<InsertOp>, op: InsertOp)
    requires ValidHistory(h) && op in h
    ensures op.newID in Ids(ListOf(h)) && ListOf(h)[IndexOf(ListOf(h), op.newID)] == NewElem(op)
  {
    var h', x := h[..|h| - 1], h[|h| - 1];
    assert h == h' + [x];
    hide ValidHistory, ListOf, WellFormed, Adjacent, Ids, Integrate;
    LastInsert(h', x);
    HistoryList(h');
    AdjacentIntegrates(ListOf(h'), x);
    if op in h' {
      HistoryElem(h', op);
      ElemAfter(ListOf(h'), x, op);
    } else {
      ElemAfter(ListOf(h'), x, x);
    }
  }

  lemma ElemAfter(l: seq<Elem>, x: InsertOp, op: InsertOp)
    requires WellFormed(l) && Integrable(l, x) && x.newID !in Ids(l)
    requires op == x || (op.newID in Ids(l) && l[IndexOf(l, op.newID)] == NewElem(op))
    ensures var r := Integrate(l, x);
            op.newID in Ids(r) && r[IndexOf(r, op.newID)] == NewElem(op)
  {
    PositionAfter(l, x, op.newID);
  }

  /** One delivery: a replica that has the inserts `s` and receives a further one whose neighbours it has
      ends with the full list restricted to what it now has. */
  lemma DeliveryKeeps(h: seq<InsertOp>, s: set<ID>, op: InsertOp)
    requires ValidHistory(h) && op in h && Closed(h, s) && op.newID !in s && Ready(s, op)
    ensures Integrable(Keep(ListOf(h), s), op)
    ensures Integrate(Keep(ListOf(h), s), op) == Keep(ListOf(h), s + {op.newID})
  {
    var l := ListOf(h);
    HistoryList(h);
    NothingBetween(h, op, s);
    HistoryElem(h, op);
    DeliveryInto(l, s, op);
  }

  lemma DeliveryInto(l: seq<Elem>, s: set<ID>, op: InsertOp)
    requires Distinct(l) && op.newID !in s && Ready(s, op) && GapFree(l, op, s)
    requires Precedes(l, op.originID, op.newID) && Precedes(l, op.newID, op.rightID)
    requires l[IndexOf(l, op.newID)] == NewElem(op)
    ensures Integrable(Keep(l, s), op)
    ensures Integrate(Keep(l, s), op) == Keep(l, s + {op.newID})
  {
    var i, n, j := IndexOf(l, op.originID), IndexOf(l, op.newID), IndexOf(l, op.rightID);
    forall m | i < m < j
      ensures l[m].id !in s
    {
      IndexOfIs(l, m);
      assert Precedes(l, op.originID, l[m].id) && Precedes(l, l[m].id, op.rightID);
    }
    KeepAround(l, s, i, n, j);
    KeepDistinct(l, s);
    var a, b := Keep(l[..i], s), Keep(l[j + 1..], s);
    IntegrateBetween(a, l[i], l[j], b, op);
  }

  lemma IntegrateBetween(a: seq<Elem>, x: Elem, y: Elem, b: seq<Elem>, op: InsertOp)
    requires Distinct(a + [x, y] + b) && op.originID == x.id && op.rightID == y.id
    ensures Integrable(a + [x, y] + b, op) && Integrate(a + [x, y] + b, op) == a + [x, NewElem(op), y] + b
  {
    IntegrateAdjacent(a + [x, y] + b, op, |a| + 1);
  }
}
