/** Sets of concurrent inserts that always converge, and the smallest histories that do not. */
module ConcurrentRounds {
  import opened Identifiers
  import opened ReplicatedList
  import opened Commutation
  import opened Confluence

  /** The interval of `a` ends where the interval of `b` begins, or before. */
  ghost predicate EndsBefore(l: seq<Elem>, a: InsertOp, b: InsertOp) {
    a.rightID in Ids(l) && b.originID in Ids(l) && IndexOf(l, a.rightID) <= IndexOf(l, b.originID)
  }

  ghost predicate SameGap(a: InsertOp, b: InsertOp) {
    a.originID == b.originID && a.rightID == b.rightID
  }

  ghost predicate Fits(l: seq<Elem>, a: InsertOp) {
    Integrable(l, a) && Real(a.newID) && a.newID !in Ids(l)
  }

  ghost predicate Apart(l: seq<Elem>, a: InsertOp, b: InsertOp) {
    a.newID != b.newID && (SameGap(a, b) || EndsBefore(l, a, b) || EndsBefore(l, b, a))
  }

  /** A round of concurrent inserts made on the list `l`: every two of them name the same two neighbours
      or intervals that do not overlap. */
  ghost predicate Round(l: seq<Elem>, ops: set<InsertOp>) {
    && (forall a :: a in ops ==> Fits(l, a))
    && (forall a, b :: a in ops && b in ops && a != b ==> Apart(l, a, b))
  }

  ghost predicate NoRepeats(s: seq<InsertOp>) {
    forall i, j :: 0 <= i < j < |s| ==> s[i] != s[j]
  }

  /** What is left of a round is a round of the list with one of its inserts integrated. */
  lemma RoundAfter(l: seq<Elem>, x: InsertOp, ops: set<InsertOp>)
    requires WellFormed(l) && Round(l, ops) && x in ops
    ensures Round(Integrate(l, x), ops - {x})
  {
    forall a | a in ops - {x}
      ensures Fits(Integrate(l, x), a)
    {
      assert Apart(l, a, x);
      FitsAfter(l, x, a);
    }
    forall a, b | a in ops - {x} && b in ops - {x} && a != b
      ensures Apart(Integrate(l, x), a, b)
    {
      ApartAfter(l, x, a, b);
    }
  }

  lemma FitsAfter(l: seq<Elem>, x: InsertOp, a: InsertOp)
    requires WellFormed(l) && Fits(l, x) && Fits(l, a) && a.newID != x.newID
    ensures Fits(Integrate(l, x), a)
  {
    IntegrateKeeps(l, x);
    PositionAfter(l, x, a.originID);
    PositionAfter(l, x, a.rightID);
  }

  lemma ApartAfter(l: seq<Elem>, x: InsertOp, a: InsertOp, b: InsertOp)
    requires WellFormed(l) && Fits(l, x) && Apart(l, a, b)
    ensures Apart(Integrate(l, x), a, b)
  {
    if EndsBefore(l, a, b) {
      PositionAfter(l, x, a.rightID);
      PositionAfter(l, x, b.originID);
    } else if EndsBefore(l, b, a) {
      PositionAfter(l, x, b.rightID);
      PositionAfter(l, x, a.originID);
    }
  }

  /** Every order of a round can be delivered, and is causal. */
  lemma {:induction false} RoundDelivers(l: seq<Elem>, s: seq<InsertOp>)
    requires WellFormed(l) && Round(l, Ops(s)) && NoRepeats(s)
    ensures Causal(Ids(l), s) && Deliverable(l, s)
    decreases |s|
  {
    if s != [] {
      NewIDsCons(s);
      assert s[0] in Ops(s);
      RoundAfter(l, s[0], Ops(s));
      assert s[0] !in s[1..];
      assert Ops(s[1..]) == Ops(s) - {s[0]};
      IntegrateKeeps(l, s[0]);
      RoundDelivers(Integrate(l, s[0]), s[1..]);
    }
  }

  lemma {:induction false} RoundRest(l: seq<Elem>, s: seq<InsertOp>, ops: set<InsertOp>)
    requires WellFormed(l) && Round(l, ops) && Causal(Ids(l), s) && Deliverable(l, s) && Ops(s) <= ops
    ensures Round(Deliver(l, s), ops - Ops(s))
    decreases |s|
  {
    if s == [] {
      assert ops - Ops(s) == ops;
    } else {
      NewIDsCons(s);
      assert s[0] in Ops(s);
      IntegrateKeeps(l, s[0]);
      RoundAfter(l, s[0], ops);
      TailFresh(Ids(l), s);
      RoundRest(Integrate(l, s[0]), s[1..], ops - {s[0]});
      assert ops - {s[0]} - Ops(s[1..]) == ops - Ops(s);
    }
  }

  lemma TailFresh(ids: set<ID>, s: seq<InsertOp>)
    requires s != [] && Causal(ids, s)
    ensures s[0] !in Ops(s[1..])
  {
    CausalFresh(ids + {s[0].newID}, s[1..]);
    assert forall o :: o in s[1..] ==> o.newID in NewIDs(s[1..]);
  }

  /** A round is locally confluent, whatever already sits between the neighbours its inserts name. */
  lemma RoundLocallyConfluent(l: seq<Elem>, ops: set<InsertOp>)
    requires WellFormed(l) && Round(l, ops)
    ensures LocallyConfluent(l, ops)
  {
    forall s: seq<InsertOp>, a, b | Meet(l, ops, s, a, b)
      ensures MeetDiamond(l, s, a, b)
    {
      RoundMeets(l, ops, s, a, b);
    }
  }

  lemma RoundMeets(l: seq<Elem>, ops: set<InsertOp>, s: seq<InsertOp>, a: InsertOp, b: InsertOp)
    requires WellFormed(l) && Round(l, ops) && Meet(l, ops, s, a, b)
    ensures MeetDiamond(l, s, a, b)
  {
    MeetFresh(Ids(l), s, a, b);
    RoundRest(l, s, ops);
    DeliverKeeps(l, s);
    ApartDiamond(Deliver(l, s), ops - Ops(s), a, b);
  }

  lemma ApartDiamond(r: seq<Elem>, ops: set<InsertOp>, a: InsertOp, b: InsertOp)
    requires WellFormed(r) && Round(r, ops) && a in ops && b in ops && a != b
    ensures Integrable(r, a) && Integrable(r, b) && DiamondCondition(r, a, b)
  {
    assert Apart(r, a, b) && Fits(r, a) && Fits(r, b);
    if SameGap(a, b) {
      SameGapDiamond(r, a, b);
    } else if EndsBefore(r, a, b) {
      DisjointIntervalsCommute(r, a, b);
    } else {
      DisjointIntervalsCommute(r, b, a);
    }
  }

  lemma MeetFresh(ids: set<ID>, s: seq<InsertOp>, a: InsertOp, b: InsertOp)
    requires Causal(ids, s + [a, b]) && Causal(ids, s + [b, a])
    ensures Causal(ids, s) && a != b && a !in Ops(s) && b !in Ops(s)
  {
    CausalConcat(ids, s, [a, b]);
    CausalConcat(ids, s, [b, a]);
    assert [a, b][1..] == [b];
    assert forall o :: o in s ==> o.newID in NewIDs(s);
  }

  /** Every two orders of a round end in the same list. */
  lemma RoundConverges(l: seq<Elem>, s: seq<InsertOp>, t: seq<InsertOp>)
    requires WellFormed(l) && Round(l, Ops(s)) && NoRepeats(s) && NoRepeats(t) && Ops(s) == Ops(t)
    ensures Deliverable(l, s) && Deliverable(l, t) && Deliver(l, s) == Deliver(l, t)
  {
    RoundDelivers(l, s);
    RoundDelivers(l, t);
    RoundLocallyConfluent(l, Ops(s));
    LocallyConfluentConverges(l, s, t, Ops(s));
  }

  // ----- Rounds whose inserts name adjacent elements: the gaps end up sorted

  ghost predicate InGap(base: seq<Elem>, r: seq<Elem>, i: nat, m: nat)
    requires i + 1 < |base| && base[i].id in Ids(r) && base[i + 1].id in Ids(r)
  {
    IndexOf(r, base[i].id) < m < IndexOf(r, base[i + 1].id)
  }

  /** `r` is `base` with every gap filled by siblings in (Clock, ClientID) order. */
  ghost predicate GapsSorted(base: seq<Elem>, r: seq<Elem>) {
    && (forall i :: 0 <= i < |base| ==> base[i].id in Ids(r))
    && (forall i, m :: 0 <= i < |base| - 1 && 0 <= m < |r| && InGap(base, r, i, m) ==>
          && r[m].origin == Some(base[i].id)
          && (InGap(base, r, i, m + 1) ==> Less(r[m].id, r[m + 1].id)))
  }

  /** `r` has the elements of `base` in their order. */
  ghost predicate BaseKept(base: seq<Elem>, r: seq<Elem>) {
    |base| >= 2 && forall j :: 0 <= j < |base| - 1 ==> Precedes(r, base[j].id, base[j + 1].id)
  }

  ghost predicate NamesGap(base: seq<Elem>, op: InsertOp, i: nat) {
    i + 1 < |base| && op.originID == base[i].id && op.rightID == base[i + 1].id
  }

  ghost predicate NamesSomeGap(base: seq<Elem>, op: InsertOp) {
    exists i: nat :: NamesGap(base, op, i)
  }

  lemma GapInsertion(base: seq<Elem>, r: seq<Elem>, op: InsertOp, i: nat)
    requires WellFormed(r) && GapsSorted(base, r) && NamesGap(base, op, i) && Integrable(r, op)
    requires op.newID !in Ids(r)
    ensures var k := InsertIndex(r, op);
            && (k - 1 > IndexOf(r, op.originID) ==> Less(r[k - 1].id, op.newID))
            && (k < IndexOf(r, op.rightID) ==> Less(op.newID, r[k].id))
  {
    var po, k := IndexOf(r, op.originID), InsertIndex(r, op);
    SiblingsDoNotCross(r, op.originID);
    if k < IndexOf(r, op.rightID) {
      assert InGap(base, r, i, k);
      assert Blocks(r, po, op.newID, k);
      assert r[k].id in Ids(r);
      LessTrichotomy(r[k].id, op.newID);
    }
    if k - 1 > po {
      assert !Blocks(r, po, op.newID, k - 1);
    }
  }

  lemma GapsStaySorted(base: seq<Elem>, r: seq<Elem>, op: InsertOp, i: nat)
    requires WellFormed(r) && GapsSorted(base, r) && NamesGap(base, op, i) && Integrable(r, op)
    requires op.newID !in Ids(r) && Real(op.newID) && Distinct(base)
    requires BaseKept(base, r)
    ensures GapsSorted(base, Integrate(r, op))
  {
    var k, r' := InsertIndex(r, op), Integrate(r, op);
    IntegrateKeeps(r, op);
    forall j, m | 0 <= j < |base| - 1 && 0 <= m < |r'| && base[j].id in Ids(r') && base[j + 1].id in Ids(r') && InGap(base, r', j, m)
      ensures r'[m].origin == Some(base[j].id)
      ensures InGap(base, r', j, m + 1) ==> Less(r'[m].id, r'[m + 1].id)
    {
      GapAfter(base, r, op, i, j, m);
    }
  }

  lemma GapAfter(base: seq<Elem>, r: seq<Elem>, op: InsertOp, i: nat, j: nat, m: nat)
    requires WellFormed(r) && GapsSorted(base, r) && NamesGap(base, op, i) && Integrable(r, op)
    requires op.newID !in Ids(r) && Distinct(base) && j < |base| - 1
    requires BaseKept(base, r)
    requires var r' := Integrate(r, op);
             m < |r'| && base[j].id in Ids(r') && base[j + 1].id in Ids(r') && InGap(base, r', j, m)
    ensures var r' := Integrate(r, op);
            && r'[m].origin == Some(base[j].id)
            && (InGap(base, r', j, m + 1) ==> Less(r'[m].id, r'[m + 1].id))
  {
    assert base[j].id in Ids(r) && base[j + 1].id in Ids(r) && Distinct(r);
    hide GapsSorted, Integrate, Ids, WellFormed, Distinct;
    PositionAfter(r, op, base[j].id);
    PositionAfter(r, op, base[j + 1].id);
    if j == i {
      GapHere(base, r, op, i, m);
    } else {
      GapsApart(base, r, i, j, InsertIndex(r, op));
      GapElsewhere(base, r, op, i, j, m);
    }
  }

  /** The gap that received the new element. */
  lemma GapHere(base: seq<Elem>, r: seq<Elem>, op: InsertOp, i: nat, m: nat)
    requires WellFormed(r) && GapsSorted(base, r) && NamesGap(base, op, i) && Integrable(r, op) && op.newID !in Ids(r)
    requires IndexOf(r, base[i].id) < m < IndexOf(r, base[i + 1].id) + 1
    ensures var r' := Integrate(r, op);
            && r'[m].origin == Some(base[i].id)
            && (m + 1 < IndexOf(r, base[i + 1].id) + 1 ==> Less(r'[m].id, r'[m + 1].id))
  {
    var k := InsertIndex(r, op);
    GapInsertion(base, r, op, i);
    if m < k {
      assert InGap(base, r, i, m);
    } else if m > k {
      assert InGap(base, r, i, m - 1);
    }
  }

  /** Any other gap: the new element is left or right of all of it. */
  lemma GapElsewhere(base: seq<Elem>, r: seq<Elem>, op: InsertOp, i: nat, j: nat, m: nat)
    requires GapsSorted(base, r) && Integrable(r, op) && i < |base| && j + 1 < |base|
    requires var k, lo, hi := InsertIndex(r, op), IndexOf(r, base[j].id), IndexOf(r, base[j + 1].id);
             (k <= lo && lo + 1 < m < hi + 1) || (k > hi && lo < m < hi)
    ensures var r', k, lo, hi := Integrate(r, op), InsertIndex(r, op), IndexOf(r, base[j].id), IndexOf(r, base[j + 1].id);
            && r'[m].origin == Some(base[j].id)
            && ((k <= lo && m + 1 < hi + 1) || (k > hi && m + 1 < hi) ==> Less(r'[m].id, r'[m + 1].id))
  {
    if m < InsertIndex(r, op) {
      assert InGap(base, r, j, m);
    } else {
      assert InGap(base, r, j, m - 1);
    }
  }

  lemma GapsApart(base: seq<Elem>, r: seq<Elem>, i: nat, j: nat, k: nat)
    requires i + 1 < |base| && j + 1 < |base| && i != j
    requires BaseKept(base, r)
    requires Precedes(r, base[i].id, base[i + 1].id) && Precedes(r, base[j].id, base[j + 1].id)
    requires IndexOf(r, base[i].id) < k <= IndexOf(r, base[i + 1].id)
    ensures k <= IndexOf(r, base[j].id) || k > IndexOf(r, base[j + 1].id)
  {
    if i < j {
      BaseOrder(base, r, i + 1, j);
    } else {
      BaseOrder(base, r, j + 1, i);
    }
  }

  lemma {:induction false} BaseOrder(base: seq<Elem>, r: seq<Elem>, i: nat, j: nat)
    requires i <= j < |base|
    requires BaseKept(base, r)
    ensures base[i].id in Ids(r) && base[j].id in Ids(r) && IndexOf(r, base[i].id) <= IndexOf(r, base[j].id)
    decreases j - i
  {
    assert i < |base| - 1 ==> Precedes(r, base[i].id, base[i + 1].id);
    assert i > 0 ==> Precedes(r, base[i - 1].id, base[i].id);
    if i < j {
      BaseOrder(base, r, i + 1, j);
    }
  }

  ghost predicate GapRound(base: seq<Elem>, ops: set<InsertOp>) {
    && (forall a :: a in ops ==> Real(a.newID) && a.newID !in Ids(base) && NamesSomeGap(base, a))
    && (forall a, b :: a in ops && b in ops && a != b ==> a.newID != b.newID)
  }

  /** A round of inserts between adjacent elements: every order can be delivered and leaves every gap of
      the base list filled with exactly its siblings, sorted by (Clock, ClientID). */
  lemma {:induction false} GapRoundSorted(base: seq<Elem>, s: seq<InsertOp>)
    requires WellFormed(base) && GapRound(base, Ops(s)) && NoRepeats(s)
    ensures Round(base, Ops(s)) && Causal(Ids(base), s) && Deliverable(base, s)
    ensures GapsSorted(base, Deliver(base, s))
    ensures forall a :: a in s ==> Precedes(Deliver(base, s), a.originID, a.newID) && Precedes(Deliver(base, s), a.newID, a.rightID)
  {
    GapRoundIsRound(base, Ops(s));
    RoundDelivers(base, s);
    assert forall a :: a in s ==> a in Ops(s) && NamesSomeGap(base, a);
    BaseItself(base);
    GapsSortedDeliver(base, base, s);
    forall a | a in s
      ensures Precedes(Deliver(base, s), a.originID, a.newID) && Precedes(Deliver(base, s), a.newID, a.rightID)
    {
      DeliveredBetween(base, s, a);
    }
  }

  lemma BaseItself(base: seq<Elem>)
    requires WellFormed(base)
    ensures GapsSorted(base, base) && BaseKept(base, base)
  {
    forall i | 0 <= i < |base|
      ensures base[i].id in Ids(base) && IndexOf(base, base[i].id) == i
    {
      IndexOfIs(base, i);
    }
  }

  lemma GapRoundIsRound(base: seq<Elem>, ops: set<InsertOp>)
    requires WellFormed(base) && GapRound(base, ops)
    ensures Round(base, ops)
  {
    forall a | a in ops
      ensures Fits(base, a)
    {
      var i: nat :| NamesGap(base, a, i);
      IndexOfIs(base, i);
      IndexOfIs(base, i + 1);
    }
    forall a, b | a in ops && b in ops && a != b
      ensures Apart(base, a, b)
    {
      var i: nat :| NamesGap(base, a, i);
      var j: nat :| NamesGap(base, b, j);
      IndexOfIs(base, i);
      IndexOfIs(base, i + 1);
      IndexOfIs(base, j);
      IndexOfIs(base, j + 1);
    }
  }

  lemma {:induction false} GapsSortedDeliver(base: seq<Elem>, r: seq<Elem>, s: seq<InsertOp>)
    requires WellFormed(base) && WellFormed(r) && GapsSorted(base, r)
    requires forall a :: a in s ==> NamesSomeGap(base, a)
    requires Causal(Ids(r), s) && Deliverable(r, s)
    requires BaseKept(base, r)
    ensures GapsSorted(base, Deliver(r, s))
    decreases |s|
  {
    if s != [] {
      GapStep(base, r, s[0]);
      GapsSortedDeliver(base, Integrate(r, s[0]), s[1..]);
    }
  }

  lemma GapStep(base: seq<Elem>, r: seq<Elem>, op: InsertOp)
    requires WellFormed(base) && WellFormed(r) && GapsSorted(base, r) && BaseKept(base, r)
    requires NamesSomeGap(base, op)
    requires Integrable(r, op) && op.newID !in Ids(r) && Real(op.newID)
    ensures var r' := Integrate(r, op);
            && WellFormed(r') && GapsSorted(base, r') && BaseKept(base, r') && Ids(r') == Ids(r) + {op.newID}
            && Precedes(r', op.originID, op.newID) && Precedes(r', op.newID, op.rightID)
  {
    var i: nat :| NamesGap(base, op, i);
    GapsStaySorted(base, r, op, i);
    IntegrateKeeps(r, op);
    forall j | 0 <= j < |base| - 1
      ensures Precedes(Integrate(r, op), base[j].id, base[j + 1].id)
    {
      assert Precedes(r, base[j].id, base[j + 1].id);
    }
  }

  // ----- Two replicas that diverge

  /** The README promises that the tie-break makes all replicas converge. Two clients A and B, both on an
      empty document: A types `ab`, B types `xy`, each then receives the other's inserts. Neither replica
      walks off its list, and they end with `axyb` and `axby`. */
  lemma ReplicasDiverge()
    ensures var (a, b, x, y) := DivergingInserts();
            && Deliverable(EMPTY_LIST, [a, b, x, y]) && Deliverable(EMPTY_LIST, [x, y, a, b])
            && Contents(Deliver(EMPTY_LIST, [a, b, x, y])) == "axyb"
            && Contents(Deliver(EMPTY_LIST, [x, y, a, b])) == "axby"
  {
    var (a, b, x, y) := DivergingInserts();
    ReplicaA();
    ReplicaB();
    hide Deliver, Deliverable;
    ContentsOf([a, x, y, b]);
    ContentsOf([a, x, b, y]);
  }

  lemma ContentsOf(s: seq<InsertOp>)
    ensures |Contents(Line(s))| == |s| && forall i :: 0 <= i < |s| ==> Contents(Line(s))[i] == s[i].content
  {
  }

  /** What divergence leads to. A types `c` between its neighbours `y` and `b`; B has both, but in the other
      order: no element from `y` to END is `b`, so the walk that collects B's conflict zone does not meet it. */
  lemma DivergenceWalksOff()
    ensures var (a, b, x, y) := DivergingInserts();
            var op := InsertOp(ID("A", 2), y.newID, b.newID, 'c');
            && Deliverable(EMPTY_LIST, [a, b, x, y]) && Integrable(Deliver(EMPTY_LIST, [a, b, x, y]), op)
            && Deliverable(EMPTY_LIST, [x, y, a, b]) && Ready(Ids(Deliver(EMPTY_LIST, [x, y, a, b])), op)
            && !Integrable(Deliver(EMPTY_LIST, [x, y, a, b]), op)
            && var r := Deliver(EMPTY_LIST, [x, y, a, b]);
               forall k :: IndexOf(r, y.newID) <= k < |r| ==> r[k].id != b.newID
  {
    var (a, b, x, y) := DivergingInserts();
    ReplicaA();
    ReplicaB();
    DivergedDistinct();
    hide Distinct, Deliver, Deliverable;
    OrderOf(Line([a, x, y, b]), 3, 4);
    OrderOf(Line([a, x, b, y]), 3, 4);
  }

  lemma DivergedDistinct()
    ensures var (a, b, x, y) := DivergingInserts();
            Distinct(Line([a, x, y, b])) && Distinct(Line([a, x, b, y]))
  {
  }

  lemma OrderOf(l: seq<Elem>, i: nat, j: nat)
    requires Distinct(l) && i < j < |l|
    ensures Precedes(l, l[i].id, l[j].id) && !Precedes(l, l[j].id, l[i].id)
    ensures IndexOf(l, l[j].id) == j && forall k :: j <= k < |l| ==> l[k].id != l[i].id
  {
    IndexOfIs(l, i);
    IndexOfIs(l, j);
  }

  lemma ReplicaA()
    ensures var (a, b, x, y) := DivergingInserts();
            && Deliverable(EMPTY_LIST, [a, b, x, y])
            && Deliver(EMPTY_LIST, [a, b, x, y]) == Line([a, x, y, b])
  {
    var (a, b, x, y) := DivergingInserts();
    TypeTwo(a, b);
    ThirdOfA();
    LastOfA();
    hide Integrate, Integrable, Line;
    DeliverFour(a, b, x, y, Line([a]), Line([a, b]), Line([a, x, b]), Line([a, x, y, b]));
  }

  lemma ReplicaB()
    ensures var (a, b, x, y) := DivergingInserts();
            && Deliverable(EMPTY_LIST, [x, y, a, b])
            && Deliver(EMPTY_LIST, [x, y, a, b]) == Line([a, x, b, y])
  {
    var (a, b, x, y) := DivergingInserts();
    TypeTwo(x, y);
    ThirdOfB();
    LastOfB();
    hide Integrate, Integrable, Line;
    DeliverFour(x, y, a, b, Line([x]), Line([x, y]), Line([a, x, y]), Line([a, x, b, y]));
  }

  /** The list with the elements of `s` between the sentinels. */
  ghost function Line(s: seq<InsertOp>): (l: seq<Elem>)
    ensures |l| == |s| + 2 && l[0] == EMPTY_LIST[0] && l[|l| - 1] == EMPTY_LIST[1]
    ensures forall i :: 0 < i < |l| - 1 ==> l[i] == NewElem(s[i - 1])
  {
    [EMPTY_LIST[0]] + seq(|s|, i requires 0 <= i < |s| => NewElem(s[i])) + [EMPTY_LIST[1]]
  }

  ghost predicate Takes(l: seq<Elem>, op: InsertOp, r: seq<Elem>) {
    Integrable(l, op) && Integrate(l, op) == r
  }

  lemma TypeTwo(u: InsertOp, v: InsertOp)
    requires u.originID == START && u.rightID == END && v.originID == u.newID && v.rightID == END && Real(u.newID)
    ensures Takes(EMPTY_LIST, u, Line([u])) && Takes(Line([u]), v, Line([u, v]))
  {
    IntegrateAt(EMPTY_LIST, u, 0, 1, 1);
    assert EMPTY_LIST[..1] + [NewElem(u)] + EMPTY_LIST[1..] == Line([u]);
    var l := Line([u]);
    IntegrateAt(l, v, 1, 2, 2);
    assert l[..2] + [NewElem(v)] + l[2..] == Line([u, v]);
  }

  lemma ThirdOfA()
    ensures var (a, b, x, y) := DivergingInserts();
            Takes(Line([a, b]), x, Line([a, x, b]))
  {
    var (a, b, x, y) := DivergingInserts();
    var l := Line([a, b]);
    assert l[1].id == a.newID && Blocks(l, 0, x.newID, 2);
    IntegrateAt(l, x, 0, 3, 2);
    assert l[..2] + [NewElem(x)] + l[2..] == Line([a, x, b]);
  }

  lemma LastOfA()
    ensures var (a, b, x, y) := DivergingInserts();
            Takes(Line([a, x, b]), y, Line([a, x, y, b]))
  {
    var (a, b, x, y) := DivergingInserts();
    var l := Line([a, x, b]);
    assert l[1].id == a.newID && Blocks(l, 2, y.newID, 3);
    IntegrateAt(l, y, 2, 4, 3);
    assert l[..3] + [NewElem(y)] + l[3..] == Line([a, x, y, b]);
  }

  lemma ThirdOfB()
    ensures var (a, b, x, y) := DivergingInserts();
            Takes(Line([x, y]), a, Line([a, x, y]))
  {
    var (a, b, x, y) := DivergingInserts();
    var l := Line([x, y]);
    assert Blocks(l, 0, a.newID, 1);
    IntegrateAt(l, a, 0, 3, 1);
    assert l[..1] + [NewElem(a)] + l[1..] == Line([a, x, y]);
  }

  lemma LastOfB()
    ensures var (a, b, x, y) := DivergingInserts();
            Takes(Line([a, x, y]), b, Line([a, x, b, y]))
  {
    var (a, b, x, y) := DivergingInserts();
    var l := Line([a, x, y]);
    assert l[1].id == a.newID && Blocks(l, 1, b.newID, 3);
    IntegrateAt(l, b, 1, 4, 3);
    assert l[..3] + [NewElem(b)] + l[3..] == Line([a, x, b, y]);
  }

  lemma IntegrateAt(l: seq<Elem>, op: InsertOp, po: nat, pr: nat, k: nat)
    requires Distinct(l) && po < k <= pr < |l| && op.originID == l[po].id && op.rightID == l[pr].id
    requires forall m :: po < m < k ==> !Blocks(l, po, op.newID, m)
    requires k < pr ==> Blocks(l, po, op.newID, k)
    ensures Integrable(l, op) && Integrate(l, op) == l[..k] + [NewElem(op)] + l[k..]
  {
    IndexOfIs(l, po);
    IndexOfIs(l, pr);
    InsertIndexIs(l, op, k);
  }

  lemma DeliverFour(a: InsertOp, b: InsertOp, x: InsertOp, y: InsertOp,
                    l1: seq<Elem>, l2: seq<Elem>, l3: seq<Elem>, l4: seq<Elem>)
    requires Takes(EMPTY_LIST, a, l1) && Takes(l1, b, l2) && Takes(l2, x, l3) && Takes(l3, y, l4)
    ensures Deliverable(EMPTY_LIST, [a, b, x, y]) && Deliver(EMPTY_LIST, [a, b, x, y]) == l4
  {
    assert [a, b, x, y] == [a] + ([b] + ([x] + ([y] + [])));
    Cons(EMPTY_LIST, a, [b] + ([x] + ([y] + [])));
    Cons(l1, b, [x] + ([y] + []));
    Cons(l2, x, [y] + []);
    Cons(l3, y, []);
  }

  ghost function DivergingInserts(): (InsertOp, InsertOp, InsertOp, InsertOp) {
    var a0, a1, b0, b1 := ID("A", 0), ID("A", 1), ID("B", 0), ID("B", 1);
    (InsertOp(a0, START, END, 'a'), InsertOp(a1, a0, END, 'b'), InsertOp(b0, START, END, 'x'), InsertOp(b1, b0, END, 'y'))
  }

  ghost function Contents(l: seq<Elem>): string {
    seq(if |l| < 2 then 0 else |l| - 2, i requires 0 <= i < |l| - 2 => l[i + 1].content)
  }
}
