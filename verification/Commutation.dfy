/** When do two concurrent inserts commute? The documentation claims that the tie-break makes every
    pair of replicas converge. It does not; this module states exactly which pairs commute, in every
    list. */
module Commutation {
  import opened Identifiers
  import opened ReplicatedList

  /** Two different inserts that a well-formed list could take now, in either order. */
  ghost predicate Concurrent(l: seq<Elem>, a: InsertOp, b: InsertOp) {
    && WellFormed(l)
    && Integrable(l, a) && Real(a.newID) && a.newID !in Ids(l)
    && Integrable(l, b) && Real(b.newID) && b.newID !in Ids(l)
    && a.newID != b.newID
  }

  /** The scan of `x` would step over the element of `y`. */
  ghost predicate StepsOver(l: seq<Elem>, x: InsertOp, y: InsertOp)
    requires Integrable(l, x)
  {
    Less(y.newID, x.newID) && !Crossing(l, IndexOf(l, x.originID), Some(y.originID))
  }

  /** `left` goes to an earlier position than `right`: they commute when the origin of `right` is not
      left of that position, or when the scan of `right` steps over the element of `left`. */
  ghost predicate ClearOf(l: seq<Elem>, left: InsertOp, right: InsertOp)
    requires Integrable(l, left) && Integrable(l, right)
  {
    IndexOf(l, right.originID) >= InsertIndex(l, left) || StepsOver(l, right, left)
  }

  /** The condition, in terms of the list before either insert. */
  ghost predicate DiamondCondition(l: seq<Elem>, a: InsertOp, b: InsertOp)
    requires Integrable(l, a) && Integrable(l, b)
  {
    var ka, kb := InsertIndex(l, a), InsertIndex(l, b);
    if ka < kb then ClearOf(l, a, b)
    else if kb < ka then ClearOf(l, b, a)
    else StepsOver(l, a, b) || StepsOver(l, b, a)
  }

  /** Crossing tests give the same answer after another insert. */
  lemma CrossingStable(l: seq<Elem>, op: InsertOp, x: ID, origin: ID)
    requires WellFormed(l) && Integrable(l, op) && Real(op.newID) && op.newID !in Ids(l)
    requires x in Ids(l) && origin in Ids(l) && IndexOf(l, x) < |l| - 1
    ensures var r := Integrate(l, op);
            x in Ids(r) && (Crossing(r, IndexOf(r, x), Some(origin)) <==> Crossing(l, IndexOf(l, x), Some(origin)))
  {
    var r := Integrate(l, op);
    IntegrateKeeps(l, op);
    PositionAfter(l, op, x);
    PositionAfter(l, op, origin);
    CrossingAt(l, IndexOf(l, x), origin);
    CrossingAt(r, IndexOf(r, x), origin);
  }

  /** Which elements block the scan of `b` once `a` is in the list: the old ones that did before, and the
      element of `a` unless `b` steps over it. */
  lemma BlocksAfter(l: seq<Elem>, a: InsertOp, b: InsertOp, m: nat)
    requires Concurrent(l, a, b) && 0 < m < |l|
    ensures var r, ka := Integrate(l, a), InsertIndex(l, a);
            && m < |r| && b.originID in Ids(r)
            && (Blocks(r, IndexOf(r, b.originID), b.newID, m) <==>
                if m < ka then Blocks(l, IndexOf(l, b.originID), b.newID, m)
                else if m == ka then !StepsOver(l, b, a)
                else Blocks(l, IndexOf(l, b.originID), b.newID, m - 1))
  {
    var r, ka := Integrate(l, a), InsertIndex(l, a);
    var e := if m == ka then NewElem(a) else if m < ka then l[m] else l[m - 1];
    assert r[m] == e;
    assert m != ka ==> OriginPrecedes(l, if m < ka then m else m - 1);
    CrossingStable(l, a, b.originID, e.origin.value);
  }

  /** Where `b` goes once `a` is in the list. */
  lemma SecondInsertIndex(l: seq<Elem>, a: InsertOp, b: InsertOp)
    requires Concurrent(l, a, b)
    ensures Integrable(Integrate(l, a), b)
    ensures InsertIndex(Integrate(l, a), b) == SecondIndex(l, a, b)
  {
    var r, k := Integrate(l, a), SecondIndex(l, a, b);
    IntegrateKeeps(l, a);
    PositionAfter(l, a, b.originID);
    PositionAfter(l, a, b.rightID);
    assert IndexOf(r, b.originID) < k <= IndexOf(r, b.rightID);
    hide SecondIndex, InsertIndex, Integrate, Blocks, StepsOver, WellFormed;
    forall m | IndexOf(r, b.originID) < m < k
      ensures !Blocks(r, IndexOf(r, b.originID), b.newID, m)
    {
      UnblockedBefore(l, a, b, m);
    }
    if k < IndexOf(r, b.rightID) {
      BlockedThere(l, a, b);
    }
    InsertIndexIs(r, b, k);
  }

  lemma UnblockedBefore(l: seq<Elem>, a: InsertOp, b: InsertOp, m: nat)
    requires Concurrent(l, a, b) && b.originID in Ids(Integrate(l, a))
    requires IndexOf(Integrate(l, a), b.originID) < m < SecondIndex(l, a, b)
    ensures !Blocks(Integrate(l, a), IndexOf(Integrate(l, a), b.originID), b.newID, m)
  {
    PositionAfter(l, a, b.originID);
    BlocksAfter(l, a, b, m);
  }

  lemma BlockedThere(l: seq<Elem>, a: InsertOp, b: InsertOp)
    requires Concurrent(l, a, b) && b.originID in Ids(Integrate(l, a)) && b.rightID in Ids(Integrate(l, a))
    requires SecondIndex(l, a, b) < IndexOf(Integrate(l, a), b.rightID)
    ensures Blocks(Integrate(l, a), IndexOf(Integrate(l, a), b.originID), b.newID, SecondIndex(l, a, b))
  {
    PositionAfter(l, a, b.originID);
    PositionAfter(l, a, b.rightID);
    BlocksAfter(l, a, b, SecondIndex(l, a, b));
  }

  ghost function SecondIndex(l: seq<Elem>, a: InsertOp, b: InsertOp): nat
    requires Integrable(l, a) && Integrable(l, b)
  {
    var ka, kb := InsertIndex(l, a), InsertIndex(l, b);
    if kb < ka then kb
    else if IndexOf(l, b.originID) >= ka || StepsOver(l, b, a) then kb + 1
    else ka
  }

  /** Both new elements in place: the list, and which of the two comes first. */
  lemma BothInserted(l: seq<Elem>, a: InsertOp, b: InsertOp)
    requires Concurrent(l, a, b)
    ensures Integrable(Integrate(l, a), b)
    ensures var ka, k := InsertIndex(l, a), SecondIndex(l, a, b);
            && k <= |l| + 1
            && Integrate(Integrate(l, a), b) == InsertAt(InsertAt(l, ka, NewElem(a)), k, NewElem(b))
            && (Precedes(Integrate(Integrate(l, a), b), a.newID, b.newID) <==> ka < k)
  {
    SecondInsertIndex(l, a, b);
    IntegrateKeeps(l, a);
    PositionAfter(l, a, a.newID);
    PositionAfter(Integrate(l, a), b, a.newID);
    PositionAfter(Integrate(l, a), b, b.newID);
  }

  /** Positions alone decide: under the condition the second index is the one of the swapped insertions,
      otherwise each order puts its second element first. */
  lemma DiamondPositions(l: seq<Elem>, a: InsertOp, b: InsertOp)
    requires Concurrent(l, a, b)
    ensures var ka, kb := InsertIndex(l, a), InsertIndex(l, b);
            var k, k' := SecondIndex(l, a, b), SecondIndex(l, b, a);
            if DiamondCondition(l, a, b)
            then (ka <= kb && k == kb + 1 && k' == ka) || (kb <= ka && k' == ka + 1 && k == kb)
            else (ka < k <==> kb < k')
  {
    LessTrichotomy(a.newID, b.newID);
  }

  lemma CommuteIf(l: seq<Elem>, a: InsertOp, b: InsertOp)
    requires Concurrent(l, a, b) && DiamondCondition(l, a, b)
    ensures Integrable(Integrate(l, a), b) && Integrable(Integrate(l, b), a)
    ensures Integrate(Integrate(l, a), b) == Integrate(Integrate(l, b), a)
  {
    DiamondPositions(l, a, b);
    var ka, kb := InsertIndex(l, a), InsertIndex(l, b);
    if ka <= kb && SecondIndex(l, a, b) == kb + 1 && SecondIndex(l, b, a) == ka {
      SwappedAt(l, a, b);
    } else {
      SwappedAt(l, b, a);
    }
  }

  lemma SwappedAt(l: seq<Elem>, a: InsertOp, b: InsertOp)
    requires Concurrent(l, a, b)
    requires InsertIndex(l, a) <= InsertIndex(l, b)
    requires SecondIndex(l, a, b) == InsertIndex(l, b) + 1 && SecondIndex(l, b, a) == InsertIndex(l, a)
    ensures Integrable(Integrate(l, a), b) && Integrable(Integrate(l, b), a)
    ensures Integrate(Integrate(l, a), b) == Integrate(Integrate(l, b), a)
  {
    hide WellFormed, Ids, Precedes, InsertIndex, SecondIndex, InsertAt;
    SecondInsertIndex(l, a, b);
    SecondInsertIndex(l, b, a);
    SwapInserts(l, InsertIndex(l, a), NewElem(a), InsertIndex(l, b), NewElem(b));
  }

  lemma DisagreeUnless(l: seq<Elem>, a: InsertOp, b: InsertOp)
    requires Concurrent(l, a, b) && !DiamondCondition(l, a, b)
    ensures Integrable(Integrate(l, a), b) && Integrable(Integrate(l, b), a)
    ensures Precedes(Integrate(Integrate(l, a), b), a.newID, b.newID) <==>
            Precedes(Integrate(Integrate(l, b), a), b.newID, a.newID)
  {
    DiamondPositions(l, a, b);
    BothInserted(l, a, b);
    BothInserted(l, b, a);
  }

  /** The exact diamond: the two orders give the same list if and only if the condition holds, and when
      it fails the two orders disagree on the order of the two new elements. */
  lemma CommuteIff(l: seq<Elem>, a: InsertOp, b: InsertOp)
    requires Concurrent(l, a, b)
    ensures Integrable(Integrate(l, a), b) && Integrable(Integrate(l, b), a)
    ensures Integrate(Integrate(l, a), b) == Integrate(Integrate(l, b), a) <==> DiamondCondition(l, a, b)
    ensures !DiamondCondition(l, a, b) ==>
              (Precedes(Integrate(Integrate(l, a), b), a.newID, b.newID) <==>
               Precedes(Integrate(Integrate(l, b), a), b.newID, a.newID))
  {
    if DiamondCondition(l, a, b) {
      CommuteIf(l, a, b);
    } else {
      DisagreeUnless(l, a, b);
      BothPresent(l, a, b);
      hide Integrate, DiamondCondition, Precedes, Ids;
      OneOrTheOther(Integrate(Integrate(l, a), b), a.newID, b.newID);
    }
  }

  lemma BothPresent(l: seq<Elem>, a: InsertOp, b: InsertOp)
    requires Concurrent(l, a, b) && Integrable(Integrate(l, a), b)
    ensures var r := Integrate(Integrate(l, a), b);
            a.newID in Ids(r) && b.newID in Ids(r)
  {
    IntegrateKeeps(l, a);
    IntegrateKeeps(Integrate(l, a), b);
  }

  lemma OneOrTheOther(l: seq<Elem>, x: ID, y: ID)
    requires x in Ids(l) && y in Ids(l) && x != y
    ensures Precedes(l, x, y) <==> !Precedes(l, y, x)
  {
  }

  lemma SwapInserts<T>(l: seq<T>, i: nat, x: T, j: nat, y: T)
    requires i <= j <= |l|
    ensures InsertAt(InsertAt(l, i, x), j + 1, y) == InsertAt(InsertAt(l, j, y), i, x)
  {
  }

  /** Two inserts between the same neighbours commute, whatever already sits between those neighbours, and
      end up in tie-break order. */
  lemma SameGapCommutes(l: seq<Elem>, a: InsertOp, b: InsertOp)
    requires Concurrent(l, a, b)
    requires a.originID == b.originID && a.rightID == b.rightID
    ensures Integrable(Integrate(l, a), b) && Integrable(Integrate(l, b), a)
    ensures Integrate(Integrate(l, a), b) == Integrate(Integrate(l, b), a)
    ensures Precedes(Integrate(Integrate(l, a), b), a.newID, b.newID) <==> Less(a.newID, b.newID)
  {
    SameGapDiamond(l, a, b);
    CommuteIf(l, a, b);
    BothInserted(l, a, b);
    LessTrichotomy(a.newID, b.newID);
    if Less(a.newID, b.newID) {
      SameGapOrdered(l, a, b);
    } else {
      SameGapOrdered(l, b, a);
    }
  }

  lemma SameGapDiamond(l: seq<Elem>, a: InsertOp, b: InsertOp)
    requires Concurrent(l, a, b)
    requires a.originID == b.originID && a.rightID == b.rightID
    ensures DiamondCondition(l, a, b)
  {
    LessTrichotomy(a.newID, b.newID);
    if Less(a.newID, b.newID) {
      SameGapOrdered(l, a, b);
    } else {
      SameGapOrdered(l, b, a);
    }
  }

  lemma SameGapOrdered(l: seq<Elem>, a: InsertOp, b: InsertOp)
    requires Concurrent(l, a, b) && Less(a.newID, b.newID)
    requires a.originID == b.originID && a.rightID == b.rightID
    ensures InsertIndex(l, a) <= InsertIndex(l, b) && StepsOver(l, b, a)
  {
    SiblingsDoNotCross(l, a.originID);
    var po, pr, k := IndexOf(l, a.originID), IndexOf(l, a.rightID), InsertIndex(l, b);
    if k < pr {
      assert Blocks(l, po, b.newID, k);
      if Less(l[k].id, a.newID) {
        LessTransitive(l[k].id, a.newID, b.newID);
      }
      assert Blocks(l, po, a.newID, k);
    }
  }

  /** In one gap the smaller clock ends on the left; with equal clocks the names decide, by the first character
      in which they differ. Either order of delivery. */
  lemma SameGapByClockThenName(l: seq<Elem>, a: InsertOp, b: InsertOp, p: string, c: char, s: string, d: char, t: string)
    requires Concurrent(l, a, b) && a.originID == b.originID && a.rightID == b.rightID
    requires a.newID.clock < b.newID.clock ||
             (a.newID.clock == b.newID.clock && a.newID.clientID == p + [c] + s && b.newID.clientID == p + [d] + t && c < d)
    ensures Integrable(Integrate(l, a), b) && Integrable(Integrate(l, b), a)
    ensures Precedes(Integrate(Integrate(l, a), b), a.newID, b.newID)
    ensures Precedes(Integrate(Integrate(l, b), a), a.newID, b.newID)
  {
    if c < d {
      StringLessAt(p, c, s, d, t);
    }
    SameGapCommutes(l, a, b);
  }

  /** Two inserts into intervals that do not overlap commute, whatever sits in either. */
  lemma DisjointIntervalsCommute(l: seq<Elem>, a: InsertOp, b: InsertOp)
    requires Concurrent(l, a, b)
    requires IndexOf(l, a.rightID) <= IndexOf(l, b.originID)
    ensures DiamondCondition(l, a, b)
    ensures Integrable(Integrate(l, a), b) && Integrable(Integrate(l, b), a)
    ensures Integrate(Integrate(l, a), b) == Integrate(Integrate(l, b), a)
  {
    CommuteIf(l, a, b);
  }
}
