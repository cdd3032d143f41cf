/** From pairs to sets of operations: exactly when all delivery orders of a set of concurrent inserts
    end in the same list. */
module Confluence {
  import opened Identifiers
  import opened ReplicatedList
  import opened Commutation

  ghost function Ops(s: seq<InsertOp>): set<InsertOp> {
    set o | o in s
  }

  /** An order in which no insert arrives before its neighbours, and no identifier arrives twice. */
  ghost predicate Causal(ids: set<ID>, s: seq<InsertOp>)
    decreases |s|
  {
    s == [] || (Real(s[0].newID) && s[0].newID !in ids && Ready(ids, s[0]) && Causal(ids + {s[0].newID}, s[1..]))
  }

  /** Delivering `s` in this order never walks off the list. */
  ghost predicate Deliverable(l: seq<Elem>, s: seq<InsertOp>)
    decreases |s|
  {
    s == [] || (Integrable(l, s[0]) && Deliverable(Integrate(l, s[0]), s[1..]))
  }

  ghost function Deliver(l: seq<Elem>, s: seq<InsertOp>): seq<Elem>
    requires Deliverable(l, s)
    decreases |s|
  {
    if s == [] then l else Deliver(Integrate(l, s[0]), s[1..])
  }

  /** All causal orders of the inserts of `s` can be delivered and end in the same list. */
  ghost predicate Converges(l: seq<Elem>, s: seq<InsertOp>)
    requires Deliverable(l, s)
  {
    forall t: seq<InsertOp> :: Causal(Ids(l), t) && Ops(t) == Ops(s) ==> Deliverable(l, t) && Deliver(l, t) == Deliver(l, s)
  }

  /** `a` and `b` are two further inserts of `ops` that are ready once `s` has been delivered. */
  ghost predicate Meet(l: seq<Elem>, ops: set<InsertOp>, s: seq<InsertOp>, a: InsertOp, b: InsertOp) {
    Causal(Ids(l), s + [a, b]) && Causal(Ids(l), s + [b, a]) && Ops(s) + {a, b} <= ops && Deliverable(l, s)
  }

  /** In every list on the way, any two inserts that meet there satisfy the diamond condition. */
  ghost predicate LocallyConfluent(l: seq<Elem>, ops: set<InsertOp>) {
    forall s: seq<InsertOp>, a, b :: Meet(l, ops, s, a, b) ==> MeetDiamond(l, s, a, b)
  }

  ghost predicate MeetDiamond(l: seq<Elem>, s: seq<InsertOp>, a: InsertOp, b: InsertOp)
    requires Deliverable(l, s)
  {
    var r := Deliver(l, s);
    Integrable(r, a) && Integrable(r, b) && DiamondCondition(r, a, b)
  }

  // ----- Facts about causal orders and deliveries

  lemma NewIDsCons(s: seq<InsertOp>)
    requires s != []
    ensures NewIDs(s) == {s[0].newID} + NewIDs(s[1..])
    ensures Ops(s) == {s[0]} + Ops(s[1..])
  {
    assert s == [s[0]] + s[1..];
  }

  lemma {:induction false} DeliverKeeps(l: seq<Elem>, s: seq<InsertOp>)
    requires WellFormed(l) && Causal(Ids(l), s) && Deliverable(l, s)
    ensures WellFormed(Deliver(l, s)) && Ids(Deliver(l, s)) == Ids(l) + NewIDs(s)
    ensures forall x, y :: x in Ids(l) && y in Ids(l) ==> (Precedes(Deliver(l, s), x, y) <==> Precedes(l, x, y))
    decreases |s|
  {
    if s != [] {
      IntegrateKeeps(l, s[0]);
      var l' := Integrate(l, s[0]);
      DeliverKeeps(l', s[1..]);
      NewIDsCons(s);
      hide WellFormed, Ids, Precedes, NewIDs, Integrate;
      forall x, y | x in Ids(l) && y in Ids(l)
        ensures Precedes(Deliver(l, s), x, y) <==> Precedes(l, x, y)
      {
        assert Precedes(l', x, y) <==> Precedes(l, x, y);
      }
    }
  }

  /** Every delivered element ends between the neighbours its insert names. */
  lemma {:induction false} DeliveredBetween(l: seq<Elem>, s: seq<InsertOp>, a: InsertOp)
    requires WellFormed(l) && Causal(Ids(l), s) && Deliverable(l, s) && a in s
    ensures Precedes(Deliver(l, s), a.originID, a.newID) && Precedes(Deliver(l, s), a.newID, a.rightID)
    decreases |s|
  {
    IntegrateKeeps(l, s[0]);
    if a == s[0] {
      DeliverKeeps(Integrate(l, a), s[1..]);
    } else {
      DeliveredBetween(Integrate(l, s[0]), s[1..], a);
    }
  }

  lemma {:induction false} CausalConcat(ids: set<ID>, s: seq<InsertOp>, t: seq<InsertOp>)
    ensures Causal(ids, s + t) <==> Causal(ids, s) && Causal(ids + NewIDs(s), t)
    decreases |s|
  {
    if s == [] {
      assert s + t == t && ids + NewIDs(s) == ids;
    } else {
      assert (s + t)[1..] == s[1..] + t;
      CausalConcat(ids + {s[0].newID}, s[1..], t);
      NewIDsCons(s);
      assert ids + {s[0].newID} + NewIDs(s[1..]) == ids + NewIDs(s);
    }
  }

  lemma {:induction false} DeliverConcat(l: seq<Elem>, s: seq<InsertOp>, t: seq<InsertOp>)
    ensures Deliverable(l, s + t) <==> Deliverable(l, s) && Deliverable(Deliver(l, s), t)
    ensures Deliverable(l, s + t) ==> Deliver(l, s + t) == Deliver(Deliver(l, s), t)
    decreases |s|
  {
    if s == [] {
      assert s + t == t;
    } else {
      assert (s + t)[1..] == s[1..] + t;
      if Integrable(l, s[0]) {
        DeliverConcat(Integrate(l, s[0]), s[1..], t);
      }
    }
  }

  /** What is left of a causal order once the inserts in `ids` are already there. */
  ghost function Without(s: seq<InsertOp>, ids: set<ID>): (r: seq<InsertOp>)
    ensures forall o :: o in r <==> o in s && o.newID !in ids
  {
    if s == [] then []
    else if s[0].newID in ids then Without(s[1..], ids)
    else [s[0]] + Without(s[1..], ids)
  }

  lemma {:induction false} CausalFresh(ids: set<ID>, s: seq<InsertOp>)
    requires Causal(ids, s)
    ensures NewIDs(s) !! ids
    ensures forall o, o' :: o in s && o' in s && o.newID == o'.newID ==> o == o'
    decreases |s|
  {
    if s != [] {
      CausalFresh(ids + {s[0].newID}, s[1..]);
      NewIDsCons(s);
      assert forall o :: o in s[1..] ==> o.newID in NewIDs(s[1..]);
      assert forall o :: o in s ==> o == s[0] || o in s[1..];
    }
  }

  lemma {:induction false} WithoutCausal(ids: set<ID>, s: seq<InsertOp>, more: set<ID>)
    requires Causal(ids, s) && ids <= more
    ensures Causal(more, Without(s, more))
    decreases |s|
  {
    if s != [] {
      var x := s[0].newID;
      if x in more {
        WithoutCausal(ids + {x}, s[1..], more);
      } else {
        WithoutCausal(ids + {x}, s[1..], more + {x});
        CausalFresh(ids + {x}, s[1..]);
        assert forall o :: o in s[1..] ==> o.newID in NewIDs(s[1..]);
        WithoutSame(s[1..], more, x);
        assert ([s[0]] + Without(s[1..], more))[1..] == Without(s[1..], more);
      }
    }
  }

  lemma {:induction false} WithoutSame(s: seq<InsertOp>, ids: set<ID>, x: ID)
    requires forall o :: o in s ==> o.newID != x
    ensures Without(s, ids + {x}) == Without(s, ids)
  {
    if s != [] {
      WithoutSame(s[1..], ids, x);
    }
  }

  // ----- The two directions

  /** An insert that was ready from the start can be moved to the front of a delivery. */
  lemma {:induction false} BubbleToFront(l: seq<Elem>, s: seq<InsertOp>, a: InsertOp, t: seq<InsertOp>, ops: set<InsertOp>)
    requires WellFormed(l) && LocallyConfluent(l, ops)
    requires Ready(Ids(l), a) && Real(a.newID)
    requires Causal(Ids(l), s + [a] + t) && Deliverable(l, s + [a] + t) && Ops(s + [a] + t) <= ops
    ensures Causal(Ids(l), [a] + s + t) && Deliverable(l, [a] + s + t)
    ensures Deliver(l, [a] + s + t) == Deliver(l, s + [a] + t)
    decreases |s|
  {
    if s == [] {
      assert s + [a] + t == [a] + s + t;
    } else {
      var x, s' := s[0], s[1..];
      assert s == [x] + s';
      SeqShuffle(x, s', a, t);
      AfterFirst(l, x, s' + [a] + t, a, ops);
      hide Causal, Deliverable, Deliver, WellFormed, Ids, Integrate, Integrable, LocallyConfluent, Ops;
      BubbleToFront(Integrate(l, x), s', a, t, ops);
      SwapsFirst(l, x, a, s' + t, ops);
    }
  }

  /** What delivering `x` first leaves for the rest. */
  lemma AfterFirst(l: seq<Elem>, x: InsertOp, u: seq<InsertOp>, a: InsertOp, ops: set<InsertOp>)
    requires WellFormed(l) && LocallyConfluent(l, ops) && Ready(Ids(l), a)
    requires Causal(Ids(l), [x] + u) && Deliverable(l, [x] + u) && x in ops
    ensures Integrable(l, x) && WellFormed(Integrate(l, x)) && LocallyConfluent(Integrate(l, x), ops)
    ensures Ready(Ids(Integrate(l, x)), a) && Causal(Ids(Integrate(l, x)), u) && Deliverable(Integrate(l, x), u)
    ensures Real(x.newID) && x.newID !in Ids(l) && Ready(Ids(l), x)
    ensures Deliver(l, [x] + u) == Deliver(Integrate(l, x), u)
  {
    Cons(l, x, u);
    IntegrateKeeps(l, x);
    LocallyConfluentAfter(l, x, ops);
  }

  /** Two inserts that were both ready can be swapped at the front. */
  lemma SwapsFirst(l: seq<Elem>, x: InsertOp, a: InsertOp, t: seq<InsertOp>, ops: set<InsertOp>)
    requires WellFormed(l) && LocallyConfluent(l, ops) && Ready(Ids(l), a) && Real(a.newID) && x in ops && a in ops
    requires Integrable(l, x) && Real(x.newID) && x.newID !in Ids(l) && Ready(Ids(l), x)
    requires Causal(Ids(Integrate(l, x)), [a] + t) && Deliverable(Integrate(l, x), [a] + t)
    ensures Causal(Ids(l), [a, x] + t) && Deliverable(l, [a, x] + t)
    ensures Deliver(l, [a, x] + t) == Deliver(Integrate(l, x), [a] + t)
  {
    assert [x] + ([a] + t) == [x, a] + t;
    Cons(l, x, [a] + t);
    IntegrateKeeps(l, x);
    SwapFirst(l, x, a, t, ops);
  }

  lemma SeqShuffle(x: InsertOp, s: seq<InsertOp>, a: InsertOp, t: seq<InsertOp>)
    ensures [x] + s + [a] + t == [x] + (s + [a] + t)
    ensures [x] + ([a] + s + t) == [x, a] + (s + t)
    ensures [a, x] + (s + t) == [a] + ([x] + s) + t && [a] + s + t == [a] + (s + t)
    ensures x in Ops([x] + s + [a] + t) && a in Ops([x] + s + [a] + t)
    ensures Ops([x] + s + [a] + t) == {x, a} + Ops(s) + Ops(t)
    ensures Ops(s + [a] + t) == {a} + Ops(s) + Ops(t)
  {
  }

  lemma Cons(l: seq<Elem>, x: InsertOp, u: seq<InsertOp>)
    ensures var ids := Ids(l);
            Causal(ids, [x] + u) <==> Real(x.newID) && x.newID !in ids && Ready(ids, x) && Causal(ids + {x.newID}, u)
    ensures Deliverable(l, [x] + u) <==> Integrable(l, x) && Deliverable(Integrate(l, x), u)
    ensures Deliverable(l, [x] + u) ==> Deliver(l, [x] + u) == Deliver(Integrate(l, x), u)
  {
    assert ([x] + u)[1..] == u;
  }

  lemma LocallyConfluentAfter(l: seq<Elem>, x: InsertOp, ops: set<InsertOp>)
    requires WellFormed(l) && LocallyConfluent(l, ops)
    requires x in ops && Real(x.newID) && x.newID !in Ids(l) && Integrable(l, x)
    ensures LocallyConfluent(Integrate(l, x), ops)
  {
    IntegrateKeeps(l, x);
    hide WellFormed, Ids, Integrate, Causal, Deliver, DiamondCondition;
    forall s: seq<InsertOp>, a, b | Meet(Integrate(l, x), ops, s, a, b)
      ensures MeetDiamond(Integrate(l, x), s, a, b)
    {
      MeetAfter(l, x, ops, s, a, b);
      assert MeetDiamond(l, [x] + s, a, b);
    }
  }

  lemma MeetAfter(l: seq<Elem>, x: InsertOp, ops: set<InsertOp>, s: seq<InsertOp>, a: InsertOp, b: InsertOp)
    requires WellFormed(l) && x in ops && Real(x.newID) && x.newID !in Ids(l) && Integrable(l, x)
    requires Meet(Integrate(l, x), ops, s, a, b)
    ensures Meet(l, ops, [x] + s, a, b) && Deliver(l, [x] + s) == Deliver(Integrate(l, x), s)
  {
    IntegrateKeeps(l, x);
    hide WellFormed, Ids, Integrate, Integrable, Deliver, Deliverable, Causal, Ops;
    Cons(l, x, s);
    Cons(l, x, s + [a, b]);
    Cons(l, x, s + [b, a]);
    Regroup(x, s, a, b);
    Regroup(x, s, b, a);
  }

  lemma Regroup(x: InsertOp, s: seq<InsertOp>, a: InsertOp, b: InsertOp)
    ensures [x] + (s + [a, b]) == [x] + s + [a, b] && Ops([x] + s) == {x} + Ops(s)
  {
  }

  lemma SwapFirst(l: seq<Elem>, x: InsertOp, a: InsertOp, t: seq<InsertOp>, ops: set<InsertOp>)
    requires WellFormed(l) && LocallyConfluent(l, ops)
    requires x in ops && a in ops && Ready(Ids(l), a) && Real(a.newID)
    requires Causal(Ids(l), [x, a] + t) && Deliverable(l, [x, a] + t)
    ensures Causal(Ids(l), [a, x] + t) && Deliverable(l, [a, x] + t)
    ensures Deliver(l, [a, x] + t) == Deliver(l, [x, a] + t)
  {
    SwapCausal(Ids(l), x, a, t);
    MeetAtOnce(l, x, a, ops);
    CommuteIf(l, x, a);
    hide Causal, Deliver, Ids, Integrate, Integrable, WellFormed, DiamondCondition, LocallyConfluent;
    DeliverTwo(l, x, a, t);
    DeliverTwo(l, a, x, t);
  }

  lemma MeetAtOnce(l: seq<Elem>, x: InsertOp, a: InsertOp, ops: set<InsertOp>)
    requires LocallyConfluent(l, ops) && x in ops && a in ops && Causal(Ids(l), [x, a]) && Causal(Ids(l), [a, x])
    ensures Integrable(l, x) && Integrable(l, a) && DiamondCondition(l, x, a)
  {
    hide Causal, DiamondCondition;
    assert [] + [x, a] == [x, a] && [] + [a, x] == [a, x];
    assert Meet(l, ops, [], x, a);
    assert MeetDiamond(l, [], x, a);
  }

  lemma SwapCausal(ids: set<ID>, x: InsertOp, a: InsertOp, t: seq<InsertOp>)
    requires Ready(ids, a) && Causal(ids, [x, a] + t)
    ensures Causal(ids, [a, x] + t) && Causal(ids, [a, x]) && Causal(ids, [x, a])
    ensures x.newID != a.newID && x.newID !in ids && a.newID !in ids && Real(x.newID) && Real(a.newID) && Ready(ids, x)
  {
    CausalConcat(ids, [x, a], t);
    assert [x, a][1..] == [a] && [a, x][1..] == [x];
    assert Causal(ids, [a, x]);
    assert NewIDs([x, a]) == {x.newID, a.newID} == NewIDs([a, x]);
    CausalConcat(ids, [a, x], t);
  }

  lemma DeliverTwo(l: seq<Elem>, x: InsertOp, a: InsertOp, t: seq<InsertOp>)
    requires Integrable(l, x) && Integrable(Integrate(l, x), a)
    ensures Deliverable(l, [x, a] + t) <==> Deliverable(Integrate(Integrate(l, x), a), t)
    ensures Deliverable(l, [x, a] + t) ==> Deliver(l, [x, a] + t) == Deliver(Integrate(Integrate(l, x), a), t)
  {
    assert ([x, a] + t)[1..] == [a] + t;
    assert ([a] + t)[1..] == t;
  }

  lemma OpsNonempty(s: seq<InsertOp>)
    ensures s != [] ==> Ops(s) != {}
  {
    assert s != [] ==> s[0] in Ops(s);
  }

  /** The condition suffices: one order that goes through makes every causal order go through, to the
      same list. */
  lemma {:induction false} LocallyConfluentConverges(l: seq<Elem>, s: seq<InsertOp>, t: seq<InsertOp>, ops: set<InsertOp>)
    requires WellFormed(l) && LocallyConfluent(l, ops) && Ops(s) <= ops
    requires Causal(Ids(l), s) && Deliverable(l, s)
    requires Causal(Ids(l), t) && Ops(t) == Ops(s)
    ensures Deliverable(l, t) && Deliver(l, t) == Deliver(l, s)
    decreases |t|
  {
    if t == [] {
      OpsNonempty(s);
    } else {
      var a := t[0];
      assert t == [a] + t[1..] && a in Ops(t);
      Cons(l, a, t[1..]);
      var u := FrontOf(l, s, a, ops);
      Cons(l, a, u);
      IntegrateKeeps(l, a);
      LocallyConfluentAfter(l, a, ops);
      OpsTail(Ids(l), a, u, t[1..]);
      assert Ops(u) <= Ops(s);
      LocallyConfluentConverges(Integrate(l, a), u, t[1..], ops);
    }
  }

  lemma FrontOf(l: seq<Elem>, s: seq<InsertOp>, a: InsertOp, ops: set<InsertOp>) returns (u: seq<InsertOp>)
    requires WellFormed(l) && LocallyConfluent(l, ops) && Ops(s) <= ops
    requires Causal(Ids(l), s) && Deliverable(l, s)
    requires a in Ops(s) && Ready(Ids(l), a) && Real(a.newID)
    ensures Causal(Ids(l), [a] + u) && Deliverable(l, [a] + u)
    ensures Deliver(l, [a] + u) == Deliver(l, s) && Ops([a] + u) == Ops(s)
  {
    var s1, s2 := SplitAt(s, a);
    u := s1 + s2;
    BubbleToFront(l, s1, a, s2, ops);
  }

  lemma SplitAt(s: seq<InsertOp>, a: InsertOp) returns (s1: seq<InsertOp>, s2: seq<InsertOp>)
    requires a in s
    ensures s == s1 + [a] + s2 && [a] + (s1 + s2) == [a] + s1 + s2
    ensures Ops([a] + (s1 + s2)) == Ops(s)
  {
    var i :| 0 <= i < |s| && s[i] == a;
    s1, s2 := s[..i], s[i + 1..];
    assert s == s1 + [a] + s2;
  }

  lemma OpsTail(ids: set<ID>, a: InsertOp, u: seq<InsertOp>, v: seq<InsertOp>)
    requires Causal(ids, [a] + u) && Causal(ids, [a] + v) && Ops([a] + u) == Ops([a] + v)
    ensures Ops(u) == Ops(v)
  {
    assert ([a] + u)[1..] == u && ([a] + v)[1..] == v;
    CausalFresh(ids + {a.newID}, u);
    CausalFresh(ids + {a.newID}, v);
    assert forall o :: o in u ==> o.newID in NewIDs(u);
    assert forall o :: o in v ==> o.newID in NewIDs(v);
    forall o
      ensures o in Ops(u) <==> o in Ops(v)
    {
      assert o in Ops([a] + u) <==> o == a || o in Ops(u);
      assert o in Ops([a] + v) <==> o == a || o in Ops(v);
    }
  }

  /** The rest of a causal order, once `s` and two further inserts have been taken out of it. */
  lemma Completion(ids: set<ID>, p: seq<InsertOp>, u: seq<InsertOp>) returns (t: seq<InsertOp>)
    requires Causal(ids, p) && Causal(ids, u) && Ops(u) <= Ops(p)
    ensures Causal(ids, u + t) && Ops(u + t) == Ops(p)
    ensures t == Without(p, ids + NewIDs(u))
  {
    t := Without(p, ids + NewIDs(u));
    WithoutCausal(ids, p, ids + NewIDs(u));
    CausalConcat(ids, u, t);
    CausalFresh(ids, p);
    forall o
      ensures o in Ops(u + t) <==> o in Ops(p)
    {
      if o in p && o !in t {
        assert o.newID in NewIDs(p) && o.newID in NewIDs(u);
        var o' :| o' in u && o'.newID == o.newID;
        assert o' in Ops(u);
      }
      assert o in Ops(u) <==> o in u;
    }
  }

  lemma MeetConcurrent(l: seq<Elem>, s: seq<InsertOp>, a: InsertOp, b: InsertOp)
    requires WellFormed(l) && Causal(Ids(l), s + [a, b]) && Causal(Ids(l), s + [b, a])
    requires Deliverable(l, s + [a, b]) && Deliverable(l, s + [b, a])
    ensures Deliverable(l, s) && Concurrent(Deliver(l, s), a, b)
  {
    CausalConcat(Ids(l), s, [a, b]);
    CausalConcat(Ids(l), s, [b, a]);
    DeliverConcat(l, s, [a, b]);
    DeliverConcat(l, s, [b, a]);
    DeliverKeeps(l, s);
    assert [a, b][1..] == [b];
  }

  /** Whatever follows, the order of `a` and `b` stays as the two insertions left it. */
  lemma StaysOrdered(l: seq<Elem>, s: seq<InsertOp>, a: InsertOp, b: InsertOp, t: seq<InsertOp>)
    requires WellFormed(l) && Causal(Ids(l), s + [a, b] + t) && Deliverable(l, s + [a, b] + t)
    requires Deliverable(l, s) && Concurrent(Deliver(l, s), a, b)
    requires Integrable(Integrate(Deliver(l, s), a), b)
    ensures var r, f := Integrate(Integrate(Deliver(l, s), a), b), Deliver(l, s + [a, b] + t);
            && a.newID in Ids(f) && b.newID in Ids(f)
            && (Precedes(f, a.newID, b.newID) <==> Precedes(r, a.newID, b.newID))
            && (Precedes(f, b.newID, a.newID) <==> Precedes(r, b.newID, a.newID))
  {
    var m := Deliver(l, s);
    var r := Integrate(Integrate(m, a), b);
    TwoThen(l, s, a, b, t);
    DeliveredTwo(m, a, b);
    CausalAfterTwo(Ids(l), s, a, b, t);
    DeliverKeeps(l, s);
    DeliverKeeps(r, t);
  }

  lemma TwoThen(l: seq<Elem>, s: seq<InsertOp>, a: InsertOp, b: InsertOp, t: seq<InsertOp>)
    requires Deliverable(l, s) && Deliverable(l, s + [a, b] + t)
    requires Integrable(Deliver(l, s), a) && Integrable(Integrate(Deliver(l, s), a), b)
    ensures var r := Integrate(Integrate(Deliver(l, s), a), b);
            Deliverable(r, t) && Deliver(r, t) == Deliver(l, s + [a, b] + t)
  {
    hide Integrate, Integrable, Deliver;
    assert s + ([a, b] + t) == s + [a, b] + t;
    DeliverConcat(l, s, [a, b] + t);
    DeliverTwo(Deliver(l, s), a, b, t);
  }

  lemma DeliveredTwo(m: seq<Elem>, a: InsertOp, b: InsertOp)
    requires Concurrent(m, a, b)
    ensures Integrable(Integrate(m, a), b)
    ensures var r := Integrate(Integrate(m, a), b);
            WellFormed(r) && Ids(r) == Ids(m) + {a.newID} + {b.newID}
  {
    IntegrateKeeps(m, a);
    assert Precedes(Integrate(m, a), b.originID, b.rightID);
    IntegrateKeeps(Integrate(m, a), b);
  }

  lemma CausalAfterTwo(ids: set<ID>, s: seq<InsertOp>, a: InsertOp, b: InsertOp, t: seq<InsertOp>)
    requires Causal(ids, s + [a, b] + t)
    ensures Causal(ids, s) && Causal(ids + NewIDs(s) + {a.newID} + {b.newID}, t)
  {
    CausalConcat(ids, s + [a, b], t);
    CausalConcat(ids, s, [a, b]);
    assert ids + NewIDs(s + [a, b]) == ids + NewIDs(s) + {a.newID} + {b.newID};
  }

  /** The condition is needed: two inserts that meet without it leave two orders that never agree again. */
  lemma ConvergesLocallyConfluent(l: seq<Elem>, p: seq<InsertOp>, s: seq<InsertOp>, a: InsertOp, b: InsertOp)
    requires WellFormed(l) && Causal(Ids(l), p) && Deliverable(l, p) && Converges(l, p)
    requires Meet(l, Ops(p), s, a, b)
    ensures MeetDiamond(l, s, a, b)
  {
    var t := FullOrder(l, p, s + [a, b]);
    var t' := FullOrder(l, p, s + [b, a]);
    MeetConcurrent(l, s, a, b);
    CommuteIff(Deliver(l, s), a, b);
    StaysOrdered(l, s, a, b, t);
    StaysOrdered(l, s, b, a, t');
    OneOrTheOther(Deliver(l, p), a.newID, b.newID);
  }

  lemma FullOrder(l: seq<Elem>, p: seq<InsertOp>, u: seq<InsertOp>) returns (t: seq<InsertOp>)
    requires Causal(Ids(l), p) && Deliverable(l, p) && Converges(l, p)
    requires Causal(Ids(l), u) && Ops(u) <= Ops(p)
    ensures Causal(Ids(l), u + t) && Deliverable(l, u) && Deliverable(l, u + t) && Deliver(l, u + t) == Deliver(l, p)
  {
    t := Completion(Ids(l), p, u);
    DeliverConcat(l, u, t);
  }

  /** Exactly when a set of concurrent inserts converges. One replica delivered the inserts of `p` to its
      list; every other causal order goes through and ends in the same list if and only if every two
      inserts that can meet on the way satisfy the diamond condition in the list where they meet. */
  lemma ConvergesIff(l: seq<Elem>, p: seq<InsertOp>)
    requires WellFormed(l) && Causal(Ids(l), p) && Deliverable(l, p)
    ensures Converges(l, p) <==> LocallyConfluent(l, Ops(p))
  {
    if LocallyConfluent(l, Ops(p)) {
      forall t: seq<InsertOp> | Causal(Ids(l), t) && Ops(t) == Ops(p)
        ensures Deliverable(l, t) && Deliver(l, t) == Deliver(l, p)
      {
        LocallyConfluentConverges(l, p, t, Ops(p));
      }
    }
    if Converges(l, p) {
      forall s: seq<InsertOp>, a, b | Meet(l, Ops(p), s, a, b)
        ensures MeetDiamond(l, s, a, b)
      {
        ConvergesLocallyConfluent(l, p, s, a, b);
      }
    }
  }
}
