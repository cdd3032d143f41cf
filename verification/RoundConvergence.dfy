/** Documents that exchange concurrent edits in rounds: in each round every replica receives the same inserts,
    each pair of them between the same neighbours or in intervals that do not overlap. */
module RoundConvergence {
  import opened Identifiers
  import opened ReplicatedList
  import opened Confluence
  import opened ConcurrentRounds
  import opened DocumentSpec
  import opened DocumentLaws
  import opened LocalEdits

  /** The inserts of `ms` that are new, in the order of their first arrival. */
  ghost function Arrivals(seen: set<ID>, ms: seq<Msg>): seq<InsertOp>
    decreases |ms|
  {
    if ms == [] then []
    else if ms[0].Ins? && ms[0].op.newID !in seen then [ms[0].op] + Arrivals(seen + {ms[0].op.newID}, ms[1..])
    else Arrivals(seen, ms[1..])
  }

  ghost function NewInserts(seen: set<ID>, ms: seq<Msg>): set<InsertOp> {
    set m | m in ms && m.Ins? && m.op.newID !in seen :: m.op
  }

  /** The messages of a round for a replica in state `d`: acceptable, and the inserts it has not seen are a
      round on its list. Re-sent inserts and deletes, early or late, may come at any point. */
  ghost predicate RoundFor(d: Doc, ms: seq<Msg>) {
    AllAcceptable(d, ms) && Round(d.list, NewInserts(d.insLog.Keys, ms))
  }

  lemma {:induction false} ArrivalsAre(seen: set<ID>, ms: seq<Msg>)
    requires forall m, m' :: m in ms && m' in ms ==> Agree(m, m')
    ensures Ops(Arrivals(seen, ms)) == NewInserts(seen, ms)
    ensures NoRepeats(Arrivals(seen, ms))
    decreases |ms|
  {
    if ms != [] {
      var m, rest := ms[0], ms[1..];
      assert ms == [m] + rest;
      if m.Ins? && m.op.newID !in seen {
        var seen' := seen + {m.op.newID};
        ArrivalsAre(seen', rest);
        forall m' | m' in rest
          ensures Agree(m, m')
        {
          assert m in ms && m' in ms;
        }
        NewInsertsCons(seen, m, rest);
        assert m.op !in NewInserts(seen', rest);
        assert forall i :: 0 <= i < |Arrivals(seen', rest)| ==> Arrivals(seen', rest)[i] in Ops(Arrivals(seen', rest));
      } else {
        ArrivalsAre(seen, rest);
        assert NewInserts(seen, ms) == NewInserts(seen, rest);
      }
    }
  }

  lemma NewInsertsCons(seen: set<ID>, m: Msg, rest: seq<Msg>)
    requires m.Ins? && m.op.newID !in seen
    requires forall m' :: m' in rest ==> Agree(m, m')
    ensures NewInserts(seen, [m] + rest) == {m.op} + NewInserts(seen + {m.op.newID}, rest)
    ensures NewInserts(seen + {m.op.newID}, rest) == NewInserts(seen, [m] + rest) - {m.op}
  {
    var all, tail := NewInserts(seen, [m] + rest), NewInserts(seen + {m.op.newID}, rest);
    forall o
      ensures o in all <==> o == m.op || o in tail
    {
      if o in all && o != m.op {
        var m' :| m' in [m] + rest && m'.Ins? && m'.op == o;
        assert m' in rest && Agree(m, m');
      }
      if o in tail {
        var m' :| m' in rest && m'.Ins? && m'.op == o && m'.op.newID !in seen + {m.op.newID};
        assert m' in [m] + rest;
      }
      assert m in [m] + rest;
    }
  }

  /** One message of a round. */
  lemma RoundStep(d: Doc, ms: seq<Msg>, d': Doc)
    requires Inv(d) && d.pendIns == map[] && ms != [] && RoundFor(d, ms) && Step(d, ms[0], d')
    ensures d'.pendIns == map[] && Round(d'.list, NewInserts(d'.insLog.Keys, ms[1..]))
    ensures if ms[0].Ins? && ms[0].op.newID !in d.insLog
            then Integrable(d.list, ms[0].op) && d'.list == Integrate(d.list, ms[0].op) && d'.insLog.Keys == d.insLog.Keys + {ms[0].op.newID}
            else d'.list == d.list && d'.insLog.Keys == d.insLog.Keys
  {
    if ms[0].Ins? && ms[0].op.newID !in d.insLog {
      RoundStepNew(d, ms, d');
    } else {
      RoundStepOld(d, ms, d');
    }
  }

  lemma RoundStepNew(d: Doc, ms: seq<Msg>, d': Doc)
    requires Inv(d) && d.pendIns == map[] && ms != [] && RoundFor(d, ms)
    requires ms[0].Ins? && ms[0].op.newID !in d.insLog && InsertStep(d, ms[0].op, d')
    ensures d'.pendIns == map[] && Integrable(d.list, ms[0].op) && d'.list == Integrate(d.list, ms[0].op)
    ensures d'.insLog.Keys == d.insLog.Keys + {ms[0].op.newID}
    ensures Round(d'.list, NewInserts(d'.insLog.Keys, ms[1..]))
  {
    var op, ops := ms[0].op, NewInserts(d.insLog.Keys, ms);
    NewInsertsNext(d.insLog.Keys, ms);
    assert Fits(d.list, op);
    RoundInsert(d, op, d');
    RoundAfter(d.list, op, ops);
  }

  lemma NewInsertsNext(seen: set<ID>, ms: seq<Msg>)
    requires ms != [] && ms[0].Ins? && ms[0].op.newID !in seen
    requires forall m, m' :: m in ms && m' in ms ==> Agree(m, m')
    ensures ms[0].op in NewInserts(seen, ms)
    ensures NewInserts(seen + {ms[0].op.newID}, ms[1..]) == NewInserts(seen, ms) - {ms[0].op}
  {
    assert ms == [ms[0]] + ms[1..] && ms[0] in ms;
    forall m' | m' in ms[1..]
      ensures Agree(ms[0], m')
    {
      assert m' in ms;
    }
    NewInsertsCons(seen, ms[0], ms[1..]);
  }

  lemma RoundStepOld(d: Doc, ms: seq<Msg>, d': Doc)
    requires Inv(d) && ms != [] && RoundFor(d, ms) && Step(d, ms[0], d')
    requires ms[0].Ins? ==> ms[0].op.newID in d.insLog
    ensures d'.pendIns == d.pendIns && d'.list == d.list && d'.insLog == d.insLog
    ensures Round(d'.list, NewInserts(d'.insLog.Keys, ms[1..]))
  {
    assert ms[0] in ms;
    OldStep(d, ms[0], d');
    NewInsertsOld(d.insLog.Keys, ms);
  }

  lemma OldStep(d: Doc, m: Msg, d': Doc)
    requires Inv(d) && Acceptable(d, m) && Step(d, m, d') && (m.Ins? ==> m.op.newID in d.insLog)
    ensures d'.pendIns == d.pendIns && d'.list == d.list && d'.insLog == d.insLog
  {
    if m.Ins? {
      DuplicateAbsorbed(d, m, d');
    }
  }

  lemma NewInsertsOld(seen: set<ID>, ms: seq<Msg>)
    requires ms != [] && (ms[0].Ins? ==> ms[0].op.newID in seen)
    ensures NewInserts(seen, ms) == NewInserts(seen, ms[1..])
  {
    assert ms == [ms[0]] + ms[1..];
  }

  lemma RoundInsert(d: Doc, op: InsertOp, d': Doc)
    requires d.pendIns == map[] && Fits(d.list, op) && InsertStep(d, op, d')
    ensures Integrable(d.list, op) && d'.list == Integrate(d.list, op) && d'.pendIns == map[]
    ensures d'.insLog.Keys == d.insLog.Keys + {op.newID}
  {
    var mid :| Released(Absorb(d, op), mid) && d' == ApplyPendingDeletes(mid);
    NoReleases(Absorb(d, op), mid);
  }

  /** A whole round: the new inserts end in the list as one delivery, and nothing is pending. */
  lemma {:induction false} RoundRun(d: Doc, ms: seq<Msg>, d': Doc)
    requires Inv(d) && d.pendIns == map[] && RoundFor(d, ms) && Run(d, ms, d')
    ensures Inv(d') && d'.pendIns == map[]
    ensures Deliverable(d.list, Arrivals(d.insLog.Keys, ms)) && d'.list == Deliver(d.list, Arrivals(d.insLog.Keys, ms))
    decreases |ms|
  {
    if ms != [] {
      var mid :| Step(d, ms[0], mid) && Run(mid, ms[1..], d');
      RoundStep(d, ms, mid);
      AcceptableAfter(d, ms, mid);
      RoundRun(mid, ms[1..], d');
      if ms[0].Ins? && ms[0].op.newID !in d.insLog {
        Cons(d.list, ms[0].op, Arrivals(mid.insLog.Keys, ms[1..]));
      }
    }
  }

  /** Receiving a message of a round does not walk off the list. */
  lemma RoundReceives(d: Doc, ms: seq<Msg>)
    requires Inv(d) && d.pendIns == map[] && ms != [] && RoundFor(d, ms)
    ensures SafeToReceive(d, ms[0])
  {
    if ms[0].Ins? && InsertOutcome(d, ms[0].op) == Integrated {
      var op := ms[0].op;
      assert ms[0] in ms && op in NewInserts(d.insLog.Keys, ms);
      assert Fits(d.list, op);
      assert Absorb(d, op).pendIns == map[];
    }
  }

  /** No message of a round walks off the list, whatever the order, the re-sends and the deletes between. */
  lemma {:induction false} RoundSafe(d: Doc, ms: seq<Msg>)
    requires Inv(d) && d.pendIns == map[] && RoundFor(d, ms)
    ensures SafeRun(d, ms)
    decreases |ms|
  {
    if ms != [] {
      RoundReceives(d, ms);
      forall mid | Step(d, ms[0], mid)
        ensures SafeRun(mid, ms[1..])
      {
        RoundStep(d, ms, mid);
        AcceptableAfter(d, ms, mid);
        RoundSafe(mid, ms[1..]);
      }
    }
  }

  /** Two replicas in the same state receive the messages of a round in any two orders: neither walks off its
      list, both come to an end, and they end in the same state, list included, with no insert pending; with
      no delete pending either when every deleted element was there or arrives in the round. */
  lemma RoundAgrees(d: Doc, e: Doc, ms: seq<Msg>, ms': seq<Msg>, d': Doc, e': Doc)
    requires Inv(d) && Inv(e) && SameDocument(d, e) && d.pendIns == map[]
    requires RoundFor(d, ms) && AllAcceptable(e, ms') && SameMessages(ms, ms')
    requires Run(d, ms, d') && Run(e, ms', e')
    ensures Inv(d') && Inv(e') && SameDocument(d', e') && d'.pendIns == map[]
    ensures SafeRun(d, ms) && SafeRun(e, ms')
    ensures d.delLog + DeleteTargets(ms) <= Ids(d.list) + NewIDs(Arrivals(d.insLog.Keys, ms)) ==> d'.pendDel == {}
  {
    var seen := d.insLog.Keys;
    assert NewInserts(seen, ms) == NewInserts(seen, ms');
    hide Inv, Run, Round, NewInserts, Arrivals, Ids, Deliverable, Causal;
    RoundSafe(d, ms);
    RoundSafe(e, ms');
    RoundRun(d, ms, d');
    RoundRun(e, ms', e');
    ArrivalsAre(seen, ms);
    ArrivalsAre(seen, ms');
    RoundConverges(d.list, Arrivals(seen, ms), Arrivals(seen, ms'));
    LogsAgree(d, e, ms, ms', d', e');
    LogsDetermine(d', e');
    NoDeletePending(d, ms, d');
  }

  /** A delete stays pending only when nobody sent its element. */
  lemma NoDeletePending(d: Doc, ms: seq<Msg>, d': Doc)
    requires Inv(d) && d.pendIns == map[] && RoundFor(d, ms) && Run(d, ms, d')
    ensures d.delLog + DeleteTargets(ms) <= Ids(d.list) + NewIDs(Arrivals(d.insLog.Keys, ms)) ==> d'.pendDel == {}
  {
    var s := Arrivals(d.insLog.Keys, ms);
    RoundIsAcceptable(d, ms);
    hide RoundFor, Run, Arrivals, Ids;
    RunKeeps(d, ms, d');
    RoundRun(d, ms, d');
    RoundCausal(d, ms);
    DeliverKeeps(d.list, s);
    TombstonesOf(d');
  }

  lemma RoundCausal(d: Doc, ms: seq<Msg>)
    requires Inv(d) && RoundFor(d, ms)
    ensures Causal(Ids(d.list), Arrivals(d.insLog.Keys, ms))
  {
    ArrivalsAre(d.insLog.Keys, ms);
    RoundDelivers(d.list, Arrivals(d.insLog.Keys, ms));
  }

  /** Rounds one after the other, each fully delivered before the next begins. */
  ghost predicate RoundsFor(d: Doc, rounds: seq<seq<Msg>>)
    decreases |rounds|
  {
    rounds == [] ||
    (RoundFor(d, rounds[0]) && forall mid :: Run(d, rounds[0], mid) ==> RoundsFor(mid, rounds[1..]))
  }

  ghost predicate RunRounds(d: Doc, rounds: seq<seq<Msg>>, d': Doc)
    decreases |rounds|
  {
    if rounds == [] then d' == d else exists mid :: Run(d, rounds[0], mid) && RunRounds(mid, rounds[1..], d')
  }

  ghost predicate SafeRounds(d: Doc, rounds: seq<seq<Msg>>)
    decreases |rounds|
  {
    rounds == [] ||
    (SafeRun(d, rounds[0]) && forall mid :: Run(d, rounds[0], mid) ==> SafeRounds(mid, rounds[1..]))
  }

  ghost predicate SameRounds(rounds: seq<seq<Msg>>, rounds': seq<seq<Msg>>) {
    |rounds| == |rounds'| && forall i :: 0 <= i < |rounds| ==> SameMessages(rounds[i], rounds'[i])
  }

  /** No round of a sequence of rounds walks off the list. */
  lemma {:induction false} RoundsSafe(d: Doc, rounds: seq<seq<Msg>>)
    requires Inv(d) && d.pendIns == map[] && RoundsFor(d, rounds)
    ensures SafeRounds(d, rounds)
    decreases |rounds|
  {
    if rounds != [] {
      RoundSafe(d, rounds[0]);
      forall mid | Run(d, rounds[0], mid)
        ensures SafeRounds(mid, rounds[1..])
      {
        RoundRun(d, rounds[0], mid);
        RoundsSafe(mid, rounds[1..]);
      }
    }
  }

  /** Every sequence of rounds comes to an end. */
  lemma {:induction false} RoundsEnd(d: Doc, rounds: seq<seq<Msg>>) returns (d': Doc)
    requires Inv(d) && d.pendIns == map[] && RoundsFor(d, rounds)
    ensures RunRounds(d, rounds, d')
    decreases |rounds|
  {
    if rounds == [] {
      d' := d;
    } else {
      RoundSafe(d, rounds[0]);
      var mid := SafeRunEnds(d, rounds[0]);
      RoundRun(d, rounds[0], mid);
      d' := RoundsEnd(mid, rounds[1..]);
    }
  }

  /** Concurrent editing in rounds converges, over any number of rounds. */
  lemma {:induction false} RoundsAgree(d: Doc, e: Doc, rounds: seq<seq<Msg>>, rounds': seq<seq<Msg>>, d': Doc, e': Doc)
    requires Inv(d) && Inv(e) && SameDocument(d, e) && d.pendIns == map[]
    requires RoundsFor(d, rounds) && RoundsFor(e, rounds') && SameRounds(rounds, rounds')
    requires RunRounds(d, rounds, d') && RunRounds(e, rounds', e')
    ensures Inv(d') && Inv(e') && SameDocument(d', e') && d'.pendIns == map[]
    decreases |rounds|
  {
    if rounds != [] {
      hide RoundFor, Run, Inv;
      var d1 :| Run(d, rounds[0], d1) && RunRounds(d1, rounds[1..], d');
      var e1 :| Run(e, rounds'[0], e1) && RunRounds(e1, rounds'[1..], e');
      RoundIsAcceptable(e, rounds'[0]);
      RoundAgrees(d, e, rounds[0], rounds'[0], d1, e1);
      RoundsAgree(d1, e1, rounds[1..], rounds'[1..], d', e');
    }
  }

  lemma RoundIsAcceptable(d: Doc, ms: seq<Msg>)
    requires RoundFor(d, ms)
    ensures AllAcceptable(d, ms)
  {
  }

  /** When the new inserts of a round name adjacent elements, every gap of the list before the round ends up
      filled with its siblings in (Clock, ClientID) order. */
  lemma RoundLeavesGapsSorted(d: Doc, ms: seq<Msg>, d': Doc)
    requires Inv(d) && d.pendIns == map[] && AllAcceptable(d, ms)
    requires GapRound(d.list, NewInserts(d.insLog.Keys, ms)) && Run(d, ms, d')
    ensures RoundFor(d, ms) && SafeRun(d, ms) && GapsSorted(d.list, d'.list)
  {
    GapRoundIsRound(d.list, NewInserts(d.insLog.Keys, ms));
    RoundSafe(d, ms);
    RoundRun(d, ms, d');
    ArrivalsAre(d.insLog.Keys, ms);
    GapRoundSorted(d.list, Arrivals(d.insLog.Keys, ms));
  }

  // ----- Rounds made by local edits

  /** What a local edit sends is new to the list and names two adjacent elements of it, as the inserts of a
      round between adjacent elements do. */
  lemma LocalInsertNamesGap(d: Doc, i: int, c: char)
    requires Inv(d) && 0 <= i <= d.counter
    ensures NamesSomeGap(d.list, LocalInsertOp(d, i, c)) && Fits(d.list, LocalInsertOp(d, i, c))
  {
    LocalInsertIsRemote(d, i, c);
    LocalIDFresh(d);
    assert NamesGap(d.list, LocalInsertOp(d, i, c), FindVisible(d.list, d.tomb, 1, i) - 1);
  }

  /** The author of an insert of the round has it in place before any other arrives, and ends in the state
      of everyone else. */
  lemma AuthorAgrees(d: Doc, i: int, c: char, e: Doc, ms: seq<Msg>, ms': seq<Msg>, d': Doc, e': Doc)
    requires Inv(d) && Inv(e) && SameDocument(d, e) && d.pendIns == map[] && 0 <= i <= d.counter
    requires RoundFor(d.(clock := d.clock + 1), [Ins(LocalInsertOp(d, i, c))] + ms)
    requires AllAcceptable(e, ms') && SameMessages([Ins(LocalInsertOp(d, i, c))] + ms, ms')
    requires Run(LocalInsert(d, i, c), ms, d') && Run(e, ms', e')
    ensures Inv(d') && Inv(e') && SameDocument(d', e') && d'.pendIns == map[]
  {
    var m, ticked := Ins(LocalInsertOp(d, i, c)), d.(clock := d.clock + 1);
    LocalInsertIsRemote(d, i, c);
    assert ([m] + ms)[1..] == ms;
    assert Run(ticked, [m] + ms, d');
    hide Inv, Run, Step, RoundFor, LocalInsert, AllAcceptable;
    RoundAgrees(ticked, e, [m] + ms, ms', d', e');
  }
}
