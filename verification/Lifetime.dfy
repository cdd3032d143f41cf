/** The life of one document: local and remote operations in any order. */
module Lifetime {
  import opened Identifiers
  import opened ReplicatedList
  import opened DocumentSpec
  import opened DocumentLaws
  import opened LocalEdits

  /** One operation of the program on a document. */
  ghost predicate Operated(d: Doc, e: Doc)
    requires |d.list| >= 2
  {
    || (exists i: int, c: char :: e == LocalInsert(d, i, c))
    || (exists i: int :: e == LocalDelete(d, i))
    || (exists m :: Acceptable(d, m) && Step(d, m, e))
  }

  /** The states of one document over its life, local and remote operations in any order. */
  ghost predicate Life(states: seq<Doc>) {
    && states != [] && Inv(states[0])
    && forall j :: 0 <= j < |states| - 1 ==> |states[j].list| >= 2 && Operated(states[j], states[j + 1])
  }

  ghost predicate KnowsMore(d: Doc, e: Doc) {
    Ids(d.list) <= Ids(e.list) && d.insLog.Keys <= e.insLog.Keys && d.delLog <= e.delLog
  }

  lemma OperationAdds(d: Doc, e: Doc)
    requires Inv(d) && Operated(d, e)
    ensures Inv(e) && KnowsMore(d, e)
  {
    assert |d.list| >= 2;
    hide Inv, KnowsMore, Step, Acceptable, LocalInsert, LocalDelete;
    if m :| Acceptable(d, m) && Step(d, m, e) {
      StepAdds(d, m, e);
    } else if i: int, c: char :| e == LocalInsert(d, i, c) {
      LocalInsertAdds(d, i, c);
    } else {
      var i: int :| e == LocalDelete(d, i);
      LocalEditsKeep(d, i, '\0');
      assert KnowsMore(d, e) by {
        LocalDeleteAdds(d, i);
      }
    }
  }

  lemma StepAdds(d: Doc, m: Msg, e: Doc)
    requires Inv(d) && Acceptable(d, m) && Step(d, m, e)
    ensures Inv(e) && KnowsMore(d, e)
  {
    hide Inv, Acceptable, Step;
    StepKeeps(d, m, e);
    StepKeepsOrder(d, m, e);
  }

  lemma LocalInsertAdds(d: Doc, i: int, c: char)
    requires Inv(d)
    ensures Inv(LocalInsert(d, i, c)) && KnowsMore(d, LocalInsert(d, i, c))
  {
    if 0 <= i <= d.counter {
      LocalInsertIsRemote(d, i, c);
      StepAdds(d.(clock := d.clock + 1), Ins(LocalInsertOp(d, i, c)), LocalInsert(d, i, c));
    }
  }

  lemma LocalDeleteAdds(d: Doc, i: int)
    requires |d.list| >= 2
    ensures KnowsMore(d, LocalDelete(d, i))
  {
  }

  lemma {:induction false} KeysOnlyGrow(states: seq<Doc>, j: nat)
    requires Life(states) && j < |states|
    ensures Inv(states[j]) && KnowsMore(states[0], states[j])
  {
    if j > 0 {
      KeysOnlyGrow(states, j - 1);
      assert Operated(states[j - 1], states[j - 1 + 1]);
      OperationAdds(states[j - 1], states[j]);
    }
  }

  // ----- The client's own clocks

  /** Every clock below the counter has been used for an insert. */
  ghost predicate OwnClocksFull(d: Doc) {
    forall k :: 0 <= k < d.clock ==> ID(d.clientID, k) in d.insLog
  }

  lemma OperationKeepsClocks(d: Doc, e: Doc)
    requires Inv(d) && Operated(d, e) && OwnClocksFull(d)
    ensures OwnClocksFull(e) && e.clientID == d.clientID
  {
    assert |d.list| >= 2;
    hide Inv, Step, Acceptable, LocalInsert, LocalDelete, OwnClocksFull;
    if m :| Acceptable(d, m) && Step(d, m, e) {
      StepKeepsClocks(d, m, e);
    } else if i: int, c: char :| e == LocalInsert(d, i, c) {
      LocalKeepsClocks(d, i, c);
    } else {
      var i: int :| e == LocalDelete(d, i);
      LocalKeepsClocks(d, i, '\0');
    }
  }

  lemma StepKeepsClocks(d: Doc, m: Msg, e: Doc)
    requires Inv(d) && Acceptable(d, m) && Step(d, m, e) && OwnClocksFull(d)
    ensures OwnClocksFull(e) && e.clientID == d.clientID
  {
    hide Inv, Step, Acceptable;
    StepKeeps(d, m, e);
  }

  lemma LocalKeepsClocks(d: Doc, i: int, c: char)
    requires |d.list| >= 2 && OwnClocksFull(d)
    ensures OwnClocksFull(LocalInsert(d, i, c)) && LocalInsert(d, i, c).clientID == d.clientID
    ensures OwnClocksFull(LocalDelete(d, i)) && LocalDelete(d, i).clientID == d.clientID
  {
    hide FindVisible;
  }

  /** From a new document on, whatever happens, the client's own clocks have no hole: it has logged exactly
      the inserts with clocks below its counter. Refused edits use up no clock. */
  lemma {:induction false} OwnClocksHaveNoHole(a: string, states: seq<Doc>, j: nat)
    requires Life(states) && states[0] == NewDoc(a) && j < |states|
    ensures var d := states[j];
            && d.clientID == a && d.clock >= 0 && OwnClocksFull(d)
            && forall k :: ID(a, k) in d.insLog <==> 0 <= k < d.clock
  {
    KeysOnlyGrow(states, j);
    if j > 0 {
      OwnClocksHaveNoHole(a, states, j - 1);
      KeysOnlyGrow(states, j - 1);
      assert Operated(states[j - 1], states[j - 1 + 1]);
      OperationKeepsClocks(states[j - 1], states[j]);
    }
    OwnClocksBounded(states[j]);
  }

  lemma OwnClocksBounded(d: Doc)
    requires Inv(d)
    ensures d.clock >= 0 && forall k :: ID(d.clientID, k) in d.insLog ==> 0 <= k < d.clock
  {
    forall k | ID(d.clientID, k) in d.insLog
      ensures 0 <= k < d.clock
    {
      assert Real(ID(d.clientID, k)) && OpNotAhead(d.clientID, d.clock, d.insLog[ID(d.clientID, k)]);
    }
  }
}
