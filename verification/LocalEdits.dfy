/** Local edits address characters by visible index. */
module LocalEdits {
  import opened Identifiers
  import opened ReplicatedList
  import opened DocumentSpec

  /** The walk to the `i`-th visible element from index `k` on; END when there is none. */
  function FindVisible(l: seq<Elem>, tomb: set<ID>, k: nat, i: nat): (r: nat)
    requires k < |l|
    ensures k <= r < |l|
    decreases |l| - k
  {
    if k == |l| - 1 then k
    else if l[k].id in tomb then FindVisible(l, tomb, k + 1, i)
    else if i == 0 then k
    else FindVisible(l, tomb, k + 1, i - 1)
  }

  ghost function LocalInsertOp(d: Doc, i: nat, c: char): InsertOp
    requires |d.list| >= 2
  {
    var k := FindVisible(d.list, d.tomb, 1, i);
    InsertOp(ID(d.clientID, d.clock), d.list[k - 1].id, d.list[k].id, c)
  }

  /** `InsertElement`; an index outside the text is refused. */
  ghost function LocalInsert(d: Doc, i: int, c: char): Doc
    requires |d.list| >= 2
  {
    if i < 0 || i > d.counter then d
    else
      var op := LocalInsertOp(d, i, c);
      d.(list := InsertAt(d.list, FindVisible(d.list, d.tomb, 1, i), NewElem(op)),
         insLog := d.insLog[op.newID := op],
         counter := d.counter + 1,
         clock := d.clock + 1)
  }

  /** `Delete`. */
  ghost function LocalDelete(d: Doc, i: int): Doc
    requires |d.list| >= 2
  {
    if i < 0 || i >= d.counter then d
    else
      var id := d.list[FindVisible(d.list, d.tomb, 1, i)].id;
      d.(tomb := d.tomb + {id}, counter := d.counter - 1, delLog := d.delLog + {id})
  }

  /** The walk stops behind exactly `i` visible elements: at the next visible one, or at END behind all of them,
      never at a tombstone. */
  lemma {:induction false} FindVisibleIs(l: seq<Elem>, tomb: set<ID>, k: nat, i: nat)
    requires 0 < k < |l| && i <= |Visible(l[k..|l| - 1], tomb)|
    ensures var r := FindVisible(l, tomb, k, i);
            && |Visible(l[k..r], tomb)| == i
            && (i < |Visible(l[k..|l| - 1], tomb)| ==> r < |l| - 1 && l[r].id !in tomb)
            && (i == |Visible(l[k..|l| - 1], tomb)| ==> r == |l| - 1)
    decreases |l| - k
  {
    var n := |l| - 1;
    if k < n {
      VisibleHead(l, k, n, tomb);
      var r := FindVisible(l, tomb, k, i);
      if l[k].id in tomb {
        FindVisibleIs(l, tomb, k + 1, i);
        VisibleHead(l, k, r, tomb);
      } else if i > 0 {
        FindVisibleIs(l, tomb, k + 1, i - 1);
        VisibleHead(l, k, r, tomb);
      }
    }
  }

  lemma VisibleHead(l: seq<Elem>, k: nat, n: nat, tomb: set<ID>)
    requires k < n <= |l|
    ensures Visible(l[k..n], tomb) == (if l[k].id in tomb then [] else [l[k].content]) + Visible(l[k + 1..n], tomb)
  {
    assert l[k..n][1..] == l[k + 1..n];
  }

  /** A local insert types its character at the given index of the text, for any layout of tombstones. */
  lemma LocalInsertText(d: Doc, i: int, c: char)
    requires Inv(d) && 0 <= i <= d.counter
    ensures |LocalInsert(d, i, c).list| >= 2 && d.counter == |Text(d)|
    ensures Text(LocalInsert(d, i, c)) == Text(d)[..i] + [c] + Text(d)[i..]
  {
    assert LocalInsert(d, i, c).list == InsertAt(d.list, FindVisible(d.list, d.tomb, 1, i), NewElem(LocalInsertOp(d, i, c)));
    LocalIDFresh(d);
    TypeAt(d.list, d.tomb, i, NewElem(LocalInsertOp(d, i, c)));
  }

  lemma TypeAt(l: seq<Elem>, tomb: set<ID>, i: nat, e: Elem)
    requires |l| >= 2 && i <= |Visible(l[1..|l| - 1], tomb)| && e.id !in tomb
    ensures var t, r := Visible(l[1..|l| - 1], tomb), InsertAt(l, FindVisible(l, tomb, 1, i), e);
            Visible(r[1..|r| - 1], tomb) == t[..i] + [e.content] + t[i..]
  {
    FindVisibleIs(l, tomb, 1, i);
    TextAfterInsert(l, FindVisible(l, tomb, 1, i), e, tomb);
  }

  /** A local delete removes the character at the given index of the text. */
  lemma LocalDeleteText(d: Doc, i: int)
    requires Inv(d) && 0 <= i < d.counter
    ensures |LocalDelete(d, i).list| >= 2 && d.counter == |Text(d)|
    ensures Text(LocalDelete(d, i)) == Text(d)[..i] + Text(d)[i + 1..]
  {
    CountedText(d);
    hide Inv, Visible, FindVisible, Distinct;
    RemoveAt(d.list, d.tomb, i);
  }

  lemma CountedText(d: Doc)
    requires Inv(d)
    ensures Distinct(d.list) && |d.list| >= 2 && d.counter == |Text(d)|
  {
  }

  lemma RemoveAt(l: seq<Elem>, tomb: set<ID>, i: nat)
    requires Distinct(l) && |l| >= 2 && i < |Visible(l[1..|l| - 1], tomb)|
    ensures var t := Visible(l[1..|l| - 1], tomb);
            Visible(l[1..|l| - 1], tomb + {l[FindVisible(l, tomb, 1, i)].id}) == t[..i] + t[i + 1..]
  {
    FindVisibleIs(l, tomb, 1, i);
    TextAfterDelete(l, FindVisible(l, tomb, 1, i), tomb);
  }

  lemma LocalIDFresh(d: Doc)
    requires Inv(d)
    ensures var id := ID(d.clientID, d.clock);
            Real(id) && id !in d.insLog && id !in Ids(d.list) && id !in d.delLog && id !in d.tomb
  {
    var id := ID(d.clientID, d.clock);
    forall k | k in d.insLog
      ensures NotAhead(d.clientID, d.clock, k)
    {
      assert OpNotAhead(d.clientID, d.clock, d.insLog[k]);
    }
    assert d.insLog.Keys == (Ids(d.list) - {START, END}) + d.pendIns.Keys;
  }

  lemma OwnIdsFreshLater(clientID: string, clock: int, insLog: map<ID, InsertOp>, delLog: set<ID>)
    requires OwnIdsFresh(clientID, clock, insLog, delLog)
    ensures OwnIdsFresh(clientID, clock + 1, insLog, delLog)
  {
    forall k | k in insLog
      ensures OpNotAhead(clientID, clock + 1, insLog[k])
    {
      assert OpNotAhead(clientID, clock, insLog[k]);
    }
  }

  /** A local insert has the effect of remotely integrating the operation it logs, on this replica itself:
      same list, same logs, nothing released. */
  lemma LocalInsertIsRemote(d: Doc, i: int, c: char)
    requires Inv(d) && 0 <= i <= d.counter
    ensures var op, ticked := LocalInsertOp(d, i, c), d.(clock := d.clock + 1);
            && Inv(ticked) && Acceptable(ticked, Ins(op)) && op.newID !in d.insLog
            && Integrable(d.list, op) && Absorb(ticked, op) == LocalInsert(d, i, c)
            && Step(ticked, Ins(op), LocalInsert(d, i, c))
  {
    var op, ticked, d' := LocalInsertOp(d, i, c), d.(clock := d.clock + 1), LocalInsert(d, i, c);
    LocalIDFresh(d);
    LocalInsertAbsorbs(d, i, c);
    LocalInsertAcceptable(d, op);
    AbsorbCore(ticked, op);
    LocalInsertSettled(d, op);
    NothingToRelease(ticked, op);
  }

  lemma LocalInsertAcceptable(d: Doc, op: InsertOp)
    requires Inv(d) && op.newID == ID(d.clientID, d.clock) && Ready(Ids(d.list), op)
    ensures Inv(d.(clock := d.clock + 1)) && Acceptable(d.(clock := d.clock + 1), Ins(op))
  {
    hide WellFormed, InsertLogExact, ElementsLogged, Grounded, DeleteLogExact, Counted, NoneReady, Ids;
    LocalIDFresh(d);
    OwnIdsFreshLater(d.clientID, d.clock, d.insLog, d.delLog);
    NeighbourNotAhead(d, op.originID);
    NeighbourNotAhead(d, op.rightID);
  }

  lemma NothingToRelease(d: Doc, op: InsertOp)
    requires InsertOutcome(d, op) == Integrated && Integrable(d.list, op)
    requires Saturated(Absorb(d, op)) && d.pendDel !! Ids(Absorb(d, op).list)
    ensures InsertStep(d, op, Absorb(d, op))
  {
    var d' := Absorb(d, op);
    assert Released(d', d');
    assert d'.pendDel * Ids(d'.list) == {};
    assert ApplyPendingDeletes(d') == d';
  }

  lemma LocalInsertAbsorbs(d: Doc, i: int, c: char)
    requires Inv(d) && 0 <= i <= d.counter
    ensures var op := LocalInsertOp(d, i, c);
            && Integrable(d.list, op) && Absorb(d.(clock := d.clock + 1), op) == LocalInsert(d, i, c)
  {
    LocalIDFresh(d);
    TypedIntegrates(d.list, LocalInsertOp(d, i, c), FindVisible(d.list, d.tomb, 1, i));
    hide Inv, FindVisible, Integrable, Integrate, Ids;
    WithoutAbsent(d, ID(d.clientID, d.clock));
  }

  lemma TypedIntegrates(l: seq<Elem>, op: InsertOp, k: nat)
    requires WellFormed(l) && 0 < k < |l| && op.originID == l[k - 1].id && op.rightID == l[k].id && op.newID !in Ids(l)
    ensures Integrable(l, op) && Integrate(l, op) == InsertAt(l, k, NewElem(op))
  {
    IntegrateAdjacent(l, op, k);
  }

  lemma WithoutAbsent(d: Doc, id: ID)
    requires Inv(d) && id !in d.insLog
    ensures d.pendIns - {id} == d.pendIns
  {
  }

  lemma NeighbourNotAhead(d: Doc, x: ID)
    requires Inv(d) && x in Ids(d.list)
    ensures NotAhead(d.clientID, d.clock + 1, x)
  {
    if x != START && x != END {
      assert x in d.insLog && OpNotAhead(d.clientID, d.clock, d.insLog[x]);
    }
  }

  /** No pending operation waits for an identifier that is only now being generated. */
  lemma LocalInsertSettled(d: Doc, op: InsertOp)
    requires Inv(d) && op.newID == ID(d.clientID, d.clock)
    ensures NoneReady(Ids(d.list) + {op.newID}, d.pendIns - {op.newID})
    ensures op.newID !in d.pendDel
  {
    forall k | k in d.pendIns
      ensures !Ready(Ids(d.list) + {op.newID}, d.pendIns[k])
    {
      assert d.pendIns[k] == d.insLog[k] && OpNotAhead(d.clientID, d.clock, d.insLog[k]);
    }
    assert op.newID in d.delLog ==> NotAhead(d.clientID, d.clock, op.newID);
  }

  /** A local delete has the effect of remotely deleting the element it names. */
  lemma LocalDeleteIsRemote(d: Doc, i: int)
    requires Inv(d) && 0 <= i < d.counter
    ensures var id := d.list[FindVisible(d.list, d.tomb, 1, i)].id;
            && Acceptable(d, Del(id)) && id !in d.delLog && Step(d, Del(id), LocalDelete(d, i))
  {
    var k := FindVisible(d.list, d.tomb, 1, i);
    FindVisibleIs(d.list, d.tomb, 1, i);
    var id := d.list[k].id;
    assert Real(id) && id in Ids(d.list);
    assert id in d.insLog && OpNotAhead(d.clientID, d.clock, d.insLog[id]);
  }

  /** Local edits keep the invariant. */
  lemma LocalEditsKeep(d: Doc, i: int, c: char)
    requires Inv(d)
    ensures Inv(LocalInsert(d, i, c)) && Inv(LocalDelete(d, i))
  {
    if 0 <= i <= d.counter {
      LocalInsertIsRemote(d, i, c);
      StepKeeps(d.(clock := d.clock + 1), Ins(LocalInsertOp(d, i, c)), LocalInsert(d, i, c));
    }
    if 0 <= i < d.counter {
      LocalDeleteIsRemote(d, i);
      StepKeeps(d, Del(d.list[FindVisible(d.list, d.tomb, 1, i)].id), LocalDelete(d, i));
    }
  }
}
