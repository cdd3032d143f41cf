/** The state vector, the delete set and the delta computed against them. Every loop over a map visits its
    keys in an arbitrary order. */
module Sync {
  import opened Identifiers
  import opened ReplicatedList
  import D = Document

  predicate SentinelClient(c: string) {
    c == "START" || c == "END"
  }

  /** All clocks 0..m of the client are in the log. */
  ghost predicate Contiguous(log: map<ID, InsertOp>, c: string, m: int) {
    forall i :: 0 <= i <= m ==> ID(c, i) in log
  }

  ghost predicate ClocksCounted(log: map<ID, InsertOp>) {
    forall k :: k in log && !SentinelClient(k.clientID) ==> k.clock >= 0
  }

  /** Each client whose clock 0 is logged, with the largest m such that all of 0..m are logged. */
  ghost predicate IsStateVector(v: map<string, int>, log: map<ID, InsertOp>) {
    && (forall c :: c in v <==> !SentinelClient(c) && ID(c, 0) in log)
    && (forall c :: c in v ==> v[c] >= 0 && Contiguous(log, c, v[c]) && ID(c, v[c] + 1) !in log)
  }

  /** Each client with the largest of its logged clocks up to which all clocks from 0 on are logged. */
  ghost predicate Advertises(v: map<string, int>, log: map<ID, InsertOp>) {
    && (forall c :: c in v ==> !SentinelClient(c) && ID(c, v[c]) in log && Contiguous(log, c, v[c]))
    && (forall k :: k in log && !SentinelClient(k.clientID) && Contiguous(log, k.clientID, k.clock) ==>
          k.clientID in v && k.clock <= v[k.clientID])
  }

  /** With clocks that count from 0 this is the contiguous prefix, and a client is left out exactly when its
      clock 0 is missing. */
  lemma AdvertisesPrefix(v: map<string, int>, log: map<ID, InsertOp>)
    requires ClocksCounted(log) && Advertises(v, log)
    ensures IsStateVector(v, log)
  {
    forall c
      ensures c in v <==> !SentinelClient(c) && ID(c, 0) in log
      ensures c in v ==> ID(c, v[c] + 1) !in log && v[c] >= 0
    {
      if c in v {
        assert ID(c, v[c]) in log;
        assert ID(c, v[c] + 1) in log ==> Contiguous(log, c, v[c] + 1);
      }
      assert ID(c, 0) in log ==> Contiguous(log, c, 0);
    }
  }

  ghost predicate StrictlySorted(s: seq<int>) {
    forall i, j :: 0 <= i < j < |s| ==> s[i] < s[j]
  }

  /** Each client with a logged delete, with the clocks of its deletes in increasing order. */
  ghost predicate IsDeleteSet(v: map<string, seq<int>>, log: set<ID>) {
    && (forall c :: c in v ==> v[c] != [] && StrictlySorted(v[c]))
    && (forall k :: k in log <==> k.clientID in v && k.clock in v[k.clientID])
  }

  // ----- `sort.Ints`, as far as it is specified

  ghost predicate Sorted(s: seq<int>) {
    forall i, j :: 0 <= i < j < |s| ==> s[i] <= s[j]
  }

  function InsertSorted(x: int, s: seq<int>): (r: seq<int>)
    ensures multiset(r) == multiset(s) + multiset{x}
  {
    if s == [] || x <= s[0] then [x] + s
    else
      assert s == [s[0]] + s[1..];
      [s[0]] + InsertSorted(x, s[1..])
  }

  lemma {:induction false} InsertSortedKeeps(x: int, s: seq<int>)
    requires Sorted(s)
    ensures Sorted(InsertSorted(x, s))
  {
    if s != [] && x > s[0] {
      var t := InsertSorted(x, s[1..]);
      InsertSortedKeeps(x, s[1..]);
      forall i | 0 <= i < |t|
        ensures s[0] <= t[i]
      {
        assert t[i] in multiset(t);
        assert t[i] == x || t[i] in s[1..];
      }
    }
  }

  function SortInts(s: seq<int>): (r: seq<int>)
    ensures multiset(r) == multiset(s) && Sorted(r)
  {
    if s == [] then []
    else
      assert s == [s[0]] + s[1..];
      InsertSortedKeeps(s[0], SortInts(s[1..]));
      InsertSorted(s[0], SortInts(s[1..]))
  }

  ghost predicate NoDuplicates(s: seq<int>) {
    forall x :: multiset(s)[x] <= 1
  }

  lemma SortedStrictly(s: seq<int>)
    requires Sorted(s) && NoDuplicates(s)
    ensures StrictlySorted(s)
  {
    forall i, j | 0 <= i < j < |s|
      ensures s[i] < s[j]
    {
      assert s == s[..i] + [s[i]] + s[i + 1..];
      assert s[j] == s[i + 1..][j - i - 1];
      assert multiset(s)[s[i]] == multiset(s[..i])[s[i]] + 1 + multiset(s[i + 1..])[s[i]];
    }
  }

  // ----- The vector

  method ValidateClockContinuity(log: map<ID, InsertOp>, idClient: string, maxClock: int) returns (ok: bool)
    ensures ok <==> Contiguous(log, idClient, maxClock)
  {
    var i := 0;
    while i <= maxClock
      invariant 0 <= i && forall j :: 0 <= j < i ==> ID(idClient, j) in log
      decreases maxClock - i
    {
      if ID(idClient, i) !in log {
        return false;
      }
      i := i + 1;
    }
    return true;
  }

  class Vector {
    var stateVectors: map<string, int>
    var deleteSet: map<string, seq<int>>

    constructor (stateVector: map<string, int>, deleteSet: map<string, seq<int>>)
      ensures stateVectors == stateVector && this.deleteSet == deleteSet
    {
      this.stateVectors, this.deleteSet := stateVector, deleteSet;
    }

    method GenerateStateVector(elements: D.Document)
      modifies this`stateVectors
      ensures Advertises(stateVectors, elements.insertLog)
      ensures ClocksCounted(elements.insertLog) ==> IsStateVector(stateVectors, elements.insertLog)
    {
      stateVectors := map[];
      ghost var log, done := elements.insertLog, {};
      var todo := elements.insertLog.Keys;
      while todo != {}
        invariant done !! todo && done + todo == log.Keys
        invariant forall c :: c in stateVectors ==> !SentinelClient(c) && ID(c, stateVectors[c]) in log && Contiguous(log, c, stateVectors[c])
        invariant forall k :: k in done && !SentinelClient(k.clientID) && Contiguous(log, k.clientID, k.clock) ==>
                    k.clientID in stateVectors && k.clock <= stateVectors[k.clientID]
        decreases todo
      {
        var k :| k in todo;
        todo, done := todo - {k}, done + {k};
        if !SentinelClient(k.clientID) {
          var known := k.clientID in stateVectors;
          var value := if known then stateVectors[k.clientID] else 0;
          var continuous := ValidateClockContinuity(elements.insertLog, k.clientID, k.clock);
          if continuous {
            if !known {
              stateVectors := stateVectors[k.clientID := k.clock];
            } else if k.clock > value {
              stateVectors := stateVectors[k.clientID := k.clock];
            }
          }
        }
      }
      if ClocksCounted(log) {
        AdvertisesPrefix(stateVectors, log);
      }
    }

    method GenerateDeleteSet(deletes: D.Document)
      modifies this`deleteSet
      ensures IsDeleteSet(deleteSet, deletes.deleteLog)
    {
      deleteSet := map[];
      ghost var log, done := deletes.deleteLog, {};
      var todo := deletes.deleteLog;
      while todo != {}
        invariant done !! todo && done + todo == log
        invariant forall c :: c in deleteSet ==> deleteSet[c] != [] && NoDuplicates(deleteSet[c])
        invariant forall k :: k in done <==> k.clientID in deleteSet && k.clock in deleteSet[k.clientID]
        decreases todo
      {
        var k :| k in todo;
        var clocks := if k.clientID in deleteSet then deleteSet[k.clientID] else [];
        assert k !in done && k.clock !in clocks;
        AppendNoDuplicates(clocks, k.clock);
        deleteSet := deleteSet[k.clientID := clocks + [k.clock]];
        todo, done := todo - {k}, done + {k};
      }
      SortClocks();
    }

    method SortClocks()
      modifies this`deleteSet
      requires forall c :: c in deleteSet ==> deleteSet[c] != [] && NoDuplicates(deleteSet[c])
      ensures deleteSet.Keys == old(deleteSet.Keys)
      ensures forall c :: c in deleteSet ==> deleteSet[c] != [] && StrictlySorted(deleteSet[c])
      ensures forall c, x :: c in deleteSet ==> (x in deleteSet[c] <==> x in old(deleteSet)[c])
    {
      var todo := deleteSet.Keys;
      ghost var before := deleteSet;
      while todo != {}
        invariant deleteSet.Keys == before.Keys && todo <= before.Keys
        invariant forall c :: c in todo ==> deleteSet[c] == before[c]
        invariant forall c :: c in before && c !in todo ==> deleteSet[c] == SortInts(before[c])
        decreases todo
      {
        var c :| c in todo;
        todo := todo - {c};
        deleteSet := deleteSet[c := SortInts(deleteSet[c])];
      }
      forall c | c in deleteSet
        ensures deleteSet[c] != [] && StrictlySorted(deleteSet[c])
        ensures forall x :: x in deleteSet[c] <==> x in before[c]
      {
        SortedClocks(before[c]);
      }
    }
  }

  lemma SortedClocks(s: seq<int>)
    requires s != [] && NoDuplicates(s)
    ensures SortInts(s) != [] && StrictlySorted(SortInts(s))
    ensures forall x :: x in SortInts(s) <==> x in s
  {
    var r := SortInts(s);
    assert s[0] in multiset(s) && s[0] in multiset(r);
    assert forall x :: multiset(r)[x] == multiset(s)[x];
    SortedStrictly(r);
    forall x
      ensures x in r <==> x in s
    {
      assert x in r <==> x in multiset(r);
      assert x in s <==> x in multiset(s);
    }
  }

  lemma AppendNoDuplicates(s: seq<int>, x: int)
    requires NoDuplicates(s) && x !in s
    ensures NoDuplicates(s + [x])
  {
    assert x !in multiset(s);
  }

  // ----- The delta

  ghost predicate MissingInsert(v: map<string, int>, k: ID) {
    !SentinelClient(k.clientID) && (k.clientID in v ==> k.clock > v[k.clientID])
  }

  ghost predicate MissingDelete(v: map<string, seq<int>>, k: ID) {
    !SentinelClient(k.clientID) && (k.clientID in v ==> k.clock !in v[k.clientID])
  }

  ghost predicate Once(s: seq<ID>) {
    forall i, j :: 0 <= i < j < |s| ==> s[i] != s[j]
  }

  method DeleteExists(knownDeletes: seq<int>, clock: int) returns (known: bool)
    ensures known <==> clock in knownDeletes
  {
    var i := 0;
    while i < |knownDeletes|
      invariant 0 <= i <= |knownDeletes| && clock !in knownDeletes[..i]
    {
      if knownDeletes[i] == clock {
        return true;
      }
      i := i + 1;
    }
    return false;
  }

  /** `ComputeDelta`: exactly the identifiers the vector does not cover, each once, in some order. */
  method ComputeDelta(localDocument: D.Document, vector: Vector) returns (missingInserts: seq<ID>, missingDeletes: seq<ID>)
    ensures forall k :: k in missingInserts <==> k in localDocument.insertLog && MissingInsert(vector.stateVectors, k)
    ensures forall k :: k in missingDeletes <==> k in localDocument.deleteLog && MissingDelete(vector.deleteSet, k)
    ensures Once(missingInserts) && Once(missingDeletes)
    ensures forall k :: k in missingInserts && k.clientID in vector.stateVectors ==> k.clock > vector.stateVectors[k.clientID]
    ensures forall k :: k in missingDeletes && k.clientID in vector.deleteSet ==> k.clock !in vector.deleteSet[k.clientID]
    ensures forall k :: k in missingInserts || k in missingDeletes ==> k.clientID != "START" && k.clientID != "END"
  {
    missingInserts, missingDeletes := [], [];
    ghost var done := {};
    var todo := localDocument.insertLog.Keys;
    while todo != {}
      invariant done !! todo && done + todo == localDocument.insertLog.Keys
      invariant forall k :: k in missingInserts <==> k in done && MissingInsert(vector.stateVectors, k)
      invariant Once(missingInserts)
      decreases todo
    {
      var k :| k in todo;
      todo, done := todo - {k}, done + {k};
      assert k !in missingInserts;
      if !SentinelClient(k.clientID) {
        if k.clientID !in vector.stateVectors {
          missingInserts := missingInserts + [k];
        } else if k.clock > vector.stateVectors[k.clientID] {
          missingInserts := missingInserts + [k];
        }
      }
    }
    done := {};
    todo := localDocument.deleteLog;
    while todo != {}
      invariant done !! todo && done + todo == localDocument.deleteLog
      invariant forall k :: k in missingDeletes <==> k in done && MissingDelete(vector.deleteSet, k)
      invariant Once(missingDeletes)
      decreases todo
    {
      var k :| k in todo;
      todo, done := todo - {k}, done + {k};
      assert k !in missingDeletes;
      if !SentinelClient(k.clientID) {
        if k.clientID !in vector.deleteSet {
          missingDeletes := missingDeletes + [k];
        } else {
          var known := DeleteExists(vector.deleteSet[k.clientID], k.clock);
          if !known {
            missingDeletes := missingDeletes + [k];
          }
        }
      }
    }
  }

  /** The logged inserts of the given identifiers, in the given order. */
  ghost function Logged(log: map<ID, InsertOp>, ids: seq<ID>): (r: seq<InsertOp>)
    ensures forall op :: op in r <==> exists k :: k in ids && k in log && log[k] == op
  {
    if ids == [] then []
    else
      var n := |ids| - 1;
      assert ids == ids[..n] + [ids[n]];
      Logged(log, ids[..n]) + (if ids[n] in log then [log[ids[n]]] else [])
  }

  ghost function Kept(log: set<ID>, ids: seq<ID>): (r: seq<ID>)
    ensures forall k :: k in r <==> k in ids && k in log
  {
    if ids == [] then []
    else
      var n := |ids| - 1;
      assert ids == ids[..n] + [ids[n]];
      Kept(log, ids[..n]) + (if ids[n] in log then [ids[n]] else [])
  }

  /** `ComputeSerializedDelta`. */
  method ComputeSerializedDelta(localDocument: D.Document, missingInserts: seq<ID>, missingDeletes: seq<ID>)
    returns (inserts: seq<InsertOp>, deletes: seq<ID>)
    ensures inserts == Logged(localDocument.insertLog, missingInserts)
    ensures deletes == Kept(localDocument.deleteLog, missingDeletes)
  {
    inserts, deletes := [], [];
    var i := 0;
    while i < |missingInserts|
      invariant 0 <= i <= |missingInserts| && inserts == Logged(localDocument.insertLog, missingInserts[..i])
    {
      assert missingInserts[..i + 1][..i] == missingInserts[..i];
      if missingInserts[i] in localDocument.insertLog {
        inserts := inserts + [localDocument.insertLog[missingInserts[i]]];
      }
      i := i + 1;
    }
    assert missingInserts[..i] == missingInserts;
    i := 0;
    while i < |missingDeletes|
      invariant 0 <= i <= |missingDeletes| && deletes == Kept(localDocument.deleteLog, missingDeletes[..i])
    {
      assert missingDeletes[..i + 1][..i] == missingDeletes[..i];
      if missingDeletes[i] in localDocument.deleteLog {
        deletes := deletes + [missingDeletes[i]];
      }
      i := i + 1;
    }
    assert missingDeletes[..i] == missingDeletes;
  }

  // ----- What a delta covers

  lemma LargestContiguous(log: map<ID, InsertOp>, c: string, m: int, n: int)
    requires m >= -1 && ID(c, m + 1) !in log
    ensures Contiguous(log, c, n) ==> n <= m
  {
    assert n > m ==> (Contiguous(log, c, n) ==> ID(c, m + 1) in log);
  }

  /** The vector is exact: two vectors of the same log are equal. */
  lemma StateVectorUnique(v: map<string, int>, w: map<string, int>, log: map<ID, InsertOp>)
    requires IsStateVector(v, log) && IsStateVector(w, log)
    ensures v == w
  {
    forall c | c in v
      ensures c in w && v[c] == w[c]
    {
      LargestContiguous(log, c, v[c], w[c]);
      LargestContiguous(log, c, w[c], v[c]);
    }
  }

  /** Everything the vector omits is in the log it was made from: an insert not sent is one the peer has. */
  lemma OmittedIsKnown(v: map<string, int>, peerLog: map<ID, InsertOp>, k: ID)
    requires IsStateVector(v, peerLog) && !SentinelClient(k.clientID) && k.clock >= 0
    ensures k !in peerLog ==> MissingInsert(v, k)
    ensures !MissingInsert(v, k) ==> k in peerLog
  {
    if k.clientID in v && k.clock <= v[k.clientID] {
      assert ID(k.clientID, k.clock) in peerLog;
    }
  }

  /** The missing deletes are exactly those the peer has not logged. */
  lemma MissingDeletesExact(v: map<string, seq<int>>, peerLog: set<ID>, k: ID)
    requires IsDeleteSet(v, peerLog) && !SentinelClient(k.clientID)
    ensures MissingDelete(v, k) <==> k !in peerLog
  {
  }

  /** Some clock of the client up to that of `k` is not in the log. */
  ghost predicate GapUpTo(log: map<ID, InsertOp>, k: ID) {
    exists j :: 0 <= j <= k.clock && ID(k.clientID, j) !in log
  }

  /** Exactly what is sent for an exact vector: an insert goes out if and only if the peer lacks it or an
      earlier one of the same client. */
  lemma SentExactly(v: map<string, int>, peerLog: map<ID, InsertOp>, k: ID)
    requires IsStateVector(v, peerLog) && !SentinelClient(k.clientID) && k.clock >= 0
    ensures MissingInsert(v, k) <==> GapUpTo(peerLog, k)
  {
    if k.clientID in v {
      assert k.clock > v[k.clientID] ==> ID(k.clientID, v[k.clientID] + 1) !in peerLog;
      assert forall j :: 0 <= j <= v[k.clientID] ==> ID(k.clientID, j) in peerLog;
    } else {
      assert ID(k.clientID, 0) !in peerLog;
    }
  }

  /** A delta against one's own vector has no insert if and only if one's log has no gap. */
  lemma NothingForOneself(v: map<string, int>, log: map<ID, InsertOp>)
    requires IsStateVector(v, log) && ClocksCounted(log)
    ensures (forall k :: k in log ==> !MissingInsert(v, k)) <==>
            (forall k :: k in log && !SentinelClient(k.clientID) ==> !GapUpTo(log, k))
  {
    forall k | k in log && !SentinelClient(k.clientID)
      ensures MissingInsert(v, k) <==> GapUpTo(log, k)
    {
      SentExactly(v, log, k);
    }
  }

  // ----- What is serialized

  /** Logged identifiers are serialized one by one, in their order; others are passed over. */
  lemma {:induction false} LoggedConcat(log: map<ID, InsertOp>, xs: seq<ID>, ys: seq<ID>)
    ensures Logged(log, xs + ys) == Logged(log, xs) + Logged(log, ys)
    decreases |ys|
  {
    if ys == [] {
      assert xs + ys == xs;
    } else {
      var n := |ys| - 1;
      assert (xs + ys)[..|xs| + n] == xs + ys[..n];
      LoggedConcat(log, xs, ys[..n]);
    }
  }

  lemma {:induction false} LoggedInOrder(log: map<ID, InsertOp>, ids: seq<ID>)
    requires forall k :: k in ids ==> k in log
    ensures |Logged(log, ids)| == |ids| && forall i :: 0 <= i < |ids| ==> Logged(log, ids)[i] == log[ids[i]]
  {
    if ids != [] {
      var n := |ids| - 1;
      LoggedInOrder(log, ids[..n]);
    }
  }

  lemma {:induction false} KeptInOrder(log: set<ID>, ids: seq<ID>)
    requires forall k :: k in ids ==> k in log
    ensures Kept(log, ids) == ids
  {
    if ids != [] {
      var n := |ids| - 1;
      KeptInOrder(log, ids[..n]);
      assert ids == ids[..n] + [ids[n]];
    }
  }
}
