/** Operation identifiers and the (Clock, ClientID) order that breaks ties between concurrent inserts. */
module Identifiers {

  datatype Option<+T> = None | Some(value: T)

  datatype ID = ID(clientID: string, clock: int)

  // The sentinels of every document.
  const START: ID := ID("START", -1)
  const END: ID := ID("END", -2)

  /** An identifier that a client can generate: not a sentinel's client name, and a clock counted from 0. */
  predicate Real(id: ID) {
    id.clientID != "START" && id.clientID != "END" && id.clock >= 0
  }

  /** Lexicographic order of strings, character by character. */
  predicate StringLess(a: string, b: string) {
    if b == [] then false
    else if a == [] then true
    else if a[0] != b[0] then a[0] < b[0]
    else StringLess(a[1..], b[1..])
  }

  /** The tie-break: clocks first, client identifiers second. */
  predicate Less(a: ID, b: ID) {
    a.clock < b.clock || (a.clock == b.clock && StringLess(a.clientID, b.clientID))
  }

  lemma {:induction false} StringLessTrichotomy(a: string, b: string)
    ensures StringLess(a, b) || StringLess(b, a) || a == b
    ensures !(StringLess(a, b) && StringLess(b, a))
    ensures !StringLess(a, a)
  {
    if a != [] {
      StringLessTrichotomy(a[1..], if b != [] then b[1..] else []);
      if b != [] && a[0] == b[0] && a[1..] == b[1..] {
        assert a == [a[0]] + a[1..] && b == [b[0]] + b[1..];
      }
    }
  }

  lemma {:induction false} StringLessTransitive(a: string, b: string, c: string)
    requires StringLess(a, b) && StringLess(b, c)
    ensures StringLess(a, c)
  {
    if a != [] && a[0] == b[0] == c[0] {
      StringLessTransitive(a[1..], b[1..], c[1..]);
    }
  }

  /** The first position at which two strings differ, if both have it. */
  ghost predicate DifferAt(a: string, b: string, i: nat) {
    i < |a| && i < |b| && a[..i] == b[..i] && a[i] != b[i]
  }

  /** The first differing character decides; a proper prefix comes first. */
  lemma {:induction false} StringLessFirstDifference(a: string, b: string)
    ensures StringLess(a, b) <==> a < b || exists i: nat :: DifferAt(a, b, i) && a[i] < b[i]
  {
    if a != [] && b != [] && a[0] == b[0] {
      var a', b' := a[1..], b[1..];
      StringLessFirstDifference(a', b');
      assert a < b <==> a' < b' by {
        assert a == [a[0]] + a' && b == [b[0]] + b';
      }
      forall i: nat
        ensures DifferAt(a, b, i + 1) <==> DifferAt(a', b', i)
      {
        if i < |a'| && i < |b'| {
          FirstSame(a, b, i);
        }
      }
      if i: nat :| DifferAt(a', b', i) && a'[i] < b'[i] {
        assert DifferAt(a, b, i + 1) && a[i + 1] < b[i + 1];
      }
      if i: nat :| DifferAt(a, b, i) && a[i] < b[i] {
        assert i > 0 && DifferAt(a', b', i - 1) && a'[i - 1] < b'[i - 1];
      }
    } else if a != [] && b != [] {
      assert DifferAt(a, b, 0);
    }
  }

  lemma FirstSame(a: string, b: string, i: nat)
    requires a != [] && b != [] && a[0] == b[0] && i < |a| && i < |b|
    ensures a[..i + 1] == b[..i + 1] <==> a[1..][..i] == b[1..][..i]
  {
    assert a[..i + 1] == [a[0]] + a[1..][..i] && b[..i + 1] == [b[0]] + b[1..][..i];
  }

  /** Two names that differ first in one character are in the order of that character. */
  lemma StringLessAt(p: string, c: char, s: string, d: char, t: string)
    requires c < d
    ensures StringLess(p + [c] + s, p + [d] + t)
  {
    var a, b := p + [c] + s, p + [d] + t;
    assert a[..|p|] == p == b[..|p|];
    assert DifferAt(a, b, |p|) && a[|p|] == c && b[|p|] == d;
    StringLessFirstDifference(a, b);
  }

  /** The tie-break spelled out: the smaller clock first, then the smaller character at the first difference
      of the client names, then the shorter name. */
  lemma LessMeans(a: ID, b: ID)
    ensures Less(a, b) <==>
              || a.clock < b.clock
              || (a.clock == b.clock &&
                  (a.clientID < b.clientID || exists i: nat :: DifferAt(a.clientID, b.clientID, i) && a.clientID[i] < b.clientID[i]))
  {
    StringLessFirstDifference(a.clientID, b.clientID);
  }

  /** The tie-break is a strict total order, so two replicas never disagree on a pair of identifiers. */
  lemma LessTrichotomy(a: ID, b: ID)
    ensures Less(a, b) || Less(b, a) || a == b
    ensures !(Less(a, b) && Less(b, a))
    ensures !Less(a, a)
  {
    StringLessTrichotomy(a.clientID, b.clientID);
    StringLessTrichotomy(a.clientID, a.clientID);
  }

  lemma LessTransitive(a: ID, b: ID, c: ID)
    requires Less(a, b) && Less(b, c)
    ensures Less(a, c)
  {
    if a.clock == b.clock == c.clock {
      StringLessTransitive(a.clientID, b.clientID, c.clientID);
    }
  }
}
