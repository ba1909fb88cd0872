/**
 * Row-major enumeration of the pairs (i, j) of a list, as two nested
 * index loops visit them, keeping what a meeting function returns for the
 * pairs with i < j. The counting lemma here is independent of geometry:
 * the analyser instantiates `meet` with the segment intersection.
 */
module Pairs {
  import opened Wrappers

  /** A loop position: inside row i (j in 0 .. n), or just past the last row. */
  predicate Cursor<S>(segs: seq<S>, i: nat, j: nat)
  {
    (i < |segs| && j <= |segs|) || (i == |segs| && j == 0)
  }

  /** What the pair (i, j) contributes: its meeting point, when i < j and there is one. */
  function Hit<S, P>(segs: seq<S>, meet: (S, S) -> Option<P>, i: nat, j: nat): seq<P>
    requires i < |segs| && j < |segs|
  {
    if i < j then
      match meet(segs[i], segs[j])
      case Some(p) => [p]
      case None => []
    else []
  }

  /** The points collected before the loops reach position (i, j). */
  function Visited<S, P>(segs: seq<S>, meet: (S, S) -> Option<P>, i: nat, j: nat): seq<P>
    requires Cursor(segs, i, j)
    decreases i, j
  {
    if j > 0 then Visited(segs, meet, i, j - 1) + Hit(segs, meet, i, j - 1)
    else if i > 0 then Visited(segs, meet, i - 1, |segs|)
    else []
  }

  /** All meeting points, one per pair i < j, rows in order of i. */
  function AllMeetings<S, P>(segs: seq<S>, meet: (S, S) -> Option<P>): seq<P>
  {
    Visited(segs, meet, |segs|, 0)
  }

  /** The pairs i < j whose members meet at p. */
  ghost function MeetingPairs<S, P>(segs: seq<S>, meet: (S, S) -> Option<P>, p: P): set<(nat, nat)>
  {
    set a: nat, b: nat | a < b < |segs| && meet(segs[a], segs[b]) == Some(p) :: (a, b)
  }

  /** Occurrences of p in s, counted from the end. */
  function Occurrences<P(==)>(s: seq<P>, p: P): nat
  {
    if |s| == 0 then 0 else Occurrences(s[..|s| - 1], p) + (if s[|s| - 1] == p then 1 else 0)
  }

  lemma {:induction false} OccurrencesAppend<P>(a: seq<P>, b: seq<P>, p: P)
    ensures Occurrences(a + b, p) == Occurrences(a, p) + Occurrences(b, p)
  {
    if |b| > 0 {
      assert (a + b)[..|a + b| - 1] == a + b[..|b| - 1];
      OccurrencesAppend(a, b[..|b| - 1], p);
    } else {
      assert a + b == a;
    }
  }

  lemma {:induction false} OccurrencesMultiset<P>(s: seq<P>, p: P)
    ensures Occurrences(s, p) == multiset(s)[p]
  {
    if |s| > 0 {
      OccurrencesMultiset(s[..|s| - 1], p);
      assert s == s[..|s| - 1] + [s[|s| - 1]];
      assert multiset(s) == multiset(s[..|s| - 1]) + multiset{s[|s| - 1]};
    }
  }

  ghost predicate Meets<S, P>(segs: seq<S>, meet: (S, S) -> Option<P>, p: P, x: (nat, nat))
  {
    x.0 < x.1 < |segs| && meet(segs[x.0], segs[x.1]) == Some(p)
  }

  ghost function HitSet<S, P>(segs: seq<S>, meet: (S, S) -> Option<P>, p: P, i: nat, j: nat): set<(nat, nat)>
  {
    if Meets(segs, meet, p, (i, j)) then {(i, j)} else {}
  }

  /** The pairs meeting at p that the loops have passed before position (i, j). */
  ghost function VisitedPairs<S, P>(segs: seq<S>, meet: (S, S) -> Option<P>, p: P, i: nat, j: nat): set<(nat, nat)>
    requires Cursor(segs, i, j)
    decreases i, j
  {
    if j > 0 then VisitedPairs(segs, meet, p, i, j - 1) + HitSet(segs, meet, p, i, j - 1)
    else if i > 0 then VisitedPairs(segs, meet, p, i - 1, |segs|)
    else {}
  }

  ghost predicate Before(x: (nat, nat), i: nat, j: nat)
  {
    x.0 < i || (x.0 == i && x.1 < j)
  }

  lemma {:induction false} VisitedMembers<S, P>(segs: seq<S>, meet: (S, S) -> Option<P>, p: P, i: nat, j: nat, x: (nat, nat))
    requires Cursor(segs, i, j)
    ensures x in VisitedPairs(segs, meet, p, i, j) <==> Before(x, i, j) && Meets(segs, meet, p, x)
    decreases i, j
  {
    if j > 0 {
      VisitedMembers(segs, meet, p, i, j - 1, x);
    } else if i > 0 {
      VisitedMembers(segs, meet, p, i - 1, |segs|, x);
    }
  }

  lemma DisjointCard<T>(a: set<T>, b: set<T>)
    requires a !! b
    ensures |a + b| == |a| + |b|
  {
  }

  lemma HitStep<S, P>(segs: seq<S>, meet: (S, S) -> Option<P>, p: P, i: nat, j: nat)
    requires i < |segs| && 0 < j <= |segs|
    ensures Occurrences(Visited(segs, meet, i, j), p)
         == Occurrences(Visited(segs, meet, i, j - 1), p) + |HitSet(segs, meet, p, i, j - 1)|
    ensures |VisitedPairs(segs, meet, p, i, j)|
         == |VisitedPairs(segs, meet, p, i, j - 1)| + |HitSet(segs, meet, p, i, j - 1)|
  {
    OccurrencesAppend(Visited(segs, meet, i, j - 1), Hit(segs, meet, i, j - 1), p);
    VisitedMembers(segs, meet, p, i, j - 1, (i, j - 1));
    DisjointCard(VisitedPairs(segs, meet, p, i, j - 1), HitSet(segs, meet, p, i, j - 1));
  }

  lemma {:induction false} VisitedCount<S, P>(segs: seq<S>, meet: (S, S) -> Option<P>, p: P, i: nat, j: nat)
    requires Cursor(segs, i, j)
    ensures Occurrences(Visited(segs, meet, i, j), p) == |VisitedPairs(segs, meet, p, i, j)|
    decreases i, j
  {
    if j > 0 {
      VisitedCount(segs, meet, p, i, j - 1);
      HitStep(segs, meet, p, i, j);
    } else if i > 0 {
      VisitedCount(segs, meet, p, i - 1, |segs|);
    }
  }

  /**
   * Duplicates are kept: p occurs in the list once for every pair i < j
   * meeting at p, and it occurs at all exactly when some pair meets there.
   */
  lemma AllMeetingsCount<S, P>(segs: seq<S>, meet: (S, S) -> Option<P>, p: P)
    ensures multiset(AllMeetings(segs, meet))[p] == |MeetingPairs(segs, meet, p)|
    ensures p in AllMeetings(segs, meet) <==> MeetingPairs(segs, meet, p) != {}
  {
    VisitedCount(segs, meet, p, |segs|, 0);
    OccurrencesMultiset(AllMeetings(segs, meet), p);
    forall x
      ensures x in VisitedPairs(segs, meet, p, |segs|, 0) <==> x in MeetingPairs(segs, meet, p)
    {
      VisitedMembers(segs, meet, p, |segs|, 0, x);
    }
    assert VisitedPairs(segs, meet, p, |segs|, 0) == MeetingPairs(segs, meet, p);
  }
}
