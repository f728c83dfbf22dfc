/**
 The top-5 leaderboard. Each offer pushes the new entry at the end, sorts the
 whole list by descending score with a stable sort (a comparator of
 `b.score - a.score`), and pops the last entry when more than five remain.

 The stable sort is `SortDescending`, an insertion sort. The lemmas
 `SortDescendingRanked`, `SortDescendingPermutes` and `SortDescendingStable`
 pin it down as THE stable descending sort: the result is ranked, a
 permutation of the input, and keeps the input order among entries of equal
 score. `Standings` is the board after a run of offers, and
 `StandingsAreTopOfStableSort` states what it holds: the first five entries
 of the stable descending sort of everything offered.
 */
module Leaderboard {

  /** A scored team. */
  datatype Entry<T> = Entry(team: seq<T>, score: int)

  /** How many entries the board keeps. */
  const Capacity: nat := 5

  /** Scores never increase along the list. */
  predicate Ranked<T>(s: seq<Entry<T>>)
  {
    forall i, j :: 0 <= i < j < |s| ==> s[i].score >= s[j].score
  }

  /** The entries of `s` scoring exactly `v`, in their order in `s`. */
  function WithScore<T>(s: seq<Entry<T>>, v: int): (r: seq<Entry<T>>)
    ensures |r| <= |s|
  {
    if s == [] then []
    else (if s[0].score == v then [s[0]] else []) + WithScore(s[1..], v)
  }

  /** The first n entries of `s`, or all of them when there are fewer. */
  function Take<T>(s: seq<Entry<T>>, n: nat): (r: seq<Entry<T>>)
    ensures |r| == if |s| <= n then |s| else n
  {
    if |s| <= n then s else s[..n]
  }

  /** No entry of `s` scores more than `v`. */
  predicate AtMost<T>(s: seq<Entry<T>>, v: int)
  {
    forall i :: 0 <= i < |s| ==> s[i].score <= v
  }

  /**
   One pass of the stable sort: `e`, coming after the ranked list `s`, moves in
   front of every entry that scores strictly less and stays behind the others.
   */
  function Insert<T>(s: seq<Entry<T>>, e: Entry<T>): (r: seq<Entry<T>>)
    ensures |r| == |s| + 1
  {
    if s == [] then [e]
    else if s[0].score >= e.score then [s[0]] + Insert(s[1..], e)
    else [e] + s
  }

  /** Insertion adds `e` and loses nothing. */
  lemma {:induction false} InsertPermutes<T>(s: seq<Entry<T>>, e: Entry<T>)
    ensures multiset(Insert(s, e)) == multiset(s) + multiset{e}
  {
    if s != [] && s[0].score >= e.score {
      var rest := s[1..];
      InsertPermutes(rest, e);
      assert Insert(s, e) == [s[0]] + Insert(rest, e);
      assert multiset(Insert(s, e)) == multiset{s[0]} + multiset(Insert(rest, e));
      assert s == [s[0]] + rest;
      assert multiset(s) == multiset{s[0]} + multiset(rest);
    }
  }

  lemma {:induction false} InsertAtMost<T>(s: seq<Entry<T>>, e: Entry<T>, v: int)
    requires AtMost(s, v) && e.score <= v
    ensures AtMost(Insert(s, e), v)
  {
    if s != [] && s[0].score >= e.score {
      InsertAtMost(s[1..], e, v);
    }
  }

  /** Insertion keeps a ranked list ranked. */
  lemma {:induction false} InsertRanked<T>(s: seq<Entry<T>>, e: Entry<T>)
    requires Ranked(s)
    ensures Ranked(Insert(s, e))
  {
    if s != [] && s[0].score >= e.score {
      var rest := Insert(s[1..], e);
      InsertRanked(s[1..], e);
      InsertAtMost(s[1..], e, s[0].score);
      assert Insert(s, e) == [s[0]] + rest;
    }
  }

  /** The stable sort by descending score: each entry in turn is inserted into the sorted prefix. */
  function SortDescending<T>(xs: seq<Entry<T>>): (r: seq<Entry<T>>)
    ensures |r| == |xs|
  {
    if xs == [] then []
    else Insert(SortDescending(xs[..|xs| - 1]), xs[|xs| - 1])
  }

  /** One leaderboard update: push, stable-sort by descending score, pop the last entry if over capacity. */
  function Offer<T>(board: seq<Entry<T>>, e: Entry<T>): (r: seq<Entry<T>>)
    ensures |board| <= Capacity ==> |r| == if |board| < Capacity then |board| + 1 else Capacity
  {
    var sorted := SortDescending(board + [e]);
    if |sorted| > Capacity then sorted[..|sorted| - 1] else sorted
  }

  /** The board after offering `entries` in order, starting from an empty board. */
  function Standings<T>(entries: seq<Entry<T>>): (r: seq<Entry<T>>)
    ensures |r| == if |entries| <= Capacity then |entries| else Capacity
  {
    if entries == [] then []
    else Offer(Standings(entries[..|entries| - 1]), entries[|entries| - 1])
  }

  // ---------------------------------------------------------------------------
  // Ranking

  /** The sort's result is ranked. */
  lemma {:induction false} SortDescendingRanked<T>(xs: seq<Entry<T>>)
    ensures Ranked(SortDescending(xs))
  {
    if xs != [] {
      SortDescendingRanked(xs[..|xs| - 1]);
      InsertRanked(SortDescending(xs[..|xs| - 1]), xs[|xs| - 1]);
    }
  }

  /** The board is ranked after every offer. */
  lemma OfferRanked<T>(board: seq<Entry<T>>, e: Entry<T>)
    ensures Ranked(Offer(board, e))
  {
    SortDescendingRanked(board + [e]);
  }

  lemma StandingsRanked<T>(entries: seq<Entry<T>>)
    ensures Ranked(Standings(entries))
  {
    if entries != [] {
      OfferRanked(Standings(entries[..|entries| - 1]), entries[|entries| - 1]);
    }
  }

  // ---------------------------------------------------------------------------
  // Stability

  lemma {:induction false} WithScoreAppend<T>(a: seq<Entry<T>>, b: seq<Entry<T>>, v: int)
    ensures WithScore(a + b, v) == WithScore(a, v) + WithScore(b, v)
  {
    if a != [] {
      assert (a + b)[1..] == a[1..] + b;
      WithScoreAppend(a[1..], b, v);
    } else {
      assert a + b == b;
    }
  }

  lemma {:induction false} WithScoreAbsent<T>(s: seq<Entry<T>>, v: int)
    requires forall i :: 0 <= i < |s| ==> s[i].score < v
    ensures WithScore(s, v) == []
  {
    if s != [] {
      WithScoreAbsent(s[1..], v);
    }
  }

  /** Inserting into a ranked list places `e` after every earlier entry of the same score. */
  lemma {:induction false} InsertStable<T>(s: seq<Entry<T>>, e: Entry<T>, v: int)
    requires Ranked(s)
    ensures WithScore(Insert(s, e), v) == WithScore(s, v) + WithScore([e], v)
  {
    if s == [] {
    } else if s[0].score >= e.score {
      var rest := s[1..];
      RankedTail(s);
      InsertStable(rest, e, v);
      assert Insert(s, e) == [s[0]] + Insert(rest, e);
      WithScoreAppend([s[0]], Insert(rest, e), v);
      WithScoreAppend([s[0]], rest, v);
      assert [s[0]] + rest == s;
    } else {
      WithScoreAppend([e], s, v);
      if e.score == v {
        RankedBelowHead(s, v);
        WithScoreAbsent(s, v);
      }
    }
  }

  lemma RankedTail<T>(s: seq<Entry<T>>)
    requires Ranked(s) && s != []
    ensures Ranked(s[1..])
  {
    var rest := s[1..];
    forall i, j | 0 <= i < j < |rest|
      ensures rest[i].score >= rest[j].score
    {
      assert rest[i] == s[i + 1] && rest[j] == s[j + 1];
    }
  }

  lemma RankedBelowHead<T>(s: seq<Entry<T>>, v: int)
    requires Ranked(s) && s != [] && s[0].score < v
    ensures forall i :: 0 <= i < |s| ==> s[i].score < v
  {
    forall i | 0 <= i < |s|
      ensures s[i].score < v
    {
      assert s[0].score >= s[i].score;
    }
  }

  /** The sort keeps the input order among entries of equal score. */
  lemma {:induction false} SortDescendingStable<T>(xs: seq<Entry<T>>, v: int)
    ensures WithScore(SortDescending(xs), v) == WithScore(xs, v)
  {
    if xs != [] {
      var init, last := xs[..|xs| - 1], xs[|xs| - 1];
      SortDescendingStable(init, v);
      SortDescendingRanked(init);
      InsertStable(SortDescending(init), last, v);
      assert xs == init + [last];
      WithScoreAppend(init, [last], v);
    }
  }

  /** The sort is a permutation of its input. */
  lemma {:induction false} SortDescendingPermutes<T>(xs: seq<Entry<T>>)
    ensures multiset(SortDescending(xs)) == multiset(xs)
  {
    if xs != [] {
      var init, last := xs[..|xs| - 1], xs[|xs| - 1];
      SortDescendingPermutes(init);
      InsertPermutes(SortDescending(init), last);
      assert xs == init + [last];
    }
  }

  // ---------------------------------------------------------------------------
  // What an offer does to a ranked board

  /** An offer only keeps entries of the board and the new entry; it drops at most one. */
  lemma OfferKeepsOffered<T>(board: seq<Entry<T>>, e: Entry<T>)
    ensures multiset(Offer(board, e)) <= multiset(board) + multiset{e}
    ensures |Offer(board, e)| >= |board|
  {
    var sorted := SortDescending(board + [e]);
    SortDescendingPermutes(board + [e]);
    assert multiset(board + [e]) == multiset(board) + multiset{e};
    if |sorted| > Capacity {
      var kept := sorted[..|sorted| - 1];
      assert sorted == kept + [sorted[|sorted| - 1]];
      assert multiset(sorted) == multiset(kept) + multiset{sorted[|sorted| - 1]};
      assert Offer(board, e) == kept;
    }
  }

  /** An entry scoring no more than any entry of the list goes to its end. */
  lemma {:induction false} InsertLowest<T>(s: seq<Entry<T>>, e: Entry<T>)
    requires forall i :: 0 <= i < |s| ==> s[i].score >= e.score
    ensures Insert(s, e) == s + [e]
  {
    if s != [] {
      InsertLowest(s[1..], e);
      assert [s[0]] + (s[1..] + [e]) == s + [e];
    }
  }

  /** Sorting a list that is already ranked leaves it as it is. */
  lemma {:induction false} SortRankedIsIdentity<T>(xs: seq<Entry<T>>)
    requires Ranked(xs)
    ensures SortDescending(xs) == xs
  {
    if xs != [] {
      var init, last := xs[..|xs| - 1], xs[|xs| - 1];
      SortRankedIsIdentity(init);
      InsertLowest(init, last);
      assert init + [last] == xs;
    }
  }

  /** On a ranked board within capacity, an offer is a stable insertion followed by truncation to five. */
  lemma OfferInsertsInPlace<T>(board: seq<Entry<T>>, e: Entry<T>)
    requires Ranked(board) && |board| <= Capacity
    ensures Offer(board, e) == Take(Insert(board, e), Capacity)
  {
    assert (board + [e])[..|board|] == board;
    SortRankedIsIdentity(board);
  }

  /**
   On a full board, a new entry scoring no more than the current last one is
   the one popped again, ties included: the board is unchanged.
   */
  lemma NewcomerTieEvicted<T>(board: seq<Entry<T>>, e: Entry<T>)
    requires Ranked(board) && |board| == Capacity
    requires e.score <= board[Capacity - 1].score
    ensures Offer(board, e) == board
  {
    OfferInsertsInPlace(board, e);
    InsertLowest(board, e);
    assert (board + [e])[..Capacity] == board;
  }

  /** On a full board, a new entry scoring more than the last one enters and the old last one leaves. */
  lemma HigherNewcomerEvictsLast<T>(board: seq<Entry<T>>, e: Entry<T>)
    requires Ranked(board) && |board| == Capacity
    requires e.score > board[Capacity - 1].score
    ensures e in Offer(board, e)
    ensures Offer(board, e) == Insert(board[..Capacity - 1], e)
  {
    OfferInsertsInPlace(board, e);
    TakeInsert(board, e, Capacity - 1);
    InsertPassesLast(board[..Capacity - 1], e);
    assert Insert(board[..Capacity - 1], e) == Take(Insert(board, e), Capacity);
  }

  lemma {:induction false} InsertPassesLast<T>(s: seq<Entry<T>>, e: Entry<T>)
    ensures e in Insert(s, e)
  {
    if s != [] && s[0].score >= e.score {
      InsertPassesLast(s[1..], e);
    }
  }

  /** Inserting into the first n entries agrees with inserting into the whole list, on the first n + 1 entries. */
  lemma {:induction false} TakeInsert<T>(s: seq<Entry<T>>, e: Entry<T>, n: nat)
    requires n < |s|
    requires s[n].score < e.score
    ensures Insert(s[..n], e) == Insert(s, e)[..n + 1]
  {
    if n == 0 {
      assert s[..0] == [];
    } else if s[0].score >= e.score {
      TakeInsert(s[1..], e, n - 1);
      assert s[..n][1..] == s[1..][..n - 1];
      assert s[..n][0] == s[0];
    } else {
      assert ([e] + s)[..n + 1] == [e] + s[..n];
    }
  }

  /** Insertion into the first n entries and into the whole list agree on the first n positions. */
  lemma {:induction false} InsertPrefix<T>(s: seq<Entry<T>>, e: Entry<T>, n: nat)
    requires n <= |s|
    ensures Insert(s[..n], e)[..n] == Insert(s, e)[..n]
  {
    if n > 0 {
      var head := s[..n];
      assert head[0] == s[0];
      if s[0].score >= e.score {
        assert head[1..] == s[1..][..n - 1];
        InsertPrefix(s[1..], e, n - 1);
        var a, b := Insert(s[1..][..n - 1], e), Insert(s[1..], e);
        assert Insert(head, e) == [s[0]] + a;
        assert Insert(s, e) == [s[0]] + b;
        assert ([s[0]] + a)[..n] == [s[0]] + a[..n - 1];
        assert ([s[0]] + b)[..n] == [s[0]] + b[..n - 1];
      } else {
        assert ([e] + head)[..n] == [e] + s[..n - 1];
        assert ([e] + s)[..n] == [e] + s[..n - 1];
      }
    }
  }

  /** Truncating to n before an insertion changes nothing once the result is truncated to n again. */
  lemma TruncateBeforeInsert<T>(s: seq<Entry<T>>, e: Entry<T>, n: nat)
    ensures Take(Insert(Take(s, n), e), n) == Take(Insert(s, e), n)
  {
    if |s| > n {
      InsertPrefix(s, e, n);
    }
  }

  // ---------------------------------------------------------------------------
  // What the board holds after a run of offers

  /** The board holds the first five entries of the stable descending sort of everything offered. */
  lemma {:induction false} StandingsAreTopOfStableSort<T>(entries: seq<Entry<T>>)
    ensures Standings(entries) == Take(SortDescending(entries), Capacity)
  {
    if entries != [] {
      var init, last := entries[..|entries| - 1], entries[|entries| - 1];
      StandingsAreTopOfStableSort(init);
      StandingsRanked(init);
      OfferInsertsInPlace(Standings(init), last);
      TruncateBeforeInsert(SortDescending(init), last, Capacity);
    }
  }

  /** What a ranked list leaves off when cut after n entries scores no more than anything kept. */
  lemma LeftOffScoresLower<T>(s: seq<Entry<T>>, n: nat)
    requires Ranked(s) && n <= |s|
    ensures forall x, y :: x in multiset(s) - multiset(s[..n]) && y in s[..n] ==> x.score <= y.score
  {
    CutRemainder(s, n);
    TailBelowHead(s, n);
  }

  /** What a cut after n entries leaves off is exactly the entries from n on. */
  lemma CutRemainder<T>(s: seq<Entry<T>>, n: nat)
    requires n <= |s|
    ensures multiset(s) - multiset(s[..n]) == multiset(s[n..])
  {
    assert s == s[..n] + s[n..];
  }

  /** In a ranked list, no entry from n on scores above an entry before n. */
  lemma TailBelowHead<T>(s: seq<Entry<T>>, n: nat)
    requires Ranked(s) && n <= |s|
    ensures forall x, y :: x in multiset(s[n..]) && y in s[..n] ==> x.score <= y.score
  {
    forall x: Entry<T>, y: Entry<T> | x in s[n..] && y in s[..n]
      ensures x.score <= y.score
    {
      var j :| 0 <= j < |s[n..]| && s[n..][j] == x;
      var i :| 0 <= i < n && s[..n][i] == y;
      assert s[i] == y && s[n + j] == x;
    }
  }

  /** Cutting a list after n entries keeps, for each score, a prefix of the entries with that score. */
  lemma WithScoreOfPrefix<T>(s: seq<Entry<T>>, n: nat, v: int)
    requires n <= |s|
    ensures |WithScore(s[..n], v)| <= |WithScore(s, v)|
    ensures WithScore(s[..n], v) == WithScore(s, v)[..|WithScore(s[..n], v)|]
  {
    assert s == s[..n] + s[n..];
    WithScoreAppend(s[..n], s[n..], v);
  }

  /**
   Read off the board: it holds entries that were offered; every entry left
   off scores no more than any entry kept; and among entries of one score the
   board keeps the earliest offered.
   */
  lemma StandingsKeepTheBest<T>(entries: seq<Entry<T>>)
    ensures var b := Standings(entries);
      && multiset(b) <= multiset(entries)
      && (forall x, y :: x in multiset(entries) - multiset(b) && y in b ==> x.score <= y.score)
      && (forall v :: |WithScore(b, v)| <= |WithScore(entries, v)|
                      && WithScore(b, v) == WithScore(entries, v)[..|WithScore(b, v)|])
  {
    var b := Standings(entries);
    var sorted := SortDescending(entries);
    StandingsAreTopOfStableSort(entries);
    SortDescendingPermutes(entries);
    SortDescendingRanked(entries);
    var n := |b|;
    assert b == sorted[..n];
    assert sorted == b + sorted[n..];
    LeftOffScoresLower(sorted, n);
    forall v
      ensures |WithScore(b, v)| <= |WithScore(entries, v)|
      ensures WithScore(b, v) == WithScore(entries, v)[..|WithScore(b, v)|]
    {
      SortDescendingStable(entries, v);
      WithScoreOfPrefix(sorted, n, v);
    }
  }

  /** The board after one more offer is the previous board with that offer made to it. */
  lemma StandingsAppend<T>(entries: seq<Entry<T>>, e: Entry<T>)
    ensures Standings(entries + [e]) == Offer(Standings(entries), e)
  {
    assert (entries + [e])[..|entries|] == entries;
  }

  /** The board after one more offer: a stable insertion into the previous board, cut to five. */
  lemma StandingsStep<T>(entries: seq<Entry<T>>, e: Entry<T>)
    ensures Standings(entries + [e]) == Take(Insert(Standings(entries), e), Capacity)
  {
    assert (entries + [e])[..|entries|] == entries;
    StandingsRanked(entries);
    OfferInsertsInPlace(Standings(entries), e);
  }

  /** The first two offers of the example below: 10, then 7 behind it. */
  lemma TwoOffers<T>(e0: Entry<T>, e1: Entry<T>)
    requires e0.score == 10 && e1.score == 7
    ensures Standings([e0, e1]) == [e0, e1]
  {
    var none: seq<Entry<T>> := [];
    assert Standings([e0]) == [e0] by {
      StandingsStep(none, e0);
      assert none + [e0] == [e0];
    }
    StandingsStep([e0], e1);
    assert [e0] + [e1] == [e0, e1];
    InsertLowest([e0], e1);
  }

  /** The third offer of the example below: 20 goes to the top. */
  lemma ThreeOffers<T>(e0: Entry<T>, e1: Entry<T>, e2: Entry<T>)
    requires e0.score == 10 && e1.score == 7 && e2.score == 20
    ensures Standings([e0, e1, e2]) == [e2, e0, e1]
  {
    TwoOffers(e0, e1);
    StandingsStep([e0, e1], e2);
    assert [e0, e1] + [e2] == [e0, e1, e2];
  }

  /** The fourth offer of the example below: 3 goes last. */
  lemma FourOffers<T>(e0: Entry<T>, e1: Entry<T>, e2: Entry<T>, e3: Entry<T>)
    requires e0.score == 10 && e1.score == 7 && e2.score == 20 && e3.score == 3
    ensures Standings([e0, e1, e2, e3]) == [e2, e0, e1, e3]
  {
    ThreeOffers(e0, e1, e2);
    StandingsStep([e0, e1, e2], e3);
    assert [e0, e1, e2] + [e3] == [e0, e1, e2, e3];
    InsertLowest([e2, e0, e1], e3);
    assert [e2, e0, e1] + [e3] == [e2, e0, e1, e3];
  }

  /** The fifth offer of the example below: 15 goes second. */
  lemma FiveOffers<T>(e0: Entry<T>, e1: Entry<T>, e2: Entry<T>, e3: Entry<T>, e4: Entry<T>)
    requires e0.score == 10 && e1.score == 7 && e2.score == 20
    requires e3.score == 3 && e4.score == 15
    ensures Standings([e0, e1, e2, e3, e4]) == [e2, e4, e0, e1, e3]
  {
    FourOffers(e0, e1, e2, e3);
    StandingsStep([e0, e1, e2, e3], e4);
    assert [e0, e1, e2, e3] + [e4] == [e0, e1, e2, e3, e4];
    assert [e2, e0, e1, e3][1..] == [e0, e1, e3];
    assert Insert([e0, e1, e3], e4) == [e4, e0, e1, e3];
  }

  /** Offering scores 10, 7, 20, 3, 15, 8 leaves 20, 15, 10, 8, 7: the 3 is the one evicted. */
  lemma SixOffers<T>(e0: Entry<T>, e1: Entry<T>, e2: Entry<T>, e3: Entry<T>, e4: Entry<T>, e5: Entry<T>)
    requires e0.score == 10 && e1.score == 7 && e2.score == 20
    requires e3.score == 3 && e4.score == 15 && e5.score == 8
    ensures Standings([e0, e1, e2, e3, e4, e5]) == [e2, e4, e0, e5, e1]
  {
    FiveOffers(e0, e1, e2, e3, e4);
    var board := [e2, e4, e0, e1, e3];
    assert Take(Insert(board, e5), Capacity) == [e2, e4, e0, e5, e1] by {
      TakeInsert(board, e5, Capacity - 1);
      assert board[..Capacity - 1] == [e2, e4, e0, e1];
      assert [e2, e4, e0, e1][1..] == [e4, e0, e1];
      assert [e4, e0, e1][1..] == [e0, e1];
      assert [e0, e1][1..] == [e1];
      assert Insert([e1], e5) == [e5, e1];
      assert Insert([e0, e1], e5) == [e0, e5, e1];
      assert Insert([e4, e0, e1], e5) == [e4, e0, e5, e1];
    }
    StandingsStep([e0, e1, e2, e3, e4], e5);
    assert [e0, e1, e2, e3, e4] + [e5] == [e0, e1, e2, e3, e4, e5];
  }
}
