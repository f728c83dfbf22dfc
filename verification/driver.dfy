/**
 The search driver. Every 3-member team drawn from the meta pool, in the
 generator's order, is scored and offered to the top-five board; after each
 team the evaluated count goes up by one, and the search stops once that
 count reaches the limit. The test comes after the increment, so a limit of
 1 or less (0 and negative limits included) still evaluates one team
 whenever the pool holds one; a missing limit never stops the search.
 */
module Driver {
  import opened Counting
  import opened Generator
  import opened Scoring
  import opened Leaderboard

  /** The members per team the search assembles. */
  const TeamSize: nat := 3

  /** The evaluation limit: none (the default, and any value that never compares true), or a count. */
  datatype Limit = NoLimit | StopAfter(n: int)

  /** Every candidate team, in the order the generator produces them. */
  function Teams<T>(meta: seq<T>): (r: seq<seq<T>>)
    ensures |r| == Choose(|meta|, TeamSize)
  {
    CombinationsCount(meta, TeamSize, 0, []);
    Combinations(meta, TeamSize, 0, [])
  }

  /** The entries offered to the board for the given teams, each with its score. */
  function Scored<T(==)>(sim: Oracle<T>, meta: seq<T>, teams: seq<seq<T>>): (r: seq<Entry<T>>)
    ensures |r| == |teams|
    ensures forall j :: 0 <= j < |r| ==> r[j].team == teams[j] && r[j].score == WinCount(sim, teams[j], meta)
  {
    if teams == [] then []
    else
      var last := teams[|teams| - 1];
      Scored(sim, meta, teams[..|teams| - 1]) + [Entry(last, WinCount(sim, last, meta))]
  }

  /** Scoring one more team of the list appends its entry. */
  lemma ScoredStep<T>(sim: Oracle<T>, meta: seq<T>, teams: seq<seq<T>>, i: nat)
    requires i < |teams|
    ensures Scored(sim, meta, teams[..i + 1])
      == Scored(sim, meta, teams[..i]) + [Entry(teams[i], WinCount(sim, teams[i], meta))]
  {
    assert teams[..i + 1][..i] == teams[..i];
  }

  /**
   How many of `total` candidate teams the search evaluates: all of them
   without a limit, otherwise the limit clamped to between 1 and `total`.
   */
  function Evaluated(total: nat, limit: Limit): (r: nat)
    ensures r <= total
    ensures total > 0 <==> r > 0
    ensures limit.NoLimit? ==> r == total
    ensures limit.StopAfter? && 1 <= limit.n <= total ==> r == limit.n
  {
    if total == 0 then 0
    else
      match limit
      case NoLimit => total
      case StopAfter(n) => if n <= 1 then 1 else if n < total then n else total
  }

  /**
   The search: scores each candidate team, keeps the five best on the board,
   and reports how many teams it evaluated.
   */
  method Run<T(==)>(sim: Oracle<T>, meta: seq<T>, limit: Limit) returns (count: nat, top: seq<Entry<T>>)
    ensures count == Evaluated(Choose(|meta|, TeamSize), limit)
    ensures top == Standings(Scored(sim, meta, Teams(meta)[..count]))
  {
    var teams := Teams(meta);
    top := [];
    count := 0;
    var i := 0;
    while i < |teams|
      invariant 0 <= i <= |teams|
      invariant count == i
      invariant top == Standings(Scored(sim, meta, teams[..i]))
      invariant limit.StopAfter? && i > 0 ==> i < limit.n
    {
      var combo := teams[i];
      var s := ScoreTeam(sim, meta, combo);
      ScoredStep(sim, meta, teams, i);
      StandingsAppend(Scored(sim, meta, teams[..i]), Entry(combo, s));
      top := Offer(top, Entry(combo, s));
      count := count + 1;
      i := i + 1;
      if limit.StopAfter? && count >= limit.n {
        break;
      }
    }
  }

  /**
   What the search leaves on the board: the first five of the evaluated teams
   stably sorted by descending score, ranked, and no team left off scoring
   above one kept.
   */
  lemma RunBoard<T>(sim: Oracle<T>, meta: seq<T>, limit: Limit)
    ensures var count := Evaluated(Choose(|meta|, TeamSize), limit);
      var scored := Scored(sim, meta, Teams(meta)[..count]);
      var top := Standings(scored);
      && top == Take(SortDescending(scored), Capacity)
      && Ranked(top)
      && |top| == (if count <= Capacity then count else Capacity)
      && multiset(top) <= multiset(scored)
      && (forall x, y :: x in multiset(scored) - multiset(top) && y in top ==> x.score <= y.score)
  {
    var count := Evaluated(Choose(|meta|, TeamSize), limit);
    var scored := Scored(sim, meta, Teams(meta)[..count]);
    StandingsAreTopOfStableSort(scored);
    StandingsRanked(scored);
    StandingsKeepTheBest(scored);
  }

  /** A pool of fewer than three entries yields no team: nothing is evaluated and the board stays empty. */
  lemma SmallPoolEvaluatesNothing<T>(sim: Oracle<T>, meta: seq<T>, limit: Limit)
    requires |meta| < TeamSize
    ensures Teams(meta) == []
    ensures Evaluated(Choose(|meta|, TeamSize), limit) == 0
    ensures Standings(Scored(sim, meta, Teams(meta)[..Evaluated(Choose(|meta|, TeamSize), limit)])) == []
  {
    ChooseBeyond(|meta|, TeamSize);
  }

  /** A limit of 1 or less still evaluates exactly one team of a pool of three or more. */
  lemma LowLimitEvaluatesOne(poolSize: nat, n: int)
    requires poolSize >= TeamSize && n <= 1
    ensures Evaluated(Choose(poolSize, TeamSize), StopAfter(n)) == 1
  {
    ChooseThree(poolSize);
  }
}
