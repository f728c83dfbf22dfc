/**
 The matchup scorer. A team's score is the number of simulated encounters it
 wins: one encounter per pool opponent that is not on the team, per team
 member, per shield scenario, won when the attacker's rating is strictly above
 500.

 The battle simulation is not modelled: it is the oracle `sim`, given the
 attacker, the defender and the two shield counts, returning the attacker's
 rating. `WinCount` is the count as a sum; the method `ScoreTeam` is the
 script's three nested loops and is proved to compute it.
 */
module Scoring {

  /** Shields held by the attacker and by the defender in one encounter. */
  datatype Shields = Shields(attacker: nat, defender: nat)

  /** The three symmetric scenarios every encounter is simulated under. */
  const ShieldScenarios: seq<Shields> := [Shields(0, 0), Shields(1, 1), Shields(2, 2)]

  /** A rating strictly above this is a win for the attacker. */
  const WinningRating: int := 500

  /** The battle simulation: (attacker, defender, attacker shields, defender shields) to the attacker's rating. */
  type Oracle<!T> = (T, T, nat, nat) -> int

  predicate Wins<T>(sim: Oracle<T>, member: T, opponent: T, shields: Shields)
  {
    sim(member, opponent, shields.attacker, shields.defender) > WinningRating
  }

  /** Wins of one member against one opponent over the given scenarios. */
  function ScenarioWins<T>(sim: Oracle<T>, member: T, opponent: T, scenarios: seq<Shields>): (r: nat)
    ensures r <= |scenarios|
  {
    if scenarios == [] then 0
    else
      var last := scenarios[|scenarios| - 1];
      ScenarioWins(sim, member, opponent, scenarios[..|scenarios| - 1])
        + (if Wins(sim, member, opponent, last) then 1 else 0)
  }

  /** Wins of the given members against one opponent over all shield scenarios. */
  function MemberWins<T>(sim: Oracle<T>, members: seq<T>, opponent: T): nat
  {
    if members == [] then 0
    else
      MemberWins(sim, members[..|members| - 1], opponent)
        + ScenarioWins(sim, members[|members| - 1], opponent, ShieldScenarios)
  }

  /** The opponents that are not on the team, in pool order. */
  function Outsiders<T(==)>(team: seq<T>, opponents: seq<T>): (r: seq<T>)
    ensures |r| <= |opponents|
    ensures forall i :: 0 <= i < |r| ==> r[i] in opponents && r[i] !in team
    ensures forall i :: 0 <= i < |opponents| && opponents[i] !in team ==> opponents[i] in r
  {
    if opponents == [] then []
    else
      var last := opponents[|opponents| - 1];
      Outsiders(team, opponents[..|opponents| - 1]) + (if last in team then [] else [last])
  }

  /** The most a team can score: every encounter won. */
  function MaxScore<T(==)>(team: seq<T>, opponents: seq<T>): nat
  {
    |ShieldScenarios| * |team| * |Outsiders(team, opponents)|
  }

  /** The team's score against the given opponents; opponents on the team are skipped. */
  function WinCount<T(==)>(sim: Oracle<T>, team: seq<T>, opponents: seq<T>): nat
  {
    if opponents == [] then 0
    else
      var init, last := opponents[..|opponents| - 1], opponents[|opponents| - 1];
      WinCount(sim, team, init) + (if last in team then 0 else MemberWins(sim, team, last))
  }

  lemma MulSucc(a: nat, b: nat)
    ensures a * (b + 1) == a * b + a
  {
  }

  /** Each further outside opponent raises the maximum by one encounter per member and scenario. */
  lemma MaxScoreStep<T>(team: seq<T>, opponents: seq<T>)
    requires opponents != []
    ensures var init, last := opponents[..|opponents| - 1], opponents[|opponents| - 1];
      MaxScore(team, opponents) == MaxScore(team, init) + (if last in team then 0 else |ShieldScenarios| * |team|)
  {
    var init := opponents[..|opponents| - 1];
    MulSucc(|ShieldScenarios| * |team|, |Outsiders(team, init)|);
  }

  /** One opponent gives a member list at most one win per member and scenario. */
  lemma {:induction false} MemberWinsBound<T>(sim: Oracle<T>, members: seq<T>, opponent: T)
    ensures MemberWins(sim, members, opponent) <= |ShieldScenarios| * |members|
  {
    if members != [] {
      var init := members[..|members| - 1];
      MemberWinsBound(sim, init, opponent);
      MulSucc(|ShieldScenarios|, |init|);
    }
  }

  /** A team's score lies between 0 and one win per member, scenario and outside opponent. */
  lemma {:induction false} ScoreBounds<T>(sim: Oracle<T>, team: seq<T>, opponents: seq<T>)
    ensures 0 <= WinCount(sim, team, opponents) <= MaxScore(team, opponents)
  {
    if opponents != [] {
      var init, last := opponents[..|opponents| - 1], opponents[|opponents| - 1];
      ScoreBounds(sim, team, init);
      MemberWinsBound(sim, team, last);
      MaxScoreStep(team, opponents);
    }
  }

  /** The team wins every encounter against every opponent outside it. */
  ghost predicate Sweeps<T>(sim: Oracle<T>, team: seq<T>, opponents: seq<T>)
  {
    forall i, j, c :: 0 <= i < |opponents| && opponents[i] !in team && 0 <= j < |team| && 0 <= c < |ShieldScenarios| ==>
      Wins(sim, team[j], opponents[i], ShieldScenarios[c])
  }

  /** The team loses every encounter against every opponent outside it. */
  ghost predicate Shutout<T>(sim: Oracle<T>, team: seq<T>, opponents: seq<T>)
  {
    forall i, j, c :: 0 <= i < |opponents| && opponents[i] !in team && 0 <= j < |team| && 0 <= c < |ShieldScenarios| ==>
      !Wins(sim, team[j], opponents[i], ShieldScenarios[c])
  }

  // ---------------------------------------------------------------------------
  // The script's loops

  /** The three nested loops of the scorer: opponents, then members, then scenarios. */
  method ScoreTeam<T(==)>(sim: Oracle<T>, meta: seq<T>, team: seq<T>) returns (score: nat)
    ensures score == WinCount(sim, team, meta)
  {
    score := 0;
    var o := 0;
    while o < |meta|
      invariant 0 <= o <= |meta|
      invariant score == WinCount(sim, team, meta[..o])
    {
      var opponent := meta[o];
      assert meta[..o + 1][..o] == meta[..o];
      if opponent !in team {
        var m := 0;
        while m < |team|
          invariant 0 <= m <= |team|
          invariant score == WinCount(sim, team, meta[..o]) + MemberWins(sim, team[..m], opponent)
        {
          var member := team[m];
          assert team[..m + 1][..m] == team[..m];
          var c := 0;
          while c < |ShieldScenarios|
            invariant 0 <= c <= |ShieldScenarios|
            invariant score == WinCount(sim, team, meta[..o]) + MemberWins(sim, team[..m], opponent)
              + ScenarioWins(sim, member, opponent, ShieldScenarios[..c])
          {
            var shields := ShieldScenarios[c];
            assert ShieldScenarios[..c + 1][..c] == ShieldScenarios[..c];
            var rating := sim(member, opponent, shields.attacker, shields.defender);
            if rating > WinningRating {
              score := score + 1;
            }
            c := c + 1;
          }
          assert ShieldScenarios[..c] == ShieldScenarios;
          m := m + 1;
        }
        assert team[..m] == team;
      }
      o := o + 1;
    }
    assert meta[..o] == meta;
  }

  // ---------------------------------------------------------------------------
  // Properties of the score

  /** Scores over a split pool add up. */
  lemma {:induction false} WinCountAppend<T>(sim: Oracle<T>, team: seq<T>, a: seq<T>, b: seq<T>)
    ensures WinCount(sim, team, a + b) == WinCount(sim, team, a) + WinCount(sim, team, b)
  {
    if b != [] {
      var init := b[..|b| - 1];
      assert (a + b)[..|a + b| - 1] == a + init;
      assert (a + b)[|a + b| - 1] == b[|b| - 1];
      WinCountAppend(sim, team, a, init);
    } else {
      assert a + b == a;
    }
  }

  /** Pool entries that are on the team contribute nothing: scoring only the outsiders gives the same score. */
  lemma {:induction false} TeamMembersContributeNothing<T>(sim: Oracle<T>, team: seq<T>, opponents: seq<T>)
    ensures WinCount(sim, team, opponents) == WinCount(sim, team, Outsiders(team, opponents))
  {
    if opponents != [] {
      var init, last := opponents[..|opponents| - 1], opponents[|opponents| - 1];
      TeamMembersContributeNothing(sim, team, init);
      var tail := if last in team then [] else [last];
      WinCountAppend(sim, team, Outsiders(team, init), tail);
      if last !in team {
        assert [last][..0] == [];
        assert WinCount(sim, team, [last]) == MemberWins(sim, team, last);
      }
    }
  }

  /** Adding an entry that is on the team to the pool leaves the score unchanged. */
  lemma MemberOpponentIgnored<T>(sim: Oracle<T>, team: seq<T>, opponents: seq<T>, x: T)
    requires x in team
    ensures WinCount(sim, team, opponents + [x]) == WinCount(sim, team, opponents)
  {
    assert (opponents + [x])[..|opponents|] == opponents;
  }

  lemma {:induction false} ScenarioWinsAll<T>(sim: Oracle<T>, member: T, opponent: T, scenarios: seq<Shields>)
    ensures ScenarioWins(sim, member, opponent, scenarios) == |scenarios|
      <==> forall c :: 0 <= c < |scenarios| ==> Wins(sim, member, opponent, scenarios[c])
  {
    if scenarios != [] {
      var init := scenarios[..|scenarios| - 1];
      ScenarioWinsAll(sim, member, opponent, init);
      assert scenarios == init + [scenarios[|scenarios| - 1]];
    }
  }

  lemma {:induction false} ScenarioWinsNone<T>(sim: Oracle<T>, member: T, opponent: T, scenarios: seq<Shields>)
    ensures ScenarioWins(sim, member, opponent, scenarios) == 0
      <==> forall c :: 0 <= c < |scenarios| ==> !Wins(sim, member, opponent, scenarios[c])
  {
    if scenarios != [] {
      var init := scenarios[..|scenarios| - 1];
      ScenarioWinsNone(sim, member, opponent, init);
      assert scenarios == init + [scenarios[|scenarios| - 1]];
    }
  }

  lemma {:induction false} MemberWinsAll<T>(sim: Oracle<T>, members: seq<T>, opponent: T)
    ensures MemberWins(sim, members, opponent) == |ShieldScenarios| * |members|
      <==> forall j, c :: 0 <= j < |members| && 0 <= c < |ShieldScenarios| ==> Wins(sim, members[j], opponent, ShieldScenarios[c])
  {
    if members != [] {
      var init, last := members[..|members| - 1], members[|members| - 1];
      MemberWinsAll(sim, init, opponent);
      MemberWinsBound(sim, init, opponent);
      ScenarioWinsAll(sim, last, opponent, ShieldScenarios);
      assert members == init + [last];
      MulSucc(|ShieldScenarios|, |init|);
    }
  }

  lemma {:induction false} MemberWinsNone<T>(sim: Oracle<T>, members: seq<T>, opponent: T)
    ensures MemberWins(sim, members, opponent) == 0
      <==> forall j, c :: 0 <= j < |members| && 0 <= c < |ShieldScenarios| ==> !Wins(sim, members[j], opponent, ShieldScenarios[c])
  {
    if members != [] {
      var init, last := members[..|members| - 1], members[|members| - 1];
      MemberWinsNone(sim, init, opponent);
      ScenarioWinsNone(sim, last, opponent, ShieldScenarios);
      assert members == init + [last];
    }
  }

  /** The score reaches its maximum exactly when the team sweeps every outside opponent. */
  lemma {:induction false} MaxScoreIffSweep<T>(sim: Oracle<T>, team: seq<T>, opponents: seq<T>)
    ensures WinCount(sim, team, opponents) == MaxScore(team, opponents) <==> Sweeps(sim, team, opponents)
  {
    if opponents != [] {
      var init, last := opponents[..|opponents| - 1], opponents[|opponents| - 1];
      MaxScoreIffSweep(sim, team, init);
      ScoreBounds(sim, team, init);
      MemberWinsBound(sim, team, last);
      MemberWinsAll(sim, team, last);
      assert opponents == init + [last];
      MaxScoreStep(team, opponents);
    }
  }

  /** The score is zero exactly when the team loses every encounter against every outside opponent. */
  lemma {:induction false} ZeroScoreIffShutout<T>(sim: Oracle<T>, team: seq<T>, opponents: seq<T>)
    ensures WinCount(sim, team, opponents) == 0 <==> Shutout(sim, team, opponents)
  {
    if opponents != [] {
      var init, last := opponents[..|opponents| - 1], opponents[|opponents| - 1];
      ZeroScoreIffShutout(sim, team, init);
      MemberWinsNone(sim, team, last);
      assert opponents == init + [last];
    }
  }

  /** With a simulation that always rates above 500, a three-member team scores 9 per outside opponent. */
  lemma AlwaysWinningOracle<T>(team: seq<T>, opponents: seq<T>)
    requires |team| == 3
    ensures WinCount((a: T, d: T, sa: nat, sd: nat) => 1000, team, opponents) == 9 * |Outsiders(team, opponents)|
  {
    MaxScoreIffSweep((a: T, d: T, sa: nat, sd: nat) => 1000, team, opponents);
  }

  /** With a simulation that never rates above 500 (500 itself included), every team scores 0. */
  lemma NeverWinningOracle<T>(team: seq<T>, opponents: seq<T>)
    ensures WinCount((a: T, d: T, sa: nat, sd: nat) => 500, team, opponents) == 0
  {
    ZeroScoreIffShutout((a: T, d: T, sa: nat, sd: nat) => 500, team, opponents);
  }

  // ---------------------------------------------------------------------------
  // The order of the team members does not matter

  lemma {:induction false} MemberWinsAppend<T>(sim: Oracle<T>, a: seq<T>, b: seq<T>, opponent: T)
    ensures MemberWins(sim, a + b, opponent) == MemberWins(sim, a, opponent) + MemberWins(sim, b, opponent)
  {
    if b != [] {
      var init := b[..|b| - 1];
      assert (a + b)[..|a + b| - 1] == a + init;
      assert (a + b)[|a + b| - 1] == b[|b| - 1];
      MemberWinsAppend(sim, a, init, opponent);
    } else {
      assert a + b == a;
    }
  }

  /** Dropping one member from the middle of the list takes away exactly its wins. */
  lemma MemberWinsDrop<T>(sim: Oracle<T>, pre: seq<T>, x: T, post: seq<T>, opponent: T)
    ensures MemberWins(sim, pre + [x] + post, opponent)
         == MemberWins(sim, pre + post, opponent) + ScenarioWins(sim, x, opponent, ShieldScenarios)
  {
    MemberWinsAppend(sim, pre + [x], post, opponent);
    MemberWinsAppend(sim, pre, [x], opponent);
    MemberWinsAppend(sim, pre, post, opponent);
    assert [x][..0] == [];
    assert MemberWins(sim, [x], opponent) == ScenarioWins(sim, x, opponent, ShieldScenarios);
  }

  /** Taking the member at index j out of the list takes away exactly its wins. */
  lemma MemberWinsRemove<T>(sim: Oracle<T>, b: seq<T>, j: nat, opponent: T)
    requires j < |b|
    ensures MemberWins(sim, b, opponent)
         == MemberWins(sim, b[..j] + b[j + 1..], opponent) + ScenarioWins(sim, b[j], opponent, ShieldScenarios)
  {
    SplitAt(b, j);
    MemberWinsDrop(sim, b[..j], b[j], b[j + 1..], opponent);
  }

  lemma SplitAt<T>(b: seq<T>, j: nat)
    requires j < |b|
    ensures b == b[..j] + [b[j]] + b[j + 1..]
  {
  }

  /** Taking the element at index j out of a list takes it out of the multiset. */
  lemma MultisetRemove<T>(b: seq<T>, j: nat)
    requires j < |b|
    ensures multiset(b[..j] + b[j + 1..]) == multiset(b) - multiset{b[j]}
  {
    assert b == b[..j] + [b[j]] + b[j + 1..];
  }

  lemma {:induction false} MemberWinsPermutation<T>(sim: Oracle<T>, a: seq<T>, b: seq<T>, opponent: T)
    requires multiset(a) == multiset(b)
    ensures MemberWins(sim, a, opponent) == MemberWins(sim, b, opponent)
  {
    if a != [] {
      var init, last := a[..|a| - 1], a[|a| - 1];
      assert a == init + [last];
      assert multiset(init) == multiset(a) - multiset{last};
      assert last in multiset(b);
      var j :| 0 <= j < |b| && b[j] == last;
      MultisetRemove(b, j);
      MemberWinsPermutation(sim, init, b[..j] + b[j + 1..], opponent);
      MemberWinsRemove(sim, b, j, opponent);
    } else {
      assert b == [];
    }
  }

  /** A team's score depends only on which members it has, not on their order. */
  lemma {:induction false} TeamOrderIrrelevant<T>(sim: Oracle<T>, a: seq<T>, b: seq<T>, opponents: seq<T>)
    requires multiset(a) == multiset(b)
    ensures WinCount(sim, a, opponents) == WinCount(sim, b, opponents)
  {
    if opponents != [] {
      var init, last := opponents[..|opponents| - 1], opponents[|opponents| - 1];
      TeamOrderIrrelevant(sim, a, b, init);
      assert last in a <==> last in multiset(a);
      assert last in b <==> last in multiset(b);
      MemberWinsPermutation(sim, a, b, last);
    }
  }
}
