# Top-25 triplets search, modelled in Dafny

This project models the team search in `src/scripts/top25triplets.js`. The
script takes a meta pool of ranked species and builds every 3-member team
from it. For each team it counts the simulated encounters the team wins
against the rest of the pool, and it keeps the five best teams on a
leaderboard. It stops early once an evaluation limit is reached.

The model has five modules:

- `Counting`: binomial coefficients, i.e. how many teams a pool of a given size yields.
- `Generator`: the recursive `combinations` generator, materialised as the sequence of everything it
  yields, in order. The same generator run on the indices `0 .. n-1` gives the index view. The lemmas
  characterise that view: C(n, k) tuples, each strictly increasing, in strictly increasing
  lexicographic order, pairwise distinct, with none missing. They also tie every value combination
  to its index tuple, so a pool without repeated entries yields every team once, with distinct members.
- `Scoring`: `scoreTeam`.
  - The battle simulation is an oracle parameter, `Oracle<T>`.
  - `WinCount` is the score written as a sum.
  - The method `ScoreTeam` is the three nested loops, proved to compute that sum.
- `Leaderboard`: the board update, which pushes the entry, sorts stably by descending score and pops
  when the board holds more than five entries.
  - `Array.prototype.sort` is stable. Here it is `SortDescending`, an insertion sort.
  - The lemmas pin `SortDescending` down: its result is ranked, a permutation of its input, and
    keeps the input order among equal scores.
  - `Standings` is the board after a run of offers. It is proved equal to the first five entries of
    the stable descending sort of everything offered.
- `Driver`: the loop that feeds each generated team to the scorer and the board. It counts the
  evaluations and stops at the limit.

Two edge cases of the loop:

- The limit test comes after the count is incremented. So any limit of 1 or less, including 0 and
  negative values, still evaluates exactly one team when the pool has three or more entries
  (`Driver.LowLimitEvaluatesOne`).
- A pool of fewer than 3 entries is not an error. The generator yields nothing, the count is 0 and
  the board stays empty (`Driver.SmallPoolEvaluatesNothing`).

The search is a pure function of the pool, the oracle and the limit: `Driver.Run`'s postcondition
fixes both outputs. So two runs with the same deterministic simulation give the same leaderboard.

## Model

| member | source | states |
|---|---|---|
| Counting.Choose | src/scripts/top25triplets.js:87-95 | the number of k-element selections from n entries by Pascal's rule; what the generator yields is counted against it in `Generator.CombinationsCount` |
| Counting.ChooseThree | src/scripts/top25triplets.js:119 | the number of triples from a pool of n is n(n-1)(n-2)/6 |
| Counting.ChooseBeyond | src/scripts/top25triplets.js:92 | a pool smaller than the team size has no team to offer |
| Generator.Combinations | src/scripts/top25triplets.js:87-95 | one generator call: the prefix itself when no slot is left, otherwise its loop; what it yields is characterised by the lemmas below |
| Generator.CombinationsFrom | src/scripts/top25triplets.js:92-94 | the generator's loop from index i on: the calls taking `arr[i]` first, then the rest of the loop, stopping once fewer than k entries remain |
| Generator.CombinationsCount | src/scripts/top25triplets.js:87-95 | a call with k slots left from index `start` yields C(pool size - start, k) combinations |
| Generator.CombinationsShape | src/scripts/top25triplets.js:87-95 | every yielded combination is the carried prefix followed by k pool entries |
| Generator.IndexShape | src/scripts/top25triplets.js:92-93 | in the index view every yielded tuple has length k and strictly increasing indices within the pool |
| Generator.IndexOrder | src/scripts/top25triplets.js:92-93 | in the index view the tuples come in strictly increasing lexicographic order |
| Generator.IndexComplete | src/scripts/top25triplets.js:92-93 | every strictly increasing in-range k-tuple of indices is yielded |
| Generator.ValuesFollowIndices | src/scripts/top25triplets.js:93 | the j-th value combination is the pool read at the j-th index tuple |
| Generator.GeneratorCharacterised | src/scripts/top25triplets.js:87-95 | the generator yields C(n, k) combinations, each the pool read at a strictly increasing index tuple, in lexicographic order, the index tuples pairwise distinct, and every such tuple occurs |
| Generator.DistinctPoolDistinctTeams | src/scripts/top25triplets.js:87-95 | for a pool without repeated entries, no team is yielded twice and no team holds an entry twice |
| Generator.FourEntryPool | src/scripts/top25triplets.js:87-95 | the pool A, B, C, D yields exactly ABC, ABD, ACD, BCD in that order |
| Scoring.ScenarioWins | src/scripts/top25triplets.js:102-106 | the wins of one member against one opponent over the shield scenarios, at most one per scenario |
| Scoring.MemberWins | src/scripts/top25triplets.js:101-107 | the wins of the members against one opponent; bounded in `Scoring.MemberWinsBound`, order-free in `Scoring.MemberWinsPermutation` |
| Scoring.WinCount | src/scripts/top25triplets.js:97-111 | the score as a sum over opponents, skipping those on the team; its meaning is fixed by `Scoring.ScoreBounds`, `Scoring.MaxScoreIffSweep`, `Scoring.ZeroScoreIffShutout` and `Scoring.TeamMembersContributeNothing` |
| Scoring.ScoreTeam | src/scripts/top25triplets.js:97-111 | the three nested loops count exactly the wins over non-member opponents, members and the three shield scenarios |
| Scoring.ScoreBounds | src/scripts/top25triplets.js:97-111 | a team's score is at most 3 x team size x number of opponents outside the team |
| Scoring.Outsiders | src/scripts/top25triplets.js:100 | the opponents that are skipped are exactly those on the team; every other opponent is kept |
| Scoring.TeamMembersContributeNothing | src/scripts/top25triplets.js:100 | scoring against the whole pool equals scoring against the opponents outside the team |
| Scoring.WinCountAppend | src/scripts/top25triplets.js:99-109 | the score against two opponent lists concatenated is the sum of the two scores |
| Scoring.MaxScoreIffSweep | src/scripts/top25triplets.js:103-106 | the score reaches its maximum exactly when every rating against an outsider is above 500 |
| Scoring.ZeroScoreIffShutout | src/scripts/top25triplets.js:103-106 | the score is 0 exactly when no rating against an outsider is above 500 |
| Scoring.AlwaysWinningOracle | src/scripts/top25triplets.js:102-106 | with every rating 1000, a triple scores 9 per pool entry outside the team |
| Scoring.NeverWinningOracle | src/scripts/top25triplets.js:104 | with every rating exactly 500, every team scores 0: the threshold is strict |
| Scoring.MemberWinsPermutation | src/scripts/top25triplets.js:101-107 | a member list's wins against one opponent depend only on the multiset of members |
| Scoring.TeamOrderIrrelevant | src/scripts/top25triplets.js:97-111 | two orderings of the same team score the same |
| Leaderboard.Insert | src/scripts/top25triplets.js:122 | one stable insertion step adds exactly one entry |
| Leaderboard.InsertPermutes | src/scripts/top25triplets.js:122 | the insertion step keeps every entry and adds the new one |
| Leaderboard.InsertRanked | src/scripts/top25triplets.js:122 | inserting into a ranked list keeps it ranked |
| Leaderboard.InsertStable | src/scripts/top25triplets.js:122 | among equal scores, the inserted entry goes after those already there |
| Leaderboard.SortDescending | src/scripts/top25triplets.js:122 | the stable descending sort keeps the length of its input; that it is ranked, a permutation and stable is in the three lemmas below |
| Leaderboard.SortDescendingRanked | src/scripts/top25triplets.js:122 | the sort orders entries by non-increasing score |
| Leaderboard.SortDescendingPermutes | src/scripts/top25triplets.js:122 | the sort is a permutation of its input |
| Leaderboard.SortDescendingStable | src/scripts/top25triplets.js:122 | the sort keeps the input order among entries of equal score |
| Leaderboard.SortRankedIsIdentity | src/scripts/top25triplets.js:122 | sorting an already ranked list changes nothing |
| Leaderboard.Offer | src/scripts/top25triplets.js:121-123 | an offer grows a board below five by one and keeps a full board at five |
| Leaderboard.OfferRanked | src/scripts/top25triplets.js:121-123 | the board after an offer is ranked |
| Leaderboard.OfferKeepsOffered | src/scripts/top25triplets.js:121-123 | an offer only keeps entries from the board and the newcomer, and never shrinks the board |
| Leaderboard.OfferInsertsInPlace | src/scripts/top25triplets.js:121-123 | on a ranked board, an offer is a stable insertion followed by a cut to five |
| Leaderboard.NewcomerTieEvicted | src/scripts/top25triplets.js:121-123 | a newcomer to a full board scoring no more than the fifth entry is the one popped; the board is unchanged |
| Leaderboard.HigherNewcomerEvictsLast | src/scripts/top25triplets.js:121-123 | a newcomer to a full board scoring above the fifth entry stays, and the fifth entry goes |
| Leaderboard.Standings | src/scripts/top25triplets.js:116-123 | after a run of offers the board holds min(5, offers made) entries |
| Leaderboard.StandingsRanked | src/scripts/top25triplets.js:116-123 | after a run of offers the board is ranked |
| Leaderboard.StandingsAreTopOfStableSort | src/scripts/top25triplets.js:116-123 | after a run of offers the board is the first five of the stable descending sort of all offers |
| Leaderboard.StandingsKeepTheBest | src/scripts/top25triplets.js:116-123 | the board holds offered entries only; no entry left off outscores one kept; among equal scores the earliest offered are kept |
| Leaderboard.StandingsStep | src/scripts/top25triplets.js:121-123 | one more offer stably inserts into the previous board and cuts it to five |
| Leaderboard.SixOffers | src/scripts/top25triplets.js:121-123 | offers scoring 10, 7, 20, 3, 15, 8 leave 20, 15, 10, 8, 7: the 3 is evicted |
| Driver.Teams | src/scripts/top25triplets.js:119 | the search draws C(pool size, 3) teams |
| Driver.Evaluated | src/scripts/top25triplets.js:124-125 | the evaluated count never exceeds the teams available; it is positive exactly when a team exists, all teams without a limit, and the limit itself when that lies between 1 and the number of teams |
| Driver.Run | src/scripts/top25triplets.js:116-126 | the loop evaluates 0 teams for an empty generator and otherwise min(teams, max(1, limit)); the board is what the offers of those teams' scores leave |
| Driver.RunBoard | src/scripts/top25triplets.js:116-126 | the final board is the first five of the evaluated teams stably sorted by descending score, is ranked, holds min(5, count) entries, and no evaluated team left off outscores one kept |
| Driver.SmallPoolEvaluatesNothing | src/scripts/top25triplets.js:92 | a pool of fewer than 3 entries yields no team at all, evaluates nothing and leaves the board empty |
| Driver.LowLimitEvaluatesOne | src/scripts/top25triplets.js:124-125 | a limit of 1 or less still evaluates exactly one team when a team exists |

## Left out

- Loading the rankings file, the `--meta` and `--limit` argument parsing and the pool slicing
  (lines 80-83 and 113-114): the pool is a parameter. The limit is `NoLimit` (the `Infinity`
  default) or `StopAfter(n)`. A limit that parses to `NaN` never compares true, so it behaves as
  `NoLimit`.
- The battle simulation (`simulate`, the move-set defaults, the game-master data and the loading of
  the battle code): an opaque oracle returning an integer rating. Fractional ratings are not
  modelled.
- The console report (lines 128-131): output only.
- Laziness of the generator: the model materialises everything it yields as a sequence. The driver
  takes the first `count` of them, which is what the lazy generator hands out before the loop
  stops.
- Concurrency: the script is single-threaded.
- Pool entries that are themselves arrays: `prefix.concat(arr[i])` (line 93) would spread such an
  entry into several elements, while `Generator.Combinations` always appends one element. The model
  covers pools of non-array entries, which is what the script's species-id strings (line 83) are.
- Failure of the simulation: in the script an exception thrown by `simulate` aborts the run before
  anything is printed. Two examples are an id missing from the game master data, and a species
  without fast moves. The oracle here is total and `Driver.Run` always returns a count and a board,
  so that failure path is not modelled.
