# Round-robin group standings, modelled in Dafny

This project models the standings core of a table-tennis league page
(`script.js`). A league is split into groups. Each group has a roster of
player names with 1-based player ids, and a result table holding, for
every ordered pair of distinct players, the sets won by each side and
whether the match has been played. Results are picked from a list of
best-of scores and are written for both sides at once. After every pick
the page rebuilds the group's standings:

- wins, losses and sets for each player, counting played matches only;
- 2 points per win and 1 per loss;
- the set difference;
- a stable sort by points, then difference;
- competition-style ranks, where a player level with the one above on
  (points, difference) shares that player's rank.

Each rank is written back onto the roster-ordered row carrying the same
name. A separate per-group option controls only the display order.

The modules follow the program's stages:

| file | module | what it holds |
|---|---|---|
| `wrappers.dfy` | `Wrappers` | `Option` |
| `matrix.dfy` | `Matrix` | the result table, player ids, new groups, recording a result |
| `options.dfy` | `ScoreOptions` | the scores the result picker lists |
| `stats.dfy` | `Stats` | per-player totals |
| `balance.dfy` | `Balance` | group-wide sums: wins against losses, differences |
| `ranking.dfy` | `Ranking` | comparator, stable sort, positional ranks, their closed form |
| `standings.dfy` | `Standings` | writing ranks onto the roster rows, and the rank theorems |
| `display.dfy` | `DisplaySort` | the display-order toggle |
| `league.dfy` | `League` | grouping the name fields into groups at league creation |
| `picks.dfy` | `Picks` | a group's series of picks and what it always preserves |

The central result is `Standings.StandingsRankClosedForm`. On a roster of
distinct names, the rank written to a player is one more than the number
of group members strictly ahead of it on (points, difference). Two
consequences follow. First, ties share a rank. Second, the order in which
the stable sort leaves exactly tied players does not affect anyone's rank.

Ties follow the code exactly:

- players are ordered by (points, difference) only; there is no
  head-to-head step among players level on points;
- players level on both share a rank at any time, whether or not every
  match of the group has been played.

The rank pass works on the row objects themselves. The sorted list holds
the same rows as the roster-ordered list. A place tied with the place
above takes the rank field of the row above as it stands at that moment.
Each rank is stored on the first roster row with the player's name. The
model follows this: `Ranking.SortIdx` sorts row identities and
`Standings.WriteRanks` reads and writes rank fields by row. With distinct
names this gives every player its competition rank. With a repeated name
the later copy is never written. A player tied behind it then reads an
empty rank field and receives no rank either. `Standings.RepeatedNameInNewGroup`
shows this for the roster "a", "a", "b".

## Model

| member | source | states |
|---|---|---|
| Matrix.PlayerIdsAreLastPositions | script.js:52-58 | every roster name gets an id and nothing else does; the id is the 1-based position of the name's last occurrence, because a repeated name is re-assigned on each push |
| Matrix.PlayerIdsInRosterOrder | script.js:54-57 | with distinct names, the ids are exactly 1..n in roster order |
| Matrix.NewGroup | script.js:60-67 | a new group's table has an entry for exactly the ordered pairs of distinct roster names, none on the diagonal, all 0:0 and unplayed |
| Matrix.NewGroupInvariants | script.js:54-67 | a new group is well formed, symmetric, played exactly when a score is non-zero, and decisive |
| Matrix.Record | script.js:145-149 | recording writes the picked score with `done` meaning "some side non-zero" at (p1, p2), its mirror at (p2, p1), and leaves roster, ids and every other entry unchanged |
| Matrix.RecordPreservesInvariants | script.js:145-149 | recording keeps the table's shape, its mirror symmetry and the meaning of `done` |
| Matrix.RecordPreservesDecisive | script.js:145-149 | recording a score whose sides differ, or 0:0, keeps every played match with a winner |
| Matrix.RecordZeroResets | script.js:148-149 | picking 0:0 makes the pair unplayed again from both sides |
| Matrix.RecordOverwrites | script.js:145-149 | a later pick for the same pair replaces the earlier one entirely |
| Matrix.RecordFromEitherSide | script.js:145-149 | picking s1:s2 in row p1 gives the same table as picking s2:s1 in row p2 |
| ScoreOptions.RowWins | script.js:140 | the first loop lists max:i for i = 0 .. max-1, in that order |
| ScoreOptions.ColumnWins | script.js:141 | the second loop lists i:max for i = 0 .. max-1, in that order |
| ScoreOptions.OptionsAreLegalScores | script.js:138-143 | the picker lists 2*max+1 distinct scores, and a score is listed iff it is 0:0 or one side has max and the other fewer |
| ScoreOptions.PickedOptionIsDecided | script.js:138-148 | under a positive rule, a listed score counts as played iff it is not 0:0, and a played listed score has a winner |
| Stats.Tally | script.js:157-165 | a player's running totals keep its id and name and always have 2 points per win plus 1 per loss |
| Stats.NothingPlayedNothingCounted | script.js:158-165 | with no match played, a player has no points and no sets |
| Stats.TallyCountsDoneMatches | script.js:158-165 | wins plus losses equals the number of played matches against the opponents visited |
| Stats.StatOf | script.js:156-168 | a player's row has its name and id, points 2w + l, and diff equal to sets won minus sets lost |
| Stats.StatsOf | script.js:156-168 | the rows follow the given names one for one |
| Stats.GroupStats | script.js:156-168 | one row per roster entry, in roster order, with that entry's name and id |
| Stats.StatFacts | script.js:156-168 | each player's wins plus losses equals its played matches against the rest of the roster; points and difference follow from the totals |
| Stats.UnplayedScoresIgnored | script.js:158-165 | two tables that agree on which matches are played, and on the played scores, give every player the same totals |
| Stats.GroupStatsIgnoreUnplayed | script.js:156-168 | the whole standings ignore the scores stored for unplayed matches |
| Balance.WinsBalanceLosses | script.js:156-168 | in a symmetric decisive table, total wins equal total losses and equal the number of played pairs, and the set differences sum to zero |
| Ranking.CompareMeaning | script.js:170 | the comparator is negative exactly when the first player is strictly ahead on (points, difference), zero exactly on a tie, and antisymmetric |
| Ranking.InsertPermutes | script.js:170 | one insertion step of the stable sort adds exactly the inserted player |
| Ranking.InsertKeepsSorted | script.js:170 | one insertion step keeps the list ordered by (points, difference) |
| Ranking.SortSpec | script.js:170 | the ranked list is a permutation of the rows in which nobody is strictly ahead of anybody placed above it |
| Ranking.CountBetterPermutation | script.js:170-173 | how many players are strictly ahead of a given one does not depend on the order of the list |
| Ranking.Ranks | script.js:171-173 | the ranks of an ordered list of values, one per place: the first place is 1, and place i never gets a rank above i+1 |
| Ranking.RanksClosedForm | script.js:171-173 | in an ordered list, each place's rank is one more than the number of players strictly ahead of it on (points, difference) |
| Ranking.RanksIndependentOfTieOrder | script.js:170-173 | every ordered arrangement of the same players gives each player the same rank |
| Standings.FindByName | script.js:174 | the lookup returns the first row with the name, and finds nothing exactly when no row has it |
| Ranking.InsertIdxTracksInsert | script.js:170 | inserting a row identity puts its row where the value insertion puts the value |
| Ranking.SortIdxTracksSort | script.js:170 | sorting row identities and reading the rows back gives the sorted values |
| Ranking.RankedRowsAreSorted | script.js:170 | the ranked copy of the roster rows reads back as the sorted statistics |
| Standings.FindsOwnRow | script.js:174 | with distinct names, the lookup by a row's name finds that row |
| Standings.WriteRanksPositional | script.js:171-175 | with distinct names, the rank pass leaves each ranked row holding the positional competition rank of its place |
| Standings.RankRowsClosedForm | script.js:170-175 | with distinct names, every row is given a rank, and that rank is one more than the number of rows strictly ahead of it |
| Standings.UpdateStandings | script.js:154-175 | the standings are the roster-ordered statistics rows, unchanged, each paired with the rank field the rank pass left on that row |
| Standings.StandingsRankClosedForm | script.js:154-175 | on a roster of distinct names, each player's rank is one more than the number of group members strictly ahead of it |
| Standings.TiedPlayersShareRank | script.js:171-175 | two players level on points and difference get the same rank, whatever the sort did with them |
| Standings.AheadMeansSmallerRank | script.js:170-175 | a player strictly ahead, in particular one with more points, gets a strictly smaller rank |
| Standings.LeaderRankedFirst | script.js:171-175 | a player nobody is strictly ahead of is ranked 1 |
| Standings.WriteRanksSkips | script.js:171-175 | a row that no ranked player's name lookup lands on keeps no rank |
| Standings.RepeatedNameLeavesLaterRowUnranked | script.js:174 | when a name occurs twice, the later row is never given a rank |
| Standings.RepeatedNameCanUnrankAnotherPlayer | script.js:171-175 | with three rows tied, the first two sharing a name, the ranks are 1, none and none: the third place reads the empty rank of the second row |
| Standings.RepeatedNameInNewGroup | script.js:154-175 | in a new group with roster "a", "a", "b", both the second "a" and "b" are left without a rank |
| DisplaySort.HandleSort | script.js:192-195 | clicking the current column flips its direction; clicking another column selects it in ascending order |
| DisplaySort.SameColumnTwiceRestores | script.js:192-195 | clicking the current column twice restores the option |
| DisplaySort.NewColumnTwiceDescends | script.js:192-195 | clicking a new column twice leaves it selected in descending order |
| League.RostersAreGroupedNames | script.js:52-58 | a group exists for exactly the labels some name field carries; its roster holds those fields' names in page order, with empty fields giving their placeholder |
| League.NewLeague | script.js:60-69 | every group gets a fresh table over its roster and the default display option (rank, ascending), and nothing else gets either |
| League.NewLeagueGroups | script.js:52-69 | each group of a new league has its labelled names as roster, the ids those names were pushed with, a well-formed symmetric table, and every entry unplayed |
| Picks.Play | script.js:145-149 | a series of picks never changes the roster or the ids, and on a well-formed table never adds a pair, only overwrites |
| Picks.PlayPreservesInvariants | script.js:131-149 | any series of picks of listed scores keeps the table well formed, symmetric, consistent and decisive |
| Picks.StandingsAlwaysBalance | script.js:60-168 | however a new group's pickers are used, total wins equal total losses and played pairs, and the differences sum to zero |

## Left out

- Page and browser work (reading the form, building HTML, alerts), saving to and loading from browser storage, and the league history are not modelled. They are input and output.
- A league's id comes from the clock, and its date, title and best-of rule come from form fields. All of these are I/O, so the model takes the rule as a parameter.
- The display re-sort of the standings (script.js:177-181) is not modelled. It changes only the order rows are shown in, never a rank. Its comparator never returns 0, so it is not a consistent comparator.
- Splitting the picked `"a:b"` string into two numbers is not modelled. A pick carries its two numbers directly.
- The "selected" marking of the current score in the picker is not modelled. It only affects which option the page highlights.
- The server (`server.js`) and its test are not part of this model.
- Matrix.Record: requires both names on the roster and distinct. Its only caller builds pickers for exactly those pairs. The code would fail on an unknown name, writing only the first half when the column name is unknown, and would write the diagonal twice for a self-pick. These paths cannot be reached from the page, so they are not modelled.
- Standings.StandingsRankClosedForm: requires distinct names. With a repeated name the code leaves some rows without a rank, as `Standings.RepeatedNameCanUnrankAnotherPlayer` shows, so no closed form holds.
- Standings.RankRowsClosedForm: requires distinct names, for the same reason.
- Ranking.Ranks: computes ranks from values alone. It is the rank the code writes only when names are distinct (`Standings.WriteRanksPositional`). The standings use `Standings.WriteRanks`, which follows the code for repeated names too.
- Ranking.SortIdx: the code calls the built-in array sort, which is stable. The model uses a stable insertion sort. With distinct names the ranks do not depend on this choice, as `Ranking.RanksIndependentOfTieOrder` shows. With a repeated name they can: which rows end up unranked depends on where the tied rows land.
- Integer width: JavaScript numbers are doubles. Totals here stay far below 2^53, so the model uses unbounded integers.
