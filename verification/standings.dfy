/** The standings of one group: statistics in roster order, each carrying
    the rank its player received in the points-and-difference order. */
module Standings {
  import opened Wrappers
  import opened Matrix
  import opened Stats
  import opened Ranking

  /** One row of the standings. A row no rank was written to has `None`. */
  datatype Row = Row(stat: Stat, rank: Option<nat>)

  ghost predicate DistinctStatNames(s: seq<Stat>)
  {
    forall i, j :: 0 <= i < j < |s| ==> s[i].name != s[j].name
  }

  /** The first row carrying `name`, if any. */
  function FindByName(stats: seq<Stat>, name: string): (r: Option<nat>)
    ensures r.Some? ==> r.value < |stats| && stats[r.value].name == name
    ensures r.Some? ==> forall j :: 0 <= j < r.value ==> stats[j].name != name
    ensures r.None? <==> forall j :: 0 <= j < |stats| ==> stats[j].name != name
  {
    if |stats| == 0 then None
    else if stats[0].name == name then Some(0)
    else match FindByName(stats[1..], name)
      case None => None
      case Some(k) => Some(k + 1)
  }

  lemma {:induction false} InsertKeepsDistinct(x: Stat, s: seq<Stat>)
    requires DistinctStatNames(s)
    requires forall e :: e in s ==> e.name != x.name
    ensures DistinctStatNames(Insert(x, s))
  {
    if |s| > 0 && Compare(x, s[0]) >= 0 {
      var rest := Insert(x, s[1..]);
      InsertPermutes(x, s[1..]);
      assert forall e :: e in s[1..] ==> e in s;
      InsertKeepsDistinct(x, s[1..]);
      forall j | 0 <= j < |rest|
        ensures rest[j].name != s[0].name
      {
        assert rest[j] in multiset(rest);
        if rest[j] != x {
          assert rest[j] in multiset(s[1..]);
          var k :| 0 <= k < |s[1..]| && s[1..][k] == rest[j];
          assert s[k + 1] == rest[j];
        }
      }
      var r := Insert(x, s);
      assert r == [s[0]] + rest;
      forall i, j | 0 <= i < j < |r|
        ensures r[i].name != r[j].name
      {
        if i > 0 {
          assert r[i] == rest[i - 1] && r[j] == rest[j - 1];
        } else {
          assert r[j] == rest[j - 1];
        }
      }
    } else if |s| > 0 {
      assert Insert(x, s) == [x] + s;
      assert forall k :: 0 <= k < |s| ==> s[k] in s;
    }
  }

  /** Sorting does not duplicate a name. */
  lemma {:induction false} SortKeepsDistinct(s: seq<Stat>)
    requires DistinctStatNames(s)
    ensures DistinctStatNames(Sort(s))
  {
    if |s| > 0 {
      var pre := s[..|s| - 1];
      var x := s[|s| - 1];
      SortKeepsDistinct(pre);
      SortSpec(pre);
      forall e | e in Sort(pre)
        ensures e.name != x.name
      {
        assert e in multiset(Sort(pre));
        assert e in multiset(pre);
        var k :| 0 <= k < |pre| && pre[k] == e;
        assert s[k] == e;
      }
      InsertKeepsDistinct(x, Sort(pre));
    }
  }

  /** The rank pass over the ranked row identities. Place i gets i+1,
      unless its row ties the row at the place above; then it takes whatever
      rank field that row holds at that moment, which is nothing if no rank
      was ever written to it. The rank is written to the first roster row
      carrying the player's name. Entry k of the result is row k's rank field. */
  function WriteRanks(stats: seq<Stat>, ranked: seq<nat>): (r: seq<Option<nat>>)
    requires InRange(|stats|, ranked)
    ensures |r| == |stats|
  {
    if |ranked| == 0 then seq(|stats|, _ => None)
    else
      var n := |ranked| - 1;
      var prev := WriteRanks(stats, ranked[..n]);
      var rank := if n > 0 && Tie(stats[ranked[n]], stats[ranked[n - 1]]) then prev[ranked[n - 1]] else Some(n + 1);
      match FindByName(stats, stats[ranked[n]].name)
      case None => prev
      case Some(k) => prev[k := rank]
  }

  /** With distinct names the lookup by name finds the row itself. */
  lemma FindsOwnRow(stats: seq<Stat>, j: nat)
    requires DistinctStatNames(stats) && j < |stats|
    ensures FindByName(stats, stats[j].name) == Some(j)
  {
  }

  /** With distinct names each ranked row ends up holding the positional
      competition rank of its place. */
  lemma {:induction false} WriteRanksPositional(stats: seq<Stat>, ranked: seq<nat>)
    requires InRange(|stats|, ranked)
    requires DistinctStatNames(stats) && DistinctStatNames(RowsAt(stats, ranked))
    ensures forall i :: 0 <= i < |ranked| ==> WriteRanks(stats, ranked)[ranked[i]] == Some(Ranks(RowsAt(stats, ranked))[i])
  {
    if |ranked| > 0 {
      var n := |ranked| - 1;
      var pre := ranked[..n];
      var vs := RowsAt(stats, ranked);
      assert RowsAt(stats, pre) == vs[..n];
      WriteRanksPositional(stats, pre);
      forall i | 0 <= i < |ranked|
        ensures WriteRanks(stats, ranked)[ranked[i]] == Some(Ranks(vs)[i])
      {
        if i < n {
          assert vs[i].name != vs[n].name;
          assert pre[i] == ranked[i];
          WriteRanksKeepsEarlier(stats, ranked, i);
        } else {
          WriteRanksLastPlace(stats, ranked);
        }
      }
    }
  }

  /** The last step of the pass writes only the last place's own row. */
  lemma WriteRanksKeepsEarlier(stats: seq<Stat>, ranked: seq<nat>, i: nat)
    requires InRange(|stats|, ranked) && DistinctStatNames(stats)
    requires i < |ranked| - 1 && ranked[i] != ranked[|ranked| - 1]
    ensures WriteRanks(stats, ranked)[ranked[i]] == WriteRanks(stats, ranked[..|ranked| - 1])[ranked[i]]
  {
    FindsOwnRow(stats, ranked[|ranked| - 1]);
  }

  /** The last place receives the positional rank, given that the place above
      already holds its own. */
  lemma WriteRanksLastPlace(stats: seq<Stat>, ranked: seq<nat>)
    requires InRange(|stats|, ranked) && DistinctStatNames(stats) && |ranked| > 0
    requires |ranked| > 1 ==>
      WriteRanks(stats, ranked[..|ranked| - 1])[ranked[|ranked| - 2]] == Some(Ranks(RowsAt(stats, ranked[..|ranked| - 1]))[|ranked| - 2])
    ensures WriteRanks(stats, ranked)[ranked[|ranked| - 1]] == Some(Ranks(RowsAt(stats, ranked))[|ranked| - 1])
  {
    var n := |ranked| - 1;
    FindsOwnRow(stats, ranked[n]);
    assert RowsAt(stats, ranked[..n]) == RowsAt(stats, ranked)[..n];
  }

  /** The rank written to each roster row: sort the rows, then the rank pass. */
  function RankRows(stats: seq<Stat>): (r: seq<Option<nat>>)
    ensures |r| == |stats|
  {
    WriteRanks(stats, SortIdx(stats, Indices(|stats|)))
  }

  /** With distinct names every row receives a rank, and that rank is one
      more than the number of rows strictly ahead on (points, difference),
      whatever order the sort left ties in. */
  lemma RankRowsClosedForm(stats: seq<Stat>)
    requires DistinctStatNames(stats)
    ensures forall k {:trigger RankRows(stats)[k]} :: 0 <= k < |stats| ==> RankRows(stats)[k] == Some(CompetitionRank(stats, stats[k]))
  {
    var rows := RankRows(stats);
    forall k | 0 <= k < |stats|
      ensures rows[k] == Some(CompetitionRank(stats, stats[k]))
    {
      RankRowClosedForm(stats, k, rows);
    }
  }

  lemma RankRowClosedForm(stats: seq<Stat>, k: nat, rows: seq<Option<nat>>)
    requires DistinctStatNames(stats)
    requires k < |stats| && rows == RankRows(stats)
    ensures rows[k] == Some(CompetitionRank(stats, stats[k]))
  {
    var i := RowGetsRankOfPlace(stats, k);
    PlaceRank(stats, i);
  }

  /** Row `k` receives the rank of the place its player was sorted to. */
  lemma RowGetsRankOfPlace(stats: seq<Stat>, k: nat) returns (i: nat)
    requires DistinctStatNames(stats)
    requires k < |stats|
    ensures i < |stats| && Sort(stats)[i] == stats[k]
    ensures RankRows(stats)[k] == Some(Ranks(Sort(stats))[i])
  {
    var ranked := SortIdx(stats, Indices(|stats|));
    RankedRowsAreSorted(stats);
    SortSpec(stats);
    SortKeepsDistinct(stats);
    assert stats[k] in multiset(Sort(stats));
    i :| 0 <= i < |stats| && Sort(stats)[i] == stats[k];
    assert stats[ranked[i]] == stats[k];
    WriteRanksPositional(stats, ranked);
  }

  /** The rank of a place in the sorted order counts the players ahead of it. */
  lemma PlaceRank(stats: seq<Stat>, i: nat)
    requires i < |stats|
    ensures Ranks(Sort(stats))[i] == CompetitionRank(stats, Sort(stats)[i])
  {
    var ranked := Sort(stats);
    SortSpec(stats);
    RanksClosedForm(ranked);
    assert Ranks(ranked)[i] == CompetitionRank(ranked, ranked[i]);
    CountBetterPermutation(ranked, stats, ranked[i]);
  }

  /** The standings of a group: statistics in roster order, each with the
      rank written to it. */
  function UpdateStandings(g: Group): (rows: seq<Row>)
    requires WellFormed(g)
    ensures |rows| == |g.names|
    ensures forall k :: 0 <= k < |rows| ==> rows[k].stat == GroupStats(g)[k]
  {
    var stats := GroupStats(g);
    var written := RankRows(stats);
    seq(|stats|, k requires 0 <= k < |stats| => Row(stats[k], written[k]))
  }

  /** On a roster of distinct names, each player's rank is one more than the
      number of group members strictly ahead of it on (points, difference). */
  lemma StandingsRankClosedForm(g: Group)
    requires WellFormed(g) && DistinctNames(g.names)
    ensures forall k {:trigger UpdateStandings(g)[k]} :: 0 <= k < |g.names| ==>
      UpdateStandings(g)[k].rank == Some(CompetitionRank(GroupStats(g), GroupStats(g)[k]))
  {
    var stats := GroupStats(g);
    assert DistinctStatNames(stats);
    RankRowsClosedForm(stats);
  }

  /** Players level on points and difference share a rank. */
  lemma TiedPlayersShareRank(stats: seq<Stat>, a: nat, b: nat)
    requires DistinctStatNames(stats)
    requires a < |stats| && b < |stats|
    requires Tie(stats[a], stats[b])
    ensures RankRows(stats)[a] == RankRows(stats)[b]
  {
    RankRowClosedForm(stats, a, RankRows(stats));
    RankRowClosedForm(stats, b, RankRows(stats));
    CountBetterTie(stats, stats[a], stats[b]);
  }

  /** A player strictly ahead on (points, difference), and in particular one
      with more points, gets a strictly smaller rank. */
  lemma AheadMeansSmallerRank(stats: seq<Stat>, a: nat, b: nat)
    requires DistinctStatNames(stats)
    requires a < |stats| && b < |stats|
    requires Better(stats[a], stats[b])
    ensures RankRows(stats)[a].Some? && RankRows(stats)[b].Some?
    ensures RankRows(stats)[a].value < RankRows(stats)[b].value
  {
    RankRowClosedForm(stats, a, RankRows(stats));
    RankRowClosedForm(stats, b, RankRows(stats));
    assert stats[a] in stats;
    CountBetterMonotone(stats, stats[a], stats[b]);
  }

  /** A player nobody is strictly ahead of is ranked first. */
  lemma LeaderRankedFirst(stats: seq<Stat>, a: nat)
    requires DistinctStatNames(stats)
    requires a < |stats|
    requires forall k :: 0 <= k < |stats| ==> !Better(stats[k], stats[a])
    ensures RankRows(stats)[a] == Some(1)
  {
    RankRowClosedForm(stats, a, RankRows(stats));
    NoneBetter(stats, stats[a]);
  }

  lemma {:induction false} NoneBetter(s: seq<Stat>, x: Stat)
    requires forall k :: 0 <= k < |s| ==> !Better(s[k], x)
    ensures CountBetter(s, x) == 0
  {
    if |s| > 0 {
      NoneBetter(s[..|s| - 1], x);
    }
  }

  /** A roster row that no ranked player's name lookup lands on keeps no rank. */
  lemma {:induction false} WriteRanksSkips(stats: seq<Stat>, ranked: seq<nat>, k: nat)
    requires InRange(|stats|, ranked) && k < |stats|
    requires forall n :: 0 <= n < |ranked| ==> FindByName(stats, stats[ranked[n]].name) != Some(k)
    ensures WriteRanks(stats, ranked)[k] == None
  {
    if |ranked| > 0 {
      var n := |ranked| - 1;
      forall m | 0 <= m < n
        ensures FindByName(stats, stats[ranked[..n][m]].name) != Some(k)
      {
        assert ranked[..n][m] == ranked[m];
      }
      WriteRanksSkips(stats, ranked[..n], k);
    }
  }

  /** A name entered twice: the lookup by name always lands on the first
      copy, so the later row is never given a rank. */
  lemma RepeatedNameLeavesLaterRowUnranked(stats: seq<Stat>, i: nat, j: nat)
    requires i < j < |stats| && stats[i].name == stats[j].name
    ensures RankRows(stats)[j] == None
  {
    WriteRanksSkips(stats, SortIdx(stats, Indices(|stats|)), j);
  }

  /** A name entered twice can also leave another player without a rank:
      three rows level on (points, difference), the first two sharing a name.
      The third place ties the second, reads the rank of the second row, which
      was never written, and so receives none. */
  lemma RepeatedNameCanUnrankAnotherPlayer(stats: seq<Stat>)
    requires |stats| == 3
    requires Tie(stats[0], stats[1]) && Tie(stats[1], stats[2])
    requires stats[0].name == stats[1].name && stats[1].name != stats[2].name
    ensures RankRows(stats) == [Some(1), None, None]
  {
    var idx := Indices(3);
    assert idx[..2][..1] == [0] && idx[..2] == [0, 1];
    assert SortIdx(stats, [0]) == [0];
    assert SortIdx(stats, [0, 1]) == InsertIdx(stats, 1, [0]) == [0, 1];
    assert SortIdx(stats, idx) == InsertIdx(stats, 2, [0, 1]);
    assert InsertIdx(stats, 2, [1]) == [1, 2];
    assert SortIdx(stats, idx) == [0, 1, 2];
    var ranked := [0, 1, 2];
    assert ranked[..2][..1] == [0] && ranked[..2] == [0, 1] && [0, 1][..1] == [0] && [0][..0] == [];
    assert FindByName(stats, stats[0].name) == Some(0);
    assert FindByName(stats, stats[2].name) == Some(2);
    assert WriteRanks(stats, [0]) == [Some(1), None, None];
    assert WriteRanks(stats, [0, 1]) == [Some(1), None, None];
  }

  /** The smallest roster showing it: "a", "a", "b" with nothing played. The
      second "a" and "b" both end without a rank. */
  lemma RepeatedNameInNewGroup()
    ensures WellFormed(NewGroup(["a", "a", "b"]))
    ensures |UpdateStandings(NewGroup(["a", "a", "b"]))| == 3
    ensures UpdateStandings(NewGroup(["a", "a", "b"]))[1].rank == None
    ensures UpdateStandings(NewGroup(["a", "a", "b"]))[2].rank == None
  {
    var g := NewGroup(["a", "a", "b"]);
    NewGroupInvariants(["a", "a", "b"]);
    var stats := GroupStats(g);
    forall k | 0 <= k < 3
      ensures stats[k].pts == 0 && stats[k].diff == 0
    {
      NothingPlayedNothingCounted(g, g.names[k], g.names);
    }
    RepeatedNameCanUnrankAnotherPlayer(stats);
  }
}
