/** A group's life after creation: a series of picks from the result
    pickers, each one recorded in the table in the order it was made. */
module Picks {
  import opened Matrix
  import opened ScoreOptions
  import opened Stats
  import opened Balance

  /** Choosing `score` in the picker of row `p1`, column `p2`. */
  datatype Pick = Pick(p1: string, p2: string, score: (int, int))

  /** The pickers exist only for two distinct roster names. */
  ghost predicate PickableIn(names: seq<string>, picks: seq<Pick>)
  {
    forall i :: 0 <= i < |picks| ==> picks[i].p1 in names && picks[i].p2 in names && picks[i].p1 != picks[i].p2
  }

  /** Records every pick, oldest first. On a well-formed table the picks
      only overwrite entries: no pair is ever added. */
  function Play(g: Group, picks: seq<Pick>): (r: Group)
    requires PickableIn(g.names, picks)
    ensures r.names == g.names && r.playerIds == g.playerIds
    ensures WellFormed(g) ==> r.results.Keys == g.results.Keys
  {
    if |picks| == 0 then g
    else
      var last := picks[|picks| - 1];
      Record(Play(g, picks[..|picks| - 1]), last.p1, last.p2, last.score.0, last.score.1)
  }

  /** Picks of listed options keep the table well formed, symmetric, with
      `done` meaning a non-zero score, and with a winner in every played match. */
  lemma {:induction false} PlayPreservesInvariants(g: Group, max: int, picks: seq<Pick>)
    requires max > 0
    requires PickableIn(g.names, picks)
    requires forall i :: 0 <= i < |picks| ==> picks[i].score in Options(max)
    requires WellFormed(g) && Symmetric(g) && Consistent(g) && Decisive(g)
    ensures WellFormed(Play(g, picks)) && Symmetric(Play(g, picks))
    ensures Consistent(Play(g, picks)) && Decisive(Play(g, picks))
  {
    if |picks| > 0 {
      var pre := picks[..|picks| - 1];
      var last := picks[|picks| - 1];
      var h := Play(g, pre);
      PlayPreservesInvariants(g, max, pre);
      PickedOptionIsDecided(max, last.score);
      RecordPreservesInvariants(h, last.p1, last.p2, last.score.0, last.score.1);
      RecordPreservesDecisive(h, last.p1, last.p2, last.score.0, last.score.1);
    }
  }

  /** However a new group's pickers are used, the standings always balance:
      total wins equal total losses and equal the number of played pairs,
      and the set differences add up to zero. */
  lemma StandingsAlwaysBalance(names: seq<string>, max: int, picks: seq<Pick>)
    requires max > 0
    requires PickableIn(names, picks)
    requires forall i :: 0 <= i < |picks| ==> picks[i].score in Options(max)
    ensures WellFormed(Play(NewGroup(names), picks))
    ensures SumW(GroupStats(Play(NewGroup(names), picks))) == SumL(GroupStats(Play(NewGroup(names), picks)))
    ensures SumW(GroupStats(Play(NewGroup(names), picks))) == PairSum(PlayedOf(Play(NewGroup(names), picks)), names)
    ensures SumDiff(GroupStats(Play(NewGroup(names), picks))) == 0
  {
    NewGroupInvariants(names);
    PlayPreservesInvariants(NewGroup(names), max, picks);
    WinsBalanceLosses(Play(NewGroup(names), picks));
  }
}
