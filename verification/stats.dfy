/** Per-player statistics of one group, summed over played matches only. */
module Stats {
  import opened Matrix

  /** One row of the standings before ranks are assigned. */
  datatype Stat = Stat(id: nat, name: string, w: nat, l: nat, sW: int, sL: int, pts: nat, diff: int)

  /** Adds one match of the row player to its running totals: sets always,
      then a win (2 points) when it scored more, otherwise a loss (1 point).
      A match that is not `done` changes nothing. */
  function AddMatch(s: Stat, m: Score): Stat
  {
    if !m.done then s
    else if m.s1 > m.s2 then s.(sW := s.sW + m.s1, sL := s.sL + m.s2, w := s.w + 1, pts := s.pts + 2)
    else s.(sW := s.sW + m.s1, sL := s.sL + m.s2, l := s.l + 1, pts := s.pts + 1)
  }

  /** The totals of `name` after visiting the opponents `opps` in order,
      skipping its own name. The walk never touches `diff`: it stays 0 until
      `StatOf` sets it from the finished set totals. */
  function Tally(g: Group, name: string, opps: seq<string>): (s: Stat)
    requires WellFormed(g) && name in g.names
    requires forall o :: o in opps ==> o in g.names
    ensures s.id == g.playerIds[name] && s.name == name && s.diff == 0
    ensures s.pts == 2 * s.w + s.l
  {
    if |opps| == 0 then Stat(g.playerIds[name], name, 0, 0, 0, 0, 0, 0)
    else
      var s := Tally(g, name, opps[..|opps| - 1]);
      var opp := opps[|opps| - 1];
      if opp == name then s else AddMatch(s, g.results[(name, opp)])
  }

  /** The statistics row of one roster name. */
  function StatOf(g: Group, name: string): (s: Stat)
    requires WellFormed(g) && name in g.names
    ensures s.name == name && s.id == g.playerIds[name]
    ensures s.pts == 2 * s.w + s.l
    ensures s.diff == s.sW - s.sL
  {
    var t := Tally(g, name, g.names);
    t.(diff := t.sW - t.sL)
  }

  /** The statistics of the names `ns`, in the same order. */
  function StatsOf(g: Group, ns: seq<string>): (r: seq<Stat>)
    requires WellFormed(g)
    requires forall n :: n in ns ==> n in g.names
    ensures |r| == |ns|
    ensures forall k :: 0 <= k < |ns| ==> r[k] == StatOf(g, ns[k])
  {
    if |ns| == 0 then [] else StatsOf(g, ns[..|ns| - 1]) + [StatOf(g, ns[|ns| - 1])]
  }

  /** The statistics of the whole roster, in roster order. */
  function GroupStats(g: Group): (r: seq<Stat>)
    requires WellFormed(g)
    ensures |r| == |g.names|
    ensures forall k :: 0 <= k < |r| ==> r[k].name == g.names[k] && r[k].id == g.playerIds[g.names[k]]
  {
    StatsOf(g, g.names)
  }

  /** Number of played matches of `name` against the opponents `opps`. */
  function DoneCount(g: Group, name: string, opps: seq<string>): nat
  {
    if |opps| == 0 then 0
    else
      var opp := opps[|opps| - 1];
      DoneCount(g, name, opps[..|opps| - 1])
        + (if opp != name && (name, opp) in g.results && g.results[(name, opp)].done then 1 else 0)
  }

  /** Wins plus losses is the number of played matches: every played match
      is exactly one of the two. */
  lemma {:induction false} TallyCountsDoneMatches(g: Group, name: string, opps: seq<string>)
    requires WellFormed(g) && name in g.names
    requires forall o :: o in opps ==> o in g.names
    ensures Tally(g, name, opps).w + Tally(g, name, opps).l == DoneCount(g, name, opps)
  {
    if |opps| > 0 {
      TallyCountsDoneMatches(g, name, opps[..|opps| - 1]);
    }
  }

  /** The per-player facts of the standings: wins plus losses is the number
      of played matches against the rest of the roster, 2 points per win and
      1 per loss, and the set difference. */
  lemma StatFacts(g: Group, name: string)
    requires WellFormed(g) && name in g.names
    ensures StatOf(g, name).w + StatOf(g, name).l == DoneCount(g, name, g.names)
    ensures StatOf(g, name).pts == 2 * StatOf(g, name).w + StatOf(g, name).l
    ensures StatOf(g, name).diff == StatOf(g, name).sW - StatOf(g, name).sL
  {
    TallyCountsDoneMatches(g, name, g.names);
  }

  /** Two tables that agree on every played match (and on which matches are
      played) give the same totals: scores of unplayed matches count for nothing. */
  lemma {:induction false} UnplayedScoresIgnored(g: Group, h: Group, name: string, opps: seq<string>)
    requires WellFormed(g) && name in g.names
    requires forall o :: o in opps ==> o in g.names
    requires h.names == g.names && h.playerIds == g.playerIds && h.results.Keys == g.results.Keys
    requires forall p :: p in g.results ==> g.results[p].done == h.results[p].done
    requires forall p :: p in g.results && g.results[p].done ==> g.results[p] == h.results[p]
    ensures WellFormed(h)
    ensures Tally(g, name, opps) == Tally(h, name, opps)
  {
    if |opps| > 0 {
      UnplayedScoresIgnored(g, h, name, opps[..|opps| - 1]);
    }
  }

  /** Hence a group's standings rows ignore the scores of unplayed matches. */
  lemma GroupStatsIgnoreUnplayed(g: Group, h: Group)
    requires WellFormed(g)
    requires h.names == g.names && h.playerIds == g.playerIds && h.results.Keys == g.results.Keys
    requires forall p :: p in g.results ==> g.results[p].done == h.results[p].done
    requires forall p :: p in g.results && g.results[p].done ==> g.results[p] == h.results[p]
    ensures WellFormed(h)
    ensures GroupStats(g) == GroupStats(h)
  {
    forall k | 0 <= k < |g.names|
      ensures GroupStats(g)[k] == GroupStats(h)[k]
    {
      UnplayedScoresIgnored(g, h, g.names[k], g.names);
    }
  }

  /** With no match played, a player has no points and no sets. */
  lemma {:induction false} NothingPlayedNothingCounted(g: Group, name: string, opps: seq<string>)
    requires WellFormed(g) && name in g.names
    requires forall o :: o in opps ==> o in g.names
    requires forall p :: p in g.results ==> !g.results[p].done
    ensures Tally(g, name, opps).pts == 0
    ensures Tally(g, name, opps).sW == 0 && Tally(g, name, opps).sL == 0
  {
    if |opps| > 0 {
      NothingPlayedNothingCounted(g, name, opps[..|opps| - 1]);
    }
  }
}
