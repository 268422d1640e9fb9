/** Group-wide bookkeeping: in a symmetric table every played match adds
    one win and one loss, and the set differences cancel out. */
module Balance {
  import opened Matrix
  import opened Stats

  /** Sum of f(a, b) over the column names `cols`. */
  function RowSum(f: (string, string) -> int, a: string, cols: seq<string>): int
  {
    if |cols| == 0 then 0 else RowSum(f, a, cols[..|cols| - 1]) + f(a, cols[|cols| - 1])
  }

  /** Sum of f(a, b) over every row `a` in `rows` and column `b` in `cols`. */
  function Total(f: (string, string) -> int, rows: seq<string>, cols: seq<string>): int
  {
    if |rows| == 0 then 0 else Total(f, rows[..|rows| - 1], cols) + RowSum(f, rows[|rows| - 1], cols)
  }

  /** Sum of f(a, b) over the unordered pairs of positions of `ns`, each
      pair taken once (a before b). */
  function PairSum(f: (string, string) -> int, ns: seq<string>): int
  {
    if |ns| == 0 then 0 else PairSum(f, ns[..|ns| - 1]) + RowSum(f, ns[|ns| - 1], ns[..|ns| - 1])
  }

  function Transpose(f: (string, string) -> int): (string, string) -> int
  {
    (a, b) => f(b, a)
  }

  /** The played matches a row player won. */
  function WinOf(g: Group): (string, string) -> int
  {
    (a, b) => if a != b && (a, b) in g.results && g.results[(a, b)].done && g.results[(a, b)].s1 > g.results[(a, b)].s2 then 1 else 0
  }

  /** The played matches a row player lost (did not score more). */
  function LossOf(g: Group): (string, string) -> int
  {
    (a, b) => if a != b && (a, b) in g.results && g.results[(a, b)].done && !(g.results[(a, b)].s1 > g.results[(a, b)].s2) then 1 else 0
  }

  /** The played matches. */
  function PlayedOf(g: Group): (string, string) -> int
  {
    (a, b) => if a != b && (a, b) in g.results && g.results[(a, b)].done then 1 else 0
  }

  /** Sets a row player won in played matches. */
  function SetsWonOf(g: Group): (string, string) -> int
  {
    (a, b) => if a != b && (a, b) in g.results && g.results[(a, b)].done then g.results[(a, b)].s1 else 0
  }

  /** Sets a row player lost in played matches. */
  function SetsLostOf(g: Group): (string, string) -> int
  {
    (a, b) => if a != b && (a, b) in g.results && g.results[(a, b)].done then g.results[(a, b)].s2 else 0
  }

  function SumW(s: seq<Stat>): int
  {
    if |s| == 0 then 0 else SumW(s[..|s| - 1]) + s[|s| - 1].w
  }

  function SumL(s: seq<Stat>): int
  {
    if |s| == 0 then 0 else SumL(s[..|s| - 1]) + s[|s| - 1].l
  }

  function SumDiff(s: seq<Stat>): int
  {
    if |s| == 0 then 0 else SumDiff(s[..|s| - 1]) + s[|s| - 1].diff
  }

  lemma {:induction false} RowSumCongruent(f: (string, string) -> int, h: (string, string) -> int, a: string, cols: seq<string>)
    requires forall x, y :: f(x, y) == h(x, y)
    ensures RowSum(f, a, cols) == RowSum(h, a, cols)
  {
    if |cols| > 0 {
      RowSumCongruent(f, h, a, cols[..|cols| - 1]);
    }
  }

  lemma {:induction false} TotalCongruent(f: (string, string) -> int, h: (string, string) -> int, rows: seq<string>, cols: seq<string>)
    requires forall x, y :: f(x, y) == h(x, y)
    ensures Total(f, rows, cols) == Total(h, rows, cols)
  {
    if |rows| > 0 {
      TotalCongruent(f, h, rows[..|rows| - 1], cols);
      RowSumCongruent(f, h, rows[|rows| - 1], cols);
    }
  }

  /** Adding a column adds the column's sum. */
  lemma {:induction false} TotalAppendColumn(f: (string, string) -> int, rows: seq<string>, cols: seq<string>, b: string)
    ensures Total(f, rows, cols + [b]) == Total(f, rows, cols) + RowSum(Transpose(f), b, rows)
  {
    if |rows| > 0 {
      var pre := rows[..|rows| - 1];
      var a := rows[|rows| - 1];
      TotalAppendColumn(f, pre, cols, b);
      assert (cols + [b])[..|cols|] == cols;
      assert RowSum(f, a, cols + [b]) == RowSum(f, a, cols) + f(a, b);
    }
  }

  /** Summing by rows or by columns gives the same total. */
  lemma {:induction false} TotalTranspose(f: (string, string) -> int, rows: seq<string>, cols: seq<string>)
    ensures Total(f, rows, cols) == Total(Transpose(f), cols, rows)
  {
    if |rows| > 0 {
      var pre := rows[..|rows| - 1];
      var a := rows[|rows| - 1];
      TotalTranspose(f, pre, cols);
      TotalAppendColumn(Transpose(f), cols, pre, a);
      assert pre + [a] == rows;
      assert forall x, y :: Transpose(Transpose(f))(x, y) == f(x, y);
      RowSumCongruent(Transpose(Transpose(f)), f, a, cols);
      assert Total(f, rows, cols) == Total(f, pre, cols) + RowSum(f, a, cols);
    } else {
      TotalNoColumns(Transpose(f), cols);
    }
  }

  lemma {:induction false} TotalNoColumns(f: (string, string) -> int, rows: seq<string>)
    ensures Total(f, rows, []) == 0
  {
    if |rows| > 0 {
      TotalNoColumns(f, rows[..|rows| - 1]);
    }
  }

  /** A symmetric f that is zero on the diagonal sums, over ordered pairs,
      to twice its sum over unordered pairs. */
  lemma {:induction false} TotalIsTwicePairs(f: (string, string) -> int, ns: seq<string>)
    requires forall x, y :: f(x, y) == f(y, x)
    requires forall x :: f(x, x) == 0
    ensures Total(f, ns, ns) == 2 * PairSum(f, ns)
  {
    if |ns| > 0 {
      var pre := ns[..|ns| - 1];
      var x := ns[|ns| - 1];
      assert ns == pre + [x];
      TotalIsTwicePairs(f, pre);
      TotalAppendColumn(f, pre, pre, x);
      RowSumCongruent(Transpose(f), f, x, pre);
      assert RowSum(f, x, ns) == RowSum(f, x, pre) + f(x, x);
    }
  }

  /** The running totals of one player are the row sums of the indicator tables. */
  lemma {:induction false} TallyIsRowSums(g: Group, name: string, opps: seq<string>)
    requires WellFormed(g) && name in g.names
    requires forall o :: o in opps ==> o in g.names
    ensures Tally(g, name, opps).w == RowSum(WinOf(g), name, opps)
    ensures Tally(g, name, opps).l == RowSum(LossOf(g), name, opps)
    ensures Tally(g, name, opps).sW == RowSum(SetsWonOf(g), name, opps)
    ensures Tally(g, name, opps).sL == RowSum(SetsLostOf(g), name, opps)
  {
    if |opps| > 0 {
      TallyIsRowSums(g, name, opps[..|opps| - 1]);
    }
  }

  /** Summing a statistic over the players of `ns` sums the table over rows `ns`. */
  lemma {:induction false} StatsSumsAreTotals(g: Group, ns: seq<string>)
    requires WellFormed(g)
    requires forall n :: n in ns ==> n in g.names
    ensures SumW(StatsOf(g, ns)) == Total(WinOf(g), ns, g.names)
    ensures SumL(StatsOf(g, ns)) == Total(LossOf(g), ns, g.names)
    ensures SumDiff(StatsOf(g, ns)) == Total(SetsWonOf(g), ns, g.names) - Total(SetsLostOf(g), ns, g.names)
  {
    if |ns| > 0 {
      var pre := ns[..|ns| - 1];
      StatsSumsAreTotals(g, pre);
      TallyIsRowSums(g, ns[|ns| - 1], g.names);
      assert StatsOf(g, ns)[..|ns| - 1] == StatsOf(g, pre);
    }
  }

  /** In a symmetric table where every played match has a winner, summed
      over the group: wins equal losses, both equal the number of played
      pairs, and the set differences add up to zero. */
  lemma WinsBalanceLosses(g: Group)
    requires WellFormed(g) && Symmetric(g) && Decisive(g)
    ensures SumW(GroupStats(g)) == SumL(GroupStats(g))
    ensures SumW(GroupStats(g)) == PairSum(PlayedOf(g), g.names)
    ensures SumDiff(GroupStats(g)) == 0
  {
    var ns := g.names;
    StatsSumsAreTotals(g, ns);
    // A loss of a against b is a win of b against a.
    forall x, y
      ensures LossOf(g)(x, y) == Transpose(WinOf(g))(x, y)
    {
      if (x, y) in g.results {
        assert (y, x) in g.results;
      }
    }
    TotalCongruent(LossOf(g), Transpose(WinOf(g)), ns, ns);
    TotalTranspose(Transpose(WinOf(g)), ns, ns);
    TotalCongruent(Transpose(Transpose(WinOf(g))), WinOf(g), ns, ns);
    // Sets lost against b are the sets b won.
    forall x, y
      ensures SetsLostOf(g)(x, y) == Transpose(SetsWonOf(g))(x, y)
    {
      if (x, y) in g.results {
        assert (y, x) in g.results;
      }
    }
    TotalCongruent(SetsLostOf(g), Transpose(SetsWonOf(g)), ns, ns);
    TotalTranspose(Transpose(SetsWonOf(g)), ns, ns);
    TotalCongruent(Transpose(Transpose(SetsWonOf(g))), SetsWonOf(g), ns, ns);
    // Wins plus losses are the played matches, counted from both sides.
    forall x, y
      ensures PlayedOf(g)(x, y) == PlayedOf(g)(y, x)
    {
      if (x, y) in g.results {
        assert (y, x) in g.results;
      }
    }
    TotalIsTwicePairs(PlayedOf(g), ns);
    TotalsAdd(WinOf(g), LossOf(g), PlayedOf(g), ns, ns);
  }

  /** Totals of pointwise sums are sums of totals. */
  lemma {:induction false} TotalsAdd(f: (string, string) -> int, h: (string, string) -> int, s: (string, string) -> int, rows: seq<string>, cols: seq<string>)
    requires forall x, y :: s(x, y) == f(x, y) + h(x, y)
    ensures Total(s, rows, cols) == Total(f, rows, cols) + Total(h, rows, cols)
  {
    if |rows| > 0 {
      TotalsAdd(f, h, s, rows[..|rows| - 1], cols);
      RowSumsAdd(f, h, s, rows[|rows| - 1], cols);
    }
  }

  lemma {:induction false} RowSumsAdd(f: (string, string) -> int, h: (string, string) -> int, s: (string, string) -> int, a: string, cols: seq<string>)
    requires forall x, y :: s(x, y) == f(x, y) + h(x, y)
    ensures RowSum(s, a, cols) == RowSum(f, a, cols) + RowSum(h, a, cols)
  {
    if |cols| > 0 {
      RowSumsAdd(f, h, s, a, cols[..|cols| - 1]);
    }
  }
}
