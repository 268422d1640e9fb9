/** Ordering the statistics by points, then set difference, and numbering
    the places competition-style: a player equal to the one above on
    (points, difference) shares its rank, everyone else gets its position. */
module Ranking {
  import opened Stats

  /** The standings comparator: negative when `a` goes first, positive when
      `b` does, zero on a tie. */
  function Compare(a: Stat, b: Stat): int
  {
    if b.pts != a.pts then b.pts - a.pts else b.diff - a.diff
  }

  /** `a` is strictly ahead of `b`: more points, or as many and a larger difference. */
  predicate Better(a: Stat, b: Stat)
  {
    a.pts > b.pts || (a.pts == b.pts && a.diff > b.diff)
  }

  /** Equal on the ranking key. */
  predicate Tie(a: Stat, b: Stat)
  {
    a.pts == b.pts && a.diff == b.diff
  }

  /** The comparator's sign means exactly "ahead", "tied" or "behind". */
  lemma CompareMeaning(a: Stat, b: Stat)
    ensures Compare(a, b) < 0 <==> Better(a, b)
    ensures Compare(a, b) == 0 <==> Tie(a, b)
    ensures Compare(a, b) > 0 <==> Better(b, a)
    ensures Compare(a, b) == -Compare(b, a)
  {
  }

  /** Nobody further down is strictly ahead of anybody above. */
  ghost predicate Sorted(s: seq<Stat>)
  {
    forall i, j :: 0 <= i < j < |s| ==> !Better(s[j], s[i])
  }

  /** Inserts `x` behind every element it is not strictly ahead of, so equal
      keys keep their arrival order. */
  function Insert(x: Stat, s: seq<Stat>): (r: seq<Stat>)
    ensures |r| == |s| + 1
  {
    if |s| == 0 then [x]
    else if Compare(x, s[0]) < 0 then [x] + s
    else [s[0]] + Insert(x, s[1..])
  }

  /** Inserting adds exactly `x`. */
  lemma {:induction false} InsertPermutes(x: Stat, s: seq<Stat>)
    ensures multiset(Insert(x, s)) == multiset(s) + multiset{x}
  {
    if |s| > 0 && Compare(x, s[0]) >= 0 {
      InsertPermutes(x, s[1..]);
      assert s == [s[0]] + s[1..];
    }
  }

  /** Inserting into a sorted list keeps it sorted. */
  lemma {:induction false} InsertKeepsSorted(x: Stat, s: seq<Stat>)
    requires Sorted(s)
    ensures Sorted(Insert(x, s))
  {
    if |s| > 0 && Compare(x, s[0]) >= 0 {
      var rest := Insert(x, s[1..]);
      InsertKeepsSorted(x, s[1..]);
      InsertPermutes(x, s[1..]);
      forall j | 0 <= j < |rest|
        ensures !Better(rest[j], s[0])
      {
        assert rest[j] in multiset(rest);
        if rest[j] != x {
          assert rest[j] in multiset(s[1..]);
          var k :| 0 <= k < |s[1..]| && s[1..][k] == rest[j];
          assert s[k + 1] == rest[j];
        }
      }
      var r := Insert(x, s);
      assert r == [s[0]] + rest;
      forall i, j | 0 <= i < j < |r|
        ensures !Better(r[j], r[i])
      {
        if i > 0 {
          assert r[i] == rest[i - 1] && r[j] == rest[j - 1];
        } else {
          assert r[j] == rest[j - 1];
        }
      }
    }
  }

  /** A stable sort by the comparator: ahead first, ties in input order. */
  function Sort(s: seq<Stat>): (r: seq<Stat>)
    ensures |r| == |s|
  {
    if |s| == 0 then [] else Insert(s[|s| - 1], Sort(s[..|s| - 1]))
  }

  /** The sorted list is a permutation of the input in which nobody is
      strictly ahead of anybody above. */
  lemma {:induction false} SortSpec(s: seq<Stat>)
    ensures Sorted(Sort(s))
    ensures multiset(Sort(s)) == multiset(s)
  {
    if |s| > 0 {
      var pre := s[..|s| - 1];
      assert s == pre + [s[|s| - 1]];
      SortSpec(pre);
      InsertPermutes(s[|s| - 1], Sort(pre));
      InsertKeepsSorted(s[|s| - 1], Sort(pre));
    }
  }

  /** How many entries of `s` are strictly ahead of `x`. */
  function CountBetter(s: seq<Stat>, x: Stat): nat
  {
    if |s| == 0 then 0 else CountBetter(s[..|s| - 1], x) + (if Better(s[|s| - 1], x) then 1 else 0)
  }

  /** The competition rank of `x` among `s`: one more than the number of
      entries strictly ahead of it. */
  function CompetitionRank(s: seq<Stat>, x: Stat): nat
  {
    1 + CountBetter(s, x)
  }

  /** The rank of each place of an ordered list: position 1 first, a player
      tied with the one above takes that player's rank, any other player
      takes its 1-based position. */
  function Ranks(s: seq<Stat>): (r: seq<nat>)
    ensures |r| == |s|
    ensures |s| > 0 ==> r[0] == 1
    ensures forall i :: 0 <= i < |s| ==> 1 <= r[i] <= i + 1
  {
    if |s| == 0 then []
    else
      var pre := Ranks(s[..|s| - 1]);
      var n := |s| - 1;
      pre + [if n > 0 && Tie(s[n], s[n - 1]) then pre[n - 1] else n + 1]
  }

  lemma {:induction false} CountBetterAppend(s: seq<Stat>, t: seq<Stat>, x: Stat)
    ensures CountBetter(s + t, x) == CountBetter(s, x) + CountBetter(t, x)
  {
    if |t| > 0 {
      CountBetterAppend(s, t[..|t| - 1], x);
      assert (s + t)[..|s + t| - 1] == s + t[..|t| - 1];
    } else {
      assert s + t == s;
    }
  }

  /** The count of players ahead depends only on which players there are,
      not on their order. */
  lemma {:induction false} CountBetterPermutation(s: seq<Stat>, t: seq<Stat>, x: Stat)
    requires multiset(s) == multiset(t)
    ensures CountBetter(s, x) == CountBetter(t, x)
  {
    if |s| > 0 {
      var pre := s[..|s| - 1];
      var y := s[|s| - 1];
      assert s == pre + [y];
      assert multiset(pre) == multiset(s) - multiset{y};
      assert y in multiset(t);
      var j :| 0 <= j < |t| && t[j] == y;
      var t' := t[..j] + t[j + 1..];
      RemoveAt(t, j, x);
      CountBetterPermutation(pre, t', x);
    } else {
      assert |t| == |multiset(t)| == 0;
    }
  }

  /** Taking out the entry at `j` removes it from the multiset and from the count. */
  lemma {:induction false} RemoveAt(t: seq<Stat>, j: nat, x: Stat)
    requires j < |t|
    ensures multiset(t[..j] + t[j + 1..]) == multiset(t) - multiset{t[j]}
    ensures CountBetter(t, x) == CountBetter(t[..j] + t[j + 1..], x) + (if Better(t[j], x) then 1 else 0)
  {
    assert t == t[..j] + ([t[j]] + t[j + 1..]);
    CountBetterAppend(t[..j], [t[j]] + t[j + 1..], x);
    CountBetterAppend([t[j]], t[j + 1..], x);
    CountBetterAppend(t[..j], t[j + 1..], x);
    assert CountBetter([t[j]], x) == (if Better(t[j], x) then 1 else 0) by {
      assert [t[j]][..0] == [];
    }
  }

  /** Players tied on the key have the same number of players ahead. */
  lemma {:induction false} CountBetterTie(s: seq<Stat>, x: Stat, y: Stat)
    requires Tie(x, y)
    ensures CountBetter(s, x) == CountBetter(s, y)
  {
    if |s| > 0 {
      CountBetterTie(s[..|s| - 1], x, y);
    }
  }

  /** In a sorted list every rank is one more than the number of players
      strictly ahead on (points, difference). */
  lemma {:induction false} RanksClosedForm(s: seq<Stat>)
    requires Sorted(s)
    ensures forall i {:trigger Ranks(s)[i]} :: 0 <= i < |s| ==> Ranks(s)[i] == CompetitionRank(s, s[i])
  {
    if |s| > 0 {
      var n := |s| - 1;
      var pre := s[..n];
      var x := s[n];
      assert Sorted(pre);
      RanksClosedForm(pre);
      forall i | 0 <= i < n
        ensures Ranks(s)[i] == CompetitionRank(s, s[i])
      {
        assert pre[i] == s[i];
        assert !Better(x, s[i]);
      }
      if n > 0 && Tie(x, s[n - 1]) {
        CountBetterTie(pre, x, s[n - 1]);
        assert pre[n - 1] == s[n - 1];
      } else {
        // Everybody above is strictly ahead of x.
        forall j | 0 <= j < n
          ensures Better(pre[j], x)
        {
          assert !Better(s[n - 1], s[j]);
        }
        AllBetter(pre, x);
      }
    }
  }

  lemma {:induction false} AllBetter(s: seq<Stat>, x: Stat)
    requires forall j :: 0 <= j < |s| ==> Better(s[j], x)
    ensures CountBetter(s, x) == |s|
  {
    if |s| > 0 {
      AllBetter(s[..|s| - 1], x);
    }
  }

  /** Being strictly ahead of someone in the list puts one strictly more
      player ahead of them. */
  lemma {:induction false} CountBetterMonotone(s: seq<Stat>, a: Stat, b: Stat)
    requires Better(a, b)
    ensures CountBetter(s, a) <= CountBetter(s, b)
    ensures a in s ==> CountBetter(s, a) < CountBetter(s, b)
  {
    if |s| > 0 {
      var pre := s[..|s| - 1];
      CountBetterMonotone(pre, a, b);
      assert s == pre + [s[|s| - 1]];
      assert a in s ==> a in pre || a == s[|s| - 1];
    }
  }

  /** Any sorted arrangement of the same players gives every player the same
      rank: the order the sort leaves exact ties in does not matter. */
  lemma RanksIndependentOfTieOrder(s: seq<Stat>, p: seq<Stat>)
    requires Sorted(p) && multiset(p) == multiset(s)
    ensures forall i {:trigger Ranks(p)[i]} :: 0 <= i < |p| ==> Ranks(p)[i] == CompetitionRank(s, p[i])
  {
    RanksClosedForm(p);
    forall i | 0 <= i < |p|
      ensures Ranks(p)[i] == CompetitionRank(s, p[i])
    {
      CountBetterPermutation(p, s, p[i]);
    }
  }

  /** Every index of `idx` points at a row of a table with `n` rows. */
  predicate InRange(n: nat, idx: seq<nat>)
  {
    forall i :: 0 <= i < |idx| ==> idx[i] < n
  }

  /** The rows `idx` points at, in the order of `idx`. */
  function RowsAt(stats: seq<Stat>, idx: seq<nat>): (r: seq<Stat>)
    requires InRange(|stats|, idx)
    ensures |r| == |idx|
    ensures forall i :: 0 <= i < |idx| ==> r[i] == stats[idx[i]]
  {
    seq(|idx|, i requires 0 <= i < |idx| => stats[idx[i]])
  }

  /** The row positions 0 .. n-1 in order. */
  function Indices(n: nat): (r: seq<nat>)
    ensures |r| == n && InRange(n, r)
    ensures forall i :: 0 <= i < n ==> r[i] == i
  {
    seq(n, i => i)
  }

  /** The sort applied to row objects rather than to their values: the same
      placement rule, comparing the rows the indices point at. The list it
      builds is a list of row identities, which is what the rank pass reads
      and writes through. */
  function InsertIdx(stats: seq<Stat>, x: nat, s: seq<nat>): (r: seq<nat>)
    requires x < |stats| && InRange(|stats|, s)
    ensures |r| == |s| + 1 && InRange(|stats|, r)
  {
    if |s| == 0 then [x]
    else if Compare(stats[x], stats[s[0]]) < 0 then [x] + s
    else [s[0]] + InsertIdx(stats, x, s[1..])
  }

  function SortIdx(stats: seq<Stat>, s: seq<nat>): (r: seq<nat>)
    requires InRange(|stats|, s)
    ensures |r| == |s| && InRange(|stats|, r)
  {
    if |s| == 0 then [] else InsertIdx(stats, s[|s| - 1], SortIdx(stats, s[..|s| - 1]))
  }

  /** Inserting a row identity places its row where `Insert` places the value. */
  lemma {:induction false} InsertIdxTracksInsert(stats: seq<Stat>, x: nat, s: seq<nat>)
    requires x < |stats| && InRange(|stats|, s)
    ensures RowsAt(stats, InsertIdx(stats, x, s)) == Insert(stats[x], RowsAt(stats, s))
  {
    var vs := RowsAt(stats, s);
    if |s| > 0 && Compare(stats[x], stats[s[0]]) >= 0 {
      InsertIdxTracksInsert(stats, x, s[1..]);
      assert vs[1..] == RowsAt(stats, s[1..]);
      assert RowsAt(stats, InsertIdx(stats, x, s)) == [stats[s[0]]] + RowsAt(stats, InsertIdx(stats, x, s[1..]));
    } else if |s| > 0 {
      assert RowsAt(stats, InsertIdx(stats, x, s)) == [stats[x]] + vs;
    }
  }

  /** Sorting row identities and then reading the rows gives the sorted values. */
  lemma {:induction false} SortIdxTracksSort(stats: seq<Stat>, s: seq<nat>)
    requires InRange(|stats|, s)
    ensures RowsAt(stats, SortIdx(stats, s)) == Sort(RowsAt(stats, s))
  {
    if |s| > 0 {
      var pre := s[..|s| - 1];
      SortIdxTracksSort(stats, pre);
      InsertIdxTracksInsert(stats, s[|s| - 1], SortIdx(stats, pre));
      assert RowsAt(stats, s)[..|s| - 1] == RowsAt(stats, pre);
    }
  }

  /** The ranked row identities of a table read back as the sorted table. */
  lemma RankedRowsAreSorted(stats: seq<Stat>)
    ensures RowsAt(stats, SortIdx(stats, Indices(|stats|))) == Sort(stats)
  {
    SortIdxTracksSort(stats, Indices(|stats|));
    assert RowsAt(stats, Indices(|stats|)) == stats;
  }
}
