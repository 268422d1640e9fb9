/** The result table of one group: the roster, the 1-based player ids and
    the directed match results for every ordered pair of distinct names. */
module Matrix {

  /** One directed match result: sets won by the row player (s1), by the
      column player (s2), and whether the match counts as played. */
  datatype Score = Score(s1: int, s2: int, done: bool)

  datatype Group = Group(
    names: seq<string>,
    results: map<(string, string), Score>,
    playerIds: map<string, nat>)

  /** The entry every pair starts with: 0:0, not played. */
  const Unplayed: Score := Score(0, 0, false)

  /** The same match seen from the other side. */
  function Mirror(m: Score): Score
  {
    Score(m.s2, m.s1, m.done)
  }

  /** Index of the last occurrence of `n` in `names`. */
  function LastIndexOf(names: seq<string>, n: string): (i: nat)
    requires n in names
    ensures i < |names| && names[i] == n
    ensures forall j :: i < j < |names| ==> names[j] != n
  {
    if names[|names| - 1] == n then |names| - 1 else LastIndexOf(names[..|names| - 1], n)
  }

  /** Ids as the roster is built: each pushed name gets the roster length
      after the push, so a repeated name keeps the position of its last copy. */
  function PlayerIds(names: seq<string>): (ids: map<string, nat>)
  {
    if |names| == 0 then map[]
    else PlayerIds(names[..|names| - 1])[names[|names| - 1] := |names|]
  }

  /** Every name on the roster has an id, the id is its last 1-based position,
      and nothing else gets an id. */
  lemma {:induction false} PlayerIdsAreLastPositions(names: seq<string>)
    ensures PlayerIds(names).Keys == set n | n in names
    ensures forall n :: n in names ==> PlayerIds(names)[n] == LastIndexOf(names, n) + 1
  {
    if |names| > 0 {
      var pre := names[..|names| - 1];
      PlayerIdsAreLastPositions(pre);
      forall n | n in names
        ensures PlayerIds(names)[n] == LastIndexOf(names, n) + 1
      {
        if n != names[|names| - 1] {
          assert n in pre by {
            var k :| 0 <= k < |names| && names[k] == n;
            assert pre[k] == n;
          }
        }
      }
      assert forall n :: n in names <==> n in pre || n == names[|names| - 1];
    }
  }

  ghost predicate DistinctNames(names: seq<string>)
  {
    forall i, j :: 0 <= i < j < |names| ==> names[i] != names[j]
  }

  /** With distinct names, ids are exactly 1..n in roster order. */
  lemma PlayerIdsInRosterOrder(names: seq<string>)
    requires DistinctNames(names)
    ensures forall i :: 0 <= i < |names| ==> names[i] in PlayerIds(names) && PlayerIds(names)[names[i]] == i + 1
  {
    PlayerIdsAreLastPositions(names);
    forall i | 0 <= i < |names|
      ensures PlayerIds(names)[names[i]] == i + 1
    {
      var k := LastIndexOf(names, names[i]);
      assert k == i;
    }
  }

  /** The result table of a freshly created group. */
  function NewResults(names: seq<string>): map<(string, string), Score>
  {
    map a, b | a in names && b in names && a != b :: (a, b) := Unplayed
  }

  /** A new group: roster as given, ids by position, every ordered pair of
      distinct names unplayed and no diagonal entry. */
  function NewGroup(names: seq<string>): (g: Group)
    ensures g.names == names
    ensures forall a, b :: (a, b) in g.results <==> a in names && b in names && a != b
    ensures forall p :: p in g.results ==> g.results[p] == Unplayed
    ensures forall a :: (a, a) !in g.results
  {
    Group(names, NewResults(names), PlayerIds(names))
  }

  /** The table holds exactly the ordered pairs of distinct roster names,
      and every roster name has an id. */
  ghost predicate WellFormed(g: Group)
  {
    && (forall a, b :: (a, b) in g.results <==> a in g.names && b in g.names && a != b)
    && (forall n :: n in g.names ==> n in g.playerIds)
  }

  /** Each entry is the mirror of its opposite entry. */
  ghost predicate Symmetric(g: Group)
  {
    forall a, b :: (a, b) in g.results ==>
      (b, a) in g.results && g.results[(b, a)] == Mirror(g.results[(a, b)])
  }

  /** `done` holds exactly when some score is non-zero. */
  ghost predicate Consistent(g: Group)
  {
    forall p :: p in g.results ==> (g.results[p].done <==> g.results[p].s1 > 0 || g.results[p].s2 > 0)
  }

  /** Every played match has a winner. */
  ghost predicate Decisive(g: Group)
  {
    forall p :: p in g.results && g.results[p].done ==> g.results[p].s1 != g.results[p].s2
  }

  lemma NewGroupInvariants(names: seq<string>)
    ensures WellFormed(NewGroup(names))
    ensures Symmetric(NewGroup(names))
    ensures Consistent(NewGroup(names))
    ensures Decisive(NewGroup(names))
  {
    PlayerIdsAreLastPositions(names);
  }

  /** Records `s1:s2` for `p1` against `p2`, and the mirrored result for
      `p2` against `p1`. The only caller passes two distinct roster names. */
  function Record(g: Group, p1: string, p2: string, s1: int, s2: int): (r: Group)
    requires p1 in g.names && p2 in g.names && p1 != p2
    ensures r.names == g.names && r.playerIds == g.playerIds
    ensures r.results.Keys == g.results.Keys + {(p1, p2), (p2, p1)}
    ensures r.results[(p1, p2)] == Score(s1, s2, s1 > 0 || s2 > 0)
    ensures r.results[(p2, p1)] == Mirror(r.results[(p1, p2)])
    ensures forall p :: p in g.results && p != (p1, p2) && p != (p2, p1) ==> r.results[p] == g.results[p]
  {
    var done := s1 > 0 || s2 > 0;
    var res := g.results[(p1, p2) := Score(s1, s2, done)];
    g.(results := res[(p2, p1) := Score(s2, s1, done)])
  }

  /** Recording keeps the table shape, its symmetry and the meaning of `done`. */
  lemma RecordPreservesInvariants(g: Group, p1: string, p2: string, s1: int, s2: int)
    requires p1 in g.names && p2 in g.names && p1 != p2
    requires WellFormed(g) && Symmetric(g) && Consistent(g)
    ensures WellFormed(Record(g, p1, p2, s1, s2))
    ensures Symmetric(Record(g, p1, p2, s1, s2))
    ensures Consistent(Record(g, p1, p2, s1, s2))
  {
    var r := Record(g, p1, p2, s1, s2);
    forall a, b | (a, b) in r.results
      ensures (b, a) in r.results && r.results[(b, a)] == Mirror(r.results[(a, b)])
    {
      if (a, b) != (p1, p2) && (a, b) != (p2, p1) {
        assert (a, b) in g.results;
        assert (b, a) in g.results;
      }
    }
  }

  /** A decided score (one side non-zero, sides different) keeps every
      played match decisive; recording 0:0 does too. */
  lemma RecordPreservesDecisive(g: Group, p1: string, p2: string, s1: int, s2: int)
    requires p1 in g.names && p2 in g.names && p1 != p2
    requires Decisive(g)
    requires (s1 > 0 || s2 > 0) ==> s1 != s2
    ensures Decisive(Record(g, p1, p2, s1, s2))
  {
  }

  /** Recording 0:0 turns a pair back into "not played". */
  lemma RecordZeroResets(g: Group, p1: string, p2: string)
    requires p1 in g.names && p2 in g.names && p1 != p2
    ensures Record(g, p1, p2, 0, 0).results[(p1, p2)] == Unplayed
    ensures Record(g, p1, p2, 0, 0).results[(p2, p1)] == Unplayed
  {
  }

  /** Recording the same pair twice keeps only the second result. */
  lemma RecordOverwrites(g: Group, p1: string, p2: string, a1: int, a2: int, b1: int, b2: int)
    requires p1 in g.names && p2 in g.names && p1 != p2
    ensures Record(Record(g, p1, p2, a1, a2), p1, p2, b1, b2) == Record(g, p1, p2, b1, b2)
  {
  }

  /** Recording from the other side with swapped scores is the same write. */
  lemma RecordFromEitherSide(g: Group, p1: string, p2: string, s1: int, s2: int)
    requires p1 in g.names && p2 in g.names && p1 != p2
    ensures Record(g, p2, p1, s2, s1) == Record(g, p1, p2, s1, s2)
  {
  }
}
