/** The scores the result picker offers for a best-of rule: "0:0" (not
    played), then `max:i` for each i below max, then `i:max` likewise. */
module ScoreOptions {

  /** `max:0 .. max:max-1`, the row player winning. */
  function RowWins(max: int, count: nat): (r: seq<(int, int)>)
    ensures |r| == count
    ensures forall i :: 0 <= i < count ==> r[i] == (max, i)
  {
    if count == 0 then [] else RowWins(max, count - 1) + [(max, count - 1)]
  }

  /** `0:max .. max-1:max`, the column player winning. */
  function ColumnWins(max: int, count: nat): (r: seq<(int, int)>)
    ensures |r| == count
    ensures forall i :: 0 <= i < count ==> r[i] == (i, max)
  {
    if count == 0 then [] else ColumnWins(max, count - 1) + [(count - 1, max)]
  }

  /** The options in the order they are listed. A rule below 1 lists only "0:0". */
  function Options(max: int): seq<(int, int)>
  {
    var n := if max > 0 then max else 0;
    [(0, 0)] + RowWins(max, n) + ColumnWins(max, n)
  }

  /** The shape of a legal score: not played, or one side reached `max`
      while the other stayed below it. */
  predicate LegalScore(max: int, s: (int, int))
  {
    s == (0, 0) || (s.0 == max && 0 <= s.1 < max) || (s.1 == max && 0 <= s.0 < max)
  }

  /** The list holds exactly the legal scores, each once, 2*max + 1 of them. */
  lemma OptionsAreLegalScores(max: int)
    requires max >= 0
    ensures |Options(max)| == 2 * max + 1
    ensures forall s :: s in Options(max) <==> LegalScore(max, s)
    ensures forall i, j :: 0 <= i < j < |Options(max)| ==> Options(max)[i] != Options(max)[j]
  {
    var o := Options(max);
    assert forall i :: 1 <= i <= max ==> o[i] == (max, i - 1);
    assert forall i :: max + 1 <= i < 2 * max + 1 ==> o[i] == (i - max - 1, max);
    forall s | LegalScore(max, s)
      ensures s in o
    {
      if s == (0, 0) {
        assert o[0] == s;
      } else if s.0 == max && 0 <= s.1 < max {
        assert o[s.1 + 1] == s;
      } else {
        assert o[max + 1 + s.0] == s;
      }
    }
  }

  /** For a positive rule, picking an option records a played match exactly
      when it is not "0:0", and a played match always has a winner. */
  lemma PickedOptionIsDecided(max: int, s: (int, int))
    requires max > 0
    requires s in Options(max)
    ensures (s.0 > 0 || s.1 > 0) <==> s != (0, 0)
    ensures s != (0, 0) ==> s.0 != s.1
  {
    OptionsAreLegalScores(max);
  }
}
