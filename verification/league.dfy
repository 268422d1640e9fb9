/** Creating a league: the name fields are grouped by their group label, in
    page order, and each group becomes a fresh result table. */
module League {
  import opened Matrix
  import DisplaySort

  /** One name field: its group label, what was typed, and its placeholder. */
  datatype NameField = NameField(group: string, value: string, placeholder: string)

  /** An empty field falls back to its placeholder. */
  function NameOf(f: NameField): string
  {
    if f.value == "" then f.placeholder else f.value
  }

  /** The names of the fields labelled `g`, in page order. */
  function NamesIn(fields: seq<NameField>, g: string): seq<string>
  {
    if |fields| == 0 then []
    else NamesIn(fields[..|fields| - 1], g) + (if fields[|fields| - 1].group == g then [NameOf(fields[|fields| - 1])] else [])
  }

  /** The rosters, built by appending each field's name to its group's list,
      the list being created on the group's first field. */
  function Rosters(fields: seq<NameField>): map<string, seq<string>>
  {
    if |fields| == 0 then map[]
    else
      var m := Rosters(fields[..|fields| - 1]);
      var f := fields[|fields| - 1];
      m[f.group := (if f.group in m then m[f.group] else []) + [NameOf(f)]]
  }

  /** A group exists exactly for the labels some field carries, and its roster
      is that label's names in page order. */
  lemma {:induction false} RostersAreGroupedNames(fields: seq<NameField>)
    ensures forall g :: g in Rosters(fields) <==> exists i :: 0 <= i < |fields| && fields[i].group == g
    ensures forall g :: g in Rosters(fields) ==> Rosters(fields)[g] == NamesIn(fields, g)
  {
    if |fields| > 0 {
      var pre := fields[..|fields| - 1];
      RostersAreGroupedNames(pre);
      forall g | g !in Rosters(pre)
        ensures NamesIn(pre, g) == []
      {
        NoFieldNoNames(pre, g);
      }
      forall g
        ensures g in Rosters(fields) <==> exists i :: 0 <= i < |fields| && fields[i].group == g
      {
        if g in Rosters(pre) {
          var i :| 0 <= i < |pre| && pre[i].group == g;
          assert fields[i].group == g;
        }
        if exists i :: 0 <= i < |fields| && fields[i].group == g {
          var i :| 0 <= i < |fields| && fields[i].group == g;
          if i < |pre| {
            assert pre[i].group == g;
          }
        }
      }
    }
  }

  lemma {:induction false} NoFieldNoNames(fields: seq<NameField>, g: string)
    requires forall i :: 0 <= i < |fields| ==> fields[i].group != g
    ensures NamesIn(fields, g) == []
  {
    if |fields| > 0 {
      NoFieldNoNames(fields[..|fields| - 1], g);
    }
  }

  datatype LeagueGroups = LeagueGroups(groups: map<string, Group>, sortOptions: map<string, DisplaySort.SortOption>)

  /** Every group gets a fresh table over its roster and the default display option. */
  function NewLeague(fields: seq<NameField>): (l: LeagueGroups)
    ensures l.groups.Keys == Rosters(fields).Keys == l.sortOptions.Keys
    ensures forall g :: g in l.groups ==> l.groups[g] == NewGroup(Rosters(fields)[g])
    ensures forall g :: g in l.sortOptions ==> l.sortOptions[g] == DisplaySort.DefaultOption
  {
    var rosters := Rosters(fields);
    LeagueGroups(
      map g | g in rosters :: NewGroup(rosters[g]),
      map g | g in rosters :: DisplaySort.DefaultOption)
  }

  /** Each group of a new league has the labelled names as roster, the ids
      the roster was built with (each name's last 1-based position) and an
      all-unplayed table over its distinct pairs. */
  lemma NewLeagueGroups(fields: seq<NameField>, g: string)
    requires exists i :: 0 <= i < |fields| && fields[i].group == g
    ensures g in NewLeague(fields).groups
    ensures NewLeague(fields).groups[g].names == NamesIn(fields, g)
    ensures NewLeague(fields).groups[g].playerIds == PlayerIds(NamesIn(fields, g))
    ensures WellFormed(NewLeague(fields).groups[g]) && Symmetric(NewLeague(fields).groups[g])
    ensures forall p :: p in NewLeague(fields).groups[g].results ==> NewLeague(fields).groups[g].results[p] == Unplayed
  {
    RostersAreGroupedNames(fields);
    NewGroupInvariants(Rosters(fields)[g]);
  }
}
