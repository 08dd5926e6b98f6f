/** The page's state and its event handlers. The two globals (`teamType`,
    `playerCount`) and what the page keeps in the document (the unassigned
    table and the team cards) are the fields of one object; each handler is
    a method that updates them in place. Each method is specified by the
    corresponding transition in `Roster`, whose properties are proved there. */
module Picker {
  import opened Options
  import opened Text
  import opened Roster
  import Csv

  class Picker {
    var teamType: string
    var playerCount: nat
    var rows: seq<Row>
    var teams: seq<Team>

    /** Every team card has six slots and no two rows share a name. */
    ghost predicate Valid()
      reads this
    {
      WellFormed(teams) && UniqueNames(rows)
    }

    /** There are as many cards as the player count needs: ceil(count / 6). */
    predicate CardsCover()
      reads this
    {
      |teams| == TeamsNeeded(playerCount)
    }

    /** The unassigned table and the team cards as one value. */
    function State(): Board
      reads this
    {
      Board(rows, teams)
    }

    /** The page as it is first shown. */
    constructor ()
      ensures Valid() && Consistent(State()) && CardsCover()
      ensures teamType == "Team" && playerCount == 0 && rows == [] && teams == []
    {
      teamType := "Team";
      playerCount := 0;
      rows := [];
      teams := [];
    }

    /** `addUnassignedRow(name, pref)`: a name already in the table leaves
        everything as it was (the first row and its preference stay);
        otherwise an enabled row is appended. */
    method AddUnassignedRow(name: string, pref: string)
      requires Valid()
      modifies this
      ensures Valid()
      ensures rows == AddRow(old(rows), name, pref)
      ensures teams == old(teams) && teamType == old(teamType) && playerCount == old(playerCount)
    {
      if FindRow(rows, name).Some? {
        return;
      }
      rows := rows + [Row(name, pref, true)];
    }

    /** `addTeamCard(i)`: appends a card labelled with the current team type
        and the letter for `i`, an empty league and six empty slots. */
    method AddTeamCard(i: nat)
      requires Valid()
      modifies this
      ensures Valid()
      ensures teams == old(teams) + [NewTeam(teamType, i)]
      ensures rows == old(rows) && teamType == old(teamType) && playerCount == old(playerCount)
    {
      var slots: seq<Option<string>> := [];
      for j := 0 to SlotsPerTeam
        invariant |slots| == j
        invariant forall k :: 0 <= k < j ==> slots[k] == None
      {
        slots := slots + [None];
      }
      assert slots == NewTeam(teamType, i).slots;
      teams := teams + [Team(TeamLabel(teamType, i), "", slots)];
    }

    /** `checkTeamsCount()`: appends cards until there are
        ceil(playerCount / 6) of them; never removes one. */
    method CheckTeamsCount()
      requires Valid()
      modifies this
      ensures Valid()
      ensures teams == Grow(old(teams), teamType, TeamsNeeded(playerCount))
      ensures rows == old(rows) && teamType == old(teamType) && playerCount == old(playerCount)
    {
      var needed := TeamsNeeded(playerCount);
      var current := |teams|;
      var i := current;
      while i < needed
        invariant Valid()
        invariant |teams| == i && current <= i && (i == current || i <= needed)
        invariant teams[..current] == old(teams)
        invariant forall k :: current <= k < i ==> teams[k] == NewTeam(teamType, k)
        invariant rows == old(rows) && teamType == old(teamType) && playerCount == old(playerCount)
      {
        AddTeamCard(i);
        assert teams[..current] == teams[..i][..current];
        i := i + 1;
      }
      ghost var grown := Grow(old(teams), teamType, needed);
      assert |old(teams)| == current;
      assert |teams| == |grown|;
      forall k | 0 <= k < |teams| ensures teams[k] == grown[k] {
        if k < current {
          assert teams[k] == teams[..current][k] && grown[k] == grown[..current][k];
        }
      }
    }

    /** The "+ Add" button with `name` and `pref` already entered: an empty
        name changes nothing; otherwise the player count goes up by one
        (even for a name already in the table), the row is added unless the
        name is taken, and cards are added as the new count needs. */
    method AddManual(name: string, pref: string)
      requires Valid()
      modifies this
      ensures Valid()
      ensures name == "" ==> playerCount == old(playerCount) && rows == old(rows) && teams == old(teams)
      ensures name != "" ==> playerCount == old(playerCount) + 1
                             && rows == AddRow(old(rows), name, pref)
                             && teams == Grow(old(teams), teamType, TeamsNeeded(playerCount))
      ensures teamType == old(teamType)
      ensures old(Consistent(State())) ==> Consistent(State())
      ensures old(CardsCover()) ==> CardsCover()
    {
      if name == "" {
        return;
      }
      playerCount := playerCount + 1;
      AddUnassignedRow(name, pref);
      CheckTeamsCount();
      if old(Consistent(State())) {
        AddPlayerSpec(old(State()), name, pref, teamType, TeamsNeeded(playerCount));
      }
    }

    /** The "Generate" button: the team type is the trimmed input or "Team";
        the player count is the number of non-blank lines, duplicates
        included; the table is rebuilt from the entries, skipping repeated
        names; and ceil(count / 6) fresh cards replace the old ones. */
    method Generate(teamTypeInput: string, namesInput: string)
      requires Valid()
      modifies this
      ensures Valid() && Consistent(State()) && CardsCover()
      ensures teamType == if Trim(teamTypeInput) == "" then "Team" else Trim(teamTypeInput)
      ensures playerCount == |Lines(namesInput)|
      ensures rows == BuildRows(ParseEntries(namesInput))
      ensures teams == Grow([], teamType, TeamsNeeded(playerCount))
    {
      var t := Trim(teamTypeInput);
      teamType := if t == "" then "Team" else t;
      var entries := ParseEntries(namesInput);
      playerCount := |entries|;

      rows := [];
      BuildUnassigned(entries);
      teams := [];
      BuildTeams(TeamsNeeded(playerCount));
      BuildRowsUnique(entries);
      EmptyTeamsConsistent(rows, teams);
    }

    /** The "Build Unassigned" step of the Generate button: each entry is
        added in order through `addUnassignedRow`. */
    method BuildUnassigned(entries: seq<Entry>)
      requires Valid()
      requires rows == []
      modifies this
      ensures Valid()
      ensures rows == BuildRows(entries)
      ensures teams == old(teams) && teamType == old(teamType) && playerCount == old(playerCount)
    {
      for i := 0 to |entries|
        invariant Valid()
        invariant rows == BuildRows(entries[..i])
        invariant teams == old(teams) && teamType == old(teamType) && playerCount == old(playerCount)
      {
        assert entries[..i + 1][..i] == entries[..i];
        AddUnassignedRow(entries[i].name, entries[i].pref);
      }
      assert entries[..|entries|] == entries;
    }

    /** The "Build Teams" step of the Generate button: cards 0 .. needed-1
        are added in order. */
    method BuildTeams(needed: nat)
      requires Valid()
      requires teams == []
      modifies this
      ensures Valid()
      ensures teams == Grow([], teamType, needed)
      ensures rows == old(rows) && teamType == old(teamType) && playerCount == old(playerCount)
    {
      for i := 0 to needed
        invariant Valid()
        invariant |teams| == i
        invariant forall k :: 0 <= k < i ==> teams[k] == NewTeam(teamType, k)
        invariant rows == old(rows) && teamType == old(teamType) && playerCount == old(playerCount)
      {
        AddTeamCard(i);
      }
      ghost var grown := Grow([], teamType, needed);
      assert teams == grown;
    }

    /** `returnToUnassigned(name)`: the row is re-created with an empty
        preference if missing, and re-enabled. */
    method ReturnToUnassigned(name: string)
      requires Valid()
      modifies this
      ensures Valid()
      ensures rows == ReturnRow(old(rows), name)
      ensures teams == old(teams) && teamType == old(teamType) && playerCount == old(playerCount)
    {
      if FindRow(rows, name).None? {
        AddUnassignedRow(name, "");
      }
      var i := FindRow(rows, name);
      if i.Some? {
        rows := rows[i.value := rows[i.value].(enabled := true)];
      }
    }

    /** The table row of `name`, if there is one, is disabled: the player
        is taken out of the unassigned table. */
    method TakeFromUnassigned(name: string)
      requires Valid()
      modifies this
      ensures Valid()
      ensures rows == SetEnabled(old(rows), name, false)
      ensures teams == old(teams) && teamType == old(teamType) && playerCount == old(playerCount)
    {
      var i := FindRow(rows, name);
      if i.Some? {
        rows := rows[i.value := rows[i.value].(enabled := false)];
      }
    }

    /** The first step of `dropOnSlot`: an occupied slot is emptied and its
        occupant, read back trimmed, returned to the table. */
    method Vacate(t: nat, s: nat)
      requires Valid()
      requires t < |teams| && s < SlotsPerTeam
      modifies this
      ensures Valid()
      ensures rows == ReturnOccupant(old(rows), old(teams)[t].slots[s])
      ensures teams == if old(teams)[t].slots[s].Some? then SetSlot(old(teams), t, s, None) else old(teams)
      ensures teamType == old(teamType) && playerCount == old(playerCount)
    {
      var occupant := teams[t].slots[s];
      if occupant.Some? {
        ReturnToUnassigned(Trim(occupant.value));
        teams := SetSlot(teams, t, s, None);
      }
    }

    /** `dropOnSlot`: `name` is dropped on slot `s` of team `t`; the
        occupant, if any, is returned to the table under its trimmed name. */
    method DropOnSlot(name: string, t: nat, s: nat)
      requires Valid()
      requires t < |teams| && s < SlotsPerTeam
      modifies this
      ensures Valid()
      ensures State() == Roster.DropOnSlot(old(State()), name, t, s)
      ensures teamType == old(teamType) && playerCount == old(playerCount)
      ensures old(Consistent(State()) && Available(rows, name) && OccupantTrimmed(State(), t, s)) ==>
                Consistent(State())
      ensures old(CardsCover()) ==> CardsCover()
    {
      Vacate(t, s);
      if old(teams)[t].slots[s].Some? {
        SetSlotTwice(old(teams), t, s, None, Some(name));
      }
      TakeFromUnassigned(name);
      teams := SetSlot(teams, t, s, Some(name));
      if old(Consistent(State()) && Available(rows, name) && OccupantTrimmed(State(), t, s)) {
        DropOnSlotConsistent(old(State()), name, t, s);
      }
    }

    /** `dragFromSlot`: starting to drag the player in slot `s` of team `t`
        empties the slot and returns the player to the table at once; the
        dragged name is returned. An empty slot yields nothing and changes
        nothing. */
    method DragFromSlot(t: nat, s: nat) returns (payload: Option<string>)
      requires Valid()
      requires t < |teams| && s < SlotsPerTeam
      modifies this
      ensures Valid()
      ensures (State(), payload) == Roster.DragFromSlot(old(State()), t, s)
      ensures teamType == old(teamType) && playerCount == old(playerCount)
      ensures old(Consistent(State())) ==> Consistent(State())
      ensures old(CardsCover()) ==> CardsCover()
    {
      var occupant := teams[t].slots[s];
      if occupant.None? {
        return None;
      }
      payload := occupant;
      teams := SetSlot(teams, t, s, None);
      ReturnToUnassigned(occupant.value);
      if old(Consistent(State())) {
        DragFromSlotSpec(old(State()), t, s);
      }
    }

    /** `dropToUnassigned`: every slot showing `name` is emptied, then the
        name is returned to the table. */
    method DropToUnassigned(name: string)
      requires Valid()
      modifies this
      ensures Valid()
      ensures State() == Roster.DropToUnassigned(old(State()), name)
      ensures teamType == old(teamType) && playerCount == old(playerCount)
      ensures old(Consistent(State())) ==> Consistent(State())
      ensures old(CardsCover()) ==> CardsCover()
    {
      ghost var cleared := ClearName(teams, name);
      var all := teams;
      for t := 0 to |all|
        invariant |all| == |cleared|
        invariant forall k :: 0 <= k < t ==> all[k] == cleared[k]
        invariant forall k :: t <= k < |all| ==> all[k] == teams[k]
      {
        var slots := all[t].slots;
        for s := 0 to |slots|
          invariant |slots| == |cleared[t].slots|
          invariant forall j :: 0 <= j < s ==> slots[j] == cleared[t].slots[j]
          invariant forall j :: s <= j < |slots| ==> slots[j] == teams[t].slots[j]
        {
          if slots[s] == Some(name) {
            slots := slots[s := None];
          }
        }
        all := all[t := all[t].(slots := slots)];
      }
      teams := all;
      ReturnToUnassigned(name);
      if old(Consistent(State())) {
        DropToUnassignedSpec(old(State()), name);
      }
    }

    /** Typing into a card's league box. */
    method SetLeague(t: nat, text: string)
      requires Valid()
      requires t < |teams|
      modifies this
      ensures Valid()
      ensures teams == old(teams)[t := old(teams)[t].(league := text)]
      ensures rows == old(rows) && teamType == old(teamType) && playerCount == old(playerCount)
      ensures old(Consistent(State())) ==> Consistent(State())
      ensures old(CardsCover()) ==> CardsCover()
    {
      teams := teams[t := teams[t].(league := text)];
      assert forall k, j, n :: InSlot(teams, k, j, n) <==> InSlot(old(teams), k, j, n);
    }

    /** The "Export" button: one row per card in page order after the
        header, then the CSV text of that table. The text decodes back to
        the table. */
    method Export() returns (csv: string)
      requires Valid()
      ensures csv == ExportCsv(teams)
      ensures Csv.Decode(csv) == Some(ExportTable(teams))
    {
      var table := [Header()];
      for i := 0 to |teams|
        invariant |table| == i + 1
        invariant table == ExportTable(teams[..i])
      {
        var team := teams[i];
        var data := [team.title, team.league];
        for j := 0 to |team.slots|
          invariant data == ExportRow(team.(slots := team.slots[..j]))
        {
          var cell := SlotText(team.slots[j]);
          assert team.slots[..j + 1] == team.slots[..j] + [team.slots[j]];
          data := data + [cell];
        }
        assert team.slots[..|team.slots|] == team.slots;
        assert teams[..i + 1] == teams[..i] + [team];
        table := table + [data];
      }
      assert teams[..|teams|] == teams;
      csv := Csv.Encode(table);
      ExportRoundTrip(teams);
    }
  }
}
