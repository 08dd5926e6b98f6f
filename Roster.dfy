/** The roster and team board as plain values, and the state transitions the
    page's handlers perform on them.

    The page keeps this state in the document: the unassigned table holds one
    row per player (name, preference, and whether the row is enabled, i.e.
    draggable), and each team card holds a label, a league text box and six
    slots, each empty or showing one name. A row is never removed when its
    player is placed on a team; it is only disabled. */
module Roster {
  import opened Options
  import opened Text
  import Csv

  /** Every team card has six slots. */
  const SlotsPerTeam: nat := 6

  datatype Row = Row(name: string, pref: string, enabled: bool)

  datatype Team = Team(title: string, league: string, slots: seq<Option<string>>)

  /** The unassigned table and the team cards, in page order. */
  datatype Board = Board(rows: seq<Row>, teams: seq<Team>)

  // ---------------------------------------------------------------------
  // Team count and labels
  // ---------------------------------------------------------------------

  /** `Math.ceil(playerCount / 6)`: the fewest teams of six that hold
      `playerCount` players. */
  function TeamsNeeded(playerCount: nat): (r: nat)
    ensures SlotsPerTeam * r >= playerCount
    ensures r == 0 || SlotsPerTeam * (r - 1) < playerCount
  {
    (playerCount + SlotsPerTeam - 1) / SlotsPerTeam
  }

  /** `String.fromCharCode(65 + i)`: the UTF-16 code unit (65 + i) modulo
      2^16. A code unit in the surrogate range is not a character on its
      own; it stands for U+FFFD, which is what it becomes when the exported
      text is encoded as UTF-8. */
  function Letter(i: nat): (c: char)
    ensures 65 + i < 0xD800 ==> c as int == 65 + i
    ensures i < 26 ==> 'A' <= c <= 'Z'
  {
    var u := (65 + i) % 0x1_0000;
    if 0xD800 <= u < 0xE000 then '\U{FFFD}' else u as char
  }

  /** The label of the team card at index `i`: "<teamType> <letter>". */
  function TeamLabel(teamType: string, i: nat): string
  {
    teamType + " " + [Letter(i)]
  }

  /** Teams created in one session get different labels (as long as their
      letters are distinct code units below the surrogate range). */
  lemma LabelsDistinct(teamType: string, i: nat, j: nat)
    requires i < j && 65 + j < 0xD800
    ensures TeamLabel(teamType, i) != TeamLabel(teamType, j)
  {
    var a, b := TeamLabel(teamType, i), TeamLabel(teamType, j);
    assert a[|a| - 1] == Letter(i) && b[|b| - 1] == Letter(j);
  }

  /** A fresh team card: its label, an empty league and six empty slots. */
  function NewTeam(teamType: string, i: nat): (t: Team)
    ensures |t.slots| == SlotsPerTeam && forall s :: 0 <= s < |t.slots| ==> t.slots[s] == None
  {
    Team(TeamLabel(teamType, i), "", seq(SlotsPerTeam, _ => None))
  }

  /** Every team has six slots. */
  predicate WellFormed(teams: seq<Team>)
  {
    forall t :: 0 <= t < |teams| ==> |teams[t].slots| == SlotsPerTeam
  }

  /** `checkTeamsCount`: appends team cards at indices |teams| .. needed-1;
      never removes or alters an existing one. */
  function Grow(teams: seq<Team>, teamType: string, needed: nat): (r: seq<Team>)
    ensures |r| == if needed <= |teams| then |teams| else needed
    ensures r[..|teams|] == teams
    ensures forall i :: |teams| <= i < |r| ==> r[i] == NewTeam(teamType, i)
    decreases needed - |teams|
  {
    if needed <= |teams| then teams
    else Grow(teams + [NewTeam(teamType, |teams|)], teamType, needed)
  }

  /** Growing keeps every team six slots wide and fills no slot. */
  lemma GrowSlots(teams: seq<Team>, teamType: string, needed: nat)
    ensures WellFormed(teams) ==> WellFormed(Grow(teams, teamType, needed))
    ensures forall t, s, n :: InSlot(Grow(teams, teamType, needed), t, s, n) <==> InSlot(teams, t, s, n)
  {
    var r := Grow(teams, teamType, needed);
    forall t, s, n | InSlot(teams, t, s, n) ensures InSlot(r, t, s, n) {
      assert r[t] == r[..|teams|][t];
    }
    forall t | 0 <= t < |teams| ensures r[t] == teams[t] {
      assert r[t] == r[..|teams|][t];
    }
  }

  // ---------------------------------------------------------------------
  // The unassigned table
  // ---------------------------------------------------------------------

  predicate HasRow(rows: seq<Row>, name: string)
  {
    exists i :: 0 <= i < |rows| && rows[i].name == name
  }

  /** The player has a row and it is enabled (draggable). */
  predicate Available(rows: seq<Row>, name: string)
  {
    exists i :: 0 <= i < |rows| && rows[i].name == name && rows[i].enabled
  }

  predicate UniqueNames(rows: seq<Row>)
  {
    forall i, j :: 0 <= i < j < |rows| ==> rows[i].name != rows[j].name
  }

  /** The row `querySelector('[data-name="…"]')` finds: the first one with
      that name, if any. */
  function FindRow(rows: seq<Row>, name: string): (r: Option<nat>)
    ensures r.Some? ==> r.value < |rows| && rows[r.value].name == name
    ensures r.Some? ==> forall j :: 0 <= j < r.value ==> rows[j].name != name
    ensures r.None? <==> !HasRow(rows, name)
  {
    if rows == [] then None
    else if rows[0].name == name then Some(0)
    else
      match FindRow(rows[1..], name)
      case None => None
      case Some(k) => Some(k + 1)
  }

  /** The row found depends only on the names in the table. */
  lemma FindRowByNames(a: seq<Row>, b: seq<Row>, name: string)
    requires |a| == |b| && forall i :: 0 <= i < |a| ==> a[i].name == b[i].name
    ensures FindRow(a, name) == FindRow(b, name)
  {
    var x, y := FindRow(a, name), FindRow(b, name);
    if x.Some? && y.Some? {
      assert !(x.value < y.value) && !(y.value < x.value);
    }
  }

  /** `addUnassignedRow`: a name already in the table changes nothing;
      otherwise an enabled row is appended. */
  function AddRow(rows: seq<Row>, name: string, pref: string): (r: seq<Row>)
    ensures HasRow(rows, name) ==> r == rows
    ensures !HasRow(rows, name) ==> r == rows + [Row(name, pref, true)]
    ensures HasRow(r, name)
    ensures UniqueNames(rows) ==> UniqueNames(r)
  {
    if FindRow(rows, name).Some? then rows
    else
      var r := rows + [Row(name, pref, true)];
      assert r[|rows|].name == name;
      r
  }

  /** Enables or disables the row of `name` found by `FindRow`; no row is
      added, removed or renamed. */
  function SetEnabled(rows: seq<Row>, name: string, on: bool): (r: seq<Row>)
    ensures |r| == |rows|
    ensures forall i :: 0 <= i < |rows| ==> r[i].name == rows[i].name && r[i].pref == rows[i].pref
    ensures UniqueNames(rows) ==> UniqueNames(r)
    ensures UniqueNames(rows) ==> forall i :: 0 <= i < |rows| ==>
              r[i].enabled == if rows[i].name == name then on else rows[i].enabled
    ensures HasRow(rows, name) && on ==> Available(r, name)
  {
    match FindRow(rows, name)
    case None => rows
    case Some(i) => rows[i := rows[i].(enabled := on)]
  }

  /** `returnToUnassigned`: the player's row is re-created (with an empty
      preference) if missing and re-enabled; every other row keeps its
      name, preference and state. */
  function ReturnRow(rows: seq<Row>, name: string): (r: seq<Row>)
    ensures |r| == if HasRow(rows, name) then |rows| else |rows| + 1
    ensures forall i :: 0 <= i < |rows| ==> r[i].name == rows[i].name && r[i].pref == rows[i].pref
    ensures !HasRow(rows, name) ==> r[|rows|] == Row(name, "", true)
    ensures UniqueNames(rows) ==> UniqueNames(r)
    ensures UniqueNames(rows) ==> forall i :: 0 <= i < |rows| ==>
              r[i].enabled == (rows[i].enabled || rows[i].name == name)
    ensures Available(r, name)
  {
    SetEnabled(AddRow(rows, name, ""), name, true)
  }

  /** Returning one player and disabling another leaves a third player's
      row as it was. */
  lemma RowUntouched(rows: seq<Row>, returned: string, disabled: string, i: nat)
    requires UniqueNames(rows) && i < |rows|
    requires rows[i].name != returned && rows[i].name != disabled
    ensures var r := SetEnabled(ReturnRow(rows, returned), disabled, false);
      i < |r| && r[i] == rows[i]
  {
  }

  /** With unique names, a disabled row means its player is not available. */
  lemma NotAvailable(rows: seq<Row>, i: nat)
    requires UniqueNames(rows) && i < |rows| && !rows[i].enabled
    ensures HasRow(rows, rows[i].name) && !Available(rows, rows[i].name)
  {
  }

  /** Returning a player twice is the same as returning them once. */
  lemma ReturnRowIdempotent(rows: seq<Row>, name: string)
    ensures ReturnRow(ReturnRow(rows, name), name) == ReturnRow(rows, name)
  {
    var a := AddRow(rows, name, "");
    var r1 := SetEnabled(a, name, true);
    var i := FindRow(a, name).value;
    assert r1 == a[i := a[i].(enabled := true)];
    FindRowByNames(a, r1, name);
    assert AddRow(r1, name, "") == r1;
    assert r1[i := r1[i].(enabled := true)] == r1;
  }

  // ---------------------------------------------------------------------
  // Slots
  // ---------------------------------------------------------------------

  /** Slot `s` of team `t` shows `n`. */
  predicate InSlot(teams: seq<Team>, t: int, s: int, n: string)
  {
    0 <= t < |teams| && 0 <= s < |teams[t].slots| && teams[t].slots[s] == Some(n)
  }

  ghost predicate Placed(teams: seq<Team>, n: string)
  {
    exists t, s :: InSlot(teams, t, s, n)
  }

  /** No name shows in two slots. */
  ghost predicate AtMostOneSlot(teams: seq<Team>)
  {
    forall t1, s1, t2, s2, n :: InSlot(teams, t1, s1, n) && InSlot(teams, t2, s2, n) ==> t1 == t2 && s1 == s2
  }

  /** Puts `v` into slot `s` of team `t`; nothing else changes. */
  function SetSlot(teams: seq<Team>, t: nat, s: nat, v: Option<string>): (r: seq<Team>)
    requires t < |teams| && s < |teams[t].slots|
    ensures |r| == |teams|
    ensures forall k :: 0 <= k < |r| ==>
              r[k].title == teams[k].title && r[k].league == teams[k].league && |r[k].slots| == |teams[k].slots|
    ensures r[t].slots[s] == v
    ensures forall k, j :: 0 <= k < |r| && 0 <= j < |r[k].slots| && (k != t || j != s) ==>
              r[k].slots[j] == teams[k].slots[j]
  {
    teams[t := teams[t].(slots := teams[t].slots[s := v])]
  }

  /** Writing a slot twice leaves only the second write. */
  lemma SetSlotTwice(teams: seq<Team>, t: nat, s: nat, v: Option<string>, w: Option<string>)
    requires t < |teams| && s < |teams[t].slots|
    ensures SetSlot(SetSlot(teams, t, s, v), t, s, w) == SetSlot(teams, t, s, w)
  {
    assert teams[t].slots[s := v][s := w] == teams[t].slots[s := w];
  }

  /** After `SetSlot`, a name is placed exactly when it was put there or
      it was placed before somewhere other than the overwritten slot. */
  lemma PlacedAfterSet(teams: seq<Team>, t: nat, s: nat, v: Option<string>, n: string)
    requires t < |teams| && s < |teams[t].slots|
    requires AtMostOneSlot(teams)
    ensures Placed(SetSlot(teams, t, s, v), n) <==> v == Some(n) || (Placed(teams, n) && teams[t].slots[s] != Some(n))
  {
    var r := SetSlot(teams, t, s, v);
    if Placed(r, n) {
      var t', s' :| InSlot(r, t', s', n);
      if t' != t || s' != s {
        assert InSlot(teams, t', s', n);
        assert teams[t].slots[s] == Some(n) ==> InSlot(teams, t, s, n);
      }
    }
    if v == Some(n) {
      assert InSlot(r, t, s, n);
    } else if Placed(teams, n) && teams[t].slots[s] != Some(n) {
      var t', s' :| InSlot(teams, t', s', n);
      assert InSlot(r, t', s', n);
    }
  }

  /** Putting a name that shows nowhere, or emptying a slot, keeps every
      name in at most one slot. */
  lemma AtMostOneAfterSet(teams: seq<Team>, t: nat, s: nat, v: Option<string>)
    requires t < |teams| && s < |teams[t].slots|
    requires AtMostOneSlot(teams)
    requires v.Some? ==> !Placed(teams, v.value)
    ensures AtMostOneSlot(SetSlot(teams, t, s, v))
  {
    var r := SetSlot(teams, t, s, v);
    forall t1, s1, t2, s2, n | InSlot(r, t1, s1, n) && InSlot(r, t2, s2, n)
      ensures t1 == t2 && s1 == s2
    {
      if (t1, s1) != (t, s) && (t2, s2) != (t, s) {
        assert InSlot(teams, t1, s1, n) && InSlot(teams, t2, s2, n);
      } else if (t1, s1) != (t, s) {
        assert InSlot(teams, t1, s1, n);
      } else if (t2, s2) != (t, s) {
        assert InSlot(teams, t2, s2, n);
      }
    }
  }

  function ClearSlots(slots: seq<Option<string>>, name: string): seq<Option<string>>
  {
    seq(|slots|, s requires 0 <= s < |slots| => if slots[s] == Some(name) then None else slots[s])
  }

  /** The loop of `dropToUnassigned`: empties every slot showing `name`;
      every other slot keeps what it shows. */
  function ClearName(teams: seq<Team>, name: string): (r: seq<Team>)
    ensures |r| == |teams|
    ensures forall k :: 0 <= k < |r| ==>
              r[k].title == teams[k].title && r[k].league == teams[k].league && |r[k].slots| == |teams[k].slots|
    ensures !Placed(r, name)
    ensures forall t, s, n :: n != name ==> (InSlot(r, t, s, n) <==> InSlot(teams, t, s, n))
  {
    seq(|teams|, t requires 0 <= t < |teams| => teams[t].(slots := ClearSlots(teams[t].slots, name)))
  }

  /** Clearing a name leaves every other name placed as it was. */
  lemma ClearNamePlaced(teams: seq<Team>, name: string)
    ensures forall n :: n != name ==> (Placed(ClearName(teams, name), n) <==> Placed(teams, n))
  {
    forall n | n != name ensures Placed(ClearName(teams, name), n) <==> Placed(teams, n) {
      if Placed(teams, n) {
        var t, s :| InSlot(teams, t, s, n);
        assert InSlot(ClearName(teams, name), t, s, n);
      }
    }
  }

  /** Clearing a name twice is the same as clearing it once. */
  lemma ClearNameIdempotent(teams: seq<Team>, name: string)
    ensures ClearName(ClearName(teams, name), name) == ClearName(teams, name)
  {
    var r1 := ClearName(teams, name);
    var r2 := ClearName(r1, name);
    forall t | 0 <= t < |r1| ensures r2[t] == r1[t] {
      assert r2[t].slots == r1[t].slots;
    }
  }

  /** With every name in at most one slot, emptying the slot that shows
      `name` is the same as clearing `name` everywhere. */
  lemma SetNoneIsClear(teams: seq<Team>, t: nat, s: nat, name: string)
    requires t < |teams| && s < |teams[t].slots| && teams[t].slots[s] == Some(name)
    requires AtMostOneSlot(teams)
    ensures SetSlot(teams, t, s, None) == ClearName(teams, name)
  {
    var a, b := SetSlot(teams, t, s, None), ClearName(teams, name);
    forall k | 0 <= k < |a| ensures a[k] == b[k] {
      forall j | 0 <= j < |a[k].slots| ensures a[k].slots[j] == b[k].slots[j] {
        if (k, j) != (t, s) && teams[k].slots[j] == Some(name) {
          assert InSlot(teams, k, j, name) && InSlot(teams, t, s, name);
        }
      }
    }
  }

  // ---------------------------------------------------------------------
  // The occupancy invariant
  // ---------------------------------------------------------------------

  /** Every name shown in a slot has a row in the unassigned table. */
  ghost predicate SlotsHaveRows(b: Board)
  {
    forall t, s, n :: InSlot(b.teams, t, s, n) ==> HasRow(b.rows, n)
  }

  /** A row is disabled exactly when its player shows in a slot. */
  ghost predicate RowsMatchSlots(b: Board)
  {
    forall i :: 0 <= i < |b.rows| ==> (b.rows[i].enabled <==> !Placed(b.teams, b.rows[i].name))
  }

  /** Each player is in exactly one place: an enabled row, or one slot and
      a disabled row. */
  ghost predicate Consistent(b: Board)
  {
    UniqueNames(b.rows) && AtMostOneSlot(b.teams) && SlotsHaveRows(b) && RowsMatchSlots(b)
  }

  /** Under the invariant, an enabled row's player shows in no slot. */
  lemma AvailableNotPlaced(b: Board, name: string)
    requires Consistent(b) && Available(b.rows, name)
    ensures !Placed(b.teams, name)
  {
  }

  /** A new table built from enabled rows with empty teams is consistent. */
  lemma EmptyTeamsConsistent(rows: seq<Row>, teams: seq<Team>)
    requires UniqueNames(rows)
    requires forall i :: 0 <= i < |rows| ==> rows[i].enabled
    requires forall t, s :: 0 <= t < |teams| && 0 <= s < |teams[t].slots| ==> teams[t].slots[s] == None
    ensures Consistent(Board(rows, teams))
  {
  }

  // ---------------------------------------------------------------------
  // Transitions
  // ---------------------------------------------------------------------

  /** `dropOnSlot(name)` on slot `s` of team `t`: a current occupant is
      returned to the table under its name as read back from the slot,
      i.e. trimmed; the dropped player's row is disabled, and the slot then
      shows the dropped name. */
  function DropOnSlot(b: Board, name: string, t: nat, s: nat): Board
    requires t < |b.teams| && s < |b.teams[t].slots|
  {
    Board(SetEnabled(ReturnOccupant(b.rows, b.teams[t].slots[s]), name, false),
          SetSlot(b.teams, t, s, Some(name)))
  }

  /** The table after a slot's occupant, if any, is read back (trimmed)
      and returned to it. */
  function ReturnOccupant(rows: seq<Row>, slot: Option<string>): seq<Row>
  {
    match slot
    case Some(occupant) => ReturnRow(rows, Trim(occupant))
    case None => rows
  }

  /** `dragFromSlot` on slot `s` of team `t`: the slot is emptied and its
      player returned to the table as soon as the drag starts; the dragged
      name is the payload. A slot that is empty has nothing to drag (the
      handler fails before changing anything). */
  function DragFromSlot(b: Board, t: nat, s: nat): (Board, Option<string>)
    requires t < |b.teams| && s < |b.teams[t].slots|
  {
    match b.teams[t].slots[s]
    case None => (b, None)
    case Some(n) => (Board(ReturnRow(b.rows, n), SetSlot(b.teams, t, s, None)), Some(n))
  }

  /** `dropToUnassigned(name)`: every slot showing the name is emptied and
      the name's row is present and enabled. */
  function DropToUnassigned(b: Board, name: string): Board
  {
    Board(ReturnRow(b.rows, name), ClearName(b.teams, name))
  }

  /** The slot is empty or shows a name without white space at either
      end, so trimming the name read back from it changes nothing. */
  predicate OccupantTrimmed(b: Board, t: nat, s: nat)
    requires t < |b.teams| && s < |b.teams[t].slots|
  {
    b.teams[t].slots[s].Some? ==> Trimmed(b.teams[t].slots[s].value)
  }

  /** With a trimmed occupant, the drop returns the occupant itself. */
  lemma DropOnSlotTrimmed(b: Board, name: string, t: nat, s: nat)
    requires t < |b.teams| && s < |b.teams[t].slots|
    requires OccupantTrimmed(b, t, s)
    ensures var slot := b.teams[t].slots[s];
      ReturnOccupant(b.rows, slot) == if slot.Some? then ReturnRow(b.rows, slot.value) else b.rows
  {
    if b.teams[t].slots[s].Some? {
      TrimFixpoint(b.teams[t].slots[s].value);
    }
  }

  /** What a drop does to the table: the dropped player's row is disabled,
      the displaced occupant's row is enabled, every other row is as it was. */
  lemma DropOnSlotRows(b: Board, name: string, t: nat, s: nat)
    requires t < |b.teams| && s < |b.teams[t].slots|
    requires Consistent(b) && Available(b.rows, name)
    requires OccupantTrimmed(b, t, s)
    ensures var rows := DropOnSlot(b, name, t, s).rows;
      && |rows| == |b.rows| && UniqueNames(rows)
      && (forall i :: 0 <= i < |rows| ==> rows[i].name == b.rows[i].name && rows[i].pref == b.rows[i].pref)
      && (forall i :: 0 <= i < |rows| ==>
            rows[i].enabled == if b.rows[i].name == name then false
                               else if b.teams[t].slots[s] == Some(b.rows[i].name) then true
                               else b.rows[i].enabled)
  {
    var occupant := b.teams[t].slots[s];
    DropOnSlotTrimmed(b, name, t, s);
    if occupant.Some? {
      AvailableNotPlaced(b, name);
      assert InSlot(b.teams, t, s, occupant.value);
      ReturnThenDisable(b.rows, occupant.value, name);
    }
  }

  /** Returning `o`, who has a row, and then disabling `name` touches those
      two rows only. */
  lemma ReturnThenDisable(rows: seq<Row>, o: string, name: string)
    requires UniqueNames(rows) && HasRow(rows, o) && o != name
    ensures var r := SetEnabled(ReturnRow(rows, o), name, false);
      && |r| == |rows| && UniqueNames(r)
      && (forall i :: 0 <= i < |r| ==> r[i].name == rows[i].name && r[i].pref == rows[i].pref)
      && (forall i :: 0 <= i < |r| ==>
            r[i].enabled == if rows[i].name == name then false
                            else if rows[i].name == o then true
                            else rows[i].enabled)
  {
  }

  /** What a drop does to the slots: afterwards a name is placed exactly
      when it is the dropped one, or it was placed before and was not the
      displaced occupant; still no name is in two slots. */
  lemma DropOnSlotTeams(b: Board, name: string, t: nat, s: nat)
    requires t < |b.teams| && s < |b.teams[t].slots|
    requires Consistent(b) && Available(b.rows, name)
    ensures var teams := DropOnSlot(b, name, t, s).teams;
      && AtMostOneSlot(teams)
      && forall n :: Placed(teams, n) <==> n == name || (Placed(b.teams, n) && b.teams[t].slots[s] != Some(n))
  {
    AvailableNotPlaced(b, name);
    AtMostOneAfterSet(b.teams, t, s, Some(name));
    forall n ensures Placed(DropOnSlot(b, name, t, s).teams, n) <==>
                     n == name || (Placed(b.teams, n) && b.teams[t].slots[s] != Some(n)) {
      PlacedAfterSet(b.teams, t, s, Some(name), n);
    }
  }

  /** A drop keeps the invariant as long as the dropped player came from an
      enabled row. */
  lemma DropOnSlotConsistent(b: Board, name: string, t: nat, s: nat)
    requires t < |b.teams| && s < |b.teams[t].slots|
    requires Consistent(b) && Available(b.rows, name)
    requires OccupantTrimmed(b, t, s)
    ensures Consistent(DropOnSlot(b, name, t, s))
  {
    var b' := DropOnSlot(b, name, t, s);
    DropOnSlotRows(b, name, t, s);
    DropOnSlotTeams(b, name, t, s);
    forall k, j, n | InSlot(b'.teams, k, j, n) ensures HasRow(b'.rows, n) {
      if (k, j) != (t, s) {
        assert InSlot(b.teams, k, j, n);
      }
      var i :| 0 <= i < |b.rows| && b.rows[i].name == n;
      assert b'.rows[i].name == n;
    }
  }

  /** Dropping a player onto a slot displaces its occupant: the occupant's
      row is enabled again, the slot shows the dropped player, whose row is
      disabled, the table keeps its size and no other slot changes. */
  lemma DropOnSlotDisplaces(b: Board, name: string, t: nat, s: nat)
    requires t < |b.teams| && s < |b.teams[t].slots|
    requires Consistent(b) && Available(b.rows, name)
    requires OccupantTrimmed(b, t, s)
    ensures var b' := DropOnSlot(b, name, t, s);
      && InSlot(b'.teams, t, s, name)
      && HasRow(b'.rows, name) && !Available(b'.rows, name)
      && (b.teams[t].slots[s].Some? ==> Available(b'.rows, b.teams[t].slots[s].value))
      && |b'.rows| == |b.rows|
      && (forall k, j :: 0 <= k < |b.teams| && 0 <= j < |b.teams[k].slots| && (k, j) != (t, s) ==>
            b'.teams[k].slots[j] == b.teams[k].slots[j])
  {
    var b' := DropOnSlot(b, name, t, s);
    DropOnSlotRows(b, name, t, s);
    var i :| 0 <= i < |b.rows| && b.rows[i].name == name && b.rows[i].enabled;
    assert b'.rows[i].name == name;
    if b.teams[t].slots[s].Some? {
      var o := b.teams[t].slots[s].value;
      assert InSlot(b.teams, t, s, o);
      var k :| 0 <= k < |b.rows| && b.rows[k].name == o;
      assert b'.rows[k].name == o && b'.rows[k].enabled;
    }
  }

  /** A displaced occupant whose name has white space at an end (a manual
      add does not trim) is returned under the trimmed name: their own row
      stays disabled although they are now in no slot, so the invariant
      breaks. */
  lemma DropOnSlotUntrimmedOccupant(b: Board, name: string, t: nat, s: nat)
    requires t < |b.teams| && s < |b.teams[t].slots|
    requires Consistent(b) && Available(b.rows, name)
    requires b.teams[t].slots[s].Some? && !Trimmed(b.teams[t].slots[s].value)
    ensures var o := b.teams[t].slots[s].value;
      var b' := DropOnSlot(b, name, t, s);
      && !Placed(b'.teams, o) && HasRow(b'.rows, o) && !Available(b'.rows, o)
      && !Consistent(b')
  {
    var o := b.teams[t].slots[s].value;
    var b' := DropOnSlot(b, name, t, s);
    assert InSlot(b.teams, t, s, o);
    var i :| 0 <= i < |b.rows| && b.rows[i].name == o;
    assert o != name && !b.rows[i].enabled by {
      AvailableNotPlaced(b, name);
    }
    assert !Placed(b'.teams, o) by {
      DropOnSlotTeams(b, name, t, s);
    }
    TrimFixpoint(o);
    RowUntouched(b.rows, Trim(o), name, i);
    NotAvailable(b'.rows, i);
    assert !RowsMatchSlots(b');
  }

  /** Clearing and returning a name keeps the invariant, and afterwards the
      name shows in no slot and its row is enabled. */
  lemma {:induction false} DropToUnassignedSpec(b: Board, name: string)
    requires Consistent(b)
    ensures var b' := DropToUnassigned(b, name);
      Consistent(b') && !Placed(b'.teams, name) && Available(b'.rows, name)
  {
    var b' := DropToUnassigned(b, name);
    ClearNamePlaced(b.teams, name);
    forall i | 0 <= i < |b'.rows|
      ensures b'.rows[i].enabled <==> !Placed(b'.teams, b'.rows[i].name)
    {
    }
    forall t, s, n | InSlot(b'.teams, t, s, n) ensures HasRow(b'.rows, n) {
      assert InSlot(b.teams, t, s, n);
      var i :| 0 <= i < |b.rows| && b.rows[i].name == n;
      assert b'.rows[i].name == n;
    }
  }

  /** Dropping to the table is idempotent. */
  lemma DropToUnassignedIdempotent(b: Board, name: string)
    ensures DropToUnassigned(DropToUnassigned(b, name), name) == DropToUnassigned(b, name)
  {
    ReturnRowIdempotent(b.rows, name);
    ClearNameIdempotent(b.teams, name);
  }

  /** Starting a drag from a slot keeps the invariant and leaves the dragged
      player in the state a drop needs: an enabled row and no slot. */
  lemma DragFromSlotSpec(b: Board, t: nat, s: nat)
    requires t < |b.teams| && s < |b.teams[t].slots|
    requires Consistent(b)
    ensures var (b', payload) := DragFromSlot(b, t, s);
      && Consistent(b')
      && b'.teams[t].slots[s] == None
      && (payload.Some? ==> payload == b.teams[t].slots[s]
                            && Available(b'.rows, payload.value) && !Placed(b'.teams, payload.value))
  {
    var slot := b.teams[t].slots[s];
    if slot.Some? {
      SetNoneIsClear(b.teams, t, s, slot.value);
      DropToUnassignedSpec(b, slot.value);
    }
  }

  /** Moving a player from one slot to another (drag, then drop) keeps the
      invariant and shows the player in the target slot only. */
  lemma MoveBetweenSlots(b: Board, t: nat, s: nat, t2: nat, s2: nat)
    requires t < |b.teams| && s < |b.teams[t].slots| && b.teams[t].slots[s].Some?
    requires t2 < |b.teams| && s2 < |b.teams[t2].slots|
    requires Consistent(b) && OccupantTrimmed(b, t2, s2)
    ensures var (b1, payload) := DragFromSlot(b, t, s);
      var b2 := DropOnSlot(b1, payload.value, t2, s2);
      Consistent(b2) && InSlot(b2.teams, t2, s2, b.teams[t].slots[s].value)
  {
    DragFromSlotSpec(b, t, s);
    var (b1, payload) := DragFromSlot(b, t, s);
    assert b1.teams[t2].slots[s2] == if (t2, s2) == (t, s) then None else b.teams[t2].slots[s2];
    DropOnSlotConsistent(b1, payload.value, t2, s2);
  }

  /** A manual add (a new enabled row unless the name is taken, then more
      empty teams if needed) keeps the invariant. */
  lemma AddPlayerSpec(b: Board, name: string, pref: string, teamType: string, needed: nat)
    requires Consistent(b)
    ensures Consistent(Board(AddRow(b.rows, name, pref), Grow(b.teams, teamType, needed)))
  {
    var b' := Board(AddRow(b.rows, name, pref), Grow(b.teams, teamType, needed));
    GrowSlots(b.teams, teamType, needed);
    forall n ensures Placed(b'.teams, n) <==> Placed(b.teams, n) {
      if Placed(b.teams, n) {
        var t, s :| InSlot(b.teams, t, s, n);
        assert InSlot(b'.teams, t, s, n);
      }
    }
    forall t, s, n | InSlot(b'.teams, t, s, n) ensures HasRow(b'.rows, n) {
      var i :| 0 <= i < |b.rows| && b.rows[i].name == n;
      assert b'.rows[i].name == n;
    }
  }

  // ---------------------------------------------------------------------
  // Loading
  // ---------------------------------------------------------------------

  /** The unassigned table built by `generate`: the entries added in order
      through `addUnassignedRow`. */
  function BuildRows(es: seq<Entry>): (r: seq<Row>)
    ensures |r| <= |es|
  {
    if es == [] then []
    else
      var e := es[|es| - 1];
      AddRow(BuildRows(es[..|es| - 1]), e.name, e.pref)
  }

  /** The rows built from the entries are enabled and named uniquely. */
  lemma {:induction false} BuildRowsUnique(es: seq<Entry>)
    ensures UniqueNames(BuildRows(es))
    ensures forall i :: 0 <= i < |BuildRows(es)| ==> BuildRows(es)[i].enabled
  {
    if es != [] {
      var e := es[|es| - 1];
      BuildRowsUnique(es[..|es| - 1]);
      assert BuildRows(es) == AddRow(BuildRows(es[..|es| - 1]), e.name, e.pref);
    }
  }

  /** The names of the entries. */
  function EntryNames(es: seq<Entry>): set<string>
  {
    if es == [] then {} else EntryNames(es[..|es| - 1]) + {es[|es| - 1].name}
  }

  /** The enabled rows the entries describe, one per entry. */
  function EntryRows(es: seq<Entry>): set<Row>
  {
    if es == [] then {} else EntryRows(es[..|es| - 1]) + {Row(es[|es| - 1].name, es[|es| - 1].pref, true)}
  }

  /** A name that none of the first `m` entries has is not among their
      names. */
  lemma {:induction false} NotAnEntryName(es: seq<Entry>, m: nat, n: string)
    requires m <= |es|
    requires forall k :: 0 <= k < m ==> es[k].name != n
    ensures n !in EntryNames(es[..m])
  {
    if m > 0 {
      assert es[..m][..m - 1] == es[..m - 1];
      NotAnEntryName(es, m - 1, n);
    }
  }

  /** Appending a row adds exactly its name. */
  lemma HasRowAppend(rows: seq<Row>, x: Row, n: string)
    ensures HasRow(rows + [x], n) <==> HasRow(rows, n) || x.name == n
  {
    var r := rows + [x];
    if HasRow(rows, n) {
      var i :| 0 <= i < |rows| && rows[i].name == n;
      assert r[i].name == n;
    }
    if x.name == n {
      assert r[|rows|].name == n;
    }
  }

  /** A name has a row exactly when some entry has it, and every row is
      the row some entry describes. */
  lemma {:induction false} BuildRowsNames(es: seq<Entry>)
    ensures forall n :: HasRow(BuildRows(es), n) <==> n in EntryNames(es)
    ensures forall i :: 0 <= i < |BuildRows(es)| ==> BuildRows(es)[i] in EntryRows(es)
  {
    if es != [] {
      var init := es[..|es| - 1];
      var prev := BuildRows(init);
      var r := BuildRows(es);
      var e := es[|es| - 1];
      assert r == AddRow(prev, e.name, e.pref);
      BuildRowsNames(init);
      if !HasRow(prev, e.name) {
        forall n ensures HasRow(r, n) <==> n in EntryNames(es) {
          HasRowAppend(prev, Row(e.name, e.pref, true), n);
        }
      }
    } else {
      assert BuildRows(es) == [];
    }
  }

  /** An entry whose name no earlier entry has gets its own row, with its
      own preference. */
  lemma BuildRowsAppends(es: seq<Entry>)
    requires es != []
    requires forall j :: 0 <= j < |es| - 1 ==> es[j].name != es[|es| - 1].name
    ensures BuildRows(es) == BuildRows(es[..|es| - 1]) + [Row(es[|es| - 1].name, es[|es| - 1].pref, true)]
  {
    var init := es[..|es| - 1];
    var e := es[|es| - 1];
    assert BuildRows(es) == AddRow(BuildRows(init), e.name, e.pref);
    assert !HasRow(BuildRows(init), e.name) by {
      NotAnEntryName(es, |es| - 1, e.name);
      BuildRowsNames(init);
    }
  }

  /** The first entry with a name decides that row's preference: a later
      duplicate changes nothing. */
  lemma {:induction false} BuildRowsFirstWins(es: seq<Entry>, k: nat)
    requires k < |es|
    requires forall j :: 0 <= j < k ==> es[j].name != es[k].name
    ensures Row(es[k].name, es[k].pref, true) in BuildRows(es)
  {
    var init := es[..|es| - 1];
    if k == |es| - 1 {
      BuildRowsAppends(es);
      assert BuildRows(es)[|BuildRows(init)|] == Row(es[k].name, es[k].pref, true);
    } else {
      var prev := BuildRows(init);
      var last := es[|es| - 1];
      assert BuildRows(es) == AddRow(prev, last.name, last.pref);
      assert init[k] == es[k];
      assert forall j :: 0 <= j < k ==> init[j] == es[j];
      BuildRowsFirstWins(init, k);
      assert prev <= BuildRows(es);
    }
  }

  /** A name listed twice counts twice towards the player count but gets
      one row: the count and the table disagree. */
  lemma DuplicateLineCounted(name: string)
    requires name != [] && Trimmed(name) && '\n' !in name && '|' !in name
    ensures var text := name + "\n" + name;
      && |Lines(text)| == 2
      && BuildRows(ParseEntries(text)) == [Row(name, "", true)]
  {
    var text := name + "\n" + name;
    assert Join([name, name], "\n") == text;
    LinesOfJoin([name, name]);
    ParseEntryNameOnly(name);
    TrimFixpoint(name);
    BuildRowsTwice(Entry(name, ""), ParseEntries(text));
  }

  /** The same entry twice gives one row. */
  lemma BuildRowsTwice(e: Entry, es: seq<Entry>)
    requires es == [e, e]
    ensures BuildRows(es) == [Row(e.name, e.pref, true)]
  {
    assert es[..1] == [e] && es[..1][..0] == [];
  }

  // ---------------------------------------------------------------------
  // Export
  // ---------------------------------------------------------------------

  /** The header row of the export. */
  function Header(): seq<string>
  {
    ["Team", "League", "Player1", "Player2", "Player3", "Player4", "Player5", "Player6"]
  }

  /** A slot's export cell: the name, or "" for an empty slot. */
  function SlotText(slot: Option<string>): string
  {
    match slot
    case Some(n) => n
    case None => ""
  }

  /** One team's export row: label, league, then the slots in order. */
  function ExportRow(team: Team): seq<string>
  {
    [team.title, team.league] + seq(|team.slots|, j requires 0 <= j < |team.slots| => SlotText(team.slots[j]))
  }

  /** The exported table: the header, then one row per team in page order. */
  function ExportTable(teams: seq<Team>): seq<seq<string>>
  {
    [Header()] + seq(|teams|, i requires 0 <= i < |teams| => ExportRow(teams[i]))
  }

  /** The exported CSV text. */
  function ExportCsv(teams: seq<Team>): string
  {
    Csv.Encode(ExportTable(teams))
  }

  /** The export has one row more than there are teams, every row has
      eight cells, and each team row holds its label, its league and its
      six slots in slot order with "" for an empty slot. */
  lemma ExportShape(teams: seq<Team>)
    requires WellFormed(teams)
    ensures var table := ExportTable(teams);
      && |table| == |teams| + 1
      && table[0] == Header()
      && (forall i :: 0 <= i < |table| ==> |table[i]| == 2 + SlotsPerTeam)
      && (forall i :: 0 <= i < |teams| ==>
            table[i + 1][0] == teams[i].title && table[i + 1][1] == teams[i].league
            && forall j :: 0 <= j < SlotsPerTeam ==>
                 table[i + 1][2 + j] == if teams[i].slots[j].Some? then teams[i].slots[j].value else "")
  {
  }

  /** The CSV text decodes back to the exported table. */
  lemma ExportRoundTrip(teams: seq<Team>)
    ensures Csv.Decode(ExportCsv(teams)) == Some(ExportTable(teams))
  {
    Csv.DecodeEncode(ExportTable(teams));
  }
}
