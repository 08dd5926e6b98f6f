# Badminton team picker: a Dafny model of its roster and team board

The badminton picker is a single-page tool. It takes a list of player names,
optionally each with a preference (`name|preference`, one per line), and a team
type ("Team" by default). It builds an *unassigned* table with one row per
player and ceil(count / 6) team cards, each with six slots and a league text
box. Players are dragged between the table and the slots, more players can be
added by hand, and the teams are exported as CSV.

The project models the page script `badminton-picker/dist/app.js`:

- `Options.dfy` holds the `Option` type.
- `Text.dfy` models the string handling the loader relies on: ECMAScript
  `trim`, `split` on one character, `join`, the lines of the names box
  (split on "\n", trimmed, blanks dropped) and the `name|preference` parse.
- `Csv.dfy` models the export's CSV encoding: every field quoted with inner
  quotes doubled, fields joined by ",", rows by "\r\n". It pairs the encoding
  with a decoder, which has no counterpart in the page, and proves that
  decoding the encoding gives the table back.
- `Roster.dfy` models the board as values: table rows (name, preference,
  enabled), team cards (label, league, six slots) and the pure transitions
  each handler performs.
  - `Consistent` is the occupancy invariant the page is meant to keep:
    - names are unique;
    - no name shows in two slots;
    - every name in a slot has a row;
    - a row is disabled exactly when its player shows in a slot.
  - Lemmas prove which transitions keep `Consistent`.
  - Lemmas also prove the ways in which the code departs from it.
- `Picker.dfy` models the page as a class.
  - Its fields are the two globals (`teamType`, `playerCount`), the
    unassigned table and the team cards.
  - Each handler is a method with loops where the code loops (building the
    table, adding cards, clearing slots, building the export).
  - Each method is proved to leave exactly the state the matching `Roster`
    transition describes.
  - `CardsCover` says there are ceil(count / 6) cards. The constructor and
    "Generate" establish it, and every other handler keeps it.

Where the code and the intended design differ, the model follows the code:

- The back button only switches views. It does not clear the roster or the
  teams; "Generate" rebuilds both.
- A line such as `|pref` is not dropped. It yields a row with an empty name
  and counts as a player (`Text.ParseEntryEmptyName`).
- A name listed twice counts twice in the player count but gets one row
  (`Roster.DuplicateLineCounted`). So the team count follows the number of
  lines, duplicates included.
- A displaced occupant is returned under the *trimmed* text of the slot. A
  manually added name is not trimmed, so for a name such as `" Bob"` the
  displacement enables or creates a row "Bob" while the " Bob" row stays
  disabled with its player in no slot (`Roster.DropOnSlotUntrimmedOccupant`).
  The invariant is therefore proved for drops whose occupant has no white
  space at either end (`Roster.OccupantTrimmed`).

## Model

| member | source | states |
|---|---|---|
| Text.TrimSpec | badminton-picker/dist/app.js:45-47 | `trim` keeps a contiguous piece of the string, removes only white space around it and leaves none at either end |
| Text.Trim | badminton-picker/dist/app.js:45-47 | `trim`: the string without white space at either end; `TrimSpec`, `LeadSpec` and `KeepSpec` state which piece it keeps |
| Text.TrimFixpoint | badminton-picker/dist/app.js:47 | trim leaves a string unchanged exactly when neither end is white space |
| Text.TrimIdempotent | badminton-picker/dist/app.js:47 | trimming twice is trimming once |
| Text.TrimEmptyIffBlank | badminton-picker/dist/app.js:47 | a line trims to "" (and is dropped by `filter(Boolean)`) exactly when it is all white space |
| Text.LeadSpec | badminton-picker/dist/app.js:47 | the leading part trim removes is all white space and stops at the first other character |
| Text.KeepSpec | badminton-picker/dist/app.js:47 | the trailing part trim removes is all white space and stops after the last other character |
| Text.TrimContained | badminton-picker/dist/app.js:56 | trimming adds no character: a separator absent before is absent after |
| Text.Split | badminton-picker/dist/app.js:47 | `split` yields at least one piece and no piece holds the separator |
| Text.Join | badminton-picker/dist/app.js:231-233 | `join`: the pieces with the separator between them; `JoinSplit` and `SplitJoin` make it the inverse of `split` |
| Text.JoinSplit | badminton-picker/dist/app.js:47 | joining the pieces of a split with the separator restores the text |
| Text.SplitJoin | badminton-picker/dist/app.js:47 | splitting a join of separator-free pieces gives the pieces back |
| Text.SplitNoSeparator | badminton-picker/dist/app.js:56 | a line without a bar character is one piece |
| Text.SplitAtFirst | badminton-picker/dist/app.js:56 | the first separator ends the first piece |
| Text.NonEmpty | badminton-picker/dist/app.js:47 | `filter(Boolean)` keeps only non-empty strings, each taken from the input, and never more of them; `NonEmptyAppend` and `NonEmptyOne` fix which ones and in what order |
| Text.TrimAll | badminton-picker/dist/app.js:47 | `map(l => l.trim())` keeps the length and trims each element |
| Text.TrimAllTrimmed | badminton-picker/dist/app.js:47 | mapping trim over already trimmed lines changes nothing |
| Text.LinesWellFormed | badminton-picker/dist/app.js:46-47 | every kept line is non-empty, trimmed and free of line breaks |
| Text.Lines | badminton-picker/dist/app.js:46-47 | the lines of the names box: split on line breaks, trimmed, empty ones dropped; `LinesOfJoin`, `LinesSkipBlank` and `LinesWellFormed` state what it keeps |
| Text.LinesOfJoin | badminton-picker/dist/app.js:46-50 | the lines of any text are its pieces between line breaks, each trimmed, with the ones that trim to nothing dropped and the rest kept in order |
| Text.LinesOfCleanJoin | badminton-picker/dist/app.js:46-50 | every non-blank line is kept, duplicates included, in order: the lines of a joined list of trimmed, non-empty lines are that list |
| Text.LinesSkipBlank | badminton-picker/dist/app.js:46-47 | a blank or all white-space line anywhere in the text is skipped: the lines are those of the text without it |
| Text.NonEmptySkipBlank | badminton-picker/dist/app.js:47 | after trimming, a blank line is dropped by the filter and the other lines keep their order |
| Text.LinesOfEmpty | badminton-picker/dist/app.js:46-47 | an empty names box has no lines |
| Text.NonEmptyKeepsAll | badminton-picker/dist/app.js:47 | filtering a list of non-empty strings keeps it whole |
| Text.NonEmptyAppend | badminton-picker/dist/app.js:47 | filtering a concatenation is filtering each part and concatenating, so the kept strings keep their input order |
| Text.NonEmptyOne | badminton-picker/dist/app.js:47 | one string is kept exactly when it is non-empty |
| Text.TrimAllAppend | badminton-picker/dist/app.js:47 | trimming every line of a concatenation is trimming each part |
| Text.ParseEntry | badminton-picker/dist/app.js:56 | name and preference hold no bar character and have no white space at either end |
| Text.ParseEntryNameOnly | badminton-picker/dist/app.js:56 | a line without a bar character is a trimmed name with preference "" |
| Text.ParseEntryWithPref | badminton-picker/dist/app.js:56 | for a line `a`, a bar, then `b`, the name is `a` trimmed and the preference is the part of `b` before any further bar, trimmed |
| Text.ParseEntryEmptyName | badminton-picker/dist/app.js:56 | a line that starts with the bar yields an empty name with the trimmed preference |
| Text.ParseEntries | badminton-picker/dist/app.js:55-58 | one entry per kept line |
| Csv.Escape | badminton-picker/dist/app.js:232 | doubling quotes leaves text without quotes unchanged and never shortens it |
| Csv.Quote | badminton-picker/dist/app.js:232 | one cell as written: its escaped text between double quotes; `ReadQuoted` reads it back |
| Csv.Line | badminton-picker/dist/app.js:232 | one row: its quoted cells joined by ","; `ReadLine` reads it back |
| Csv.Encode | badminton-picker/dist/app.js:233 | the table: its rows joined by "\r\n" with no trailing break; `DecodeEncode` reads it back |
| Csv.ReadEscaped | badminton-picker/dist/app.js:232 | an escaped field followed by its closing quote reads back as the field |
| Csv.ReadEscapedStep | badminton-picker/dist/app.js:232 | one escaped character (a doubled quote or a plain one) reads back in front of the rest |
| Csv.ReadQuoted | badminton-picker/dist/app.js:232 | a quoted field reads back as its text whatever follows it, unless that starts with a quote |
| Csv.LineCons | badminton-picker/dist/app.js:232 | a row is its first quoted field, ",", then the rest of the row |
| Csv.ReadLineSingle | badminton-picker/dist/app.js:232 | a one-field row reads back as that field |
| Csv.ReadLine | badminton-picker/dist/app.js:232 | a row of quoted fields joined by "," reads back as its fields |
| Csv.DecodeEncode | badminton-picker/dist/app.js:231-233 | decoding the CSV text of a table with at least one row, each with at least one cell, gives the table back |
| Roster.TeamsNeeded | badminton-picker/dist/app.js:63 | `Math.ceil(count / 6)` is the fewest teams of six that hold `count` players |
| Roster.Letter | badminton-picker/dist/app.js:180 | `String.fromCharCode(65 + i)` is the character with code 65 + i below the surrogate range, a capital letter for i < 26 |
| Roster.LabelsDistinct | badminton-picker/dist/app.js:184 | cards at different indices get different labels |
| Roster.TeamLabel | badminton-picker/dist/app.js:184 | the card label is the team type, a space and the letter for the index; `LabelsDistinct` shows no two cards share one |
| Roster.NewTeam | badminton-picker/dist/app.js:179-206 | a new card has six slots, all empty |
| Roster.Grow | badminton-picker/dist/app.js:209-215 | cards are appended up to the needed number with the label for their index; no card is removed or changed |
| Roster.GrowSlots | badminton-picker/dist/app.js:209-215 | adding cards keeps every card six slots wide and fills no slot |
| Roster.FindRow | badminton-picker/dist/app.js:79 | the row found for a name is the first row with that name, and there is none exactly when no row has the name |
| Roster.FindRowByNames | badminton-picker/dist/app.js:79 | the row found depends only on the names in the table |
| Roster.AddRow | badminton-picker/dist/app.js:78-94 | a name already in the table changes nothing; otherwise one enabled row is appended; names stay unique |
| Roster.SetEnabled | badminton-picker/dist/app.js:119-124 | only the enabled flag of the named row changes; no row is added, removed or renamed |
| Roster.ReturnRow | badminton-picker/dist/app.js:166-176 | the name ends with an enabled row, re-created with preference "" if it was missing; every other row keeps its name, preference and state |
| Roster.RowUntouched | badminton-picker/dist/app.js:166-176 | returning one player and disabling another leaves a third player's row as it was |
| Roster.NotAvailable | badminton-picker/dist/app.js:119-124 | with unique names, a disabled row means its player cannot be dragged from the table |
| Roster.ReturnRowIdempotent | badminton-picker/dist/app.js:166-176 | returning a player twice is returning them once |
| Roster.SetSlot | badminton-picker/dist/app.js:126-127 | writing a slot changes that slot only |
| Roster.SetSlotTwice | badminton-picker/dist/app.js:113-127 | emptying a slot and then filling it equals filling it |
| Roster.PlacedAfterSet | badminton-picker/dist/app.js:126-127 | after writing a slot a name is placed exactly when it was written or was placed elsewhere before |
| Roster.AtMostOneAfterSet | badminton-picker/dist/app.js:126-127 | writing a name placed nowhere, or emptying a slot, keeps each name in at most one slot |
| Roster.ClearName | badminton-picker/dist/app.js:153-160 | afterwards no slot shows the name, and every other name shows where it did |
| Roster.ClearNamePlaced | badminton-picker/dist/app.js:153-160 | clearing a name leaves every other name placed as it was |
| Roster.ClearNameIdempotent | badminton-picker/dist/app.js:153-160 | clearing twice is clearing once |
| Roster.SetNoneIsClear | badminton-picker/dist/app.js:140-160 | when names are in at most one slot, emptying the slot showing a name is clearing that name everywhere |
| Roster.AvailableNotPlaced | badminton-picker/dist/app.js:119-124 | under the invariant a player with an enabled row is in no slot |
| Roster.EmptyTeamsConsistent | badminton-picker/dist/app.js:52-66 | a fresh table of enabled, uniquely named rows with empty cards satisfies the invariant |
| Roster.DropOnSlotTrimmed | badminton-picker/dist/app.js:110-116 | when the occupant has no white space at either end, the trimmed read-back returns the occupant itself |
| Roster.DropOnSlot | badminton-picker/dist/app.js:104-132 | the drop: the occupant, if any, is returned under its trimmed name, the dropped player's row is disabled and the slot shows the player; `DropOnSlotRows`, `DropOnSlotTeams`, `DropOnSlotDisplaces` and `DropOnSlotConsistent` state its effect |
| Roster.ReturnOccupant | badminton-picker/dist/app.js:110-113 | an empty slot returns nobody; an occupied one returns its occupant's trimmed name to the table |
| Roster.DropOnSlotRows | badminton-picker/dist/app.js:104-132 | a drop disables the dropped player's row, re-enables the displaced occupant's and leaves every other row as it was |
| Roster.ReturnThenDisable | badminton-picker/dist/app.js:110-124 | returning the occupant and then disabling the dropped player touches those two rows only |
| Roster.DropOnSlotTeams | badminton-picker/dist/app.js:104-132 | after a drop a name is placed exactly when it is the dropped one or was placed and was not displaced; no name is in two slots |
| Roster.DropOnSlotConsistent | badminton-picker/dist/app.js:104-132 | dropping a player from an enabled row keeps the invariant |
| Roster.DropOnSlotDisplaces | badminton-picker/dist/app.js:104-132 | the displaced occupant is available again, the dropped player shows in the slot with a disabled row, and no other slot changes |
| Roster.DropOnSlotUntrimmedOccupant | badminton-picker/dist/app.js:110-112 | an occupant with white space at an end is returned under another name: their row stays disabled while they are in no slot, and the invariant breaks |
| Roster.DropToUnassignedSpec | badminton-picker/dist/app.js:148-163 | dropping on the table keeps the invariant and leaves the player in no slot with an enabled row |
| Roster.DropToUnassignedIdempotent | badminton-picker/dist/app.js:148-163 | dropping the same player on the table twice is doing it once |
| Roster.DropToUnassigned | badminton-picker/dist/app.js:148-163 | the drop on the table: every slot showing the name is emptied, then the name is returned; `DropToUnassignedSpec` and `DropToUnassignedIdempotent` state its effect |
| Roster.ClearSlots | badminton-picker/dist/app.js:153-160 | one card's slots with every slot showing the name emptied; `ClearName` states the result over all cards |
| Roster.DragFromSlotSpec | badminton-picker/dist/app.js:135-145 | starting a drag keeps the invariant, empties the slot and leaves the dragged player with an enabled row and in no slot |
| Roster.DragFromSlot | badminton-picker/dist/app.js:135-145 | the drag start: an occupied slot is emptied, its occupant returned to the table and named as the payload; an empty slot changes nothing; `DragFromSlotSpec` states its effect |
| Roster.MoveBetweenSlots | badminton-picker/dist/app.js:104-145 | a drag from one slot and a drop on another keeps the invariant and shows the player in the target slot |
| Roster.AddPlayerSpec | badminton-picker/dist/app.js:13-26 | a manual add keeps the invariant |
| Roster.BuildRows | badminton-picker/dist/app.js:55-58 | the table built from the entries has no more rows than there are entries |
| Roster.BuildRowsUnique | badminton-picker/dist/app.js:55-58 | the built rows are enabled and uniquely named |
| Roster.NotAnEntryName | badminton-picker/dist/app.js:55-58 | a name that no entry has is not an entry name |
| Roster.HasRowAppend | badminton-picker/dist/app.js:93 | appending a row adds exactly its name |
| Roster.BuildRowsNames | badminton-picker/dist/app.js:55-58 | a name has a row exactly when some entry has it, and every row is the row some entry describes |
| Roster.BuildRowsAppends | badminton-picker/dist/app.js:55-58 | an entry with a name no earlier entry had appends its own row |
| Roster.BuildRowsFirstWins | badminton-picker/dist/app.js:55-58 | the first entry with a name decides that row's preference; later duplicates change nothing |
| Roster.BuildRowsTwice | badminton-picker/dist/app.js:55-58 | the same entry twice gives one row |
| Roster.DuplicateLineCounted | badminton-picker/dist/app.js:46-58 | a name listed twice counts as two players but gets one row |
| Roster.ExportShape | badminton-picker/dist/app.js:219-230 | the export has the header and one row per card, each of eight cells: label, league, the six slots in order with "" for an empty slot |
| Roster.Header | badminton-picker/dist/app.js:219 | the header row: Team, League, Player1 to Player6 |
| Roster.SlotText | badminton-picker/dist/app.js:226-227 | a slot's cell is its player's name, or "" when empty |
| Roster.ExportRow | badminton-picker/dist/app.js:222-229 | a card's row: label, league, then its slots' cells in order; `ExportShape` states its shape |
| Roster.ExportTable | badminton-picker/dist/app.js:219-230 | the header followed by one row per card in page order; `ExportShape` states its shape |
| Roster.ExportCsv | badminton-picker/dist/app.js:219-233 | the CSV text of the export table; `ExportRoundTrip` shows it decodes back |
| Roster.ExportRoundTrip | badminton-picker/dist/app.js:219-233 | the exported CSV decodes back to the exported table |
| Picker.Picker.constructor | badminton-picker/dist/app.js:1-3 | the page starts with team type "Team", count 0, no rows and no cards, so the card count matches ceil(count / 6) |
| Picker.Picker.AddUnassignedRow | badminton-picker/dist/app.js:78-94 | the table becomes `AddRow` of the old table; nothing else changes |
| Picker.Picker.AddTeamCard | badminton-picker/dist/app.js:179-206 | one card is appended: label for the index, empty league, six empty slots built in a loop |
| Picker.Picker.CheckTeamsCount | badminton-picker/dist/app.js:209-215 | the cards become `Grow` of the old cards to ceil(count / 6) |
| Picker.Picker.AddManual | badminton-picker/dist/app.js:13-26 | an empty name changes nothing; otherwise the count goes up by one even for a known name, the row is added unless taken, cards follow the new count, and the invariant and the card count ceil(count / 6) are kept |
| Picker.Picker.Generate | badminton-picker/dist/app.js:44-75 | team type is the trimmed input or "Team"; count is the number of non-blank lines; the table is rebuilt from the entries; there are exactly ceil(count / 6) fresh cards; the invariant holds |
| Picker.Picker.BuildUnassigned | badminton-picker/dist/app.js:53-58 | adding the entries in order through `addUnassignedRow` yields `BuildRows` of the entries |
| Picker.Picker.BuildTeams | badminton-picker/dist/app.js:61-66 | adding cards 0 to needed-1 in order yields `Grow` from no cards |
| Picker.Picker.ReturnToUnassigned | badminton-picker/dist/app.js:166-176 | the table becomes `ReturnRow` of the old table |
| Picker.Picker.TakeFromUnassigned | badminton-picker/dist/app.js:119-124 | the dropped player's row is disabled and nothing else changes |
| Picker.Picker.Vacate | badminton-picker/dist/app.js:110-116 | an occupied slot is emptied and its occupant, read back trimmed, is returned to the table |
| Picker.Picker.DropOnSlot | badminton-picker/dist/app.js:104-132 | the new state is `Roster.DropOnSlot` of the old one; the invariant is kept when the player came from an enabled row and the occupant is trimmed; the card count stays ceil(count / 6) |
| Picker.Picker.DragFromSlot | badminton-picker/dist/app.js:135-145 | the new state and the payload are `Roster.DragFromSlot` of the old state; the invariant is kept; the card count stays ceil(count / 6) |
| Picker.Picker.DropToUnassigned | badminton-picker/dist/app.js:148-163 | the slot loop empties every slot showing the name, then the name is returned: the new state is `Roster.DropToUnassigned` of the old; the invariant is kept; the card count stays ceil(count / 6) |
| Picker.Picker.SetLeague | badminton-picker/dist/app.js:196-203 | typing into a card's league box changes only that card's league and keeps the invariant; the card count stays ceil(count / 6) |
| Picker.Picker.Export | badminton-picker/dist/app.js:218-233 | the loops build the export table; the text is its CSV encoding and decodes back to it |

## Left out

- Rendering: CSS classes, the opacity of disabled rows, slot colours, the HTML built for rows and cards. Only the state the page reads back is modelled.
- The back button (app.js:6-10) only switches views and changes no state, so it has no member.
- Events: `dragover`/`drop` wiring and `preventDefault`. `dragStartRow` (app.js:97-101) only puts the row's name into the drag payload, so the drag payload is the `name` parameter of the drop methods.
- The `prompt` dialogs of the manual add: the entered name and preference are parameters. A cancelled prompt (`null`) behaves as "" and is covered by the empty-name case.
- The JSON wrapping of the drag payload (`JSON.stringify`/`JSON.parse`) is left out because it returns the name unchanged.
- The Blob, object URL and download link of the export (app.js:234-240) are left out: the model stops at the CSV text.
- Table rows are found by pasting the name into the selector `#unassignedTable [data-name="…"]` (app.js:79, 119, 167, 170). A name containing `"` makes that selector invalid, and the handler throws. A name containing `\` is read as a CSS escape, so the selector is valid but looks for another name and silently misses the row: `addUnassignedRow` (app.js:79) then appends a second row with the same name, `dropOnSlot` (app.js:119) leaves the placed player's row enabled, and `returnToUnassigned` (app.js:167-170) appends one more row on every return. Slots are not looked up by name: they are reached through `.slot` and the `div` inside them (app.js:110, 137, 153-154). The model looks rows up by exact name and captures none of this.
- A slot's text is read back through `textContent` of HTML built from the name. Names holding HTML markup would read back differently, and this is left out: the model assumes a slot reads back the name it was given.
- Roster.DragFromSlot: an emptied slot stays draggable, and dragging it makes the handler fail on a missing element before it changes anything. The model gives no payload and no state change and does not model the exception.
- Roster.Letter: `String.fromCharCode` can produce a lone UTF-16 surrogate, which is not a Dafny character. Such code units stand for U+FFFD, the character they become when the export is encoded as UTF-8.
- Text.Split: models `split` with a one-character separator only, which is all the page uses.
- Csv.DecodeEncode: the round trip is stated for tables with at least one row, each with at least one cell. Every export has its header row, and every exported row has eight cells.
- Picker.Picker.DropOnSlot: the invariant is promised only when the dropped player has an enabled row and the occupant has no white space at either end. Roster.DropOnSlotUntrimmedOccupant shows why the second condition is needed.
