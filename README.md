# ResearchFlow project registry, modelled in Dafny

ResearchFlow is a terminal tool for tracking research projects. It keeps them in memory only. A
global dictionary `projetos` maps an integer ID to a project record: title, deadline, budget,
status, knowledge areas and a member list. A counter `ID_CONTADOR` starts at 1 and hands out the
IDs. A numbered menu runs five operations over the registry:

1. create a project;
2. list the projects;
3. show one project;
4. add a member to a project;
5. update a project's status.

Option 6 leaves the menu.

This model covers the registry and its rules:

- A project is created only when its deadline is a real `DD/MM/YYYY` date and its budget is a number.
  Only a successful creation uses up an ID.
- A new project starts as `PENDENTE` with no members. Its areas are the comma-separated input,
  stripped, upper-cased and collected into a set.
- Projects are never removed, so the keys are always exactly `1 .. ID_CONTADOR - 1`, inserted in
  ascending order. Listing visits them in that order.
- Adding a member fails, in this order, for an unknown ID, for a `CONCLUÍDO` project, and for a name
  that matches an existing member's name up to case. Otherwise the member goes at the end of the list.
- A status update maps option 1–4 to `PENDENTE`, `EM ANDAMENTO`, `CONCLUÍDO`, `CANCELADO` and
  overwrites the status. Any status can follow any other.
- The menu compares the typed option as text. `"1"` to `"5"` run an operation, `"6"` exits, and
  anything else changes nothing.

Files:

- `text.dfy` (module `Text`): Python's `split(',')`, `strip()`, `upper()` and `lower()`.
- `dates.dfy` (module `Dates`): the `strptime`/`strftime` deadline check.
- `projects.dfy` (module `Projects`): statuses, members, projects, area normalisation and the member-name test.
- `registry.dfy` (module `ProjectRegistry`): the `Registry` class, its operations and the status prompt loop.
- `menu.dfy` (module `Menu`): option dispatch and the menu loop.
- `wrappers.dfy` (module `Wrappers`): `Option`.

The registry is a class. It has three fields:

- `projects`, a map from ID to project;
- `order`, the dictionary's insertion order;
- `nextId`, the counter.

`Valid()` is the invariant: the keys are exactly `1 .. nextId - 1`, `order` is `[1, …, nextId - 1]`,
and every stored project is well formed. A project is well formed when its deadline parses, its
areas are normalised, and its members' names are distinct up to case. Every operation keeps
`Valid()`. The pure parts are functions with lemmas: date parsing, area normalisation, case mapping,
the duplicate-name test, the status table and the dispatch table.

Behaviour worth noting:

- Empty area input gives the set `{""}`, not the empty set.
- The budget is not required to be non-negative.
- A menu option other than 1–6 only prints a message. It is not an error kind of its own.

## Model

| member | source | states |
|---|---|---|
| `Text.Upper` | main.py:43 | `upper()` keeps the length, replaces each lower-case letter by its upper-case partner 32 code points below it, and keeps every other character |
| `Text.Lower` | main.py:124 | `lower()` keeps the length, replaces each upper-case letter by its lower-case partner 32 code points above it, and keeps every other character |
| `Text.Strip` | main.py:43 | `strip()` leaves no whitespace at either end, and gives the empty string exactly when the input is all whitespace |
| `Text.Split` | main.py:43 | `split(',')` always gives at least one piece, and no piece contains a comma |
| `Text.StripPadding` | main.py:43 | `strip()` removes exactly the whitespace around a trimmed core, and nothing inside it |
| `Text.StripIdempotent` | main.py:43 | stripping twice is the same as stripping once |
| `Text.UpperKeepsTrimmed` | main.py:43 | `upper()` after `strip()` leaves the result trimmed |
| `Text.LowerOfUpper` | main.py:124 | `lower()` of an upper-cased name equals `lower()` of the name, so names that differ only in case compare equal |
| `Text.JoinSplit` | main.py:43 | re-joining the pieces of `split(',')` with commas gives back the input |
| `Text.SplitWithoutSep` | main.py:43 | input without a comma is a single piece |
| `Text.SplitConcat` | main.py:43 | splitting `x + "," + y` gives the pieces of `x` followed by the pieces of `y` |
| `Text.IndexOf` | main.py:43 | the position found is the first comma, or the end when there is none |
| `Dates.FormatThenParse` | main.py:28 | every valid date is accepted back from its own `DD/MM/YYYY` formatting |
| `Dates.FormatThenParseAny` | main.py:28 | a formatted day/month/year is read back field for field and accepted exactly when it is a real calendar day |
| `Dates.ParseDate` | main.py:28 | whatever the deadline check accepts is a real calendar day in years 1 to 9999 |
| `Dates.FormatDate` | main.py:28 | formatting writes two digits, `/`, two digits, `/`, four digits |
| `Dates.ParseThenFormat` | main.py:28 | re-formatting an accepted date gives the input text, so the text stored after `strftime` is the text typed |
| `Dates.Deadline` | main.py:26-32 | a deadline is stored exactly when it parses, and the stored text is the canonical form, equal to the input |
| `Dates.NoThirtyFirstOfFebruary` | main.py:28 | `31/02/2025` is refused |
| `Dates.LeapDayInLeapYear` | main.py:28 | `29/02/2024` is accepted as 29 February 2024 |
| `Dates.NoLeapDayInCommonYear` | main.py:28 | `29/02/2023` is refused |
| `Projects.Label` | main.py:49 | the stored label is `PENDENTE` exactly for the pending status and `CONCLUÍDO` exactly for the closed one |
| `Projects.LabelInjective` | main.py:114 | comparing the stored labels is the same as comparing statuses |
| `Projects.StatusMenuLabels` | main.py:152-155 | the status menu offers `PENDENTE`, `EM ANDAMENTO`, `CONCLUÍDO`, `CANCELADO` as options 1 to 4, in that order |
| `Projects.StatusOfChoice` | main.py:160-161 | an option selects a status exactly when it is an integer from 1 to 4 |
| `Projects.ChoiceOf` | main.py:152 | each status is offered as option 1–4 at its own position in the list |
| `Projects.StatusChoiceRoundTrip` | main.py:152-161 | every status is selected by exactly one option |
| `Projects.NameTaken` | main.py:124 | the duplicate test holds exactly when some member's lower-cased name equals the new lower-cased name |
| `Projects.AppendKeepsNamesDistinct` | main.py:124-134 | appending a member whose name is not taken keeps all names distinct up to case |
| `Projects.NameTakenIgnoresCase` | main.py:124 | after "Ana" has joined, "ana" counts as taken |
| `Projects.AreaOfIsArea` | main.py:43 | a comma-free piece becomes an upper-case, trimmed, comma-free area |
| `Projects.NormalizeAreas` | main.py:43 | every area in the set is upper-case, trimmed and comma-free |
| `Projects.NormalizedAreasNonEmpty` | main.py:43 | there is always at least one area: the first piece's |
| `Projects.AreasOfConcat` | main.py:43 | the areas of `x + "," + y` are the areas of `x` together with those of `y` |
| `Projects.AreasOfOnePiece` | main.py:43 | comma-free input gives exactly one area |
| `Projects.AreasIgnoreOrderAndRepetition` | main.py:43 | the order in which areas are typed, and repeating one, do not change the set |
| `Projects.AreaIsFixedPoint` | main.py:43 | normalising an already normal area gives that area alone |
| `Projects.AreasOfEmptyInput` | main.py:43 | empty input gives `{""}`, not the empty set |
| `Projects.AreasExample` | main.py:43 | `"ia, Robótica , ia"` gives exactly `{"IA", "ROBÓTICA"}` |
| `ProjectRegistry.ChooseStatus` | main.py:157-166 | the status prompt accepts the first integer from 1 to 4 and maps it to position `choice - 1` of the list; every earlier answer was a non-integer or out of range; no status if the input runs out |
| `ProjectRegistry.Registry.constructor` | main.py:5-9 | the registry starts empty with the counter at 1 |
| `ProjectRegistry.Registry.AddProject` | main.py:21-55 | a bad deadline fails first and a non-numeric budget second, both leaving registry and counter unchanged; success stores a `PENDENTE` project with no members and normalised areas under the old counter value, appends that ID to the iteration order and increments the counter by one |
| `ProjectRegistry.Registry.Detail` | main.py:79-84 | a lookup succeeds exactly for IDs 1 .. counter − 1 and returns the stored project; any other ID is not found |
| `ProjectRegistry.Registry.List` | main.py:64-70 | one row per project, in ascending ID order, each with ID, title, deadline, status and member count; no rows exactly when the registry is empty |
| `ProjectRegistry.Registry.AddMember` | main.py:107-134 | fails with not-found, then closed, then duplicate name, each leaving the registry unchanged; otherwise appends `(name, role)` to that project's list and changes nothing else; name uniqueness is preserved |
| `ProjectRegistry.Registry.UpdateStatus` | main.py:142-168 | an unknown ID fails before any option is read; otherwise the first valid option's status overwrites only that project's status, whatever it was |
| `ProjectRegistry.CreateAfterRejection` | main.py:26-55 | after a rejected creation, the next successful one gets the ID it would have got anyway, and only that key is added |
| `ProjectRegistry.CloseThenAddMember` | main.py:114-117 | once a project is set to `CONCLUÍDO`, adding a member fails and its member list is unchanged |
| `ProjectRegistry.SameNameTwice` | main.py:124-134 | adding "Ana" and then "ana" keeps only the first |
| `ProjectRegistry.UnknownId` | main.py:107-112 | an ID never handed out is not found by detail, add-member and update-status alike, and nothing changes |
| `Menu.Dispatch` | main.py:188-221 | any text that selects a command is exactly the option the menu shows for it; everything else is an invalid option |
| `Menu.DispatchKey` | main.py:180-185 | each command is reached by the option shown for it |
| `Menu.CreateStep` | main.py:190-191 | option 1 runs project creation: the deadline is checked before the budget, and success stores a pending project without members under the old counter value |
| `Menu.ShowStep` | main.py:194-197 | option 3 with an integer ID returns the stored project, or not found |
| `Menu.JoinStep` | main.py:201-204 | option 4 with an integer ID runs member addition: not found, closed and duplicate name in that order, otherwise the member is appended to that project only |
| `Menu.StatusStep` | main.py:208-211 | option 5 with an integer ID runs the status update: not found, or the first valid option's status replaces only that project's status |
| `Menu.HandleStep` | main.py:190-221 | each command runs its own operation and replies with that operation's result: 1 creates, 2 lists every project in ID order, 3 shows, 4 adds a member, 5 updates the status, each with the state change described for that operation; a non-integer ID is reported without touching the registry; 6 says goodbye; an unknown option changes nothing; only creation, member addition and status update change the registry, and only when they succeed |
| `Menu.MenuPass` | main.py:188-221 | the typed option is dispatched and the outcome is the one its command promises; option 6 and only option 6 says goodbye; listing, showing, leaving, an unknown option and every failed operation leave the registry as it was; only a creation moves the counter or the order |
| `Menu.Run` | main.py:175-221 | every reply is the outcome of its own step's option on the projects and counter as the previous step left them, from the initial registry to the final one; the counter moves on by one exactly at the steps that create a project; the loop goes on until option 6 or until the input runs out, and stops right there; the counter advances by exactly the number of projects created; no project is ever removed |
| `Menu.ExtendTrace` | main.py:175-221 | appending one more step's outcome and counter step to a run of steps keeps every earlier step's outcome and counter step |

## Left out

- Terminal handling is left out: clearing the screen, every prompt and message, the "press Enter" pauses and the `INFO_SISTEMA` banner. It is I/O with no logic.
- Budget parsing is a parameter. `float(...)` is replaced by an already-parsed `Option<real>`, where `None` stands for `ValueError`. `nan` and `inf` have no `real` counterpart, and the two-decimal display is left out.
- Dates.ParseDate: accepts only the zero-padded form `DD/MM/YYYY` with ASCII digits and a four-digit year from 0001 to 9999. Python's `strptime` also takes one-digit days and months, a leading space, and non-ASCII decimal digits (`01/02/٢٠٢٥` is stored as `01/02/2025`). Platform differences in `strftime` for years below 1000 are also left out. Within this form, the stored deadline equals the input.
- Text.Upper: maps ASCII and the Latin-1 lower-case letters only. Python's full Unicode case mapping is not modelled, for example `ß` to `SS`, `ÿ`, `µ` and letters outside Latin-1.
- Text.Lower: maps ASCII and the Latin-1 upper-case letters only, for the same reason as `Text.Upper`.
- Project IDs typed at the menu, and status options, are already-parsed `Option<int>` values. `None` stands for `int()` raising `ValueError`; the rules of `int()` itself are not modelled.
- The detail view returns the project record. The rendering is left out: the `", ".join` of areas and member names, and the arbitrary display order of the set.
- The input ending is modelled, not Python's reaction to it. Python raises an uncaught `EOFError` and the program stops. The model ends the menu loop when the script of steps runs out, or when the status prompt runs out of answers (`EndOfInput`).
- Aliasing is not modelled. Python mutates the project dictionary through a second reference (`dados`). The model replaces the map entry with the updated record, which has the same effect because no other reference to the record is kept.
- Each menu step carries all the answers any operation might prompt for. An operation ignores the answers it does not ask for, so how many input lines a step consumes is not modelled.
