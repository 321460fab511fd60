# unite-tier-maker: the placement engine and registries, in Dafny

This project models the state logic behind the tier-list web app `unite-tier-maker`.
The UI sorts pokemon into tiers by drag and drop. Behind it sit four React hooks, and this project models those:

- **The placement engine** (`src/hooks/useTierManagement.ts`). The state is a list of
  `{pokemonId, location, position}` records.
  - At the start, and after a reset, every catalog entry sits in the `unassigned` pool.
  - `handleMovePokemon` takes the dragged pokemon's records out and regroups the rest by location
    (`S`, `A`, `B`, `C`, `D`, `unassigned`), each group sorted by position.
  - It then splices the dragged record into the target group, or appends it.
  - Finally it renumbers every group from 0 and concatenates the groups in tier order.
  - `getPokemonsByLocation` reads one location back as catalog entries.
- **The row registry** (`src/hooks/useRowManager.ts`). This is an ordered list of `{id, name, color}` rows,
  kept between `MIN_ROWS = 5` and `MAX_ROWS = 9`.
  - `addRow` searches for the first free `row-k` id.
  - The other operations are `removeRow`, the rename and recolour updaters, and the reset.
  - Saved data is validated and migrated when loaded, then clamped on start.
- **The label registries** (`src/hooks/useTierLabels.ts`, `src/hooks/usePositionLabels.ts`). Each is a fixed
  list of default labels.
  - Saved names are merged onto the defaults when the hook starts.
  - Each registry offers rename by id, reset and lookup.
  - One generic module, `LabelRegistry`, covers both. `TierLabels` instantiates it for the tiers S, A, B, C,
    `PositionLabels` for the five positions of `src/constants/positions.ts`.

Layout:

- `Wrappers.dfy`: `Option`.
- `Assignments.dfy`: the record type and the list operations the engine uses. These are the filters,
  the stable sort by position, renumbering, and the `splice`/`push` insertion with JavaScript's clamping of the
  start index.
- `TierManagement.dfy`: the specification function `Moved` of a move, and the method `MovePokemon`.
  - `MovePokemon` follows the hook step by step: a scan for the dragged record, a loop filling the
    per-location map, the splice, and the nested loop that renumbers and concatenates.
  - It is proved equal to `Moved`.
  - The file also holds the initial state and the location query.
- `MoveLemmas.dfy`: what a move guarantees. These are the dragged pokemon's single record at the
  clamped index, dense positions, the other records' order, the multiset of ids, idempotence and the no-op
  on an absent pokemon.
- `TierBoard.dfy`: the hook's state as a class (`Board`) with its updaters, and the facts about
  the initial state and the location query.
- `LabelRegistry.dfy`, `TierLabels.dfy`, `PositionLabels.dfy`: the label registries.
- `RowManager.dfy`: the row registry, with a class (`Rows`) for the hook's state.
  - It holds the `NextRowId` loop, whose termination argument is a pigeonhole on the existing ids.
  - It also holds the decimal numerals used in `row-k` and `行 k`.

Hooks replace their state wholesale (`setX(prev => …)`). The placement engine and the row registry hold the
state the rest of the app reads, so they become classes: `Board` and `Rows`. Each of their updaters is a method
that assigns to its object's field, and it is proved equal to a function of the old state. The lemmas speak
about those functions. The two label registries are pure functions from the old list to the new one, with no
object around them.

Parts of the repository describe a newer engine than `src/hooks/useTierManagement.ts` has, and this model
follows the hook:

- `PokemonAssignment` (src/types/index.ts:44-50) carries an assignment `id` and an `isFromUnassignedArea` flag.
  The hook never sets or reads either of them.
- src/tests/hooks/useTierManagement.test.ts calls `isPlacedInAnyTier` and `handleDeletePokemon`, and it queries
  composite locations such as `attacker-S`. The hook returns none of these (src/hooks/useTierManagement.ts:94-100),
  so the test is not a description of this code.

## Model

| member | source | states |
|---|---|---|
| TierManagement.LocationsDistinct | src/hooks/useTierManagement.ts:5-11 | the keys of `allTierIds` are S, A, B, C, D, unassigned: six of them, pairwise distinct |
| TierManagement.LocationIndex | src/hooks/useTierManagement.ts:58 | every key of `allTierIds` has an index in it, naming that key |
| TierManagement.Initial | src/hooks/useTierManagement.ts:21-27 | the initial list has one record per catalog entry, in catalog order, each in `unassigned` at its catalog index |
| TierManagement.FindPokemon | src/hooks/useTierManagement.ts:29-31 | `getPokemonById` finds nothing exactly when no entry has the id; otherwise it finds the first entry with that id |
| TierManagement.Resolve | src/hooks/useTierManagement.ts:37-42 | every resolved entry is in the catalog and belongs to one of the records; there are never more entries than records |
| TierManagement.PokemonsAt | src/hooks/useTierManagement.ts:33-43 | `getPokemonsByLocation` returns only catalog entries of records at that location, no more than there are such records |
| TierManagement.GroupByLocation | src/hooks/useTierManagement.ts:57-64 | the loop leaves each of the six keys holding that location's filtered records, sorted by position |
| TierManagement.Concatenate | src/hooks/useTierManagement.ts:73-79 | the nested loop yields the groups, each renumbered from 0, concatenated in tier order |
| TierManagement.FindDragged | src/hooks/useTierManagement.ts:52 | the scan returns the record `find` returns, or nothing |
| TierManagement.MovePokemon | src/hooks/useTierManagement.ts:50-81 | the updater of `handleMovePokemon` computes `Moved` whenever it does not throw |
| TierManagement.Groups | src/hooks/useTierManagement.ts:57-64 | `newTiersState` has one group per key of `allTierIds`; each group holds exactly that location's records (as a multiset), in position order |
| TierManagement.Placed | src/hooks/useTierManagement.ts:66-71 | after the splice or push, the target's group has gained exactly the dragged record, relocated to the target; every other group is untouched |
| TierManagement.Flatten | src/hooks/useTierManagement.ts:73-79 | `finalAssignments` holds as many records as the groups together: the nested `forEach` loses and adds none |
| TierManagement.CanMove | src/hooks/useTierManagement.ts:52-71 | the updater does not throw exactly when the dragged pokemon has no record (the early return) or the target is one of the six keys of `newTiersState` |
| TierManagement.Moved | src/hooks/useTierManagement.ts:50-81 | the specification of the updater: when no record has the dragged id the list comes back unchanged (the early return); what a real move does is stated about it by `MoveLemmas.MovedIds`, `MovePlacesDragged`, `MoveGroups` and `MoveKeepsWellFormed` |
| TierManagement.TiersArePlaced | src/hooks/useTierManagement.ts:66-71 | splicing or pushing the relocated record into the target's list gives the placed groups at all six keys |
| Assignments.At | src/hooks/useTierManagement.ts:35 | the location filter keeps only records of that location, never more than the input has |
| Assignments.Without | src/hooks/useTierManagement.ts:55 | the filter keeps only records of other pokemon |
| Assignments.FindById | src/hooks/useTierManagement.ts:52 | `find` fails exactly when no record has the id; otherwise it returns a record of that pokemon |
| Assignments.FindByIdIsFirst | src/hooks/useTierManagement.ts:52 | the record found is the first one with that id |
| Assignments.SortByPosition | src/hooks/useTierManagement.ts:60-64 | the sort returns the same records (as a multiset), in position order |
| Assignments.SortIsStable | src/hooks/useTierManagement.ts:63 | records with equal positions keep their relative order |
| Assignments.SortOfSortedIsIdentity | src/hooks/useTierManagement.ts:63 | sorting a list already in position order changes nothing |
| Assignments.SpliceStart | src/hooks/useTierManagement.ts:68 | the splice start is clamped to 0..length; an in-range index is used as given |
| Assignments.InsertAt | src/hooks/useTierManagement.ts:67-71 | the record lands at the clamped index, or at the end without an index; the records before and after it are the old ones |
| Assignments.InsertAtCounts | src/hooks/useTierManagement.ts:67-71 | the insertion adds exactly the one record |
| Assignments.AtWithoutCommute | src/hooks/useTierManagement.ts:55-63 | filtering out the pokemon and filtering by location commute |
| Assignments.IdsWithout | src/hooks/useTierManagement.ts:55 | the ids after the filter are the ids before, minus the dragged id, in order |
| Assignments.WithoutKeepsSorted | src/hooks/useTierManagement.ts:55 | filtering out a pokemon keeps position order |
| Assignments.SortKeepsIds | src/hooks/useTierManagement.ts:63 | sorting keeps the multiset of pokemon ids |
| MoveLemmas.MoveOfAbsentIsIdentity | src/hooks/useTierManagement.ts:52-53 | if no record has the dragged id, the list comes back unchanged |
| MoveLemmas.MovedAt | src/hooks/useTierManagement.ts:57-79 | after a move, each of the six locations holds its placed group renumbered; any other location is empty |
| MoveLemmas.MoveGroups | src/hooks/useTierManagement.ts:55-79 | after a move each location's positions are 0..n-1; other locations keep their records minus the dragged pokemon, in position order; the target has the dragged id spliced in at the clamped index |
| MoveLemmas.DraggedAtIndex | src/hooks/useTierManagement.ts:66-71 | the target shows the dragged pokemon at the clamped splice index, or last, with the other records around it in order |
| MoveLemmas.DraggedOnlyThere | src/hooks/useTierManagement.ts:55-66 | every record of the dragged pokemon after a move is at the target, at that index |
| MoveLemmas.MovePlacesDragged | src/hooks/useTierManagement.ts:55-71 | after a move the dragged pokemon has exactly one record, at the target and at the clamped index |
| MoveLemmas.MoveKeepsWellFormed | src/hooks/useTierManagement.ts:73-79 | a move keeps every record at one of the six locations, with dense positions |
| MoveLemmas.MovedIds | src/hooks/useTierManagement.ts:51-80 | for any list holding the dragged pokemon and a target among the six, the ids after a move are the ids of the records at the six locations, with the dragged pokemon's count set to one; records at other locations are dropped |
| MoveLemmas.MoveKeepsIds | src/hooks/useTierManagement.ts:51-80 | for a list whose records are all at the six locations: the ids keep their multiset, except that the dragged pokemon's records collapse into one; with one record per pokemon, the multiset and the length are unchanged |
| MoveLemmas.MoveKeepsOrder | src/hooks/useTierManagement.ts:55-79 | at each of the six locations whose records are in position order, the other pokemon keep their relative order |
| MoveLemmas.MoveIsIdempotent | src/hooks/useTierManagement.ts:51-80 | applying the same move twice gives the state of applying it once |
| MoveLemmas.SameGroupAfterRepeat | src/hooks/useTierManagement.ts:51-80 | repeating a move leaves every location's records as they are |
| MoveLemmas.FlattenAt | src/hooks/useTierManagement.ts:73-79 | filtering the concatenated list by a location gives back that location's group, renumbered |
| Assignments.Renumbered | src/hooks/useTierManagement.ts:75-76 | renumbering keeps each record's pokemon and location, in order, and sets positions 0..n-1 |
| MoveLemmas.RenumberedIds | src/hooks/useTierManagement.ts:75-76 | renumbering keeps the ids and sets positions 0..n-1 |
| TierBoard.Board.constructor | src/hooks/useTierManagement.ts:21-27 | the hook starts from the initial list, which is in the engine's shape and names the catalog's pokemon |
| TierBoard.Board.HandleMovePokemon | src/hooks/useTierManagement.ts:45-82 | the list becomes `Moved` of the old one; the shape and the set of pokemon are kept |
| TierBoard.Board.HandleResetTiers | src/hooks/useTierManagement.ts:84-92 | the list becomes the initial list again |
| TierBoard.InitialIsWellFormed | src/hooks/useTierManagement.ts:21-27 | the initial list has every record at a known location, with dense positions |
| TierBoard.InitialIds | src/hooks/useTierManagement.ts:22-26 | the initial list's ids are the catalog's ids, in order |
| TierBoard.ResetShowsCatalog | src/hooks/useTierManagement.ts:84-92 | after a reset with distinct catalog ids, `unassigned` shows the whole catalog in order and every other location is empty |
| TierBoard.FindInDistinct | src/hooks/useTierManagement.ts:29-31 | in a catalog of distinct ids, `getPokemonById` of an entry's id finds that entry |
| TierBoard.ResolveInitial | src/hooks/useTierManagement.ts:37-42 | resolving the initial records gives the catalog back |
| TierBoard.ResolveKeepsKnown | src/hooks/useTierManagement.ts:37-42 | every record whose pokemon is in the catalog is resolved |
| TierBoard.ResolveAllKnown | src/hooks/useTierManagement.ts:37-42 | when all records resolve, the output has the same length and order |
| TierBoard.ResolveConcat | src/hooks/useTierManagement.ts:37-42 | the lookup-and-filter works record by record: resolving two lists joined is the two resolutions joined |
| TierBoard.ResolveDropsUnknown | src/hooks/useTierManagement.ts:38-42 | a record whose pokemon is not in the catalog is dropped wherever it stands; the records around it resolve as if it were absent, in the same order |
| TierBoard.PokemonsAtInOrder | src/hooks/useTierManagement.ts:33-43 | on a well-formed list, the query returns the catalog entries of that location's records, in position order |
| TierBoard.UnknownLocationIsEmpty | src/hooks/useTierManagement.ts:33-43 | on a well-formed list (every record at one of the six locations, dense positions), a location outside the six shows nothing |
| TierBoard.MoveKeepsIdSet | src/hooks/useTierManagement.ts:51-80 | on a well-formed list (every record at one of the six locations, dense positions), a move keeps the set of pokemon that have a record |
| LabelRegistry.MapGet | src/hooks/useTierLabels.ts:43 | the `Map` lookup yields the name of the last saved entry with the id, or nothing when no entry has it |
| LabelRegistry.OrDefault | src/hooks/useTierLabels.ts:47 | `||` keeps a non-empty saved name; otherwise it gives the default |
| LabelRegistry.Merged | src/hooks/useTierLabels.ts:39-51 | the merge has exactly the default ids in default order; with no saved list, or an empty one, it is the defaults |
| LabelRegistry.Renamed | src/hooks/useTierLabels.ts:65-69 | a rename keeps ids, order and length; it changes only the names of labels with that id |
| LabelRegistry.LabelOf | src/hooks/useTierLabels.ts:77-83 | the lookup gives `""` for an unknown id; a non-empty result is the name of a label with that id |
| LabelRegistry.LabelOfIsFirst | src/hooks/useTierLabels.ts:79-80 | the lookup gives the first matching label's name |
| LabelRegistry.ToSaved | src/hooks/useTierLabels.ts:53-63 | the saved form keeps every label's id and name, in order |
| LabelRegistry.MapGetSkips | src/hooks/useTierLabels.ts:43 | an entry with another id, anywhere in the saved list, does not change what the `Map` yields for an id |
| LabelRegistry.MapGetIgnoresLater | src/hooks/useTierLabels.ts:43 | entries after the last one with an id do not change what the `Map` yields for it |
| LabelRegistry.MergeIgnoresUnknown | src/hooks/useTierLabels.ts:42-48 | a saved entry whose id is not a default id, anywhere in the saved list, does not change the merge |
| LabelRegistry.LastDuplicateWins | src/hooks/useTierLabels.ts:43-47 | for any saved list, the last entry of a default id decides its name whatever comes before it; a missing or empty name gives the default |
| LabelRegistry.SaveLoadRoundTrip | src/hooks/useTierLabels.ts:39-63 | loading what was saved gives the same labels when no name is empty |
| LabelRegistry.EmptyNameFallsBack | src/hooks/useTierLabels.ts:43-47 | a label renamed to `""` comes back with its default name after a reload |
| LabelRegistry.LabelOfRenamed | src/hooks/useTierLabels.ts:65-83 | after a rename the lookup gives the new name; other ids look up as before |
| LabelRegistry.RenameTwice | src/hooks/useTierLabels.ts:65-69 | a second rename of the same id overrides the first |
| TierLabels.DefaultTierLabelsDistinct | src/hooks/useTierLabels.ts:11-16 | the default tier ids are distinct |
| TierLabels.InitialTierLabels | src/hooks/useTierLabels.ts:11-51 | the initial labels are S, A, B, C in order, none empty; with nothing saved they are the defaults |
| TierLabels.ResetTierLabels | src/hooks/useTierLabels.ts:71-83 | after a reset each tier is labelled with its own id, and an unknown id with `""` |
| TierLabels.TierLabelsRoundTrip | src/hooks/useTierLabels.ts:39-63 | saved tier labels without empty names come back unchanged |
| PositionLabels.PositionsDistinct | src/constants/positions.ts:1-15 | `POSITIONS` lists the five `Position` ids, distinct, in enum order |
| PositionLabels.InitialPositionLabels | src/hooks/usePositionLabels.ts:12-44 | the initial labels are the five positions in order, none empty; with nothing saved they are `POSITIONS` |
| PositionLabels.ResetPositionLabels | src/hooks/usePositionLabels.ts:64-76 | after a reset every position looks up as its default name |
| PositionLabels.PositionLabelsRoundTrip | src/hooks/usePositionLabels.ts:32-56 | saved position labels without empty names come back unchanged |
| RowManager.NatToString | src/hooks/useRowManager.ts:68-75 | a template literal's numeral has one digit exactly for numbers below 10 |
| RowManager.NatToStringInjective | src/hooks/useRowManager.ts:68-71 | different numbers print differently |
| RowManager.RowId | src/hooks/useRowManager.ts:68 | `row-${idx}` is `row-` followed by the decimal numeral of `idx` |
| RowManager.RowName | src/hooks/useRowManager.ts:75 | `行 ${n}` is `行 ` followed by the decimal numeral of `n` |
| RowManager.RowIdInjective | src/hooks/useRowManager.ts:68-71 | `row-${idx}` is different for different `idx` |
| RowManager.DefaultRows | src/hooks/useRowManager.ts:16-22 | five default rows, with the position ids, in order |
| RowManager.Complete | src/hooks/useRowManager.ts:32 | validation keeps exactly the entries with a string id and a string name |
| RowManager.LoadedColor | src/hooks/useRowManager.ts:36-39 | a non-empty saved colour is kept; otherwise the palette colour at the row's index |
| RowManager.LoadSaved | src/hooks/useRowManager.ts:31-40 | one loaded row per valid entry |
| RowManager.LoadSkipsIncomplete | src/hooks/useRowManager.ts:32 | an invalid entry is dropped and leaves no trace in the other rows, colours included |
| RowManager.LoadColorsByLoadedIndex | src/hooks/useRowManager.ts:33-39 | a valid entry anywhere in the saved list is loaded at its index after filtering, with its id and name; its colour is kept when non-empty, and a missing or empty colour becomes the palette colour at that index |
| RowManager.ToSavedRows | src/hooks/useRowManager.ts:54 | what the save writes: one entry per row, in order, with all three fields present |
| RowManager.InitialRows | src/hooks/useRowManager.ts:46-50 | the initial rows number 5 to 9: the first nine loaded rows when at least five load, else the defaults |
| RowManager.SaveLoadRoundTrip | src/hooks/useRowManager.ts:31-55 | loading what was saved gives the same rows when no colour is empty |
| RowManager.InitialRowsRoundTrip | src/hooks/useRowManager.ts:46-60 | a saved list of 5 to 9 rows is the next initial list |
| RowManager.NextRowId | src/hooks/useRowManager.ts:66-72 | the loop ends, with the first of row-1, row-2, … that no row has |
| RowManager.Pigeonhole | src/hooks/useRowManager.ts:69-72 | the loop cannot pass more ids than there are rows |
| RowManager.NextRowIdIsUnique | src/hooks/useRowManager.ts:66-72 | the chosen id is determined by the existing ids |
| RowManager.NewRow | src/hooks/useRowManager.ts:73-77 | the appended row has the fresh id, the name `行 n+1` for a list of n rows, and a palette colour |
| RowManager.FirstAddedRowId | src/hooks/useRowManager.ts:66-72 | the first row added to the defaults is `row-1` |
| RowManager.AddKeepsSound | src/hooks/useRowManager.ts:62-80 | appending with a fresh id keeps ids distinct and the count within 5..9 |
| RowManager.RowsWithout | src/hooks/useRowManager.ts:85 | the filter keeps exactly the rows with other ids |
| RowManager.RowsWithoutUnique | src/hooks/useRowManager.ts:85 | with distinct ids, the filter drops exactly one row when the id is present |
| RowManager.Removed | src/hooks/useRowManager.ts:83-87 | at `MIN_ROWS` rows or fewer nothing changes; above it, exactly the rows with other ids remain; the list never grows |
| RowManager.RemoveKeepsSound | src/hooks/useRowManager.ts:82-89 | removing an absent id changes nothing; removal keeps distinct ids and 5..9 rows |
| RowManager.RemoveWithDuplicatesGoesBelowMin | src/hooks/useRowManager.ts:84-85 | with a duplicated id, six rows can drop to four |
| RowManager.Relabelled | src/hooks/useRowManager.ts:91-93 | only the names of rows with that id change; ids, order and length stay |
| RowManager.Recolored | src/hooks/useRowManager.ts:95-97 | only the colours of rows with that id change; ids, order and length stay |
| RowManager.RowLabel | src/hooks/useRowManager.ts:104-107 | an unknown id gives `""`; otherwise the name of a row with that id |
| RowManager.RowLabelIsFirst | src/hooks/useRowManager.ts:105 | the lookup gives the first matching row's name |
| RowManager.RelabelThenLookup | src/hooks/useRowManager.ts:91-107 | after a rename the lookup gives the new name; other ids look up as before |
| RowManager.UpdatesKeepSound | src/hooks/useRowManager.ts:91-97 | renaming and recolouring keep distinct ids and the row count |
| RowManager.Rows.constructor | src/hooks/useRowManager.ts:46-50 | the hook starts from `InitialRows`, at least five rows |
| RowManager.Rows.AddRow | src/hooks/useRowManager.ts:62-80 | at nine rows nothing changes; otherwise one row is appended (first free id, name `行 {n+1}`, palette colour at `n`) and earlier rows are unchanged |
| RowManager.Rows.RemoveRow | src/hooks/useRowManager.ts:82-89 | at five rows or fewer nothing changes; otherwise every row with the id goes, and the others stay in order |
| RowManager.Rows.UpdateRowLabel | src/hooks/useRowManager.ts:91-93 | the rows become `Relabelled` of the old ones, and a sound list stays sound |
| RowManager.Rows.UpdateRowColor | src/hooks/useRowManager.ts:95-97 | the rows become `Recolored` of the old ones, and a sound list stays sound |
| RowManager.Rows.ResetRows | src/hooks/useRowManager.ts:99-102 | the rows become the defaults |

## Left out

- Storage: `localStorage`, `JSON.parse`/`JSON.stringify`, `console.error` and the `useEffect` save hooks are I/O.
  - A load is modelled as already-parsed input. In `RowManager.InitialRows`, `None` stands for nothing stored,
    unparsable text or a non-array, all of which src/hooks/useRowManager.ts:27-30 turns into `null`.
  - In the label hooks, `None` stands for nothing stored, unparsable text, or a stored value without a positive
    `length` (src/hooks/useTierLabels.ts:28-41).
  - A save is modelled as the list it writes (`ToSaved`, `ToSavedRows`), used only to state round trips.
- LabelRegistry.Merged: some saved values make the label hooks throw, and the model does not capture this.
  src/hooks/useTierLabels.ts:41-43 and src/hooks/usePositionLabels.ts:34-36 check only `savedLabels.length > 0`
  before calling `.map`. So a saved JSON string such as `"abc"`, or an object with a positive `length`, throws a
  `TypeError` in the `useState` initializer. An array holding `null` throws at `label.id`. The model's input
  type cannot express these values, so it has no such throw.
- Saved values of other JSON types: a truthy non-string label name is passed through by the source, but here
  a saved name is a string or missing. A non-string saved label id is modelled as a string that is not a default id.
- React: `useState`, `useCallback`, `useMemo` and re-rendering are left out. Each hook's state is one object whose
  updaters run one at a time.
- The catalog (`pokemonList` in src/data/pokemon.ts) and `ROW_COLOR_PALETTE` are parameters. The palette must be
  non-empty; src/constants/rowColors is not part of this model.
- `targetIndexInTier`: modelled as an integer. Non-integer or `NaN` indices, which `splice` converts to
  integers, are not modelled.
- Targets outside the six keys: when the dragged pokemon has a record, `newTiersState[target]` is `undefined`, and the
  source throws a `TypeError`. This case is the precondition `CanMove` rather than an error result.
- Copies and aliasing: the source copies every record and mutates the copies. The model works on values, so no
  aliasing is represented.
- `Board.Valid`: it keeps the set of pokemon and the list's shape, but not one record per pokemon. With a catalog of
  distinct ids, the initial list has one record per pokemon, and `MoveKeepsIds` shows moves keep that.
- `Rows.Valid`: it keeps `|palette| > 0` and at most nine rows. Distinct ids and at least five rows (`Sound`) are
  only preserved, because loaded data may repeat an id. With a repeated id, `removeRow` can leave fewer than five
  rows (`RemoveWithDuplicatesGoesBelowMin`).
- The `TIERS` of src/hooks/useTierManagement.ts still lists D, while the tier labels (`TierId`) stop at C. Each
  file is modelled as written.
- The UI, the data service (network fetch, timeouts, cache clock), styles, the `row-tier` locations of the
  components, and the newer assignment API the tests call are not part of this model.
