# Selection area of Remere's Map Editor, modelled in Dafny

This project models `SelectionArea`, the selection layer of the map editor, in `source/selection.cpp`. It also models the sequential body of the `SelectionThread` worker.

**The membership vector.**
- A selection keeps a vector of pointers to live tiles and an erase iterator.
- `addInternal` appends a pointer and rewinds the iterator.
- `removeInternal` scans from the iterator, wrapping to the front, for the pointer. It removes it by swap-and-pop.

**Undo recording.**
- Every `add`/`remove` overload records a `Change` into the open action (`subsession`). The change carries a deep copy of the tile with the relevant selection flag set or cleared.
- `clear` either records a deselected copy of every member (inside a full session) or deselects and drops them.
- `start`, `commit` and `finish` open, fold and hand over the action and the batch (`session`) under the `INTERNAL` and `SUBTHREAD` flags.
- `join` adds a worker's action to the batch.

**The worker.**
- The worker records a whole-tile select for every listed position that holds a tile.
- For a box, it sweeps the floors from `start.z` to `end.z` with z falling, with x as the outer loop and y as the inner loop. Floor 0 is the highest, so the sweep runs from the deeper floor upwards.
- With compensated selection on, it moves the box one square diagonally after every floor at or above the ground floor.

**Files.**
- `tiles.dfy`: tile states, the live `Tile` object, changes, actions and batches. Copies are values.
- `membership.dfy`: the pure meaning of the erase scan (`ScanIndex`), of swap-and-pop (`RemovedAt`) and of where the cursor ends (`CursorAfter`), with their multiset lemmas.
- `sweep.dfy`: the positions a worker visits (`Range`, `Visits`) and the action it records (`Recorded`). The map is a partial function from positions to tiles. This file also holds the lemmas saying exactly which positions a sweep visits and in what order.
- `selection.dfy`: the classes `Editor`, `SelectionArea` and `SelectionThread`. Their methods update fields in place and are proved against the functions above.

Tile states are compared as values. Live tiles are objects compared by identity, as the source compares `Tile*`.

## Model

| member | source | states |
|---|---|---|
| Selection.SelectionArea.constructor | source/selection.cpp:29-36 | A new area is idle, empty, and has neither batch nor action. |
| Selection.SelectionArea.MinPosition | source/selection.cpp:44-57 | The result is component-wise at most the seed (0x10000, 0x10000, 0x10) and at most every member's position. Each component is either the seed's or some member's, so an empty selection yields the seed. |
| Selection.SelectionArea.MaxPosition | source/selection.cpp:59-72 | The result is component-wise at least (0, 0, 0) and at least every member's position. Each component is the seed's or some member's. |
| Selection.ItemSelectedCopy | source/selection.cpp:74-92 | The copy has item i selected and every other item unchanged. Its ground is selected exactly when it was already, or when the setting is on and the item is a border. |
| Selection.SelectionArea.AddItem | source/selection.cpp:74-92 | If the item is already selected, nothing is recorded. Otherwise exactly one change is appended: the ItemSelectedCopy of the tile. The live tile ends exactly as it started, and membership, batch and cursor are untouched. |
| Selection.SelectionArea.AddGround | source/selection.cpp:74-92 | add(tile, item) given the tile's ground: if the ground is already selected, nothing is recorded. Otherwise one change is appended holding the tile with its ground selected. The live tile is unchanged. |
| Tiles.WithGround | source/selection.cpp:74-92 | The copy differs from the tile only in the ground's flag. |
| Tiles.WithSpawn | source/selection.cpp:94-108 | The copy differs from the tile only in the spawn's flag. |
| Tiles.WithCreature | source/selection.cpp:110-124 | The copy differs from the tile only in the creature's flag. |
| Selection.SelectionArea.AddSpawn | source/selection.cpp:94-108 | If the spawn is already selected, nothing is recorded. Otherwise one change is appended holding the tile with its spawn selected. The live tile is unchanged. |
| Selection.SelectionArea.AddCreature | source/selection.cpp:110-124 | If the creature is already selected, nothing is recorded. Otherwise one change is appended holding the tile with its creature selected. The live tile is unchanged. |
| Selection.SelectionArea.AddTile | source/selection.cpp:126-135 | Always appends one change holding the whole tile selected, with no idempotence check. The live tile is unchanged. |
| Tiles.Selected | source/selection.cpp:126-135 | A selected copy describes the same tile with the same contents, and everything on it is selected. |
| Selection.ItemDeselectedCopy | source/selection.cpp:137-150 | The copy has item i deselected and every other item unchanged. Its ground is deselected when the setting is on and the item is a border, and keeps its flag otherwise. |
| Selection.ItemCopiesComplementary | source/selection.cpp:74-150 | The copies recorded by add and by remove of the same item differ only in that item's flag and in the ground flag. |
| Tiles.WithItem | source/selection.cpp:83-85 | The tile with item i's flag set to b. Every other item and every other field is unchanged. |
| Tiles.WithItemRestored | source/selection.cpp:83-85 | Setting an item's flag and then writing back its former value gives back the live tile unchanged. |
| Selection.SelectionArea.RemoveItem | source/selection.cpp:137-150 | Always appends exactly one change: the ItemDeselectedCopy. The live item's flag is restored to its prior value, and nothing else changes. |
| Selection.SelectionArea.RemoveGround | source/selection.cpp:137-150 | remove(tile, item) given the tile's ground: always appends one change holding the tile with its ground deselected. The live ground flag is restored. |
| Selection.SelectionArea.RemoveSpawn | source/selection.cpp:152-164 | Always appends one change holding the tile with its spawn deselected. The live spawn flag is restored. |
| Selection.SelectionArea.RemoveCreature | source/selection.cpp:166-178 | Always appends one change holding the tile with its creature deselected. The live creature flag is restored. |
| Selection.SelectionArea.RemoveTile | source/selection.cpp:180-188 | Always appends one change holding the whole tile deselected. The live tile is unchanged. |
| Tiles.Deselected | source/selection.cpp:180-188 | A deselected copy describes the same tile with the same contents, and nothing on it is selected. |
| Tiles.DeselectedTwice | source/selection.cpp:239-244 | Deselecting is idempotent. |
| Selection.SelectionArea.AddInternal | source/selection.cpp:190-196 | The pointer is appended with no duplicate check. The cursor becomes 0, nothing is recorded, and the cursor invariant is kept. |
| Membership.FirstFrom | source/selection.cpp:207-223 | The scan without wrap-around stops at the first slot at or after the cursor that holds t, or at the end. Every slot it passes differs from t. |
| Membership.ScanIndex | source/selection.cpp:207-223 | The wrapping scan stops at a slot holding t. Every slot it passes first, from the cursor to the end and then from the front, differs from t. |
| Membership.RemovedAt | source/selection.cpp:213-221 | Swap-and-pop shortens the vector by one. Slot k receives the last element, and every other slot is kept. |
| Membership.RemovedAtMultiset | source/selection.cpp:213-221 | Swap-and-pop removes exactly one occurrence of the element at slot k and keeps every other element as a multiset. |
| Membership.CursorAfter | source/selection.cpp:213-221 | Its contract keeps the cursor within the shorter vector, at either the front or the removed slot. Its definition picks 0 when slot k equals the back and k otherwise. |
| Selection.SelectionArea.RemoveInternal | source/selection.cpp:198-229 | On an empty vector nothing changes. Otherwise the vector becomes RemovedAt at the ScanIndex slot, and the cursor becomes CursorAfter. Exactly one occurrence of t is gone and the rest is kept as a multiset. The loop ends and never indexes out of range, and the cursor invariant is kept. |
| Membership.AddThenRemoveRestores | source/selection.cpp:190-229 | Adding a pointer (which rewinds the cursor) and then removing it gives back the members as a multiset. |
| Selection.Deselections | source/selection.cpp:233-238 | One change per member, in vector order, each the member deselected. |
| Selection.DeselectionsStep | source/selection.cpp:234-238 | Clearing one more member appends its deselected copy after the copies recorded so far. |
| Selection.SelectionArea.Clear | source/selection.cpp:231-245 | With a batch open: the members and the live tiles are unchanged, and the action gains the Deselections of the members in vector order. Without a batch, including in SUBTHREAD mode: every member is deselected in place, the vector is emptied, and nothing is recorded. |
| Selection.SelectionArea.RecordDeselections | source/selection.cpp:233-238 | The action gains exactly Deselections of the members' states. Nothing else changes. |
| Selection.SelectionArea.DeselectAll | source/selection.cpp:239-244 | Every former member's live state becomes its deselected state, and the vector is emptied. |
| Selection.SelectionArea.Start | source/selection.cpp:247-259 | Without INTERNAL it opens a fresh empty action, and also a fresh empty batch unless SUBTHREAD. The cursor becomes 0, busy becomes true, and the members are untouched. |
| Selection.SelectionArea.Commit | source/selection.cpp:261-277 | With a batch: the current action is appended to it and a fresh empty action is opened. Without one: only the cursor is rewound. The members are never touched. |
| Selection.SelectionArea.Finish | source/selection.cpp:279-301 | A full finish folds the action into the batch, appends the batch to the editor's queue, and closes both. SUBTHREAD closes the action without folding it. INTERNAL keeps both. In every case the cursor becomes 0, busy becomes false, and the members are untouched. |
| Selection.SelectionArea.Join | source/selection.cpp:316-325 | The worker's action is appended to this area's batch, and the worker's area lets go of its action. Everything else in both areas is unchanged. |
| Selection.Editor.constructor | source/selection.cpp:294 | The editor's batch queue starts empty; a full finish appends to it. |
| Selection.SelectionThread.ForRange | source/selection.cpp:327-337 | A range worker keeps its corners, has no list, has no result yet, and owns a fresh empty area. |
| Selection.SelectionThread.ForPositions | source/selection.cpp:339-349 | A list worker keeps its list, has no result yet, and owns a fresh empty area. |
| Selection.SelectionThread.Entry | source/selection.cpp:362-397 | The result is the action Recorded over the visited positions (Visits): the list, or the compensated range sweep. A range sweep leaves the corners moved by the total compensation. The worker's area ends idle with no action, and its members and batch are untouched. |
| Selection.SelectionThread.SelectList | source/selection.cpp:366-375 | The action holds one whole-tile select per listed position that holds a tile, in list order. Absent positions are skipped. The worker area's members, batch, cursor and busy flag are unchanged. |
| Selection.SelectionThread.SelectRange | source/selection.cpp:376-392 | The action is Recorded over Range from start.z to end.z inclusive, z falling. The corners end shifted by the Offset accumulated over the floors swept. The worker area's members, batch, cursor and busy flag are unchanged. |
| Selection.SelectionThread.SweepFloor | source/selection.cpp:377-391 | One pass of the floor loop extends the swept range by floor z and moves the corners exactly when z is at or above the ground floor with compensation on. The worker area's members, batch, cursor and busy flag are unchanged. |
| Selection.SelectionThread.SelectFloor | source/selection.cpp:378-386 | The action gains Recorded over the floor's box, with x outer and y inner. The worker area's members, batch, cursor and busy flag are unchanged. |
| Selection.SelectionThread.SelectColumn | source/selection.cpp:379-385 | The action gains Recorded over one column of increasing y. The worker area's members, batch, cursor and busy flag are unchanged. |
| Sweep.VisitsFloors | source/selection.cpp:366-391 | A list worker visits exactly its list. Every position a range worker visits lies between floors end.z and start.z, inside the box as moved by the floors swept before it. |
| Sweep.Offset | source/selection.cpp:377-391 | With compensation off, the box never moves. |
| Sweep.OffsetStep | source/selection.cpp:387-390 | Sweeping floor z adds one to the box's offset exactly when z is at or above the ground floor and compensation is on. |
| Sweep.RangeContains | source/selection.cpp:377-391 | A position is visited if and only if its floor lies between end.z and start.z and it lies in the box as moved by the floors swept before its own. |
| Sweep.RangeOrdered | source/selection.cpp:377-391 | Visits are strictly ordered: larger z (deeper floors) first, then increasing x, then increasing y. So each position is visited at most once. |
| Sweep.RangeSnoc | source/selection.cpp:377-391 | Sweeping from zStart to floor z is sweeping from zStart to z + 1 and then floor z, in the box moved by the offset reached at z. |
| Sweep.RecordedAppend | source/selection.cpp:366-391 | Recording two visit sequences in a row gives the concatenation of their actions. |
| Sweep.RecordedAllPresent | source/selection.cpp:366-391 | When every visited position holds a tile, the action has exactly one change per visit, in visit order, each the tile selected. |
| Sweep.RecordedSelected | source/selection.cpp:366-391 | The action never has more changes than visits, and every change is a selected copy of some visited tile. |
| Sweep.RecordedComplete | source/selection.cpp:366-391 | Every visited position that holds a tile contributes its selected copy to the action. With RecordedSelected, a change is in the action if and only if it is the selected copy of a visited tile. |
| Sweep.RecordedAllAbsent | source/selection.cpp:370-371 | Visiting only positions without a tile records nothing. |

## Left out

- Thread plumbing is not modelled: `Execute`, `Create`, `Run`, `Wait`, the blocking in `join`, `delete thread` and the destructors. `Entry` runs as an ordinary method on the worker's own area.
- `updateSelectionCount` is not modelled. It only writes status text to the GUI.
- The settings BORDER_IS_GROUND and COMPENSATED_SELECT are boolean parameters (`borderIsGround`, `compensated`).
- `Tile::deepCopy`, `select`, `deselect`, `selectGround` and `Map::getTile` are defined outside `source/selection.cpp`. They are modelled abstractly:
  - A deep copy is the tile's state as a value.
  - `select`/`deselect` set every flag on the copy.
  - `selectGround`/`deselectGround` set the ground flag.
  - The map is a partial function from positions to live tiles.
- `GROUND_LAYER` is defined outside this file and is taken to be 7.
- `createBatch`/`createAction` yield empty sequences. `addAndCommitAction`, `addAction` and `addBatch` append to sequences. The applying of an action to the map and the priority argument of `addBatch` are not modelled.
- Selection.SelectionArea.Commit: in the editor, applying the folded action calls back into this selection, which is why the source detaches `session` before folding. Here the fold is a plain append, so that call-back is not modelled. "The members are never touched" holds under this abstraction.
- Selection.SelectionArea.Finish: the same applies to the fold before the batch is handed to the editor. The call-back is not modelled, and the unchanged members and busy flag hold under this abstraction.
- A tile always has a ground flag. A tile without ground is not distinguished; `AddGround`/`RemoveGround` model `add`/`remove` given the ground item, whose border rule adds nothing because it only sets the ground flag again.
- Position coordinates are unbounded integers. The editor's narrow coordinate types are not modelled.
- The `__DEBUG_MODE__` assertions and `ASSERT`s become preconditions, and iterator invalidation is not modelled. The erase iterator is an index, valid while the vector is non-empty.
- Selection.SelectionArea.RemoveInternal: requires t to be a member whenever the vector is non-empty. On a missing tile the source's scan never ends. The debug assertion at line 226 compares the iterator with its starting value after each increment, so it fires only when the scan starts past slot 0. A scan from slot 0 is never caught, and that is the state after addInternal, start, commit, finish and a pop of the back. The model does not make the missing-tile case a no-op.
- Selection.SelectionArea.AddItem: the early return tests the live item's flag, and add itself puts that flag back to false. So a second add of the same item records a second change, until something outside this file marks the live item selected. Two adds in a row are not idempotent.
- Selection.SelectionArea.AddGround: likewise, a second add of the ground records a second change, because the live ground flag is put back to false.
- Selection.SelectionArea.AddSpawn: likewise, a second add of the spawn records a second change, because the live spawn flag is put back to false.
- Selection.SelectionArea.AddCreature: likewise, a second add of the creature records a second change, because the live creature flag is put back to false.
- Selection.SelectionArea.Join: requires the worker to have a result and to own an area distinct from this one. The source appends whatever `result` holds, a null pointer included.
