# Cell storage layer of the xlsx spreadsheet library, in Dafny

This project models the pluggable cell-storage layer of the Go `xlsx` library:

- **The storage contract** every backend implements: ReadCell, WriteCell, DeleteCell, ForEachInRow and Close. It comes with its distinguished `CellNotFoundError`.
- **The row adapter**, which derives cell keys of the form `sheet:%06d:%06d` and row prefixes of the form `sheet:%06d`. It hands out cells through `AddCell` and `GetCell`, keeps the growth-only `cellCount` counter, and traverses a row with `ForEachCell`.
- **The in-memory backend** `MemoryCellStore`. It keeps a flat map from key to cell and a map from row prefix to that row's cells. Row traversal collects the group's keys into a slice sized by `cellCount`, sorts it, and visits the cells in order until a visitor fails.

Modules:

- `Wrappers`: the Option and Result types.
- `Lex`: the lexicographic string order and the insertion sort that stands in for `sort.Strings`.
- `Keys`:
  - `%06d` padding and its parser;
  - `strings.Split` and `strings.Join` on `:`;
  - the cell-key codec, with its round trip, its injectivity and its ordering lemma.
- `CellStore`: the not-found error and the contract of the interface, as predicates over the backend's map from key to persisted cell.
- `Memory`: the backend's two maps as a value, with one transition function per operation and the lemmas about them.
- `Xlsx`: the objects themselves, as classes.
  - Cells are shared references.
  - `GetCell` and `ForEachCell` re-attach the very cell object the store holds.
  - WriteCell, ReadCell and DeleteCell are each specified by the `Memory` transition they perform.
  - Close sets a ghost `closed` flag. Every other operation requires the flag to be false.
  - Row traversal is specified by a function of the sorted slice (`Walk`), and a separate lemma proves what that function visits.

Where the in-memory backend does more than the interface comments promise, the model follows the backend:

- **DeleteCell.** The interface promises only that the cell stored under the key is removed (cellstore.go:25-26). It also promises that a row traversal visits the persisted cells of the row (cellstore.go:27-32). The in-memory backend goes further than removing the key: it drops the key's whole row group (memory.go:56). The model does the same, and `Memory.DeleteHidesSiblings` states the effect: the other cells of that row stay readable but no longer appear in the row's traversal.
- **GetCell.** The code panics when ReadCell fails with anything other than not-found. The model returns that error as `Err`. The in-memory backend never produces such an error.

## Model

| member | source | states |
|---|---|---|
| CellStore.NewCellNotFoundError | cellstore.go:57-61 | the error records exactly the key and the reason it was given |
| CellStore.Quote | cellstore.go:65 | `%q` wraps the key in quotes: two characters longer, with the key between them |
| CellStore.Message | cellstore.go:63-66 | the message starts with "Cell ", carries the key right after the opening quote, ends with the reason, and is 19 characters longer than key and reason together |
| CellStore.MessageNamesKey | cellstore.go:63-66 | two not-found errors with the same reason and the same message name the same key |
| CellStore.WriteThenRead | cellstore.go:16-24 | for any backend keeping the contract, a cell written and then read by its own key comes back |
| CellStore.WriteTwice | cellstore.go:16-24 | under the contract, writing the same cell twice leaves what writing it once leaves |
| CellStore.DeleteThenRead | cellstore.go:25-26 | under the contract, a deleted key reads as not found and every other persisted key reads as before |
| Keys.Pad6 | row.go:37-39 | `%06d` output has no ':'; it is a minus sign and digits worth -n for negative n, at least six digits worth n otherwise, and exactly six characters for 0 <= n < 10^6 |
| Keys.Pad6Parses | row.go:37-39 | parsing the padded numeral gives back every integer, negative ones included |
| Keys.SplitCellKey | row.go:37-39 | splitting a cell key on ':' gives the fields of the sheet name followed by the padded row and the padded column |
| Keys.CellKeyParses | row.go:37-39 | every cell key reads back to exactly the sheet, row and column it was built from, whatever the sheet name |
| Keys.CellKeyInjective | row.go:37-39 | two coordinates have the same key exactly when they are equal, so distinct columns of a row never share a key |
| Keys.PadOrder | row.go:38 | for 0 <= a, b < 10^6 the padded fields sort lexicographically exactly as the numbers do |
| Keys.CellKeyOrder | row.go:37-39 | within one row and for columns below 10^6, key order is column order in both directions |
| Xlsx.Row.MakeCellKey | row.go:37-39 | a cell key extends the row prefix followed by ':'; `Keys.CellKeyParses` shows that it reads back to the sheet, row and column |
| Xlsx.Row.MakeCellKeyRowPrefix | row.go:41-43 | the row prefix is the sheet name and ':', followed by a field that reads back to the row number |
| Keys.Split | memory.go:90 | `strings.Split` yields at least one field, no field contains ':', and there is a single field exactly when the string has no ':' |
| Keys.JoinSplit | memory.go:90 | joining the split fields with ':' gives back the string |
| Keys.SplitField | memory.go:90 | appending ':' and a ':'-free field appends exactly that field to the split |
| Lex.Sort | memory.go:73 | the slice ends sorted in lexicographic order and is a permutation of the slice it started as |
| Memory.Empty | memory.go:15-22 | the new store has no row groups and every read fails |
| Memory.Write | memory.go:29-41 | the flat map gains the cell under its key, as the contract demands; the row group gains it too; every other row group is unchanged |
| Memory.Read | memory.go:43-51 | the read meets the contract, and a miss is the not-found error with that key and the reason "No such cell" |
| Memory.Delete | memory.go:53-58 | the key leaves the flat map, as the contract demands; the key's whole row group is emptied; every other group is unchanged |
| Memory.WriteThenRead | memory.go:29-51 | a written cell reads back under its key, and every other key reads as before |
| Memory.WriteIdempotent | memory.go:29-41 | writing the same cell twice leaves the same two maps as writing it once |
| Memory.DeleteHidesSiblings | memory.go:53-58 | after a delete, another cell of the same row still reads back but is gone from the row's group, and the deleted key reads as not found |
| Memory.KeyToRowKey | memory.go:88-92 | for a key with ':', the row key is a prefix of the key and splits into exactly the key's first two fields; `Memory.KeyToRowKeyOfCellKey` shows that it is the row prefix of a cell key |
| Memory.KeyToRowKeyOfCellKey | memory.go:88-92 | for a sheet name without ':', keyToRowKey of a cell key is that row's prefix |
| Memory.KeyToRowKeyColonSheet | memory.go:88-92 | for a sheet name with one ':', keyToRowKey of a cell key is the sheet name and not the row prefix |
| Memory.GroupedIteratesPersisted | cellstore.go:27-32 | in a store whose groups agree with its flat map, every cell a row group holds is one ReadCell returns |
| Memory.WriteKeepsGrouped | memory.go:29-41 | a write under a key whose keyToRowKey is the group's prefix keeps the groups in agreement with the flat map |
| Memory.WriteCellKeepsGrouped | memory.go:29-41 | writing the cell of a sheet whose name has no ':' keeps the groups in agreement with the flat map |
| Memory.DeleteKeepsGrouped | memory.go:53-58 | a delete keeps the groups in agreement with the flat map |
| Memory.CollectKeys | memory.go:62-72 | the slice has cellCount slots; it holds exactly the group's keys, each once, and "" in every other slot |
| Memory.SortedKeys | memory.go:62-73 | after sorting, the slice is in lexicographic order, still holds exactly the group's keys, and each key occurs once |
| Xlsx.Cell.constructor | row.go:32 | a new cell points back at its row, has the given column and the zero value |
| Xlsx.Row.constructor | row.go:7-16 | a new row has the given sheet and number, and every other field at its zero value |
| Xlsx.Row.SetHeight | row.go:18-22 | records the height and marks the row customised; only those two fields may change |
| Xlsx.Row.AddCell | row.go:30-35 | returns a new cell of this row whose column is the old count, and raises the count by exactly one |
| Xlsx.Row.GetCell | row.go:45-66 | the store is unchanged and the count never falls. A stored cell is returned itself, re-attached to this row, with its value and the count unchanged; when it was stored under its own key, its column is colIdx. Otherwise a new empty cell for colIdx is returned and the count becomes max(count, colIdx + 1) |
| Xlsx.Visit | row.go:71-74 | calling a visitor returns its error for the cell and moves the cell's back-reference where the visitor sends it |
| Xlsx.Row.ForEachCell | row.go:68-77 | visits the row's group in ascending key order and stops at the first error, which it returns. Every visited cell ends up pointing at this row, or wherever the inner visitor sends it. Unvisited cells and all values are unchanged |
| Xlsx.MemoryCellStore.constructor | memory.go:15-22 | both maps empty, the store open |
| Xlsx.MemoryCellStore.NewMemoryCellStore | memory.go:15-22 | a fresh, open, empty store and a nil error |
| Xlsx.MemoryCellStore.Close | memory.go:24-27 | returns nil and marks the store closed; every other operation requires an open store |
| Xlsx.MemoryCellStore.WriteCell | memory.go:29-41 | returns nil, and the two maps become `Memory.Write` of the old maps with the cell's row prefix and key |
| Xlsx.MemoryCellStore.ReadCell | memory.go:43-51 | returns `Memory.Read` of the maps: the stored cell, or the not-found error naming the key |
| Xlsx.MemoryCellStore.DeleteCell | memory.go:53-58 | returns nil even for an absent key, and the two maps become `Memory.Delete` of the old maps |
| Xlsx.MemoryCellStore.ForEachInRow | memory.go:60-86 | visits each cell of the row group once, in strictly ascending key order, and visits nothing outside the group. The first visitor error stops the traversal and is returned; otherwise every cell is visited and the result is nil. Only the back-references of visited cells change |
| Xlsx.VisitSorted | memory.go:74-85 | the loop's visited keys and result are those of `Walk` on the slice and on the cells' views at entry; visited cells are retargeted and all others untouched |
| Xlsx.WalkInOrder | memory.go:73-85 | on a sorted slice holding each group key once plus "" padding, the walk visits group keys in strictly ascending order, all of them unless a visitor fails, and stops at the first failure |
| Xlsx.VisitedUnique | memory.go:68-73 | two traversals of the same group with the same visitor visited the same keys in the same order and returned the same result, so Go's map order never shows in the traversal |

## Left out

- The disk-backed store, its key-value engine and its directory handling are not part of this model. The only backend is `MemoryCellStore`.
- `Sheet` is a stand-in holding only the name and the cell store a row uses. sheet.go, cell.go and file.go are not part of this model.
- `Cell.key()` lives in cell.go. It is modelled as `row.MakeCellKey(num)`.
- `SetHeightCM` is left out: it is a floating-point unit conversion. `Height` is a `real` that is only stored.
- The reflection-based row marshalling of read_test.go is left out.
- `CellStore.Quote` does not model Go's `%q` escaping of quotes, backslashes and unprintable characters.
- Go's unspecified map iteration order is modelled as an arbitrary choice in `Memory.CollectKeys`. The sort makes the traversal independent of it, as `Xlsx.VisitedUnique` states.
- The Go visitor type is a closure that may read and change anything. A visitor here is one of two things: a function of the visited cell's column and stored value (`CellView`), or the re-attaching wrapper that `ForEachCell` builds. Not modelled are visitors that:
  - read the cell's row, its formatted value or other cells;
  - change anything other than the back-reference.
  Formatting lives in cell.go, which is not part of this model. So the visitors of read_test.go, which format the cell with `String()`, are not captured.
- Visitor and medium errors other than not-found are one opaque `Failure` value, carried unchanged.
- Concurrency is left out. The layer has no locking.
- `Close` releases nothing in the memory backend. The closed flag is ghost state, which the other operations require to be false.
- Xlsx.MemoryCellStore.ForEachInRow: requires the row group to have at most `cellCount` keys. Go writes past the end of the slice and panics otherwise. A cell written at a negative column, or from a row whose count was never raised, can cause this.
- Xlsx.Row.ForEachCell: requires the same bound, since it only delegates.
- Xlsx.MemoryCellStore.DeleteCell: requires the key to contain ':'. Go's keyToRowKey indexes the second field and panics otherwise. `Memory.KeyToRowKey` and `Memory.Delete` share this precondition.
- Xlsx.Row.GetCell: `cellCount` is an unbounded `nat`. Go's `int` is 64 bits, so `colIdx + 1` wraps to the smallest int when colIdx is the largest. The wrap-around is not modelled. "The count never falls" and "the count becomes max(count, colIdx + 1)" hold only without it.
- Xlsx.Row.AddCell: Go's `cellCount++` wraps at the largest 64-bit int. The model adds one without wrapping, so "raises the count by exactly one" holds only below that bound.
- Xlsx.Row.GetCell: the panic on a read error other than not-found is returned as `Err`. A stored cell's column is stated to be colIdx only when the cell is stored under its own key. Only WriteCell puts cells in the map, and it always uses the cell's own key.
- Memory.WriteCellKeepsGrouped: the groups agree with the flat map only for sheet names without ':'. `Memory.KeyToRowKeyColonSheet` shows how this fails for a name with ':'. The store's methods therefore keep only the weaker invariant `Valid`, which says no group holds the empty key.
