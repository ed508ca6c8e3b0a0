/**
 * The objects of the storage layer: cells, the rows that derive their keys,
 * the sheet that owns a row's cell store, and the in-memory backend. Cells
 * are shared references: a backend hands out the very object it holds, and
 * the row layer re-attaches its back-reference in place.
 */
module Xlsx {
  import opened Wrappers
  import opened CellStore
  import Keys
  import Lex
  import Memory

  /** A cell as the storage layer sees it: a back-reference to its row, its column and its value. */
  class Cell {
    var row: Row
    const num: int
    var value: string

    /** newCell: a cell of `row` at column `num`, with the zero value. */
    constructor (row: Row, num: int)
      ensures this.row == row && this.num == num && value == ""
    {
      this.row := row;
      this.num := num;
      value := "";
    }

    /** key(): the key of column `num` in the row the cell currently points back to. */
    function Key(): string
      reads this
    {
      row.MakeCellKey(num)
    }

    /** What a visitor reads of the cell: its column and its stored value. */
    function View(): CellView
      reads this`value
    {
      CellView(num, value)
    }
  }

  /** The column and value of a cell, as a visitor function sees them. */
  datatype CellView = CellView(num: int, value: string)

  /** The views of a row group's cells, under the same keys. */
  ghost function Views(group: map<string, Cell>): (views: map<string, CellView>)
    reads group.Values`value
    ensures views.Keys == group.Keys
  {
    map k | k in group :: group[k].View()
  }

  /** What a row uses of its sheet: the name and the cell store. */
  class Sheet {
    const name: string
    const cellStore: MemoryCellStore

    constructor (name: string, cellStore: MemoryCellStore)
      ensures this.name == name && this.cellStore == cellStore
    {
      this.name := name;
      this.cellStore := cellStore;
    }
  }

  /** The cells a traversal reached. */
  ghost function CellsOf(group: map<string, Cell>, visited: seq<string>): set<Cell> {
    set i | 0 <= i < |visited| && visited[i] in group :: group[visited[i]]
  }

  /** Reaching one more key reaches the cell stored under it. */
  lemma CellsOfSnoc(group: map<string, Cell>, visited: seq<string>, k: string)
    requires k in group
    ensures CellsOf(group, visited + [k]) == CellsOf(group, visited) + {group[k]}
  {
    var v := visited + [k];
    assert v[|visited|] == k;
    forall c | c in CellsOf(group, v)
      ensures c in CellsOf(group, visited) + {group[k]}
    {
      var i :| 0 <= i < |v| && v[i] in group && c == group[v[i]];
      if i < |visited| {
        assert v[i] == visited[i];
      }
    }
    forall c | c in CellsOf(group, visited)
      ensures c in CellsOf(group, v)
    {
      var i :| 0 <= i < |visited| && visited[i] in group && c == group[visited[i]];
      assert v[i] == visited[i];
    }
  }

  /**
   * A visitor function passed to ForEachInRow, as data: a function of the
   * visited cell's column and value, or the closure ForEachCell builds,
   * which points the cell back at a row and then calls the visitor it wraps.
   */
  datatype Visitor = Plain(f: CellView -> Option<Error>) | Reattach(target: Row, inner: Visitor) {
    /** The error the visitor returns for a cell with view `c`; `None` is Go's nil. */
    function Outcome(c: CellView): Option<Error> {
      match this
      case Plain(f) => f(c)
      case Reattach(_, inner) => inner.Outcome(c)
    }

    /** The row a visited cell points back to afterwards, given the one before. */
    function Retarget(before: Row): Row {
      match this
      case Plain(_) => before
      case Reattach(r, inner) => inner.Retarget(r)
    }
  }

  /** Visiting a cell twice has the effect of visiting it once. */
  lemma RetargetIdempotent(v: Visitor, r: Row)
    ensures v.Retarget(v.Retarget(r)) == v.Retarget(r)
  {
  }

  /** Calls the visitor on `c`. */
  method Visit(v: Visitor, c: Cell) returns (err: Option<Error>)
    modifies c`row
    ensures err == v.Outcome(c.View())
    ensures c.row == v.Retarget(old(c.row))
    decreases v
  {
    match v
    case Plain(f) =>
      err := f(c.View());
    case Reattach(r, inner) =>
      c.row := r;
      err := Visit(inner, c);
  }

  /**
   * The rows of `all` while a traversal runs: the cells visited so far,
   * `touched`, point where the visitor sends them, the others still where
   * they pointed `before`.
   */
  ghost predicate Tracked(all: set<Cell>, v: Visitor, touched: set<Cell>, before: map<Cell, Row>)
    reads all
  {
    && touched <= all && all <= before.Keys
    && (forall x | x in touched :: x.row == v.Retarget(before[x]))
    && (forall x | x in all - touched :: x.row == before[x])
  }

  /** Visits `c`, one of `all`, keeping the rows tracked. */
  method VisitTracked(v: Visitor, c: Cell, ghost all: set<Cell>, ghost touched: set<Cell>, ghost before: map<Cell, Row>)
    returns (err: Option<Error>)
    requires c in all && Tracked(all, v, touched, before)
    modifies c`row
    ensures err == v.Outcome(c.View())
    ensures Tracked(all, v, touched + {c}, before)
  {
    RetargetIdempotent(v, before[c]);
    err := Visit(v, c);
  }

  /**
   * The visits of one row traversal: keys of the group in strictly
   * ascending order, each visited once; all of them when no visitor
   * failed, otherwise those up to and including the first cell whose
   * visitor failed, whose error is the result.
   */
  ghost predicate VisitedInOrder(group: map<string, CellView>, v: Visitor, visited: seq<string>, err: Option<Error>) {
    && Lex.StrictlyIncreasing(visited)
    && (forall i | 0 <= i < |visited| :: visited[i] in group)
    && (forall i | 0 <= i < |visited| - 1 :: v.Outcome(group[visited[i]]) == None)
    && if err == None then
         && (forall k | k in group :: k in visited)
         && (visited != [] ==> v.Outcome(group[visited[|visited| - 1]]) == None)
       else
         && visited != []
         && err == v.Outcome(group[visited[|visited| - 1]])
         && (forall k | k in group && k !in visited :: Lex.Less(visited[|visited| - 1], k))
  }

  /**
   * A traversal is determined by the group and the visitor: two traversals
   * that visit in order return the same error and visited the same keys, so
   * the order Go's map yields the keys in never shows.
   */
  lemma VisitedUnique(group: map<string, CellView>, v: Visitor, a: seq<string>, errA: Option<Error>, b: seq<string>, errB: Option<Error>)
    requires VisitedInOrder(group, v, a, errA) && VisitedInOrder(group, v, b, errB)
    ensures a == b && errA == errB
  {
    if errA != None && errB == None {
      FailedNotInComplete(group, v, a, errA, b);
    } else if errA == None && errB != None {
      FailedNotInComplete(group, v, b, errB, a);
    } else {
      if errA != None {
        StopNotLater(group, v, a, errA, b, errB);
        StopNotLater(group, v, b, errB, a, errA);
        Lex.Trichotomy(a[|a| - 1], b[|b| - 1]);
      }
      CoveredBy(group, v, a, b, errA);
      CoveredBy(group, v, b, a, errA);
      Lex.IncreasingUnique(a, b);
    }
  }

  /** A traversal that failed and one that completed cannot both visit in order. */
  lemma FailedNotInComplete(group: map<string, CellView>, v: Visitor, a: seq<string>, errA: Option<Error>, b: seq<string>)
    requires errA != None && VisitedInOrder(group, v, a, errA)
    ensures !VisitedInOrder(group, v, b, None)
  {
  }

  /** Of two failed traversals, neither stops at a later key than the other. */
  lemma StopNotLater(group: map<string, CellView>, v: Visitor, a: seq<string>, errA: Option<Error>, b: seq<string>, errB: Option<Error>)
    requires errA != None && VisitedInOrder(group, v, a, errA)
    requires errB != None && VisitedInOrder(group, v, b, errB)
    ensures !Lex.Less(b[|b| - 1], a[|a| - 1])
  {
    var ka, kb := a[|a| - 1], b[|b| - 1];
    if Lex.Less(kb, ka) {
      Lex.Asymmetric(kb, ka);
      Lex.Irreflexive(ka);
      assert kb in a;
      var i :| 0 <= i < |a| && a[i] == kb;
    }
  }

  /** Every key one traversal visited, another with the same result and the same last key visited too. */
  lemma CoveredBy(group: map<string, CellView>, v: Visitor, a: seq<string>, b: seq<string>, err: Option<Error>)
    requires VisitedInOrder(group, v, a, err) && VisitedInOrder(group, v, b, err)
    requires err != None ==> a[|a| - 1] == b[|b| - 1]
    ensures forall x | x in a :: x in b
  {
    forall x | x in a
      ensures x in b
    {
      var i :| 0 <= i < |a| && a[i] == x;
      if err != None && x !in b {
        Lex.Irreflexive(x);
        Lex.Asymmetric(x, a[|a| - 1]);
      }
    }
  }

  /** A row of a sheet: formatting attributes, its number and the monotone count of columns addressed. */
  class Row {
    var hidden: bool
    const sheet: Sheet
    var height: real
    var outlineLevel: bv8
    var isCustom: bool
    const num: int
    var cellCount: nat

    constructor (sheet: Sheet, num: int)
      ensures this.sheet == sheet && this.num == num && cellCount == 0
      ensures !hidden && height == 0.0 && outlineLevel == 0 && !isCustom
    {
      this.sheet := sheet;
      this.num := num;
      hidden, height, outlineLevel, isCustom, cellCount := false, 0.0, 0, false, 0;
    }

    /** SetHeight: records the height and marks the row as customised, nothing else. */
    method SetHeight(ht: real)
      modifies this`height, this`isCustom
      ensures height == ht && isCustom
    {
      height := ht;
      isCustom := true;
    }

    /** AddCell: a new cell at the next column; the count grows by one. */
    method AddCell() returns (cell: Cell)
      modifies this`cellCount
      ensures fresh(cell) && cell.row == this && cell.num == old(cellCount) && cell.value == ""
      ensures cellCount == old(cellCount) + 1
    {
      cell := new Cell(this, cellCount);
      cellCount := cellCount + 1;
    }

    /** makeCellKey: the key of column `colIdx` of this row. */
    function MakeCellKey(colIdx: int): (k: string)
      ensures MakeCellKeyRowPrefix() + ":" <= k
    {
      Keys.CellKey(sheet.name, num, colIdx)
    }

    /** makeCellKeyRowPrefix: the prefix every key of this row starts with. */
    function MakeCellKeyRowPrefix(): (p: string)
      ensures sheet.name + ":" <= p
      ensures Keys.ParseInt(p[|sheet.name| + 1..]) == Some(num)
    {
      var p := Keys.RowPrefix(sheet.name, num);
      assert p[|sheet.name| + 1..] == Keys.Pad6(num);
      Keys.Pad6Parses(num);
      p
    }

    /**
     * GetCell: the stored cell of column `colIdx`, pointed back at this row,
     * or else a fresh unsaved cell for that column, raising the count to
     * cover it. A read failure other than not-found aborts (Go panics).
     */
    method GetCell(colIdx: int) returns (r: Result<Cell, Error>)
      requires !sheet.cellStore.closed
      modifies this`cellCount, sheet.cellStore.Holding(MakeCellKey(colIdx))
      ensures sheet.cellStore.State() == old(sheet.cellStore.State())
      ensures cellCount >= old(cellCount)
      ensures MakeCellKey(colIdx) in old(sheet.cellStore.cells) ==>
        && r == Ok(old(sheet.cellStore.cells[MakeCellKey(colIdx)]))
        && r.value.row == this
        && r.value.value == old(r.value.value)
        && cellCount == old(cellCount)
      ensures MakeCellKey(colIdx) in old(sheet.cellStore.cells) && old(sheet.cellStore.cells[MakeCellKey(colIdx)].Key()) == MakeCellKey(colIdx) ==>
        r.Ok? && r.value.num == colIdx && r.value.Key() == MakeCellKey(colIdx)
      ensures MakeCellKey(colIdx) !in old(sheet.cellStore.cells) ==>
        && r.Ok? && fresh(r.value)
        && r.value.row == this && r.value.num == colIdx && r.value.value == ""
        && cellCount == if colIdx >= old(cellCount) then colIdx + 1 else old(cellCount)
    {
      var key := MakeCellKey(colIdx);
      var res := sheet.cellStore.ReadCell(key);
      match res {
        case Err(e) =>
          if !e.NotFound? {
            return Err(e);
          }
        case Ok(_) =>
      }
      if res.Ok? {
        var cell := res.value;
        ghost var before := cell.row;
        cell.row := this;
        if Keys.CellKey(before.sheet.name, before.num, cell.num) == key {
          Keys.CellKeyInjective(Keys.Coords(before.sheet.name, before.num, cell.num), Keys.Coords(sheet.name, num, colIdx));
        }
        return Ok(cell);
      }
      var cell := new Cell(this, colIdx);
      if colIdx >= cellCount {
        cellCount := colIdx + 1;
      }
      return Ok(cell);
    }

    /**
     * ForEachCell: the store's row traversal with a visitor that first points
     * each visited cell back at this row; its result is the traversal's.
     */
    method ForEachCell(cvf: Visitor) returns (err: Option<Error>, ghost visited: seq<string>)
      requires sheet.cellStore.Valid() && !sheet.cellStore.closed
      requires |sheet.cellStore.RowGroup(this)| <= cellCount
      modifies sheet.cellStore.RowGroup(this).Values`row
      ensures VisitedInOrder(Views(sheet.cellStore.RowGroup(this)), cvf, visited, err)
      ensures forall c | c in CellsOf(sheet.cellStore.RowGroup(this), visited) :: c.row == cvf.Retarget(this)
      ensures forall c | c in sheet.cellStore.RowGroup(this).Values - CellsOf(sheet.cellStore.RowGroup(this), visited) ::
        c.row == old(c.row)
      ensures forall c | c in sheet.cellStore.RowGroup(this).Values :: c.value == old(c.value)
    {
      err, visited := sheet.cellStore.ForEachInRow(this, Reattach(this, cvf));
    }
  }

  /** The in-memory backend: a flat map of cells and a map of row groups. */
  class MemoryCellStore {
    var rows: map<string, map<string, Cell>>
    var cells: map<string, Cell>
    ghost var closed: bool

    ghost function State(): Memory.Store<Cell>
      reads this
    {
      Memory.Store(rows, cells)
    }

    ghost predicate Valid()
      reads this
    {
      Memory.NoEmptyKey(State())
    }

    /** The row group ForEachInRow reads for `row`. */
    function RowGroup(row: Row): map<string, Cell>
      reads this
    {
      Memory.Group(Memory.Store(rows, cells), row.MakeCellKeyRowPrefix())
    }

    /** The cell stored under `key`, if any, as a frame. */
    function Holding(key: string): set<Cell>
      reads this
    {
      if key in cells then {cells[key]} else {}
    }

    constructor ()
      ensures State() == Memory.Empty() && !closed && Valid()
    {
      rows, cells := map[], map[];
      closed := false;
    }

    /** NewMemoryCellStore: an empty store and a nil error. */
    static method NewMemoryCellStore() returns (cs: MemoryCellStore, err: Option<Error>)
      ensures fresh(cs) && cs.State() == Memory.Empty() && !cs.closed && cs.Valid()
      ensures err == None
    {
      cs := new MemoryCellStore();
      err := None;
    }

    /** Close: nothing to release; no operation follows it. */
    method Close() returns (err: Option<Error>)
      modifies this`closed
      ensures closed && err == None
    {
      closed := true;
      err := None;
    }

    /** WriteCell: stores the cell under its own key, in the flat map and in its row group. */
    method WriteCell(cell: Cell) returns (err: Option<Error>)
      requires Valid() && !closed
      modifies this`rows, this`cells
      ensures Valid() && err == None
      ensures State() == Memory.Write(old(State()), cell.row.MakeCellKeyRowPrefix(), cell.Key(), cell)
    {
      var key := cell.Key();
      var row := cell.row.MakeCellKeyRowPrefix();
      var cref: map<string, Cell> := if row in rows then rows[row] else map[];
      cref := cref[key := cell];
      rows := rows[row := cref];
      cells := cells[cell.Key() := cell];
      err := None;
    }

    /** ReadCell: the stored cell, or the not-found error naming the key. */
    method ReadCell(key: string) returns (r: Result<Cell, Error>)
      requires !closed
      ensures r == Memory.Read(State(), key)
    {
      if key !in cells {
        return Err(NotFound(NewCellNotFoundError(key, "No such cell")));
      }
      return Ok(cells[key]);
    }

    /** DeleteCell: drops the key and its whole row group; absent keys are no error. */
    method DeleteCell(key: string) returns (err: Option<Error>)
      requires Valid() && !closed
      requires ':' in key
      modifies this`rows, this`cells
      ensures Valid() && err == None
      ensures State() == Memory.Delete(old(State()), key)
    {
      cells := cells - {key};
      rows := rows - {Memory.KeyToRowKey(key)};
      err := None;
    }

    /**
     * ForEachInRow: collects the keys of the row's group into a slice of
     * `row.cellCount` strings, sorts it and visits the cells in that order,
     * skipping the empty padding and stopping at the first visitor error.
     */
    method ForEachInRow(row: Row, cvf: Visitor) returns (err: Option<Error>, ghost visited: seq<string>)
      requires Valid() && !closed
      requires |RowGroup(row)| <= row.cellCount
      modifies RowGroup(row).Values`row
      ensures VisitedInOrder(Views(RowGroup(row)), cvf, visited, err)
      ensures forall c | c in CellsOf(RowGroup(row), visited) :: c.row == cvf.Retarget(old(c.row))
      ensures forall c | c in RowGroup(row).Values - CellsOf(RowGroup(row), visited) :: c.row == old(c.row)
      ensures forall c | c in RowGroup(row).Values :: c.value == old(c.value)
    {
      var refs := RowGroup(row);
      var keys := Memory.SortedKeys(refs, row.cellCount);
      err, visited := VisitSorted(keys[..], refs, cvf);
      WalkInOrder(keys[..], Views(refs), cvf);
    }
  }

  /**
   * The visiting loop of ForEachInRow: walks the sorted slice, skips
   * entries that name no cell of the group and returns the first error a
   * visitor reports.
   */
  method VisitSorted(keys: seq<string>, refs: map<string, Cell>, cvf: Visitor) returns (err: Option<Error>, ghost visited: seq<string>)
    modifies refs.Values`row
    ensures (visited, err) == Walk(keys, old(Views(refs)), cvf)
    ensures forall c | c in CellsOf(refs, visited) :: c.row == cvf.Retarget(old(c.row))
    ensures forall c | c in refs.Values - CellsOf(refs, visited) :: c.row == old(c.row)
  {
    ghost var views := Views(refs);
    ghost var before := map c | c in refs.Values :: c.row;
    visited := [];
    var j := 0;
    WalkStart(keys, views, cvf);
    while j < |keys|
      invariant 0 <= j <= |keys|
      invariant Walk(keys, views, cvf).0 == visited + Walk(keys[j..], views, cvf).0
      invariant Walk(keys, views, cvf).1 == Walk(keys[j..], views, cvf).1
      invariant Tracked(refs.Values, cvf, CellsOf(refs, visited), before)
      invariant forall c | c in refs.Values :: before[c] == old(c.row)
    {
      var k := keys[j];
      WalkAdvance(keys, views, cvf, visited, j);
      if k in refs {
        assert refs[k].View() == views[k];
        err := VisitTracked(cvf, refs[k], refs.Values, CellsOf(refs, visited), before);
        CellsOfSnoc(refs, visited, k);
        visited := visited + [k];
        if err != None {
          return;
        }
      }
      j := j + 1;
    }
    assert keys[j..] == [] && visited + [] == visited;
    err := None;
  }

  /**
   * What the visiting loop does, as a function of the slice: the keys of the
   * group it visits, in slice order, up to and including the first whose
   * visitor fails, and that failure.
   */
  ghost function Walk(keys: seq<string>, group: map<string, CellView>, v: Visitor): (seq<string>, Option<Error>) {
    if keys == [] then ([], None)
    else if keys[0] !in group then Walk(keys[1..], group, v)
    else if v.Outcome(group[keys[0]]) != None then ([keys[0]], v.Outcome(group[keys[0]]))
    else
      var rest := Walk(keys[1..], group, v);
      ([keys[0]] + rest.0, rest.1)
  }

  lemma WalkStart(keys: seq<string>, group: map<string, CellView>, v: Visitor)
    ensures Walk(keys, group, v) == ([] + Walk(keys[0..], group, v).0, Walk(keys[0..], group, v).1)
  {
    assert keys[0..] == keys;
    assert [] + Walk(keys, group, v).0 == Walk(keys, group, v).0;
  }

  lemma SnocAssoc(a: seq<string>, k: string, b: seq<string>)
    ensures a + ([k] + b) == (a + [k]) + b
  {
  }

  /** One slot of the walk. */
  lemma WalkStep(keys: seq<string>, group: map<string, CellView>, v: Visitor, j: int)
    requires 0 <= j < |keys|
    ensures keys[j] !in group ==> Walk(keys[j..], group, v) == Walk(keys[j + 1..], group, v)
    ensures keys[j] in group && v.Outcome(group[keys[j]]) != None ==>
      Walk(keys[j..], group, v) == ([keys[j]], v.Outcome(group[keys[j]]))
    ensures keys[j] in group && v.Outcome(group[keys[j]]) == None ==>
      Walk(keys[j..], group, v) == ([keys[j]] + Walk(keys[j + 1..], group, v).0, Walk(keys[j + 1..], group, v).1)
  {
    assert keys[j..][0] == keys[j] && keys[j..][1..] == keys[j + 1..];
  }

  /** One turn of the visiting loop, stated for the walk of the whole slice. */
  lemma WalkAdvance(keys: seq<string>, group: map<string, CellView>, v: Visitor, visited: seq<string>, j: int)
    requires 0 <= j < |keys|
    requires Walk(keys, group, v) == (visited + Walk(keys[j..], group, v).0, Walk(keys[j..], group, v).1)
    ensures keys[j] !in group ==>
      Walk(keys, group, v) == (visited + Walk(keys[j + 1..], group, v).0, Walk(keys[j + 1..], group, v).1)
    ensures keys[j] in group && v.Outcome(group[keys[j]]) != None ==>
      Walk(keys, group, v) == (visited + [keys[j]], v.Outcome(group[keys[j]]))
    ensures keys[j] in group && v.Outcome(group[keys[j]]) == None ==>
      Walk(keys, group, v) == ((visited + [keys[j]]) + Walk(keys[j + 1..], group, v).0, Walk(keys[j + 1..], group, v).1)
  {
    WalkStep(keys, group, v, j);
    SnocAssoc(visited, keys[j], Walk(keys[j + 1..], group, v).0);
  }

  /**
   * On a sorted slice holding every key of the group once, the walk visits
   * in strictly ascending key order, as VisitedInOrder describes.
   */
  lemma WalkInOrder(keys: seq<string>, group: map<string, CellView>, v: Visitor)
    requires Lex.Sorted(keys) && Memory.NoRepeats(keys, "")
    requires forall k :: k in group ==> k in keys
    requires "" !in group
    ensures VisitedInOrder(group, v, Walk(keys, group, v).0, Walk(keys, group, v).1)
  {
    WalkStart(keys, group, v);
    WalkFrom(keys, group, v, [], 0);
  }

  /** The walk of the slots from `j` on, continuing a walk that visited `visited` before them. */
  lemma {:induction false} WalkFrom(keys: seq<string>, group: map<string, CellView>, v: Visitor, visited: seq<string>, j: int)
    requires Lex.Sorted(keys) && Memory.NoRepeats(keys, "")
    requires forall k :: k in group ==> k in keys
    requires "" !in group
    requires Progress(keys, group, visited, j) && AllPassed(group, v, visited)
    ensures VisitedInOrder(group, v, visited + Walk(keys[j..], group, v).0, Walk(keys[j..], group, v).1)
    decreases |keys| - j
  {
    if j == |keys| {
      assert keys[j..] == [] && visited + [] == visited;
      DoneInOrder(keys, group, v, visited);
    } else {
      var k := keys[j];
      WalkStep(keys, group, v, j);
      ProgressStep(keys, group, visited, j);
      if k !in group {
        WalkFrom(keys, group, v, visited, j + 1);
      } else if v.Outcome(group[k]) != None {
        AllPassedSnoc(group, v, visited, k);
        StopInOrder(keys, group, v, visited + [k], j, v.Outcome(group[k]));
      } else {
        AllPassedSnoc(group, v, visited, k);
        WalkFrom(keys, group, v, visited + [k], j + 1);
        SnocAssoc(visited, k, Walk(keys[j + 1..], group, v).0);
      }
    }
  }

  /** Every key in `visited` names a cell of the group on which the visitor returned no error. */
  ghost predicate AllPassed(group: map<string, CellView>, v: Visitor, visited: seq<string>) {
    forall i | 0 <= i < |visited| :: visited[i] in group && v.Outcome(group[visited[i]]) == None
  }

  /** Appending a visited key keeps the earlier keys passed. */
  lemma AllPassedSnoc(group: map<string, CellView>, v: Visitor, visited: seq<string>, k: string)
    requires AllPassed(group, v, visited)
    ensures AllPassed(group, v, (visited + [k])[..|visited|])
    ensures k in group && v.Outcome(group[k]) == None ==> AllPassed(group, v, visited + [k])
  {
    assert (visited + [k])[..|visited|] == visited;
  }

  /**
   * The order facts of a traversal that has looked at the first `j` slots
   * of the sorted slice: the keys visited so far ascend strictly, are keys
   * of the group, include every key of the group before slot `j`, and sort
   * before every key of the group from slot `j` on.
   */
  ghost predicate Progress(sorted: seq<string>, group: map<string, CellView>, visited: seq<string>, j: int) {
    && 0 <= j <= |sorted|
    && Lex.StrictlyIncreasing(visited)
    && (forall i | 0 <= i < |visited| :: visited[i] in group)
    && (forall m | 0 <= m < j && sorted[m] in group :: sorted[m] in visited)
    && (forall i, m | 0 <= i < |visited| && j <= m < |sorted| && sorted[m] in group :: Lex.Less(visited[i], sorted[m]))
  }

  /** Looking at slot `j` keeps the order facts: a key of the group is appended, padding is skipped. */
  lemma ProgressStep(sorted: seq<string>, group: map<string, CellView>, visited: seq<string>, j: int)
    requires Progress(sorted, group, visited, j) && j < |sorted|
    requires Lex.Sorted(sorted) && Memory.NoRepeats(sorted, "") && "" !in group
    ensures sorted[j] in group ==> Progress(sorted, group, visited + [sorted[j]], j + 1)
    ensures sorted[j] !in group ==> Progress(sorted, group, visited, j + 1)
  {
    if sorted[j] in group {
      var v := visited + [sorted[j]];
      forall m | j + 1 <= m < |sorted| && sorted[m] in group
        ensures Lex.Less(sorted[j], sorted[m])
      {
        assert Lex.LessEq(sorted[j], sorted[m]);
      }
      forall i, m | 0 <= i < |v| && j + 1 <= m < |sorted| && sorted[m] in group
        ensures Lex.Less(v[i], sorted[m])
      {
        if i < |visited| {
          assert Lex.Less(visited[i], sorted[m]);
        }
      }
      forall a, b | 0 <= a < b < |v|
        ensures Lex.Less(v[a], v[b])
      {
        if b < |visited| {
          assert Lex.Less(visited[a], visited[b]);
        } else {
          assert Lex.Less(visited[a], sorted[j]);
        }
      }
    }
  }

  /**
   * A traversal whose visit of slot `j`, the last key visited, failed with
   * `err`, after all earlier visits succeeded, visited in order.
   */
  lemma StopInOrder(sorted: seq<string>, group: map<string, CellView>, v: Visitor, visited: seq<string>, j: int, err: Option<Error>)
    requires 0 <= j < |sorted| && visited != [] && visited[|visited| - 1] == sorted[j]
    requires Progress(sorted, group, visited, j + 1)
    requires forall k :: k in group ==> k in sorted
    requires AllPassed(group, v, visited[..|visited| - 1])
    requires err != None && err == v.Outcome(group[sorted[j]])
    ensures VisitedInOrder(group, v, visited, err)
  {
    forall k | k in group && k !in visited
      ensures Lex.Less(visited[|visited| - 1], k)
    {
      var m :| 0 <= m < |sorted| && sorted[m] == k;
      assert Lex.Less(visited[|visited| - 1], sorted[m]);
    }
  }

  /** A traversal that got past the last slot with every visit successful visited every key, in order. */
  lemma DoneInOrder(sorted: seq<string>, group: map<string, CellView>, v: Visitor, visited: seq<string>)
    requires Progress(sorted, group, visited, |sorted|)
    requires forall k :: k in group ==> k in sorted
    requires AllPassed(group, v, visited)
    ensures VisitedInOrder(group, v, visited, None)
  {
    forall k | k in group
      ensures k in visited
    {
      var m :| 0 <= m < |sorted| && sorted[m] == k;
    }
  }
}
