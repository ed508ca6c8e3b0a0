/**
 * The state of the in-memory backend as values: a flat map from cell key to
 * cell and a two-level map from row prefix to that row's cells. The
 * MemoryCellStore class keeps exactly these two maps and each of its methods
 * is specified by the transition defined here; the lemmas say what the
 * transitions make readable and iterable.
 */
module Memory {
  import opened Wrappers
  import opened CellStore
  import Keys
  import Lex

  datatype Store<C> = Store(rows: map<string, map<string, C>>, cells: map<string, C>)

  /** The row group under `prefix`; a missing group reads as Go's nil map, which is empty. */
  function Group<C>(s: Store<C>, prefix: string): map<string, C> {
    if prefix in s.rows then s.rows[prefix] else map[]
  }

  /**
   * keyToRowKey: the first two ':'-separated fields of a key, joined by ':'.
   * Go indexes `parts[1]`, so a key without ':' is outside its domain.
   */
  function KeyToRowKey(key: string): (r: string)
    requires ':' in key
    ensures r <= key
    ensures Keys.Split(r) == Keys.Split(key)[..2]
  {
    Keys.FirstTwoFieldsPrefix(key);
    Keys.FirstTwoFieldsSplit(key);
    var parts := Keys.Split(key);
    parts[0] + ":" + parts[1]
  }

  /** For a sheet name without ':', keyToRowKey recovers the row prefix from a cell key. */
  lemma KeyToRowKeyOfCellKey(sheet: string, row: int, col: int)
    requires ':' !in sheet
    ensures ':' in Keys.CellKey(sheet, row, col)
    ensures KeyToRowKey(Keys.CellKey(sheet, row, col)) == Keys.RowPrefix(sheet, row)
  {
    var key := Keys.CellKey(sheet, row, col);
    Keys.SplitCellKey(sheet, row, col);
    assert Keys.Split(sheet) == [sheet];
    var parts := Keys.Split(key);
    assert parts == [sheet, Keys.Pad6(row), Keys.Pad6(col)];
    assert |parts| != 1;
  }

  /**
   * A sheet name with one ':' breaks that: keyToRowKey returns the sheet
   * name itself, not the row prefix.
   */
  lemma KeyToRowKeyColonSheet(a: string, b: string, row: int, col: int)
    requires ':' !in a && ':' !in b
    ensures ':' in Keys.CellKey(a + ":" + b, row, col)
    ensures KeyToRowKey(Keys.CellKey(a + ":" + b, row, col)) == a + ":" + b
    ensures KeyToRowKey(Keys.CellKey(a + ":" + b, row, col)) != Keys.RowPrefix(a + ":" + b, row)
  {
    var sheet := a + ":" + b;
    var key := Keys.CellKey(sheet, row, col);
    Keys.SplitField(a, b);
    Keys.SplitCellKey(sheet, row, col);
    var parts := Keys.Split(key);
    assert parts == [a] + [b] + [Keys.Pad6(row), Keys.Pad6(col)];
    assert |parts| != 1;
    assert parts[0] == a && parts[1] == b;
    assert |Keys.RowPrefix(sheet, row)| > |sheet|;
  }

  /** NewMemoryCellStore: both maps empty. */
  function Empty<C>(): (s: Store<C>)
    ensures forall p :: Group(s, p) == map[]
    ensures forall k :: Read(s, k).Err?
  {
    Store(map[], map[])
  }

  /** WriteCell: the cell goes into the flat map and into its row group, under its key. */
  function Write<C>(s: Store<C>, prefix: string, key: string, c: C): (t: Store<C>)
    ensures WriteObeys(s.cells, t.cells, key, c)
    ensures Group(t, prefix) == Group(s, prefix)[key := c]
    ensures forall q | q != prefix :: Group(t, q) == Group(s, q)
  {
    Store(s.rows[prefix := Group(s, prefix)[key := c]], s.cells[key := c])
  }

  /** ReadCell: a direct lookup in the flat map; a miss is the not-found error with reason "No such cell". */
  function Read<C>(s: Store<C>, key: string): (r: Result<C, Error>)
    ensures ReadObeys(s.cells, key, r)
    ensures r.Err? ==> r.error == NotFound(NewCellNotFoundError(key, "No such cell"))
  {
    if key in s.cells then Ok(s.cells[key])
    else Err(NotFound(NewCellNotFoundError(key, "No such cell")))
  }

  /** DeleteCell: the key leaves the flat map and its whole row group leaves the row map. */
  function Delete<C>(s: Store<C>, key: string): (t: Store<C>)
    requires ':' in key
    ensures DeleteObeys(s.cells, t.cells, key)
    ensures Group(t, KeyToRowKey(key)) == map[]
    ensures forall q | q != KeyToRowKey(key) :: Group(t, q) == Group(s, q)
  {
    Store(s.rows - {KeyToRowKey(key)}, s.cells - {key})
  }

  /** A written cell reads back; every other key reads as before. */
  lemma WriteThenRead<C>(s: Store<C>, prefix: string, key: string, c: C, k: string)
    ensures Read(Write(s, prefix, key, c), key) == Ok(c)
    ensures k != key ==> Read(Write(s, prefix, key, c), k) == Read(s, k)
  {
  }

  /** Writing the same cell twice leaves the same state as writing it once. */
  lemma WriteIdempotent<C>(s: Store<C>, prefix: string, key: string, c: C)
    ensures Write(Write(s, prefix, key, c), prefix, key, c) == Write(s, prefix, key, c)
  {
    var t := Write(s, prefix, key, c);
    assert Group(t, prefix)[key := c] == Group(t, prefix);
    assert t.rows[prefix := Group(t, prefix)] == t.rows;
  }

  /**
   * Deleting a key hides its whole row from iteration, while the other cells
   * of that row stay readable.
   */
  lemma DeleteHidesSiblings<C>(s: Store<C>, key: string, k: string)
    requires ':' in key && ':' in k && KeyToRowKey(k) == KeyToRowKey(key)
    requires k in s.cells && k != key
    ensures Read(Delete(s, key), k) == Ok(s.cells[k])
    ensures k !in Group(Delete(s, key), KeyToRowKey(k))
    ensures Read(Delete(s, key), key).Err?
  {
  }

  /**
   * Every cell in a row group is the one the flat map holds under its key,
   * and the group is the one its key maps to.
   */
  ghost predicate Grouped<C>(s: Store<C>) {
    forall p, k | p in s.rows && k in s.rows[p] ::
      ':' in k && KeyToRowKey(k) == p && k in s.cells && s.cells[k] == s.rows[p][k]
  }

  /** A store kept Grouped iterates only cells that ReadCell also returns. */
  lemma GroupedIteratesPersisted<C>(s: Store<C>, prefix: string, k: string)
    requires Grouped(s) && k in Group(s, prefix)
    ensures Read(s, k) == Ok(Group(s, prefix)[k])
  {
  }

  /** Writes under a key whose keyToRowKey is the row prefix keep the store Grouped. */
  lemma WriteKeepsGrouped<C>(s: Store<C>, prefix: string, key: string, c: C)
    requires Grouped(s) && ':' in key && KeyToRowKey(key) == prefix
    ensures Grouped(Write(s, prefix, key, c))
  {
    var t := Write(s, prefix, key, c);
    forall p, k | p in t.rows && k in t.rows[p]
      ensures ':' in k && KeyToRowKey(k) == p && k in t.cells && t.cells[k] == t.rows[p][k]
    {
      if p != prefix || k != key {
        assert k in Group(s, p) && Group(s, p)[k] == t.rows[p][k];
      }
    }
  }

  /** Cells of a sheet whose name has no ':' keep the store Grouped when written. */
  lemma WriteCellKeepsGrouped<C>(s: Store<C>, sheet: string, row: int, col: int, c: C)
    requires Grouped(s) && ':' !in sheet
    ensures Grouped(Write(s, Keys.RowPrefix(sheet, row), Keys.CellKey(sheet, row, col), c))
  {
    KeyToRowKeyOfCellKey(sheet, row, col);
    WriteKeepsGrouped(s, Keys.RowPrefix(sheet, row), Keys.CellKey(sheet, row, col), c);
  }

  lemma DeleteKeepsGrouped<C>(s: Store<C>, key: string)
    requires Grouped(s) && ':' in key
    ensures Grouped(Delete(s, key))
  {
    var t := Delete(s, key);
    forall p, k | p in t.rows && k in t.rows[p]
      ensures ':' in k && KeyToRowKey(k) == p && k in t.cells && t.cells[k] == t.rows[p][k]
    {
      assert p != KeyToRowKey(key) && t.rows[p] == s.rows[p];
      assert k != key;
    }
  }

  /** No row group holds the empty key, so the slice's "" padding never names a cell. */
  ghost predicate NoEmptyKey<C>(s: Store<C>) {
    forall p | p in s.rows :: "" !in s.rows[p]
  }

  /** The strings of `s` other than `pad` occur once each. */
  ghost predicate NoRepeats(s: seq<string>, pad: string) {
    forall i, j | 0 <= i < j < |s| && s[i] != pad :: s[i] != s[j]
  }

  lemma {:induction false} OnceEach(s: seq<string>, pad: string, x: string)
    requires NoRepeats(s, pad) && x != pad
    ensures multiset(s)[x] <= 1
  {
    if s != [] {
      var t := s[1..];
      assert s == [s[0]] + t;
      assert NoRepeats(t, pad) by {
        forall i, j | 0 <= i < j < |t| && t[i] != pad
          ensures t[i] != t[j]
        {
          assert s[i + 1] == t[i] && s[j + 1] == t[j];
        }
      }
      OnceEach(t, pad, x);
      if s[0] == x {
        assert x !in t by {
          forall j | 0 <= j < |t|
            ensures t[j] != x
          {
            assert s[j + 1] == t[j];
          }
        }
      }
    }
  }

  lemma Twice(s: seq<string>, i: int, j: int)
    requires 0 <= i < j < |s| && s[i] == s[j]
    ensures multiset(s)[s[i]] >= 2
  {
    assert s == s[..i] + [s[i]] + s[i + 1..j] + [s[j]] + s[j + 1..];
  }

  /** Sorting permutes the slice, so its keys still occur once each. */
  lemma NoRepeatsPermuted(a: seq<string>, b: seq<string>, pad: string)
    requires multiset(a) == multiset(b) && NoRepeats(b, pad)
    ensures NoRepeats(a, pad)
  {
    forall i, j | 0 <= i < j < |a| && a[i] != pad
      ensures a[i] != a[j]
    {
      OnceEach(b, pad, a[i]);
      if a[i] == a[j] {
        Twice(a, i, j);
      }
    }
  }

  /**
   * The first step of a row traversal: a slice of `l` empty strings filled
   * from the front with the group's keys, taken in Go's unspecified map order.
   */
  method CollectKeys<C>(refs: map<string, C>, l: nat) returns (keys: array<string>)
    requires |refs| <= l
    requires "" !in refs
    ensures fresh(keys) && keys.Length == l
    ensures forall k :: k in refs <==> k in keys[..] && k != ""
    ensures forall m | 0 <= m < l :: keys[m] in refs || keys[m] == ""
    ensures NoRepeats(keys[..], "")
  {
    keys := new string[l](_ => "");
    var i := 0;
    var remaining := refs.Keys;
    ghost var collected: seq<string> := [];
    while remaining != {}
      invariant 0 <= i <= l
      invariant remaining <= refs.Keys
      invariant i + |remaining| == |refs|
      invariant forall m | 0 <= m < i :: keys[m] in refs && keys[m] !in remaining
      invariant forall m | i <= m < l :: keys[m] == ""
      invariant keys[..i] == collected
      invariant forall k | k in refs && k !in remaining :: k in collected
      invariant forall m, n | 0 <= m < n < i :: keys[m] != keys[n]
      decreases remaining
    {
      var k :| k in remaining;
      keys[i] := k;
      i := i + 1;
      remaining := remaining - {k};
      collected := collected + [k];
    }
    assert forall m | 0 <= m < l :: keys[m] == keys[..][m];
  }

  /**
   * The keys a row traversal visits in turn: the group's keys collected into
   * a slice of `l` slots and sorted, so the empty padding comes first and
   * every key of the group appears once, in ascending order.
   */
  method SortedKeys<C>(refs: map<string, C>, l: nat) returns (keys: array<string>)
    requires |refs| <= l
    requires "" !in refs
    ensures fresh(keys) && keys.Length == l
    ensures forall k :: k in refs <==> k in keys[..] && k != ""
    ensures Lex.Sorted(keys[..])
    ensures NoRepeats(keys[..], "")
  {
    keys := CollectKeys(refs, l);
    ghost var collected := keys[..];
    Lex.Sort(keys);
    NoRepeatsPermuted(keys[..], collected, "");
    assert forall k :: k in keys[..] <==> k in multiset(collected);
  }
}
