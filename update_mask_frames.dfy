/**
 * The tables the reconciliation works on, and the ordering `sort_values`
 * applies to them.
 *
 * A table is a sequence of rows; a row is a sequence of cells, one per
 * column; a cell is a text or null (pandas' NaN). After the preprocessing in
 * update_mask.py every cell of the two input tables is a text, so the only
 * nulls are in rows that the alignment itself creates.
 */
module Frames {
  import opened Wrappers

  type Cell = Option<string>
  type Row = seq<Cell>
  type Table = seq<Row>

  /** Every row has the table's column count. */
  predicate WellFormed(t: Table, ncols: nat)
  {
    forall row :: row in t ==> |row| == ncols
  }

  /** The cell in column `c` (null for a column the row does not have). */
  function CellAt(row: Row, c: nat): Cell
  {
    if c < |row| then row[c] else None
  }

  /** `str(cell)`: a null cell reads as "nan". */
  function CellText(c: Cell): string
  {
    match c
    case None => "nan"
    case Some(s) => s
  }

  /** The row `append(pd.Series())` adds: null in every column. */
  function NullRow(ncols: nat): (r: Row)
    ensures |r| == ncols
    ensures forall c :: 0 <= c < ncols ==> r[c] == None
  {
    seq(ncols, _ => None)
  }

  /** Every key column of the row holds a text. */
  predicate RowKeysPresent(row: Row, keys: seq<nat>)
  {
    forall j :: 0 <= j < |keys| ==> CellAt(row, keys[j]).Some?
  }

  predicate KeysPresent(t: Table, keys: seq<nat>)
  {
    forall row :: row in t ==> RowKeysPresent(row, keys)
  }

  /** Python's comparison of two texts: code point by code point. */
  predicate StrLe(a: string, b: string)
    decreases |a|
  {
    |a| == 0 || (|b| > 0 && (a[0] < b[0] || (a[0] == b[0] && StrLe(a[1..], b[1..]))))
  }

  lemma {:induction false} StrLeTotal(a: string, b: string)
    ensures StrLe(a, b) || StrLe(b, a)
    decreases |a|
  {
    if |a| > 0 && |b| > 0 && a[0] == b[0] {
      StrLeTotal(a[1..], b[1..]);
    }
  }

  /** Cell order of `sort_values(na_position='last')`: texts first, nulls last. */
  predicate CellLe(x: Cell, y: Cell)
  {
    match x
    case None => y.None?
    case Some(a) => y.None? || StrLe(a, y.value)
  }

  /** The values of the key columns, in key order. */
  function KeyOf(row: Row, keys: seq<nat>): (k: seq<Cell>)
    ensures |k| == |keys|
  {
    seq(|keys|, j requires 0 <= j < |keys| => CellAt(row, keys[j]))
  }

  /** Lexicographic order over key tuples: the first key decides, ties go to the next. */
  predicate KeyLe(a: seq<Cell>, b: seq<Cell>)
    decreases |a|
  {
    |a| == 0 || (|b| > 0 && ((CellLe(a[0], b[0]) && a[0] != b[0]) || (a[0] == b[0] && KeyLe(a[1..], b[1..]))))
  }

  lemma {:induction false} KeyLeTotal(a: seq<Cell>, b: seq<Cell>)
    ensures KeyLe(a, b) || KeyLe(b, a)
    decreases |a|
  {
    if |a| > 0 && |b| > 0 {
      if a[0] == b[0] {
        KeyLeTotal(a[1..], b[1..]);
      } else if a[0].Some? && b[0].Some? {
        StrLeTotal(a[0].value, b[0].value);
      }
    }
  }

  predicate RowLe(x: Row, y: Row, keys: seq<nat>)
  {
    KeyLe(KeyOf(x, keys), KeyOf(y, keys))
  }

  /** Each row's key is at most the next row's key. */
  predicate SortedByKeys(t: Table, keys: seq<nat>)
  {
    forall i :: 0 <= i < |t| - 1 ==> RowLe(t[i], t[i + 1], keys)
  }

  /** Puts `x` before the first row whose key is not below it. */
  function InsertByKey(x: Row, s: Table, keys: seq<nat>): (r: Table)
    ensures |r| == |s| + 1
    ensures multiset(r) == multiset(s) + multiset{x}
    decreases |s|
  {
    if |s| == 0 then [x]
    else if RowLe(x, s[0], keys) then [x] + s
    else
      assert s == [s[0]] + s[1..];
      [s[0]] + InsertByKey(x, s[1..], keys)
  }

  /**
   * `sort_values(by=keys)`, as a stable sort: rows with equal keys keep their
   * order. The result is a permutation of the input.
   */
  function SortByKeys(t: Table, keys: seq<nat>): (r: Table)
    ensures |r| == |t|
    ensures multiset(r) == multiset(t)
    decreases |t|
  {
    if |t| == 0 then []
    else
      assert t == [t[0]] + t[1..];
      InsertByKey(t[0], SortByKeys(t[1..], keys), keys)
  }

  lemma {:induction false} InsertByKeySorted(x: Row, s: Table, keys: seq<nat>)
    requires SortedByKeys(s, keys)
    ensures SortedByKeys(InsertByKey(x, s, keys), keys)
    ensures |s| > 0 ==> InsertByKey(x, s, keys)[0] == x || InsertByKey(x, s, keys)[0] == s[0]
    decreases |s|
  {
    if |s| > 0 && !RowLe(x, s[0], keys) {
      KeyLeTotal(KeyOf(x, keys), KeyOf(s[0], keys));
      assert SortedByKeys(s[1..], keys) by {
        forall i | 0 <= i < |s[1..]| - 1 ensures RowLe(s[1..][i], s[1..][i + 1], keys) {
          assert s[1..][i] == s[i + 1] && s[1..][i + 1] == s[i + 2];
        }
      }
      InsertByKeySorted(x, s[1..], keys);
      var r := InsertByKey(x, s, keys);
      var tail := InsertByKey(x, s[1..], keys);
      assert r == [s[0]] + tail;
      forall i | 0 <= i < |r| - 1 ensures RowLe(r[i], r[i + 1], keys) {
        if i > 0 {
          assert r[i] == tail[i - 1] && r[i + 1] == tail[i];
        }
      }
    }
  }

  /** The rows `sort_values` returns are in key order. */
  lemma {:induction false} SortByKeysSorted(t: Table, keys: seq<nat>)
    ensures SortedByKeys(SortByKeys(t, keys), keys)
    decreases |t|
  {
    if |t| > 0 {
      SortByKeysSorted(t[1..], keys);
      InsertByKeySorted(t[0], SortByKeys(t[1..], keys), keys);
    }
  }

  /** Sorting rows that are already in key order leaves them as they are. */
  lemma {:induction false} SortOfSorted(t: Table, keys: seq<nat>)
    requires SortedByKeys(t, keys)
    ensures SortByKeys(t, keys) == t
    decreases |t|
  {
    if |t| > 0 {
      assert SortedByKeys(t[1..], keys) by {
        forall i | 0 <= i < |t[1..]| - 1 ensures RowLe(t[1..][i], t[1..][i + 1], keys) {
          assert t[1..][i] == t[i + 1] && t[1..][i + 1] == t[i + 2];
        }
      }
      SortOfSorted(t[1..], keys);
      assert t == [t[0]] + t[1..];
    }
  }

  /** Sorting keeps the column count and the presence of keys, since it only reorders rows. */
  lemma SortKeepsShape(t: Table, keys: seq<nat>, ncols: nat)
    ensures WellFormed(t, ncols) ==> WellFormed(SortByKeys(t, keys), ncols)
    ensures KeysPresent(t, keys) ==> KeysPresent(SortByKeys(t, keys), keys)
  {
    var r := SortByKeys(t, keys);
    forall row | row in r ensures row in t {
      assert row in multiset(r);
    }
  }
}
