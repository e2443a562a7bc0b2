/**
 * The row alignment of update_mask.py: `values_found_in_df`,
 * `_make_two_dataframes_identically_labelled` and the dispatcher
 * `make_two_dataframes_identically_labelled`.
 *
 * The walk is specified one position at a time by `Step`, and `Walk` runs
 * the steps for positions 0..k-1; the method `AlignTables` is proved to
 * compute exactly that, and the lemmas below say what the walk achieves.
 */
module Alignment {
  import opened Wrappers
  import opened Frames

  /** `x == y` between two cells in pandas: both texts and equal (NaN equals nothing). */
  predicate CellsEqual(x: Cell, y: Cell)
  {
    x.Some? && x == y
  }

  /** No key column differs between the two rows (the `are_same` flag). */
  predicate KeysAgree(r1: Row, r2: Row, keys: seq<nat>)
  {
    forall j :: 0 <= j < |keys| ==> CellsEqual(CellAt(r1, keys[j]), CellAt(r2, keys[j]))
  }

  /** A `dict_values` argument: column, value. */
  type Lookup = seq<(nat, Cell)>

  /** The lookup the walk builds from a row: each key column with the row's value. */
  function KeyDict(row: Row, keys: seq<nat>): (d: Lookup)
    ensures |d| == |keys|
  {
    seq(|keys|, j requires 0 <= j < |keys| => (keys[j], CellAt(row, keys[j])))
  }

  /** Every listed column of the row equals the listed value. */
  predicate RowMatches(row: Row, d: Lookup)
  {
    forall k :: 0 <= k < |d| ==> CellsEqual(CellAt(row, d[k].0), d[k].1)
  }

  /** The rows of `t` that match `d`, in their order in `t`. */
  function MatchingRows(t: Table, d: Lookup): (r: Table)
    ensures |r| <= |t|
    ensures forall row :: row in r ==> row in t && RowMatches(row, d)
    decreases |t|
  {
    if |t| == 0 then []
    else (if RowMatches(t[0], d) then [t[0]] else []) + MatchingRows(t[1..], d)
  }

  /** Every listed column exists; an empty lookup fails too, since `df[True]` is a column lookup. */
  predicate LookupValid(d: Lookup, ncols: nat)
  {
    |d| > 0 && forall k :: 0 <= k < |d| ==> d[k].0 < ncols
  }

  /** What `values_found_in_df` returns: the matching rows, or no rows after a KeyError. */
  function ValuesFound(d: Lookup, t: Table, ncols: nat): Table
  {
    if LookupValid(d, ncols) then MatchingRows(t, d) else []
  }

  /** A row matching the lookup is among the matching rows, so none match iff the result is empty. */
  lemma {:induction false} MatchingRowsEmpty(t: Table, d: Lookup)
    ensures |MatchingRows(t, d)| == 0 <==> forall i :: 0 <= i < |t| ==> !RowMatches(t[i], d)
    decreases |t|
  {
    if |t| > 0 {
      MatchingRowsEmpty(t[1..], d);
      if !RowMatches(t[0], d) {
        forall i | 0 <= i < |t| ensures !RowMatches(t[i], d) <== |MatchingRows(t, d)| == 0 {
          if i > 0 {
            assert t[i] == t[1..][i - 1];
          }
        }
      }
    }
  }

  /**
   * The selection keeps every matching row, as often as the table holds it,
   * and nothing else: with `MatchingRowsInOrder`, it is exactly the matching
   * rows in table order.
   */
  lemma {:induction false} MatchingRowsComplete(t: Table, d: Lookup)
    ensures forall row :: multiset(MatchingRows(t, d))[row] == if RowMatches(row, d) then multiset(t)[row] else 0
    decreases |t|
  {
    if |t| > 0 {
      MatchingRowsComplete(t[1..], d);
      assert t == [t[0]] + t[1..];
      assert multiset(t) == multiset{t[0]} + multiset(t[1..]);
      var head := if RowMatches(t[0], d) then [t[0]] else [];
      assert MatchingRows(t, d) == head + MatchingRows(t[1..], d);
      assert multiset(MatchingRows(t, d)) == multiset(head) + multiset(MatchingRows(t[1..], d));
    }
  }

  /** The matching rows keep their order in `t`: they form a subsequence of it. */
  lemma {:induction false} MatchingRowsInOrder(t: Table, d: Lookup)
    ensures Subseq(MatchingRows(t, d), t)
    decreases |t|
  {
    if |t| > 0 {
      MatchingRowsInOrder(t[1..], d);
      var rest := MatchingRows(t[1..], d);
      if RowMatches(t[0], d) {
        assert MatchingRows(t, d) == [t[0]] + rest;
        assert ([t[0]] + rest)[1..] == rest;
      } else {
        assert MatchingRows(t, d) == rest;
        if |rest| > 0 {
          assert Subseq(rest, t[1..]);
        }
      }
    }
  }

  /** `a` can be obtained from `b` by deleting elements. */
  predicate Subseq<T(==)>(a: seq<T>, b: seq<T>)
    decreases |b|
  {
    |a| == 0 || (|b| > 0 && ((a[0] == b[0] && Subseq(a[1..], b[1..])) || Subseq(a, b[1..])))
  }

  lemma {:induction false} SubseqRefl<T>(a: seq<T>)
    ensures Subseq(a, a)
    decreases |a|
  {
    if |a| > 0 {
      SubseqRefl(a[1..]);
    }
  }

  lemma {:induction false} SubseqTrans<T>(a: seq<T>, b: seq<T>, c: seq<T>)
    requires Subseq(a, b) && Subseq(b, c)
    ensures Subseq(a, c)
    decreases |c|
  {
    if |a| > 0 {
      if Subseq(b, c[1..]) {
        SubseqTrans(a, b, c[1..]);
      } else if a[0] == b[0] && Subseq(a[1..], b[1..]) {
        SubseqTrans(a[1..], b[1..], c[1..]);
      } else {
        SubseqTrans(a, b[1..], c[1..]);
      }
    }
  }

  /** `pd.concat([t.iloc[:i], line, t.iloc[i:]])`: `row` goes in at position `i`. */
  function InsertAt(t: Table, i: nat, row: Row): (r: Table)
    requires i <= |t|
    ensures |r| == |t| + 1
  {
    t[..i] + [row] + t[i..]
  }

  lemma {:induction false} SubseqInsertAt(t: Table, i: nat, row: Row)
    requires i <= |t|
    ensures Subseq(t, InsertAt(t, i, row))
    decreases i
  {
    var r := InsertAt(t, i, row);
    if i == 0 {
      assert r[1..] == t;
      SubseqRefl(t);
    } else {
      assert r[0] == t[0];
      assert r[1..] == InsertAt(t[1..], i - 1, row);
      SubseqInsertAt(t[1..], i - 1, row);
    }
  }

  /** The line the walk inserts: the key columns copied from `src`, null elsewhere. */
  function KeyOnlyRow(src: Row, keys: seq<nat>, ncols: nat): (r: Row)
    ensures |r| == ncols
  {
    seq(ncols, c requires 0 <= c < ncols => if c in keys then CellAt(src, c) else None)
  }

  /** An inserted key-only line lines up with the row it was built from. */
  lemma KeyOnlyRowAgrees(src: Row, keys: seq<nat>, ncols: nat)
    requires forall j :: 0 <= j < |keys| ==> keys[j] < ncols
    requires RowKeysPresent(src, keys)
    ensures KeysAgree(KeyOnlyRow(src, keys, ncols), src, keys)
    ensures KeysAgree(src, KeyOnlyRow(src, keys, ncols), keys)
    ensures RowKeysPresent(KeyOnlyRow(src, keys, ncols), keys)
  {
  }

  /** The two tables of the walk: the driver is iterated, the target is padded. */
  datatype Pair = Pair(driver: Table, target: Table)

  /**
   * One iteration of the loop at update_mask.py:81, at position `i`:
   * pad the target when it has only `i` rows; do nothing when the keys agree;
   * otherwise insert a key-only line into the target when no later target row
   * holds the driver row's keys, and into the driver when one does.
   */
  function Step(p: Pair, i: nat, keys: seq<nat>, ncols: nat): (r: Pair)
    requires i < |p.driver|
    ensures |r.driver| >= |p.driver| && |r.target| >= |p.target|
  {
    if i >= |p.target| then Pair(p.driver, p.target + [NullRow(ncols)])
    else if KeysAgree(p.driver[i], p.target[i], keys) then p
    else if |ValuesFound(KeyDict(p.driver[i], keys), p.target[i + 1..], ncols)| == 0 then
      Pair(p.driver, InsertAt(p.target, i, KeyOnlyRow(p.driver[i], keys, ncols)))
    else
      Pair(InsertAt(p.driver, i, KeyOnlyRow(p.target[i], keys, ncols)), p.target)
  }

  /** The first `k` iterations, at positions 0..k-1; the driver never shrinks, so each position exists. */
  function Walk(p: Pair, k: nat, keys: seq<nat>, ncols: nat): (w: Pair)
    requires k <= |p.driver|
    ensures |w.driver| >= |p.driver| && |w.target| >= |p.target|
    decreases k
  {
    if k == 0 then p else Step(Walk(p, k - 1, keys, ncols), k - 1, keys, ncols)
  }

  /**
   * `_make_two_dataframes_identically_labelled(df1, df2)`: sort both, walk
   * exactly as many positions as the sorted `df1` has rows, sort both again.
   */
  function Align(df1: Table, df2: Table, keys: seq<nat>, ncols: nat): Pair
  {
    var start := Pair(SortByKeys(df1, keys), SortByKeys(df2, keys));
    var w := Walk(start, |df1|, keys, ncols);
    Pair(SortByKeys(w.driver, keys), SortByKeys(w.target, keys))
  }

  /** `make_two_dataframes_identically_labelled(df1, df2)`: the longer table drives, ties go to `df1`. */
  function Labelled(df1: Table, df2: Table, keys: seq<nat>, ncols: nat): Pair
  {
    if |df1| >= |df2| then Align(df1, df2, keys, ncols)
    else
      var a := Align(df2, df1, keys, ncols);
      Pair(a.target, a.driver)
  }

  /**
   * Every step adds at most one row in total and none is removed; the target
   * has at least `k` rows after `k` steps.
   */
  lemma {:induction false} WalkLengths(p: Pair, k: nat, keys: seq<nat>, ncols: nat)
    requires k <= |p.driver|
    ensures |Walk(p, k, keys, ncols).target| >= k
    ensures |Walk(p, k, keys, ncols).driver| + |Walk(p, k, keys, ncols).target| <= |p.driver| + |p.target| + k
    decreases k
  {
    if k > 0 {
      WalkLengths(p, k - 1, keys, ncols);
    }
  }

  /** Inserting a row keeps every row of the table, in order. */
  lemma InsertAtKeeps(t: Table, i: nat, row: Row)
    requires i <= |t|
    ensures Subseq(t, InsertAt(t, i, row))
    ensures multiset(t) <= multiset(InsertAt(t, i, row))
  {
    SubseqInsertAt(t, i, row);
    MultisetInsertAt(t, i, row);
  }

  lemma MultisetInsertAt(t: Table, i: nat, row: Row)
    requires i <= |t|
    ensures multiset(InsertAt(t, i, row)) == multiset(t) + multiset{row}
  {
    var a, b := t[..i], t[i..];
    assert t == a + b;
    assert multiset(t) == multiset(a) + multiset(b);
    assert multiset(InsertAt(t, i, row)) == multiset(a) + multiset([row]) + multiset(b);
  }

  /** One step keeps the rows it finds, in their order, and adds at most one. */
  lemma StepKeepsRows(q: Pair, i: nat, keys: seq<nat>, ncols: nat)
    requires i < |q.driver|
    ensures Subseq(q.driver, Step(q, i, keys, ncols).driver)
    ensures Subseq(q.target, Step(q, i, keys, ncols).target)
    ensures multiset(q.driver) <= multiset(Step(q, i, keys, ncols).driver)
    ensures multiset(q.target) <= multiset(Step(q, i, keys, ncols).target)
  {
    var r := Step(q, i, keys, ncols);
    SubseqRefl(q.driver);
    SubseqRefl(q.target);
    if i >= |q.target| {
      assert r == Pair(q.driver, InsertAt(q.target, |q.target|, NullRow(ncols)));
      InsertAtKeeps(q.target, |q.target|, NullRow(ncols));
    } else if KeysAgree(q.driver[i], q.target[i], keys) {
      assert r == q;
    } else if r.driver == q.driver {
      assert r.target == InsertAt(q.target, i, KeyOnlyRow(q.driver[i], keys, ncols));
      InsertAtKeeps(q.target, i, KeyOnlyRow(q.driver[i], keys, ncols));
    } else {
      assert r == Pair(InsertAt(q.driver, i, KeyOnlyRow(q.target[i], keys, ncols)), q.target);
      InsertAtKeeps(q.driver, i, KeyOnlyRow(q.target[i], keys, ncols));
    }
  }


  /** The walk never deletes: each table's rows before the walk survive in their order. */
  lemma {:induction false} WalkKeepsRows(p: Pair, k: nat, keys: seq<nat>, ncols: nat)
    requires k <= |p.driver|
    ensures Subseq(p.driver, Walk(p, k, keys, ncols).driver)
    ensures Subseq(p.target, Walk(p, k, keys, ncols).target)
    ensures multiset(p.driver) <= multiset(Walk(p, k, keys, ncols).driver)
    ensures multiset(p.target) <= multiset(Walk(p, k, keys, ncols).target)
    decreases k
  {
    if k == 0 {
      SubseqRefl(p.driver);
      SubseqRefl(p.target);
    } else {
      WalkKeepsRows(p, k - 1, keys, ncols);
      var q := Walk(p, k - 1, keys, ncols);
      var r := Walk(p, k, keys, ncols);
      assert r == Step(q, k - 1, keys, ncols);
      StepKeepsRows(q, k - 1, keys, ncols);
      SubseqTrans(p.driver, q.driver, r.driver);
      SubseqTrans(p.target, q.target, r.target);
      assert multiset(p.driver) <= multiset(q.driver) <= multiset(r.driver);
      assert multiset(p.target) <= multiset(q.target) <= multiset(r.target);
    }
  }

  /** Rows added by the walk have the table's column count. */
  lemma {:induction false} WalkShape(p: Pair, k: nat, keys: seq<nat>, ncols: nat)
    requires k <= |p.driver|
    requires WellFormed(p.driver, ncols) && WellFormed(p.target, ncols)
    ensures WellFormed(Walk(p, k, keys, ncols).driver, ncols)
    ensures WellFormed(Walk(p, k, keys, ncols).target, ncols)
    decreases k
  {
    if k > 0 {
      WalkShape(p, k - 1, keys, ncols);
      StepShape(Walk(p, k - 1, keys, ncols), k - 1, keys, ncols);
    }
  }

  lemma InsertAtShape(t: Table, i: nat, row: Row, ncols: nat)
    requires i <= |t| && WellFormed(t, ncols) && |row| == ncols
    ensures WellFormed(InsertAt(t, i, row), ncols)
  {
    forall x | x in InsertAt(t, i, row) ensures |x| == ncols {
      assert x in t[..i] || x == row || x in t[i..];
    }
  }

  lemma StepShape(q: Pair, i: nat, keys: seq<nat>, ncols: nat)
    requires i < |q.driver|
    requires WellFormed(q.driver, ncols) && WellFormed(q.target, ncols)
    ensures WellFormed(Step(q, i, keys, ncols).driver, ncols)
    ensures WellFormed(Step(q, i, keys, ncols).target, ncols)
  {
    if i >= |q.target| {
      InsertAtShape(q.target, |q.target|, NullRow(ncols), ncols);
      assert InsertAt(q.target, |q.target|, NullRow(ncols)) == q.target + [NullRow(ncols)];
    } else if !KeysAgree(q.driver[i], q.target[i], keys) {
      InsertAtShape(q.target, i, KeyOnlyRow(q.driver[i], keys, ncols), ncols);
      InsertAtShape(q.driver, i, KeyOnlyRow(q.target[i], keys, ncols), ncols);
    }
  }

  /** Positions 0..k-1 are settled: the target row there is padding, or its keys equal the driver row's. */
  ghost predicate AlignedUpTo(w: Pair, k: nat, keys: seq<nat>, ncols: nat)
  {
    k <= |w.driver| && k <= |w.target| &&
    forall j :: 0 <= j < k ==> w.target[j] == NullRow(ncols) || KeysAgree(w.driver[j], w.target[j], keys)
  }

  /** Every row from position `k` on, in either table, has all its keys. */
  ghost predicate KeysPresentFrom(w: Pair, k: nat, keys: seq<nat>)
  {
    (forall j :: k <= j < |w.driver| ==> RowKeysPresent(w.driver[j], keys)) &&
    (forall j :: k <= j < |w.target| ==> RowKeysPresent(w.target[j], keys))
  }

  lemma StepAligns(p: Pair, i: nat, keys: seq<nat>, ncols: nat)
    requires i < |p.driver|
    requires forall j :: 0 <= j < |keys| ==> keys[j] < ncols
    requires AlignedUpTo(p, i, keys, ncols) && KeysPresentFrom(p, i, keys)
    ensures AlignedUpTo(Step(p, i, keys, ncols), i + 1, keys, ncols)
    ensures KeysPresentFrom(Step(p, i, keys, ncols), i + 1, keys)
  {
    var r := Step(p, i, keys, ncols);
    if i >= |p.target| {
      assert r.target[i] == NullRow(ncols);
      assert forall j :: 0 <= j < i ==> r.target[j] == p.target[j];
    } else if KeysAgree(p.driver[i], p.target[i], keys) {
    } else if r.driver == p.driver {
      var line := KeyOnlyRow(p.driver[i], keys, ncols);
      KeyOnlyRowAgrees(p.driver[i], keys, ncols);
      assert r.target[i] == line;
      assert forall j :: 0 <= j < i ==> r.target[j] == p.target[j];
      assert forall j :: i < j < |r.target| ==> r.target[j] == p.target[j - 1];
    } else {
      var line := KeyOnlyRow(p.target[i], keys, ncols);
      KeyOnlyRowAgrees(p.target[i], keys, ncols);
      assert r.driver[i] == line;
      assert forall j :: 0 <= j < i ==> r.driver[j] == p.driver[j];
      assert forall j :: i < j < |r.driver| ==> r.driver[j] == p.driver[j - 1];
    }
  }

  /**
   * When every row of both tables has its keys (as after the preprocessing),
   * after the first `k` steps every position below `k` holds either a padding
   * row in the target or two rows with equal keys.
   */
  lemma {:induction false} WalkAligns(p: Pair, k: nat, keys: seq<nat>, ncols: nat)
    requires k <= |p.driver|
    requires forall j :: 0 <= j < |keys| ==> keys[j] < ncols
    requires KeysPresent(p.driver, keys) && KeysPresent(p.target, keys)
    ensures AlignedUpTo(Walk(p, k, keys, ncols), k, keys, ncols)
    ensures KeysPresentFrom(Walk(p, k, keys, ncols), k, keys)
    decreases k
  {
    if k == 0 {
      assert forall j :: 0 <= j < |p.driver| ==> p.driver[j] in p.driver;
      assert forall j :: 0 <= j < |p.target| ==> p.target[j] in p.target;
    } else {
      WalkAligns(p, k - 1, keys, ncols);
      StepAligns(Walk(p, k - 1, keys, ncols), k - 1, keys, ncols);
    }
  }

  /** Two equal tables whose rows all have their keys are left as they are by the walk. */
  lemma {:induction false} WalkIdentical(t: Table, k: nat, keys: seq<nat>, ncols: nat)
    requires k <= |t|
    requires KeysPresent(t, keys)
    ensures Walk(Pair(t, t), k, keys, ncols) == Pair(t, t)
    decreases k
  {
    if k > 0 {
      WalkIdentical(t, k - 1, keys, ncols);
      assert t[k - 1] in t;
      assert KeysAgree(t[k - 1], t[k - 1], keys);
      assert Step(Pair(t, t), k - 1, keys, ncols) == Pair(t, t);
    }
  }

  /** Every row of both aligned tables has the column count of the inputs. */
  lemma AlignShape(df1: Table, df2: Table, keys: seq<nat>, ncols: nat)
    requires WellFormed(df1, ncols) && WellFormed(df2, ncols)
    ensures WellFormed(Align(df1, df2, keys, ncols).driver, ncols)
    ensures WellFormed(Align(df1, df2, keys, ncols).target, ncols)
  {
    var start := Pair(SortByKeys(df1, keys), SortByKeys(df2, keys));
    SortKeepsShape(df1, keys, ncols);
    SortKeepsShape(df2, keys, ncols);
    WalkShape(start, |df1|, keys, ncols);
    var w := Walk(start, |df1|, keys, ncols);
    SortKeepsShape(w.driver, keys, ncols);
    SortKeepsShape(w.target, keys, ncols);
  }

  lemma LabelledShape(df1: Table, df2: Table, keys: seq<nat>, ncols: nat)
    requires WellFormed(df1, ncols) && WellFormed(df2, ncols)
    ensures WellFormed(Labelled(df1, df2, keys, ncols).driver, ncols)
    ensures WellFormed(Labelled(df1, df2, keys, ncols).target, ncols)
  {
    if |df1| >= |df2| {
      AlignShape(df1, df2, keys, ncols);
    } else {
      AlignShape(df2, df1, keys, ncols);
    }
  }

  /**
   * Whichever table drives, each result holds every row of the argument in
   * the same place, and is at least as long: results come back in argument order.
   */
  lemma LabelledKeepsArguments(df1: Table, df2: Table, keys: seq<nat>, ncols: nat)
    ensures multiset(df1) <= multiset(Labelled(df1, df2, keys, ncols).driver)
    ensures multiset(df2) <= multiset(Labelled(df1, df2, keys, ncols).target)
    ensures |Labelled(df1, df2, keys, ncols).driver| >= |df1|
    ensures |Labelled(df1, df2, keys, ncols).target| >= |df2|
  {
    if |df1| >= |df2| {
      var start := Pair(SortByKeys(df1, keys), SortByKeys(df2, keys));
      WalkKeepsRows(start, |df1|, keys, ncols);
    } else {
      var start := Pair(SortByKeys(df2, keys), SortByKeys(df1, keys));
      WalkKeepsRows(start, |df2|, keys, ncols);
    }
  }

  /** The lookup of `values_found_in_df` as a row mask: `mask & (df_tgt[col] == value)`. */
  function Filter(t: Table, mask: seq<bool>): (r: Table)
    requires |mask| == |t|
    decreases |t|
  {
    if |t| == 0 then []
    else (if mask[0] then [t[0]] else []) + Filter(t[1..], mask[1..])
  }

  lemma {:induction false} FilterMatches(t: Table, mask: seq<bool>, d: Lookup)
    requires |mask| == |t|
    requires forall i :: 0 <= i < |t| ==> (mask[i] <==> RowMatches(t[i], d))
    ensures Filter(t, mask) == MatchingRows(t, d)
    decreases |t|
  {
    if |t| > 0 {
      FilterMatches(t[1..], mask[1..], d);
    }
  }

  /**
   * `values_found_in_df`: folds the lookup into a row mask one column at a
   * time, then keeps the masked rows; a missing column (KeyError) ends the
   * search with no rows.
   */
  method ValuesFoundInDf(d: Lookup, t: Table, ncols: nat) returns (res: Table)
    requires WellFormed(t, ncols)
    ensures res == ValuesFound(d, t, ncols)
  {
    var mask: seq<bool> := seq(|t|, _ => true);
    var k := 0;
    while k < |d|
      invariant 0 <= k <= |d|
      invariant |mask| == |t|
      invariant forall m :: 0 <= m < k ==> d[m].0 < ncols
      invariant forall i :: 0 <= i < |t| ==>
        (mask[i] <==> forall m :: 0 <= m < k ==> CellsEqual(CellAt(t[i], d[m].0), d[m].1))
    {
      var col := d[k].0;
      var value := d[k].1;
      if col >= ncols {
        return [];
      }
      mask := seq(|t|, i requires 0 <= i < |t| && i < |mask| => mask[i] && CellsEqual(CellAt(t[i], col), value));
      k := k + 1;
    }
    if |d| == 0 {
      return [];
    }
    FilterMatches(t, mask, d);
    res := Filter(t, mask);
  }

  /** Builds the inserted line column by column (`line.loc[0, col] = …`). */
  method KeyOnlyLine(src: Row, keys: seq<nat>, ncols: nat) returns (line: Row)
    requires forall j :: 0 <= j < |keys| ==> keys[j] < ncols
    ensures line == KeyOnlyRow(src, keys, ncols)
  {
    line := NullRow(ncols);
    var j := 0;
    while j < |keys|
      invariant 0 <= j <= |keys|
      invariant |line| == ncols
      invariant forall c :: 0 <= c < ncols ==> line[c] == if c in keys[..j] then CellAt(src, c) else None
    {
      assert keys[..j + 1] == keys[..j] + [keys[j]];
      line := line[keys[j] := CellAt(src, keys[j])];
      j := j + 1;
    }
    assert keys[..j] == keys;
  }

  /** One pass of the loop body at update_mask.py:84-118, on the tables as they are at position `i`. */
  method AlignAt(d1: Table, d2: Table, i: nat, keys: seq<nat>, ncols: nat) returns (e1: Table, e2: Table)
    requires i < |d1|
    requires WellFormed(d1, ncols) && WellFormed(d2, ncols)
    requires forall j :: 0 <= j < |keys| ==> keys[j] < ncols
    ensures Pair(e1, e2) == Step(Pair(d1, d2), i, keys, ncols)
  {
    e1, e2 := d1, d2;
    if i >= |d2| {
      e2 := d2 + [NullRow(ncols)];
      return;
    }
    var areSame := true;
    var cur1: Lookup := [];
    var j := 0;
    while j < |keys|
      invariant 0 <= j <= |keys|
      invariant cur1 == KeyDict(d1[i], keys[..j])
      invariant areSame <==> forall m :: 0 <= m < j ==> CellsEqual(CellAt(d1[i], keys[m]), CellAt(d2[i], keys[m]))
    {
      cur1 := cur1 + [(keys[j], d1[i][keys[j]])];
      if d1[i][keys[j]] != d2[i][keys[j]] || d1[i][keys[j]].None? {
        areSame := false;
      }
      j := j + 1;
    }
    assert keys[..j] == keys;
    if !areSame {
      var found := ValuesFoundInDf(cur1, d2[i + 1..], ncols);
      if |found| == 0 {
        var line := KeyOnlyLine(d1[i], keys, ncols);
        e2 := d2[..i] + [line] + d2[i..];
      } else {
        var line := KeyOnlyLine(d2[i], keys, ncols);
        e1 := d1[..i] + [line] + d1[i..];
      }
    }
  }

  /**
   * The loop at update_mask.py:81-118. It runs over the rows `df1.iterrows()`
   * was started on, so exactly `|d1|` times, however many lines are inserted
   * into the driver along the way.
   */
  method WalkTables(d1: Table, d2: Table, keys: seq<nat>, ncols: nat) returns (e1: Table, e2: Table)
    requires WellFormed(d1, ncols) && WellFormed(d2, ncols)
    requires forall j :: 0 <= j < |keys| ==> keys[j] < ncols
    ensures Pair(e1, e2) == Walk(Pair(d1, d2), |d1|, keys, ncols)
  {
    e1, e2 := d1, d2;
    var n := |d1|;
    var i := 0;
    while i < n
      invariant 0 <= i <= n
      invariant Pair(e1, e2) == Walk(Pair(d1, d2), i, keys, ncols)
    {
      WalkShape(Pair(d1, d2), i, keys, ncols);
      e1, e2 := AlignAt(e1, e2, i, keys, ncols);
      i := i + 1;
    }
  }

  /** `_make_two_dataframes_identically_labelled`: sort both tables, walk, sort both again. */
  method AlignTables(df1: Table, df2: Table, keys: seq<nat>, ncols: nat) returns (r1: Table, r2: Table)
    requires WellFormed(df1, ncols) && WellFormed(df2, ncols)
    requires forall j :: 0 <= j < |keys| ==> keys[j] < ncols
    ensures Pair(r1, r2) == Align(df1, df2, keys, ncols)
  {
    var d1 := SortByKeys(df1, keys);
    var d2 := SortByKeys(df2, keys);
    SortKeepsShape(df1, keys, ncols);
    SortKeepsShape(df2, keys, ncols);
    d1, d2 := WalkTables(d1, d2, keys, ncols);
    r1 := SortByKeys(d1, keys);
    r2 := SortByKeys(d2, keys);
  }

  /** `make_two_dataframes_identically_labelled`: the longer table drives, ties go to `df1`. */
  method MakeTwoDataframesIdenticallyLabelled(df1: Table, df2: Table, keys: seq<nat>, ncols: nat)
    returns (r1: Table, r2: Table)
    requires WellFormed(df1, ncols) && WellFormed(df2, ncols)
    requires forall j :: 0 <= j < |keys| ==> keys[j] < ncols
    ensures |df1| >= |df2| ==> Pair(r1, r2) == Align(df1, df2, keys, ncols)
    ensures |df1| < |df2| ==> Pair(r2, r1) == Align(df2, df1, keys, ncols)
    ensures Pair(r1, r2) == Labelled(df1, df2, keys, ncols)
  {
    if |df1| >= |df2| {
      r1, r2 := AlignTables(df1, df2, keys, ncols);
    } else {
      r2, r1 := AlignTables(df2, df1, keys, ncols);
    }
  }
}
