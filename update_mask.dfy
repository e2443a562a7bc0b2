/**
 * The `UpdateMask` reconciliation of update_mask.py: the cell normaliser,
 * the row serialiser, the positional equality mask and its trimming, and the
 * object that ties them to the row alignment of the `Alignment` module.
 */
module Reconciliation {
  import opened Wrappers
  import opened Text
  import opened Frames
  import opened Alignment

  /** The text the normaliser removes: a midnight time part. */
  const Midnight: string := "00:00:00"

  /**
   * One cell of `change_all_coltypes_to_str`: its text with every
   * non-overlapping "00:00:00" removed left to right, then stripped of
   * surrounding whitespace.
   */
  function Normalise(text: string): (r: string)
    ensures |r| > 0 ==> r[0] !in Whitespace && r[|r| - 1] !in Whitespace
  {
    Strip(ReplaceAll(text, Midnight, ""), Whitespace)
  }

  /**
   * A date written without ':' and stored with a midnight time loses exactly
   * the time part, e.g. "2022-03-03 00:00:00" becomes "2022-03-03".
   */
  lemma NormaliseDate(date: string)
    requires ':' !in date
    requires |date| > 0 && date[0] !in Whitespace && date[|date| - 1] !in Whitespace
    ensures Normalise(date + " " + Midnight) == date
  {
    RemoveMidnight(date + " " + Midnight, date);
    StripEnds(date, " ", Whitespace);
  }

  /** No occurrence of "00:00:00" starts inside a text without ':' or in the space after it. */
  lemma {:induction false} RemoveMidnight(s: string, date: string)
    requires ':' !in date && s == date + " " + Midnight
    ensures ReplaceAll(s, Midnight, "") == date + " "
    decreases |date|
  {
    assert s[2] != Midnight[2] by {
      if |date| > 2 {
        assert s[2] == date[2];
      }
    }
    ReplaceSkip(s, Midnight, "", 2);
    if |date| == 0 {
      assert s[1..] == Midnight + "";
      ReplaceLeading(Midnight, "", "");
    } else {
      assert s[1..] == date[1..] + " " + Midnight;
      RemoveMidnight(s[1..], date[1..]);
      assert date + " " == [date[0]] + (date[1..] + " ");
    }
  }

  /** A text without a midnight part and without surrounding whitespace is left as it is. */
  lemma NormaliseClean(text: string)
    requires !Contains(text, Midnight)
    requires |text| > 0 ==> text[0] !in Whitespace && text[|text| - 1] !in Whitespace
    ensures Normalise(text) == text
  {
    ReplaceAbsent(text, Midnight, "");
    StripClean(text, Whitespace);
  }

  /**
   * The removal is a single pass: removing one occurrence can join the text
   * around it into a new one, which stays, so normalising twice can differ
   * from normalising once.
   */
  lemma NormaliseSinglePass(s: string)
    requires s == "000:00:000:00:00"
    ensures Normalise(s) == Midnight
    ensures Normalise(Normalise(s)) == ""
  {
    assert ReplaceAll(s, Midnight, "") == Midnight by {
      var rest := "0:00:00";
      assert s[1..] == Midnight + rest;
      ReplaceAfterOne(s, Midnight, "", rest, 2);
      assert [s[0]] + "" + rest == Midnight;
    }
    assert Strip(Midnight, Whitespace) == Midnight by {
      StripClean(Midnight, Whitespace);
    }
    assert ReplaceAll(Midnight, Midnight, "") == "" by {
      ReplaceLeading(Midnight, "", "");
      assert Midnight + "" == Midnight;
    }
  }

  /** A cell after `astype('str')` and the normaliser: always a text. */
  function NormaliseCell(c: Cell): Cell
  {
    Some(Normalise(CellText(c)))
  }

  /** The whole table after `change_all_coltypes_to_str`. */
  function NormaliseTable(t: Table): (r: Table)
    ensures |r| == |t|
    ensures forall i :: 0 <= i < |t| ==> |r[i]| == |t[i]|
    ensures forall i, c :: 0 <= i < |r| && 0 <= c < |r[i]| ==> r[i][c].Some?
    ensures forall i, c :: 0 <= i < |r| && 0 <= c < |r[i]| && |r[i][c].value| > 0 ==>
      r[i][c].value[0] !in Whitespace && r[i][c].value[|r[i][c].value| - 1] !in Whitespace
  {
    seq(|t|, i requires 0 <= i < |t| => seq(|t[i]|, c requires 0 <= c < |t[i]| => NormaliseCell(t[i][c])))
  }

  /** Normalising keeps the column count, and afterwards every key is present. */
  lemma NormaliseShape(t: Table, keys: seq<nat>, ncols: nat)
    requires WellFormed(t, ncols)
    requires forall j :: 0 <= j < |keys| ==> keys[j] < ncols
    ensures WellFormed(NormaliseTable(t), ncols)
    ensures KeysPresent(NormaliseTable(t), keys)
  {
    var r := NormaliseTable(t);
    forall row | row in r ensures |row| == ncols && RowKeysPresent(row, keys) {
      var i :| 0 <= i < |r| && r[i] == row;
      assert t[i] in t;
    }
  }

  /** A table whose cells are already clean texts is its own normal form. */
  lemma NormaliseTableClean(t: Table)
    requires forall i, c :: 0 <= i < |t| && 0 <= c < |t[i]| ==>
      t[i][c].Some? && !Contains(t[i][c].value, Midnight) &&
      (|t[i][c].value| > 0 ==> t[i][c].value[0] !in Whitespace && t[i][c].value[|t[i][c].value| - 1] !in Whitespace)
    ensures NormaliseTable(t) == t
  {
    var r := NormaliseTable(t);
    forall i | 0 <= i < |t| ensures r[i] == t[i] {
      forall c | 0 <= c < |t[i]| ensures r[i][c] == t[i][c] {
        NormaliseClean(t[i][c].value);
      }
    }
  }

  /**
   * `change_all_coltypes_to_str`: rewrites the table one column at a time,
   * each cell becoming its normalised text.
   */
  method ChangeAllColtypesToStr(raw: Table, ncols: nat) returns (t: Table)
    requires WellFormed(raw, ncols)
    ensures t == NormaliseTable(raw)
  {
    t := raw;
    var c := 0;
    while c < ncols
      invariant 0 <= c <= ncols
      invariant |t| == |raw|
      invariant forall i :: 0 <= i < |t| ==> |t[i]| == ncols
      invariant forall i, j :: 0 <= i < |t| && 0 <= j < c ==> t[i][j] == NormaliseCell(raw[i][j])
      invariant forall i, j :: 0 <= i < |t| && c <= j < ncols ==> t[i][j] == raw[i][j]
    {
      t := seq(|t|, i requires 0 <= i < |t| && c < |t[i]| => t[i][c := NormaliseCell(t[i][c])]);
      c := c + 1;
    }
    forall i | 0 <= i < |raw| ensures t[i] == NormaliseTable(raw)[i] {
      assert raw[i] in raw;
    }
  }

  /** The line `convert_df_to_list_of_str` makes from a row: every cell's text followed by '|', stripped of '|' at both ends. */
  function RowLine(row: Row): (line: string)
    ensures |line| > 0 ==> line[0] != '|' && line[|line| - 1] != '|'
  {
    Strip(Terminated(Texts(row), "|"), {'|'})
  }

  /** The texts of a row's cells. */
  function Texts(row: Row): (ts: seq<string>)
    ensures |ts| == |row|
  {
    seq(|row|, c requires 0 <= c < |row| => CellText(row[c]))
  }

  /** A join starts with its first piece and ends with its last. */
  lemma {:induction false} JoinEnds(xs: seq<string>, sep: string)
    requires |xs| > 0
    ensures xs[0] <= Join(xs, sep)
    ensures |Join(xs, sep)| >= |xs[|xs| - 1]|
    ensures Join(xs, sep)[|Join(xs, sep)| - |xs[|xs| - 1]|..] == xs[|xs| - 1]
  {
    var n := |xs|;
    if n > 1 {
      assert xs == xs[..n - 1] + [xs[n - 1]];
      JoinAppend(xs[..n - 1], xs[n - 1], sep);
    }
  }

  /**
   * When the first and last cells are non-empty and no cell holds a '|',
   * splitting the line at '|' gives back every cell's text.
   */
  lemma RowLineSplit(row: Row)
    requires |row| > 0
    requires forall c :: 0 <= c < |row| ==> '|' !in CellText(row[c])
    requires |CellText(row[0])| > 0 && |CellText(row[|row| - 1])| > 0
    ensures RowLine(row) == Join(Texts(row), "|")
    ensures Split(RowLine(row), '|') == Texts(row)
  {
    var ts := Texts(row);
    var j := Join(ts, "|");
    TerminatedJoin(ts, "|");
    JoinEnds(ts, "|");
    assert j[0] == ts[0][0];
    assert j[|j| - 1] == ts[|ts| - 1][|ts[|ts| - 1]| - 1];
    StripEnds(j, "|", {'|'});
    SplitJoin(ts, '|');
  }

  /** An empty first cell leaves no trace in the line: the serialisation is lossy. */
  lemma RowLineDropsEmptyEnds()
    ensures RowLine([Some(""), Some("a")]) == "a"
  {
    var row: Row := [Some(""), Some("a")];
    var s := "|a|";
    assert Terminated(Texts(row), "|") == s by {
      assert Texts(row) == ["", "a"];
      assert ["", "a"][..1] == [""];
      assert Terminated([""], "|") == "|";
    }
    assert LeadingCount(s, {'|'}) == 1 by {
      assert s[1..] == "a|";
    }
    assert Strip(s, {'|'}) == "a" by {
      StripEnds("a", "|", {'|'});
      assert s[1..] == "a" + "|";
    }
  }

  /** The body of the row loop in `convert_df_to_list_of_str`: appends each cell's text and a '|', then strips. */
  method RowToLine(row: Row) returns (line: string)
    ensures line == RowLine(row)
  {
    line := "";
    var c := 0;
    while c < |row|
      invariant 0 <= c <= |row|
      invariant line == Terminated(Texts(row[..c]), "|")
    {
      assert Texts(row[..c + 1])[..c] == Texts(row[..c]);
      line := line + CellText(row[c]) + "|";
      c := c + 1;
    }
    assert row[..|row|] == row;
    line := Strip(line, {'|'});
  }

  /** `convert_df_to_list_of_str`: one line per row, in row order. */
  method ConvertDfToListOfStr(t: Table) returns (lines: seq<string>)
    ensures |lines| == |t|
    ensures forall i :: 0 <= i < |t| ==> lines[i] == RowLine(t[i])
  {
    lines := [];
    var i := 0;
    while i < |t|
      invariant 0 <= i <= |t|
      invariant |lines| == i
      invariant forall k :: 0 <= k < i ==> lines[k] == RowLine(t[k])
    {
      var line := RowToLine(t[i]);
      lines := lines + [line];
      i := i + 1;
    }
  }

  /**
   * `df_after == df_before` on two tables of the same shape: a cell is true
   * iff both cells are the same text (a null equals nothing, not even a null).
   */
  function EqualityMask(a: Table, b: Table): (m: seq<seq<bool>>)
    requires |a| == |b|
    requires forall i :: 0 <= i < |a| ==> |a[i]| == |b[i]|
    ensures |m| == |a|
    ensures forall i :: 0 <= i < |a| ==> |m[i]| == |a[i]|
    ensures forall i, c :: 0 <= i < |a| && 0 <= c < |a[i]| ==> (m[i][c] <==> a[i][c].Some? && a[i][c] == b[i][c])
  {
    seq(|a|, i requires 0 <= i < |a| => seq(|a[i]|, c requires 0 <= c < |a[i]| => CellsEqual(a[i][c], b[i][c])))
  }

  /** The mask does not depend on which table is on which side. */
  lemma MaskSymmetric(a: Table, b: Table)
    requires |a| == |b|
    requires forall i :: 0 <= i < |a| ==> |a[i]| == |b[i]|
    ensures EqualityMask(a, b) == EqualityMask(b, a)
  {
    var m1 := EqualityMask(a, b);
    var m2 := EqualityMask(b, a);
    forall i | 0 <= i < |a| ensures m1[i] == m2[i] {
    }
  }

  /** The position of the first row whose cell in `col` is null, if any. */
  function FirstNullRow(t: Table, col: nat): (r: Option<nat>)
    ensures r.Some? ==> r.value < |t| && CellAt(t[r.value], col).None?
    ensures r.Some? ==> forall j :: 0 <= j < r.value ==> CellAt(t[j], col).Some?
    ensures r.None? ==> forall j :: 0 <= j < |t| ==> CellAt(t[j], col).Some?
    decreases |t|
  {
    if |t| == 0 then None
    else if CellAt(t[0], col).None? then Some(0)
    else match FirstNullRow(t[1..], col)
      case None => None
      case Some(j) => Some(j + 1)
  }

  /**
   * The trimming of `readjust_mask_with_new_size`: drops the mask row at
   * `row` when there is one, and keeps every other row in its order.
   */
  function TrimMask(m: seq<seq<bool>>, row: Option<nat>): (r: seq<seq<bool>>)
    ensures row.None? || row.value >= |m| ==> r == m
    ensures row.Some? && row.value < |m| ==> |r| == |m| - 1
    ensures row.Some? && row.value < |m| ==>
      (forall j :: 0 <= j < row.value ==> r[j] == m[j]) &&
      (forall j :: row.value <= j < |r| ==> r[j] == m[j + 1])
  {
    match row
    case None => m
    case Some(i) => if i < |m| then m[..i] + m[i + 1..] else m
  }

  /** Two well-formed tables of the same length have rows of the same lengths. */
  lemma SameShape(a: Table, b: Table, ncols: nat)
    requires WellFormed(a, ncols) && WellFormed(b, ncols) && |a| == |b|
    ensures forall i :: 0 <= i < |a| ==> |a[i]| == |b[i]|
  {
    assert forall i :: 0 <= i < |a| ==> a[i] in a && b[i] in b;
  }

  /**
   * What `save_mask` leaves in `update_mask`: nothing when the two tables
   * differ in length (pandas refuses to compare them and raises), otherwise
   * the equality mask trimmed at the first after-row whose dup-check cell is null.
   */
  function MaskFor(after: Table, before: Table, col: nat, ncols: nat): Option<seq<seq<bool>>>
    requires WellFormed(after, ncols) && WellFormed(before, ncols)
  {
    if |after| != |before| then None
    else
      SameShape(after, before, ncols);
      Some(TrimMask(EqualityMask(after, before), FirstNullRow(after, col)))
  }

  /**
   * The `UpdateMask` object: the two snapshots after normalisation and
   * alignment, the key columns, the dup-check column, and the mask
   * (`None` when the comparison raised because the aligned lengths differ).
   */
  class UpdateMask {
    var dfBefore: Table
    var dfAfter: Table
    var colList: seq<nat>
    var colDupCheck: nat
    var ncols: nat
    var updateMask: Option<seq<seq<bool>>>

    /** The fields the trimming step relies on. */
    predicate Valid()
      reads this
    {
      WellFormed(dfBefore, ncols) && WellFormed(dfAfter, ncols) && colDupCheck < ncols
    }

    /**
     * `UpdateMask(df_before, df_after, col_list, ..., col_dup_check)`:
     * normalises both snapshots, aligns them with "after" as the first
     * argument, and saves the mask.
     */
    constructor (before: Table, after: Table, colList: seq<nat>, colDupCheck: nat, ncols: nat)
      requires WellFormed(before, ncols) && WellFormed(after, ncols)
      requires forall j :: 0 <= j < |colList| ==> colList[j] < ncols
      requires colDupCheck < ncols
      ensures Valid()
      ensures this.colList == colList && this.colDupCheck == colDupCheck && this.ncols == ncols
      ensures Pair(dfAfter, dfBefore) == Labelled(NormaliseTable(after), NormaliseTable(before), colList, ncols)
      ensures updateMask == MaskFor(dfAfter, dfBefore, colDupCheck, ncols)
    {
      var b := ChangeAllColtypesToStr(before, ncols);
      var a := ChangeAllColtypesToStr(after, ncols);
      NormaliseShape(before, colList, ncols);
      NormaliseShape(after, colList, ncols);
      this.colList := colList;
      this.colDupCheck := colDupCheck;
      this.ncols := ncols;
      var ra, rb := MakeTwoDataframesIdenticallyLabelled(a, b, colList, ncols);
      LabelledShape(a, b, colList, ncols);
      dfAfter := ra;
      dfBefore := rb;
      updateMask := None;
      new;
      SaveMask();
    }

    /** `save_mask`: compares the two tables cell by cell, then trims the mask. */
    method SaveMask()
      requires Valid()
      modifies this
      ensures Valid()
      ensures dfBefore == old(dfBefore) && dfAfter == old(dfAfter)
      ensures colList == old(colList) && colDupCheck == old(colDupCheck) && ncols == old(ncols)
      ensures updateMask == MaskFor(dfAfter, dfBefore, colDupCheck, ncols)
    {
      if |dfAfter| != |dfBefore| {
        updateMask := None;
        return;
      }
      SameShape(dfAfter, dfBefore, ncols);
      var m := EqualityMask(dfAfter, dfBefore);
      updateMask := Some(m);
      ReadjustMaskWithNewSize();
    }

    /**
     * `readjust_mask_with_new_size`: drops the mask row of the first
     * after-row whose dup-check cell is null, if there is one.
     */
    method ReadjustMaskWithNewSize()
      requires Valid()
      requires updateMask.Some? && |updateMask.value| == |dfAfter|
      modifies this
      ensures Valid()
      ensures dfBefore == old(dfBefore) && dfAfter == old(dfAfter)
      ensures colList == old(colList) && colDupCheck == old(colDupCheck) && ncols == old(ncols)
      ensures updateMask == Some(TrimMask(old(updateMask).value, FirstNullRow(dfAfter, colDupCheck)))
    {
      var first := FirstNullRow(dfAfter, colDupCheck);
      if first.Some? {
        var i := first.value;
        updateMask := Some(updateMask.value[..i] + updateMask.value[i + 1..]);
      }
    }
  }

  /** Every cell of the normalised snapshot in key order is a text. */
  lemma SortedNormalisedTexts(t: Table, keys: seq<nat>, ncols: nat)
    requires WellFormed(t, ncols)
    ensures var s := SortByKeys(NormaliseTable(t), keys);
      WellFormed(s, ncols) && forall i, c :: 0 <= i < |s| && 0 <= c < ncols ==> s[i][c].Some?
  {
    var n := NormaliseTable(t);
    var s: Table := SortByKeys(n, keys);
    var noKeys: seq<nat> := [];
    NormaliseShape(t, noKeys, ncols);
    SortKeepsShape(n, keys, ncols);
    forall i: int, c: int | 0 <= i < |s| && 0 <= c < ncols ensures s[i][c].Some? {
      assert s[i] in multiset(n);
      var k :| 0 <= k < |n| && n[k] == s[i];
      assert t[k] in t;
    }
  }

  /** A table compared with itself, all of whose cells are texts: nothing is trimmed and every cell is true. */
  lemma MaskOfTexts(s: Table, col: nat, ncols: nat)
    requires WellFormed(s, ncols) && col < ncols
    requires forall i, c :: 0 <= i < |s| && 0 <= c < ncols ==> s[i][c].Some?
    ensures FirstNullRow(s, col) == None
    ensures MaskFor(s, s, col, ncols).Some? && |MaskFor(s, s, col, ncols).value| == |s|
    ensures forall i, c :: 0 <= i < |s| && 0 <= c < ncols ==> MaskFor(s, s, col, ncols).value[i][c]
  {
    assert forall i :: 0 <= i < |s| ==> s[i] in s;
  }

  /** The same table on both sides aligns to itself in key order. */
  lemma LabelledIdentical(n: Table, keys: seq<nat>, ncols: nat)
    requires KeysPresent(n, keys)
    ensures Labelled(n, n, keys, ncols) == Pair(SortByKeys(n, keys), SortByKeys(n, keys))
  {
    var s := SortByKeys(n, keys);
    SortKeepsShape(n, keys, ncols);
    WalkIdentical(s, |n|, keys, ncols);
    SortByKeysSorted(n, keys);
    SortOfSorted(s, keys);
  }

  /**
   * Two identical snapshots: both aligned tables are the normalised snapshot
   * in key order (the snapshot itself when it is already in that order), and
   * the mask is entirely true with no row trimmed.
   */
  lemma IdenticalSnapshots(t: Table, keys: seq<nat>, col: nat, ncols: nat)
    requires WellFormed(t, ncols)
    requires forall j :: 0 <= j < |keys| ==> keys[j] < ncols
    requires col < ncols
    ensures var n := NormaliseTable(t);
      Labelled(n, n, keys, ncols) == Pair(SortByKeys(n, keys), SortByKeys(n, keys))
    ensures SortedByKeys(NormaliseTable(t), keys) ==> SortByKeys(NormaliseTable(t), keys) == NormaliseTable(t)
    ensures var s := SortByKeys(NormaliseTable(t), keys);
      WellFormed(s, ncols) &&
      MaskFor(s, s, col, ncols).Some? && |MaskFor(s, s, col, ncols).value| == |t| &&
      forall i, c :: 0 <= i < |t| && 0 <= c < ncols ==> MaskFor(s, s, col, ncols).value[i][c]
  {
    var n := NormaliseTable(t);
    NormaliseShape(t, keys, ncols);
    LabelledIdentical(n, keys, ncols);
    if SortedByKeys(n, keys) {
      SortOfSorted(n, keys);
    }
    SortedNormalisedTexts(t, keys, ncols);
    MaskOfTexts(SortByKeys(n, keys), col, ncols);
  }

  /**
   * Two rows on each side, already in key order, whose first keys agree and
   * whose second keys differ: the walk stops after two positions with the
   * second table three rows long, so the tables cannot be compared and no
   * mask is produced. Keys 1, 2 against keys 1, 3 are such a pair.
   */
  lemma UnresolvedMismatch(after: Table, before: Table, keys: seq<nat>, ncols: nat)
    requires |after| == 2 && |before| == 2 && WellFormed(after, ncols) && WellFormed(before, ncols)
    requires RowLe(after[0], after[1], keys) && RowLe(before[0], before[1], keys)
    requires KeysAgree(after[0], before[0], keys) && !KeysAgree(after[1], before[1], keys)
    ensures var p := Labelled(after, before, keys, ncols);
      |p.driver| == 2 && |p.target| == 3 &&
      WellFormed(p.driver, ncols) && WellFormed(p.target, ncols) && MaskFor(p.driver, p.target, 0, ncols).None?
  {
    SortOfSorted(after, keys);
    SortOfSorted(before, keys);
    LabelledOfSorted(after, before, keys, ncols);
    WalkTwoMismatch(after, before, keys, ncols);
    AlignShape(after, before, keys, ncols);
  }

  /** The instance with one key column: keys 1, 2 in "after" against keys 1, 3 in "before". */
  lemma UnresolvedOneTwoOneThree()
    ensures var p := Labelled([[Some("1")], [Some("2")]], [[Some("1")], [Some("3")]], [0], 1);
      |p.driver| == 2 && |p.target| == 3
  {
    var after: Table := [[Some("1")], [Some("2")]];
    var before: Table := [[Some("1")], [Some("3")]];
    var keys: seq<nat> := [0];
    assert RowLe(after[0], after[1], keys) by {
      assert KeyOf(after[0], keys) == [Some("1")] && KeyOf(after[1], keys) == [Some("2")];
    }
    assert RowLe(before[0], before[1], keys) by {
      assert KeyOf(before[0], keys) == [Some("1")] && KeyOf(before[1], keys) == [Some("3")];
    }
    assert KeysAgree(after[0], before[0], keys) && !KeysAgree(after[1], before[1], keys) by {
      assert CellAt(after[1], 0) == Some("2") && CellAt(before[1], 0) == Some("3");
    }
    UnresolvedMismatch(after, before, keys, 1);
  }

  /** With both tables already in key order and the first at least as long, it drives a walk over its own rows. */
  lemma LabelledOfSorted(df1: Table, df2: Table, keys: seq<nat>, ncols: nat)
    requires |df1| >= |df2|
    requires SortByKeys(df1, keys) == df1 && SortByKeys(df2, keys) == df2
    ensures var w := Walk(Pair(df1, df2), |df1|, keys, ncols);
      Labelled(df1, df2, keys, ncols) == Pair(SortByKeys(w.driver, keys), SortByKeys(w.target, keys))
  {
  }

  /** Two rows each, the first keys agreeing and the second not, with nothing after: the target grows by one. */
  lemma WalkTwoMismatch(after: Table, before: Table, keys: seq<nat>, ncols: nat)
    requires |after| == 2 && |before| == 2
    requires KeysAgree(after[0], before[0], keys) && !KeysAgree(after[1], before[1], keys)
    ensures |Walk(Pair(after, before), 2, keys, ncols).driver| == 2
    ensures |Walk(Pair(after, before), 2, keys, ncols).target| == 3
  {
    var p0 := Pair(after, before);
    assert Walk(p0, 1, keys, ncols) == p0;
    assert before[2..] == [];
    assert MatchingRows([], KeyDict(after[1], keys)) == [];
  }
}
