/**
 * The SQL text that df_mysql_uploader.py sends to MySQL: sanitised column
 * names, the column definitions of `CREATE TABLE`, the `DROP TABLE`
 * statement, and the single multi-row `INSERT` that uploads a whole table.
 *
 * A table is a `DataFrame` object whose columns the uploader rewrites in
 * place. Each column carries its name, its dtype name and its cells, each
 * cell already written as the text `str()` gives it ("nan" for a missing
 * number, "NaT" for a missing time). The connection and cursor are not
 * modelled: the operations return the statement text they would execute.
 */
module SqlUploader {
  import opened Text

  /** A column of the table: its label, its dtype name and the `str()` of each cell. */
  datatype Column = Column(name: string, dtype: string, cells: seq<string>)

  /** The dtype names that `create_tbl` translates into MySQL column types. */
  const DtypeConversion: map<string, string> := map[
    "object" := "VARCHAR(255)",
    "float64" := "FLOAT",
    "int64" := "INT",
    "datetime64" := "TIMESTAMP",
    "datetime64[ns]" := "TIMESTAMP",
    "timedelta64[ns]" := "VARCHAR(255)"
  ]

  /**
   * The column type written for a dtype: its translation when the map has
   * one, the dtype name itself otherwise. The type is never itself a key of
   * the map, so translating twice changes nothing.
   */
  function SqlType(dtype: string): (t: string)
    ensures t == dtype || t in DtypeConversion.Values
    ensures dtype in DtypeConversion ==> t in DtypeConversion.Values
  {
    if dtype in DtypeConversion then DtypeConversion[dtype] else dtype
  }

  /** A translated type is not translated again: the map's types are none of its keys. */
  lemma SqlTypeStable(dtype: string)
    ensures SqlType(SqlType(dtype)) == SqlType(dtype)
  {
    var t := SqlType(dtype);
    if dtype in DtypeConversion {
      assert t in {"VARCHAR(255)", "FLOAT", "INT", "TIMESTAMP"};
      assert t !in DtypeConversion;
    }
  }

  /** No character of `s` is in `bad`. */
  predicate NoneOf(s: string, bad: set<char>)
  {
    forall ch :: ch in s ==> ch !in bad
  }

  predicate NoUpper(s: string)
  {
    forall ch :: ch in s ==> !IsUpper(ch)
  }

  /** The characters no sanitised column name contains. */
  const Removed: set<char> := {' ', '(', ')', '/', '.', ':', '\\', '$'}

  /**
   * The chain of `lower` and `replace` calls applied to every column label,
   * in the order the uploader applies them.
   */
  function SanitiseChain(x: string): string
  {
    var s1 := ReplaceAll(Lower(x), " ", "_");
    var s2 := ReplaceAll(s1, "(", "_");
    var s3 := ReplaceAll(s2, ")", "");
    var s4 := ReplaceAll(s3, "/", "");
    var s5 := ReplaceAll(s4, ".", "");
    var s6 := ReplaceAll(s5, ":", "");
    var s7 := ReplaceAll(s6, "__", "_");
    var s8 := ReplaceAll(s7, "\\", "");
    ReplaceAll(s8, "$", "")
  }

  /** The label a column gets from `cleanup_tbl_columns`: the sanitised label, with "index" renamed "req_index". */
  function ColumnName(x: string): string
  {
    var n := SanitiseChain(x);
    if n == "index" then "req_index" else n
  }

  /** A replacement whose text and replacement avoid `bad` (and capitals) yields a text that avoids them too. */
  lemma ReplaceKeepsClean(s: string, pat: string, rep: string, bad: set<char>)
    requires |pat| > 0
    ensures NoneOf(s, bad) && NoneOf(rep, bad) ==> NoneOf(ReplaceAll(s, pat, rep), bad)
    ensures NoUpper(s) && NoUpper(rep) ==> NoUpper(ReplaceAll(s, pat, rep))
  {
    ReplaceChars(s, pat, rep);
  }

  /** A sanitised label is lower case and holds none of the removed characters. */
  lemma SanitiseChainClean(x: string)
    ensures NoUpper(SanitiseChain(x)) && NoneOf(SanitiseChain(x), Removed)
  {
    var s0 := Lower(x);
    var s1 := ReplaceAll(s0, " ", "_");
    var s2 := ReplaceAll(s1, "(", "_");
    var s3 := ReplaceAll(s2, ")", "");
    var s4 := ReplaceAll(s3, "/", "");
    var s5 := ReplaceAll(s4, ".", "");
    var s6 := ReplaceAll(s5, ":", "");
    var s7 := ReplaceAll(s6, "__", "_");
    var s8 := ReplaceAll(s7, "\\", "");
    var s9 := ReplaceAll(s8, "$", "");
    assert NoUpper(s0) by {
      forall ch | ch in s0 ensures !IsUpper(ch) {
        var k :| 0 <= k < |s0| && s0[k] == ch;
      }
    }
    ReplaceKeepsClean(s0, " ", "_", {});
    assert NoneOf(s1, {' '});
    ReplaceKeepsClean(s1, "(", "_", {' '});
    assert NoneOf(s2, {' ', '('});
    ReplaceKeepsClean(s2, ")", "", {' ', '('});
    assert NoneOf(s3, {' ', '(', ')'});
    ReplaceKeepsClean(s3, "/", "", {' ', '(', ')'});
    assert NoneOf(s4, {' ', '(', ')', '/'});
    ReplaceKeepsClean(s4, ".", "", {' ', '(', ')', '/'});
    assert NoneOf(s5, {' ', '(', ')', '/', '.'});
    ReplaceKeepsClean(s5, ":", "", {' ', '(', ')', '/', '.'});
    assert NoneOf(s6, {' ', '(', ')', '/', '.', ':'});
    ReplaceKeepsClean(s6, "__", "_", {' ', '(', ')', '/', '.', ':'});
    ReplaceKeepsClean(s7, "\\", "", {' ', '(', ')', '/', '.', ':'});
    assert NoneOf(s8, {' ', '(', ')', '/', '.', ':', '\\'});
    ReplaceKeepsClean(s8, "$", "", {' ', '(', ')', '/', '.', ':', '\\'});
  }

  /** Every column label `cleanup_tbl_columns` produces is lower case and free of the removed characters. */
  lemma ColumnNameClean(x: string)
    ensures NoUpper(ColumnName(x)) && NoneOf(ColumnName(x), Removed)
  {
    if SanitiseChain(x) == "index" {
      PlainName(ColumnName(x));
    } else {
      SanitiseChainClean(x);
    }
  }

  /** On a lower-case label without the removed characters, only the "__" to "_" pass acts. */
  lemma SanitiseOnlyCollapses(x: string)
    requires NoUpper(x) && NoneOf(x, Removed)
    ensures SanitiseChain(x) == ReplaceAll(x, "__", "_")
  {
    assert Lower(x) == x by {
      forall k | 0 <= k < |x| ensures Lower(x)[k] == x[k] {
        assert x[k] in x;
      }
    }
    ReplaceWithoutFirst(x, " ", "_");
    ReplaceWithoutFirst(x, "(", "_");
    ReplaceWithoutFirst(x, ")", "");
    ReplaceWithoutFirst(x, "/", "");
    ReplaceWithoutFirst(x, ".", "");
    ReplaceWithoutFirst(x, ":", "");
    var s7 := ReplaceAll(x, "__", "_");
    ReplaceKeepsClean(x, "__", "_", Removed);
    ReplaceWithoutFirst(s7, "\\", "");
    ReplaceWithoutFirst(s7, "$", "");
  }

  /** The "__" pass over "a___b": the first two underscores become one, the third is kept. */
  lemma CollapseThree(s: string)
    requires |s| == 5 && s[0] == 'a' && s[1] == '_' && s[2] == '_' && s[3] == '_' && s[4] == 'b'
    ensures ReplaceAll(s, "__", "_") == "a__b"
  {
    ReplaceSkip(s, "__", "_", 0);
    var t := s[1..];
    assert "__" <= t;
    ReplaceStart(t, "__", "_");
    var u := t[2..];
    ReplaceSkip(u, "__", "_", 1);
    assert ReplaceAll(u[1..], "__", "_") == u[1..];
    assert [s[0]] + "_" + ([u[0]] + u[1..]) == "a__b";
  }

  /** Names made of lower-case letters and '_' only are lower case and hold no removed character. */
  lemma PlainName(x: string)
    requires forall k :: 0 <= k < |x| ==> 'a' <= x[k] <= 'z' || x[k] == '_'
    ensures NoUpper(x) && NoneOf(x, Removed)
  {
    forall ch | ch in x ensures !IsUpper(ch) && ch !in Removed {
      var k :| 0 <= k < |x| && x[k] == ch;
    }
  }

  /**
   * "__" is collapsed in one left-to-right pass, so a run of three
   * underscores keeps two, and sanitising a sanitised label can change it
   * again: the chain is not idempotent.
   */
  lemma SanitiseNotIdempotent(x: string)
    requires x == "a___b"
    ensures ColumnName(x) == "a__b"
    ensures ColumnName(ColumnName(x)) == "a_b"
  {
    SanitiseThree(x);
    SanitiseTwo(ColumnName(x));
  }

  lemma SanitiseThree(x: string)
    requires x == "a___b"
    ensures SanitiseChain(x) == "a__b"
  {
    PlainName(x);
    SanitiseOnlyCollapses(x);
    CollapseThree(x);
  }

  lemma SanitiseTwo(y: string)
    requires y == "a__b"
    ensures SanitiseChain(y) == "a_b"
  {
    PlainName(y);
    SanitiseOnlyCollapses(y);
    ReplaceAfterOne(y, "__", "_", "b", 0);
  }

  /** A `category` column is turned into text; other columns keep their dtype. */
  function CategoryAsText(c: Column): (r: Column)
    ensures r.name == c.name && r.cells == c.cells
    ensures r.dtype != "category"
    ensures c.dtype != "category" ==> r == c
  {
    if c.dtype == "category" then c.(dtype := "object") else c
  }

  /** The column `cleanup_tbl_columns` leaves: category turned into text, label sanitised. */
  function CleanColumn(c: Column): (r: Column)
    ensures r.cells == c.cells && r.dtype != "category"
    ensures NoUpper(r.name) && NoneOf(r.name, Removed)
  {
    ColumnNameClean(c.name);
    Column(ColumnName(c.name), CategoryAsText(c).dtype, c.cells)
  }

  /** `astype("str")`: the cells already are their text, so only the dtype changes. */
  function AsText(c: Column): (r: Column)
    ensures r.name == c.name && r.cells == c.cells && r.dtype == "object"
  {
    c.(dtype := "object")
  }

  /** One column's definition: its label and its MySQL type. */
  function Definition(c: Column): string
  {
    c.name + " " + SqlType(c.dtype)
  }

  function Definitions(cols: seq<Column>): (defs: seq<string>)
    ensures |defs| == |cols|
  {
    seq(|cols|, j requires 0 <= j < |cols| => Definition(cols[j]))
  }

  /** The column definitions inside `CREATE TABLE`: one definition per column, joined by ", ". */
  function ColumnDefinitions(cols: seq<Column>): string
  {
    Join(Definitions(cols), ", ")
  }

  function DropStatement(tbl: string): string
  {
    "DROP TABLE IF EXISTS " + tbl + ";"
  }

  function CreateStatement(tbl: string, cols: seq<Column>): string
  {
    "CREATE TABLE " + tbl + " (" + ColumnDefinitions(cols) + ");"
  }

  lemma {:induction false} SumCountZero(xs: seq<string>, c: char)
    requires forall k :: 0 <= k < |xs| ==> c !in xs[k]
    ensures SumCount(xs, c) == 0
    decreases |xs|
  {
    if |xs| > 0 {
      CountAbsent(xs[0], c);
      SumCountZero(xs[1..], c);
    }
  }

  /**
   * When no label and no dtype contains a comma, the definitions hold one
   * comma fewer than there are columns: one between each pair of neighbours,
   * so the statement declares exactly the table's columns.
   */
  lemma DefinitionCommas(cols: seq<Column>)
    requires |cols| > 0
    requires forall j :: 0 <= j < |cols| ==> ',' !in cols[j].name && ',' !in cols[j].dtype
    ensures CountChar(ColumnDefinitions(cols), ',') == |cols| - 1
  {
    var defs := Definitions(cols);
    forall k | 0 <= k < |defs| ensures ',' !in defs[k] {
      var t := SqlType(cols[k].dtype);
      assert ',' !in t by {
        if cols[k].dtype in DtypeConversion {
          assert t in {"VARCHAR(255)", "FLOAT", "INT", "TIMESTAMP"};
        }
      }
      assert defs[k] == cols[k].name + " " + t;
    }
    SumCountZero(defs, ',');
    JoinCountSeparators(defs, ", ", ',');
    assert CountChar(", ", ',') == 1;
  }

  /** The longest text a quoted cell keeps. */
  const MaxTextLength := 255

  /** The cell text with every single quote removed. */
  function Unquoted(text: string): (r: string)
    ensures '\'' !in r
  {
    ReplaceAll(text, "'", "")
  }

  /** Cells whose quote-free text is "nan", "NaT" or empty are written bare. */
  predicate Bare(text: string)
  {
    var cur := Unquoted(text);
    cur == "nan" || cur == "NaT" || |cur| == 0
  }

  /**
   * How a cell is written into the `INSERT`: bare when it stands for a
   * missing value, otherwise its quote-free text cut to 255 characters
   * between single quotes. Either way the only quotes are the two around a
   * quoted cell.
   */
  function CellLiteral(text: string): (lit: string)
    ensures Bare(text) ==> lit == Unquoted(text) && '\'' !in lit
    ensures !Bare(text) ==> 3 <= |lit| <= MaxTextLength + 2 && lit[0] == '\'' && lit[|lit| - 1] == '\''
    ensures !Bare(text) ==> lit[1..|lit| - 1] <= Unquoted(text) && '\'' !in lit[1..|lit| - 1]
    ensures !Bare(text) ==>
      |lit| - 2 == if |Unquoted(text)| > MaxTextLength then MaxTextLength else |Unquoted(text)|
    ensures CountChar(lit, '\'') == if Bare(text) then 0 else 2
  {
    var cur := Unquoted(text);
    if Bare(text) then
      CountAbsent(cur, '\'');
      cur
    else
      var kept := if |cur| > MaxTextLength then cur[..MaxTextLength] else cur;
      assert '\'' !in kept by {
        forall ch | ch in kept ensures ch != '\'' {
          var k :| 0 <= k < |kept| && kept[k] == ch;
          assert cur[k] in cur;
        }
      }
      var lit := "'" + kept + "'";
      assert lit[1..|lit| - 1] == kept;
      CountAbsent(kept, '\'');
      CountConcat("'" + kept, "'", '\'');
      CountConcat("'", kept, '\'');
      lit
  }

  /** Every column has `n` cells: the table is a proper rectangle. */
  predicate Rectangular(cols: seq<Column>, n: nat)
  {
    forall j :: 0 <= j < |cols| ==> |cols[j].cells| == n
  }

  /** The column's cell in row `i` (empty past the column's end, which a rectangle never reaches). */
  function CellOf(c: Column, i: nat): string
  {
    if i < |c.cells| then c.cells[i] else ""
  }

  /** The texts of row `i`, one per column. */
  function RowTexts(cols: seq<Column>, i: nat): (texts: seq<string>)
    ensures |texts| == |cols|
  {
    seq(|cols|, j requires 0 <= j < |cols| => CellOf(cols[j], i))
  }

  function Literals(texts: seq<string>): (lits: seq<string>)
    ensures |lits| == |texts|
  {
    seq(|texts|, j requires 0 <= j < |texts| => CellLiteral(texts[j]))
  }

  /** The group a row contributes: "(" and its literals joined by ", " and ")". */
  function RowGroup(cols: seq<Column>, i: nat): string
  {
    "(" + Join(Literals(RowTexts(cols, i)), ", ") + ")"
  }

  /** Row groups of the first `i` rows. */
  function Groups(cols: seq<Column>, i: nat): (gs: seq<string>)
    ensures |gs| == i
  {
    seq(i, k requires 0 <= k < i => RowGroup(cols, k))
  }

  /**
   * The query before the null rewrite. With rows and columns it is the row
   * groups joined by ", " between "INSERT INTO t VALUES " and ";". Without
   * rows the trailing "S " of the prefix is cut, leaving "VALUE;". Without
   * columns every row only cuts a character and adds "),".
   */
  function RawQuery(tbl: string, cols: seq<Column>, n: nat): string
    requires Rectangular(cols, n)
  {
    if n == 0 then "INSERT INTO " + tbl + " VALUE;"
    else if |cols| == 0 then "INSERT INTO " + tbl + " VALUES" + Repeat("),", n - 1) + ");"
    else "INSERT INTO " + tbl + " VALUES " + Join(Groups(cols, n), ", ") + ";"
  }

  /** The final step: every "nan" and then every "NaT" in the whole text becomes "null". */
  function NullRewrite(q: string): string
  {
    ReplaceAll(ReplaceAll(q, "nan", "null"), "NaT", "null")
  }

  /** The query `generate_insert_query` returns for a table of `n` rows. */
  function InsertQuery(tbl: string, cols: seq<Column>, n: nat): string
    requires Rectangular(cols, n)
  {
    NullRewrite(RawQuery(tbl, cols, n))
  }

  /** The null rewrite neither adds nor removes a single quote. */
  lemma NullRewriteKeepsQuotes(q: string)
    ensures CountChar(NullRewrite(q), '\'') == CountChar(q, '\'')
  {
    ReplaceKeepsCount(q, "nan", "null", '\'');
    ReplaceKeepsCount(ReplaceAll(q, "nan", "null"), "NaT", "null", '\'');
  }

  /** The rewrite reaches inside quoted literals: a cell "banana" is uploaded as 'banulla'. */
  lemma NullRewriteInsideLiteral(cell: string)
    requires cell == "banana"
    ensures CellLiteral(cell) == "'banana'"
    ensures NullRewrite(CellLiteral(cell)) == "'banulla'"
  {
    assert Unquoted(cell) == cell by {
      ReplaceWithoutFirst(cell, "'", "");
    }
    var lit := CellLiteral(cell);
    assert lit == "'banana'";
    assert ReplaceAll(lit, "nan", "null") == "'banulla'" by {
      RewriteBanana(lit);
    }
    ReplaceWithoutFirst("'banulla'", "NaT", "null");
  }

  /** The "nan" pass over "'banana'": the three characters before the occurrence are kept, the short rest too. */
  lemma RewriteBanana(s: string)
    requires |s| == 8 && s[0] == '\'' && s[1] == 'b' && s[2] == 'a' && s[3] == 'n'
    requires s[4] == 'a' && s[5] == 'n' && s[6] == 'a' && s[7] == '\''
    ensures ReplaceAll(s, "nan", "null") == "'banulla'"
  {
    ReplaceSkip(s, "nan", "null", 0);
    var t := s[1..];
    ReplaceSkip(t, "nan", "null", 0);
    var u := t[1..];
    ReplaceSkip(u, "nan", "null", 1);
    var v := u[1..];
    assert "nan" <= v;
    ReplaceStart(v, "nan", "null");
    assert ReplaceAll(v[3..], "nan", "null") == v[3..];
    assert [s[0]] + ([t[0]] + ([u[0]] + ("null" + v[3..]))) == "'banulla'";
  }

  /** Number of cells among `texts` that are written between quotes. */
  function QuotedCount(texts: seq<string>): nat
    decreases |texts|
  {
    if |texts| == 0 then 0 else (if Bare(texts[0]) then 0 else 1) + QuotedCount(texts[1..])
  }

  /** Number of quoted cells in the first `i` rows. */
  function QuotedCells(cols: seq<Column>, i: nat): nat
  {
    if i == 0 then 0 else QuotedCells(cols, i - 1) + QuotedCount(RowTexts(cols, i - 1))
  }

  lemma {:induction false} LiteralQuotes(texts: seq<string>)
    ensures SumCount(Literals(texts), '\'') == 2 * QuotedCount(texts)
    decreases |texts|
  {
    if |texts| > 0 {
      LiteralQuotes(texts[1..]);
      assert Literals(texts)[1..] == Literals(texts[1..]);
    }
  }

  lemma GroupQuotes(cols: seq<Column>, i: nat)
    ensures CountChar(RowGroup(cols, i), '\'') == 2 * QuotedCount(RowTexts(cols, i))
  {
    var lits := Literals(RowTexts(cols, i));
    var body := Join(lits, ", ");
    if |lits| > 0 {
      JoinCountSeparators(lits, ", ", '\'');
      CountAbsent(", ", '\'');
    }
    LiteralQuotes(RowTexts(cols, i));
    CountConcat("(" + body, ")", '\'');
    CountConcat("(", body, '\'');
  }

  lemma {:induction false} GroupsQuotes(cols: seq<Column>, i: nat)
    ensures SumCount(Groups(cols, i), '\'') == 2 * QuotedCells(cols, i)
    decreases i
  {
    if i > 0 {
      GroupsQuotes(cols, i - 1);
      GroupsAppend(cols, i - 1);
      SumCountAppend(Groups(cols, i - 1), RowGroup(cols, i - 1), '\'');
      GroupQuotes(cols, i - 1);
    }
  }

  lemma {:induction false} SumCountAppend(xs: seq<string>, x: string, c: char)
    ensures SumCount(xs + [x], c) == SumCount(xs, c) + CountChar(x, c)
    decreases |xs|
  {
    if |xs| == 0 {
      assert SumCount([x], c) == CountChar(x, c) + SumCount([], c);
    } else {
      assert (xs + [x])[1..] == xs[1..] + [x];
      SumCountAppend(xs[1..], x, c);
    }
  }

  lemma {:induction false} RepeatCount(s: string, k: nat, c: char)
    requires c !in s
    ensures CountChar(Repeat(s, k), c) == 0
    decreases k
  {
    if k > 0 {
      RepeatCount(s, k - 1, c);
      CountConcat(Repeat(s, k - 1), s, c);
      CountAbsent(s, c);
    }
  }

  /** Each repetition holds only characters of the repeated text. */
  lemma {:induction false} RepeatChars(s: string, k: nat)
    ensures forall ch :: ch in Repeat(s, k) ==> ch in s
    decreases k
  {
    if k > 0 {
      RepeatChars(s, k - 1);
    }
  }

  /**
   * When the table name holds no single quote, the query before the null
   * rewrite holds exactly two per quoted cell: the quotes of the cells
   * themselves are removed.
   */
  lemma RawQueryQuotes(tbl: string, cols: seq<Column>, n: nat)
    requires Rectangular(cols, n)
    requires '\'' !in tbl
    ensures CountChar(RawQuery(tbl, cols, n), '\'') == 2 * QuotedCells(cols, n)
  {
    var raw := RawQuery(tbl, cols, n);
    var head := "INSERT INTO " + tbl;
    if n == 0 || |cols| == 0 {
      assert QuotedCells(cols, n) == 0 by {
        if |cols| == 0 {
          ZeroColumnsUnquoted(cols, n);
        }
      }
      assert '\'' !in raw by {
        if n > 0 {
          RepeatChars("),", n - 1);
        }
      }
      CountAbsent(raw, '\'');
    } else {
      var gs := Groups(cols, n);
      var body := Join(gs, ", ");
      assert raw == head + " VALUES " + body + ";";
      CountInside(head + " VALUES ", body, ";", '\'');
      JoinCountSeparators(gs, ", ", '\'');
      CountAbsent(", ", '\'');
      GroupsQuotes(cols, n);
    }
  }

  /** The null rewrite keeps that count: the uploaded query holds two single quotes per quoted cell. */
  lemma InsertQueryQuotes(tbl: string, cols: seq<Column>, n: nat)
    requires Rectangular(cols, n)
    requires '\'' !in tbl
    ensures CountChar(InsertQuery(tbl, cols, n), '\'') == 2 * QuotedCells(cols, n)
  {
    RawQueryQuotes(tbl, cols, n);
    NullRewriteKeepsQuotes(RawQuery(tbl, cols, n));
  }

  lemma {:induction false} ZeroColumnsUnquoted(cols: seq<Column>, i: nat)
    requires |cols| == 0
    ensures QuotedCells(cols, i) == 0
    decreases i
  {
    if i > 0 {
      ZeroColumnsUnquoted(cols, i - 1);
      assert RowTexts(cols, i - 1) == [];
    }
  }

  /** A table whose fields the uploader rewrites in place: its columns and its number of rows. */
  class DataFrame {
    var columns: seq<Column>
    var rowCount: nat

    /** Every column has one cell per row. */
    predicate Valid()
      reads this
    {
      Rectangular(columns, rowCount)
    }

    constructor (columns: seq<Column>, rowCount: nat)
      requires Rectangular(columns, rowCount)
      ensures Valid()
      ensures this.columns == columns && this.rowCount == rowCount
    {
      this.columns := columns;
      this.rowCount := rowCount;
    }
  }

  /** `change_category_type_column_to_str`: every `category` column becomes a text column. */
  method ChangeCategoryTypeColumnToStr(df: DataFrame)
    requires df.Valid()
    modifies df
    ensures df.Valid()
    ensures df.rowCount == old(df.rowCount)
    ensures |df.columns| == |old(df.columns)|
    ensures forall j :: 0 <= j < |df.columns| ==> df.columns[j] == CategoryAsText(old(df.columns)[j])
  {
    var j := 0;
    while j < |df.columns|
      invariant 0 <= j <= |df.columns| == |old(df.columns)|
      invariant df.rowCount == old(df.rowCount)
      invariant forall k :: 0 <= k < j ==> df.columns[k] == CategoryAsText(old(df.columns)[k])
      invariant forall k :: j <= k < |df.columns| ==> df.columns[k] == old(df.columns)[k]
    {
      if df.columns[j].dtype == "category" {
        df.columns := df.columns[j := AsText(df.columns[j])];
      }
      j := j + 1;
    }
  }

  /** `change_all_columns_data_to_str`: every column becomes a text column. */
  method ChangeAllColumnsDataToStr(df: DataFrame)
    requires df.Valid()
    modifies df
    ensures df.Valid()
    ensures df.rowCount == old(df.rowCount)
    ensures |df.columns| == |old(df.columns)|
    ensures forall j :: 0 <= j < |df.columns| ==> df.columns[j] == AsText(old(df.columns)[j])
  {
    var j := 0;
    while j < |df.columns|
      invariant 0 <= j <= |df.columns| == |old(df.columns)|
      invariant df.rowCount == old(df.rowCount)
      invariant forall k :: 0 <= k < j ==> df.columns[k] == AsText(old(df.columns)[k])
      invariant forall k :: j <= k < |df.columns| ==> df.columns[k] == old(df.columns)[k]
    {
      df.columns := df.columns[j := AsText(df.columns[j])];
      j := j + 1;
    }
  }

  /**
   * `cleanup_tbl_columns`: category columns become text and every label is
   * sanitised, in place. The rows are already numbered 0..n-1, so the
   * index reset changes nothing.
   */
  method CleanupTblColumns(df: DataFrame)
    requires df.Valid()
    modifies df
    ensures df.Valid()
    ensures df.rowCount == old(df.rowCount)
    ensures df.columns == seq(|old(df.columns)|, j requires 0 <= j < |old(df.columns)| => CleanColumn(old(df.columns)[j]))
  {
    ChangeCategoryTypeColumnToStr(df);
    var cols := df.columns;
    df.columns := seq(|cols|, j requires 0 <= j < |cols| => cols[j].(name := ColumnName(cols[j].name)));
  }

  /**
   * `create_tbl`: cleans the table's columns, then returns the statements it
   * executes, dropping and re-creating the table with one definition per
   * cleaned column.
   */
  method CreateTbl(tbl: string, df: DataFrame) returns (statements: seq<string>)
    requires df.Valid()
    modifies df
    ensures df.Valid()
    ensures df.rowCount == old(df.rowCount)
    ensures df.columns == seq(|old(df.columns)|, j requires 0 <= j < |old(df.columns)| => CleanColumn(old(df.columns)[j]))
    ensures statements == [DropStatement(tbl), CreateStatement(tbl, df.columns)]
  {
    CleanupTblColumns(df);
    var colStr := ColumnDefinitions(df.columns);
    statements := [DropStatement(tbl), "CREATE TABLE " + tbl + " (" + colStr + ");"];
  }

  /**
   * One pass of the row loop of `generate_insert_query`: appends "(", then
   * each literal followed by ", ", then cuts the last two characters and
   * appends "), ". With literals the cut removes the last ", "; without any
   * it removes the "(" and the character before it.
   */
  method AppendRowGroup(query: string, lits: seq<string>) returns (q: string)
    requires |query| > 0
    ensures |lits| > 0 ==> q == query + "(" + Join(lits, ", ") + "), "
    ensures |lits| == 0 ==> q == query[..|query| - 1] + "), "
  {
    q := query + "(";
    var j := 0;
    while j < |lits|
      invariant 0 <= j <= |lits|
      invariant q == query + "(" + Terminated(lits[..j], ", ")
    {
      assert lits[..j + 1][..j] == lits[..j];
      q := q + lits[j] + ", ";
      j := j + 1;
    }
    assert lits[..j] == lits;
    if |lits| > 0 {
      TerminatedJoin(lits, ", ");
      assert q == (query + "(" + Join(lits, ", ")) + ", ";
    } else {
      assert q == query[..|query| - 1] + [query[|query| - 1]] + "(";
    }
    q := q[..|q| - 2] + "), ";
  }

  /** What the query holds after the row loop has handled `i` rows. */
  function Built(tbl: string, cols: seq<Column>, i: nat): string
  {
    if |cols| == 0 then "INSERT INTO " + tbl + " VALUES" + Repeat("),", i) + " "
    else "INSERT INTO " + tbl + " VALUES " + Terminated(Groups(cols, i), ", ")
  }

  lemma BuiltStep(tbl: string, cols: seq<Column>, i: nat, q: string)
    requires |cols| > 0 ==> q == Built(tbl, cols, i) + "(" + Join(Literals(RowTexts(cols, i)), ", ") + "), "
    requires |cols| == 0 ==> q == Built(tbl, cols, i)[..|Built(tbl, cols, i)| - 1] + "), "
    ensures q == Built(tbl, cols, i + 1)
  {
    if |cols| > 0 {
      var body := Join(Literals(RowTexts(cols, i)), ", ");
      BuiltStepRow(tbl, cols, i, body, q);
    } else {
      var head := "INSERT INTO " + tbl + " VALUES";
      var r := Repeat("),", i);
      var b := Built(tbl, cols, i);
      assert b == head + r + " ";
      assert b[..|b| - 1] == head + r;
      assert q == head + r + ")," + " ";
    }
  }

  /** With columns, a pass of the row loop adds the row's group and ", ". */
  lemma BuiltStepRow(tbl: string, cols: seq<Column>, i: nat, body: string, q: string)
    requires |cols| > 0
    requires RowGroup(cols, i) == "(" + body + ")"
    requires q == Built(tbl, cols, i) + "(" + body + "), "
    ensures q == Built(tbl, cols, i + 1)
  {
    var head := "INSERT INTO " + tbl + " VALUES ";
    var pre := Terminated(Groups(cols, i), ", ");
    var next := Terminated(Groups(cols, i + 1), ", ");
    assert next == pre + RowGroup(cols, i) + ", " by {
      GroupsAppend(cols, i);
      TerminatedAppend(Groups(cols, i), RowGroup(cols, i), ", ");
    }
    assert Built(tbl, cols, i) == head + pre;
    assert Built(tbl, cols, i + 1) == head + next;
    GroupAdded(head, pre, body, RowGroup(cols, i), next, q);
  }

  /** The text arithmetic of one pass: "(" + body + "), " adds the group and its separator. */
  lemma GroupAdded(head: string, pre: string, body: string, g: string, next: string, q: string)
    requires g == "(" + body + ")" && next == pre + g + ", "
    requires q == head + pre + "(" + body + "), "
    ensures q == head + next
  {
  }

  lemma GroupsAppend(cols: seq<Column>, i: nat)
    ensures Groups(cols, i + 1) == Groups(cols, i) + [RowGroup(cols, i)]
  {
    var gs := Groups(cols, i + 1);
    var r := Groups(cols, i) + [RowGroup(cols, i)];
    forall k | 0 <= k < i + 1 ensures gs[k] == r[k] {
      if k < i {
        assert r[k] == Groups(cols, i)[k];
      }
    }
  }

  lemma BuiltFinal(tbl: string, cols: seq<Column>, n: nat, q: string)
    requires Rectangular(cols, n)
    requires q == Built(tbl, cols, n)
    ensures |q| >= 2 && q[..|q| - 2] + ";" == RawQuery(tbl, cols, n)
  {
    var head := "INSERT INTO " + tbl;
    if n == 0 {
      if |cols| > 0 {
        assert q == head + " VALUES ";
      }
      assert q == head + " VALUE" + "S ";
    } else if |cols| == 0 {
      assert q == head + " VALUES" + Repeat("),", n - 1) + ")" + ", ";
    } else {
      TerminatedJoin(Groups(cols, n), ", ");
      assert q == head + " VALUES " + Join(Groups(cols, n), ", ") + ", ";
    }
  }

  /**
   * `generate_insert_query`: turns every column into text, builds the query
   * row by row, cell by cell, then rewrites "nan" and "NaT" to "null". The
   * result is the query `InsertQuery` describes for the table as given.
   */
  method GenerateInsertQuery(tbl: string, df: DataFrame) returns (query: string)
    requires df.Valid()
    modifies df
    ensures df.Valid()
    ensures df.rowCount == old(df.rowCount)
    ensures |df.columns| == |old(df.columns)|
    ensures forall j :: 0 <= j < |df.columns| ==> df.columns[j] == AsText(old(df.columns)[j])
    ensures query == InsertQuery(tbl, old(df.columns), df.rowCount)
  {
    ChangeAllColumnsDataToStr(df);
    var cols := df.columns;
    var n := df.rowCount;
    assert Rectangular(cols, n);
    query := "INSERT INTO " + tbl + " VALUES ";
    var i := 0;
    while i < n
      invariant 0 <= i <= n
      invariant df.columns == cols && df.rowCount == n
      invariant query == Built(tbl, cols, i)
    {
      var texts := seq(|cols|, j requires 0 <= j < |cols| => cols[j].cells[i]);
      var lits := seq(|cols|, j requires 0 <= j < |cols| => CellLiteral(texts[j]));
      assert texts == RowTexts(cols, i);
      query := AppendRowGroup(query, lits);
      BuiltStep(tbl, cols, i, query);
      i := i + 1;
    }
    BuiltFinal(tbl, cols, n, query);
    query := query[..|query| - 2] + ";";
    query := ReplaceAll(query, "nan", "null");
    query := ReplaceAll(query, "NaT", "null");
    assert RawQuery(tbl, cols, n) == RawQuery(tbl, old(df.columns), n) by {
      RawQueryIgnoresDtype(tbl, old(df.columns), cols, n);
    }
  }

  /** The query depends only on the cells, not on the dtypes or labels. */
  lemma RawQueryIgnoresDtype(tbl: string, a: seq<Column>, b: seq<Column>, n: nat)
    requires Rectangular(a, n) && |a| == |b|
    requires forall j :: 0 <= j < |a| ==> a[j].cells == b[j].cells
    ensures Rectangular(b, n) && RawQuery(tbl, a, n) == RawQuery(tbl, b, n)
  {
    if n > 0 && |a| > 0 {
      forall i | 0 <= i < n ensures RowGroup(a, i) == RowGroup(b, i) {
        assert RowTexts(a, i) == RowTexts(b, i);
      }
      assert Groups(a, n) == Groups(b, n);
    }
  }
}
