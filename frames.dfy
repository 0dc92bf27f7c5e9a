/**
 * The pandas DataFrame as the paper database uses it: a sequence of labelled rows over
 * a sequence of column names, each row a map from column name to cell. A missing cell
 * (pandas' NaN) is the cell `NA`, which is different from the empty string `Str("")`.
 */
module Frames {
  import opened Strings
  import opened Sorting

  datatype Cell = Str(s: string) | Int(i: int) | Num(r: real) | Bool(b: bool) | List(items: seq<string>) | NA

  type Record = map<string, Cell>

  datatype Row = Row(index: int, cells: Record)

  datatype Table = Table(columns: seq<string>, rows: seq<Row>)

  /** The Python exceptions the core can raise. */
  datatype Error = KeyError(key: string) | ValueError | TypeError | AttributeError

  datatype Result<T> = Ok(value: T) | Err(error: Error)

  function ColumnSet(cols: seq<string>): set<string> {
    set c | c in cols
  }

  predicate Distinct<T(==)>(s: seq<T>) {
    forall i, j :: 0 <= i < j < |s| ==> s[i] != s[j]
  }

  function Labels(rows: seq<Row>): (ls: seq<int>)
    ensures |ls| == |rows|
  {
    seq(|rows|, i requires 0 <= i < |rows| => rows[i].index)
  }

  function Records(rows: seq<Row>): (rs: seq<Record>)
    ensures |rs| == |rows|
  {
    seq(|rows|, i requires 0 <= i < |rows| => rows[i].cells)
  }

  /** Every row has exactly the table's columns; column names and row labels are unique. */
  predicate WellFormed(t: Table) {
    && Distinct(t.columns)
    && Distinct(Labels(t.rows))
    && forall k :: 0 <= k < |t.rows| ==> t.rows[k].cells.Keys == ColumnSet(t.columns)
  }

  /** The index is `range(len(rows))`. */
  predicate DenseLabels(rows: seq<Row>) {
    forall k :: 0 <= k < |rows| ==> rows[k].index == k
  }

  /** `p.index = range(len(p))`. */
  function Relabel(recs: seq<Record>): (rows: seq<Row>)
    ensures |rows| == |recs| && DenseLabels(rows) && Records(rows) == recs
  {
    seq(|recs|, i requires 0 <= i < |recs| => Row(i, recs[i]))
  }

  /** The cell of a column, `NA` where the row has none. */
  function CellOf(r: Record, k: string): Cell {
    if k in r then r[k] else NA
  }

  /** Python's `item.get(k, d)` on a dict or a pandas Series. */
  function Get(r: Record, k: string, d: Cell): Cell {
    if k in r then r[k] else d
  }

  /** Assigning a column by name: an existing column keeps its place, a new one goes last. */
  function AddName(cols: seq<string>, c: string): seq<string> {
    if c in cols then cols else cols + [c]
  }

  /** Adding a name adds it to the set of names and keeps the names distinct. */
  lemma AddNameSpec(cols: seq<string>, c: string)
    ensures ColumnSet(AddName(cols, c)) == ColumnSet(cols) + {c}
    ensures Distinct(cols) ==> Distinct(AddName(cols, c))
  {
  }

  /** Dropping a column by name. */
  function RemoveName(cols: seq<string>, c: string): seq<string>
    decreases |cols|
  {
    if |cols| == 0 then []
    else if cols[0] == c then RemoveName(cols[1..], c)
    else [cols[0]] + RemoveName(cols[1..], c)
  }

  /** A name survives the drop exactly when it was there and is not the dropped one. */
  lemma {:induction false} RemoveNameMember(cols: seq<string>, c: string, x: string)
    ensures x in RemoveName(cols, c) <==> x in cols && x != c
    decreases |cols|
  {
    if |cols| > 0 {
      RemoveNameMember(cols[1..], c, x);
      assert cols == [cols[0]] + cols[1..];
    }
  }

  lemma {:induction false} RemoveNameDistinct(cols: seq<string>, c: string)
    requires Distinct(cols)
    ensures Distinct(RemoveName(cols, c))
    ensures ColumnSet(RemoveName(cols, c)) == ColumnSet(cols) - {c}
    decreases |cols|
  {
    forall x ensures x in RemoveName(cols, c) <==> x in cols && x != c {
      RemoveNameMember(cols, c, x);
    }
    if |cols| > 0 {
      assert Distinct(cols[1..]) by {
        forall i, j | 0 <= i < j < |cols[1..]| ensures cols[1..][i] != cols[1..][j] {
          assert cols[i + 1] != cols[j + 1];
        }
      }
      RemoveNameDistinct(cols[1..], c);
      if cols[0] != c {
        assert cols[0] !in cols[1..] by {
          forall j | 0 <= j < |cols[1..]| ensures cols[1..][j] != cols[0] {
            assert cols[j + 1] != cols[0];
          }
        }
        var r := [cols[0]] + RemoveName(cols[1..], c);
        forall i, j | 0 <= i < j < |r| ensures r[i] != r[j] {
          if i == 0 {
            assert r[j] in RemoveName(cols[1..], c);
            RemoveNameMember(cols[1..], c, r[j]);
          } else {
            assert r[i] == RemoveName(cols[1..], c)[i - 1];
          }
        }
      }
    }
  }

  /** The first of `want` that is not in `have`. */
  function FirstMissing(want: seq<string>, have: seq<string>): (r: Option<string>)
    ensures r.None? <==> forall c :: c in want ==> c in have
    decreases |want|
  {
    if |want| == 0 then None
    else if want[0] !in have then Some(want[0])
    else FirstMissing(want[1..], have)
  }

  /** Rows kept by a boolean mask, in their original order: `db.loc[mask]`. */
  function FilterRows(rows: seq<Row>, p: Row -> bool): (r: seq<Row>)
    ensures |r| <= |rows|
    decreases |rows|
  {
    if |rows| == 0 then []
    else if p(rows[0]) then [rows[0]] + FilterRows(rows[1..], p)
    else FilterRows(rows[1..], p)
  }

  /** `a` is `b` with some elements left out, the rest in the same order. */
  predicate IsSubseq<T(==)>(a: seq<T>, b: seq<T>)
    decreases |b|
  {
    if |a| == 0 then true
    else if |b| == 0 then false
    else if a[0] == b[0] then IsSubseq(a[1..], b[1..])
    else IsSubseq(a, b[1..])
  }

  /** A filtered table holds exactly the rows that pass, in their original order. */
  lemma {:induction false} FilterRowsSpec(rows: seq<Row>, p: Row -> bool)
    ensures forall r :: r in FilterRows(rows, p) <==> r in rows && p(r)
    ensures IsSubseq(FilterRows(rows, p), rows)
    decreases |rows|
  {
    if |rows| > 0 {
      FilterRowsSpec(rows[1..], p);
      assert rows == [rows[0]] + rows[1..];
      if p(rows[0]) {
        assert ([rows[0]] + FilterRows(rows[1..], p))[1..] == FilterRows(rows[1..], p);
      }
    }
  }

  /** A mask that everything passes keeps the whole table. */
  lemma {:induction false} FilterRowsAll(rows: seq<Row>, p: Row -> bool)
    requires forall r :: r in rows ==> p(r)
    ensures FilterRows(rows, p) == rows
    decreases |rows|
  {
    if |rows| > 0 {
      FilterRowsAll(rows[1..], p);
      assert rows == [rows[0]] + rows[1..];
    }
  }

  /** Two successive masks are one mask by their conjunction. */
  lemma {:induction false} FilterRowsTwice(rows: seq<Row>, p: Row -> bool, q: Row -> bool, pq: Row -> bool)
    requires forall r :: pq(r) == (p(r) && q(r))
    ensures FilterRows(FilterRows(rows, p), q) == FilterRows(rows, pq)
    decreases |rows|
  {
    if |rows| > 0 {
      FilterRowsTwice(rows[1..], p, q, pq);
      if p(rows[0]) {
        assert ([rows[0]] + FilterRows(rows[1..], p))[1..] == FilterRows(rows[1..], p);
      }
    }
  }

  /** Rows transformed one by one, in order. */
  function MapRows(rows: seq<Row>, g: Row -> Row): (r: seq<Row>)
    ensures |r| == |rows|
  {
    seq(|rows|, i requires 0 <= i < |rows| => g(rows[i]))
  }

  /** Transforming and then filtering is filtering by the transformed test, then transforming. */
  lemma {:induction false} FilterMapRows(rows: seq<Row>, g: Row -> Row, p: Row -> bool, pg: Row -> bool)
    requires forall r :: pg(r) == p(g(r))
    ensures FilterRows(MapRows(rows, g), p) == MapRows(FilterRows(rows, pg), g)
    decreases |rows|
  {
    if |rows| > 0 {
      var m := MapRows(rows, g);
      assert m[1..] == MapRows(rows[1..], g);
      FilterMapRows(rows[1..], g, p, pg);
      if pg(rows[0]) {
        var f := FilterRows(rows[1..], pg);
        assert MapRows([rows[0]] + f, g) == [g(rows[0])] + MapRows(f, g);
      }
    }
  }

  /** Filtering keeps well-formedness. */
  lemma {:induction false} FilterRowsWellFormed(t: Table, p: Row -> bool)
    requires WellFormed(t)
    ensures WellFormed(Table(t.columns, FilterRows(t.rows, p)))
    decreases |t.rows|
  {
    if |t.rows| > 0 {
      var rest := Table(t.columns, t.rows[1..]);
      assert Labels(rest.rows) == Labels(t.rows)[1..];
      FilterRowsWellFormed(rest, p);
      FilterRowsSpec(t.rows[1..], p);
      var f := FilterRows(t.rows[1..], p);
      if p(t.rows[0]) {
        var g := [t.rows[0]] + f;
        forall i, j | 0 <= i < j < |g| ensures Labels(g)[i] != Labels(g)[j] {
          if i == 0 {
            assert g[j] in t.rows[1..];
            var m :| 0 <= m < |t.rows[1..]| && t.rows[1..][m] == g[j];
            assert Labels(t.rows)[0] != Labels(t.rows)[m + 1];
          } else {
            assert Labels(g)[i] == Labels(f)[i - 1] && Labels(g)[j] == Labels(f)[j - 1];
          }
        }
        forall k | 0 <= k < |g| ensures g[k].cells.Keys == ColumnSet(t.columns) {
          if k > 0 {
            assert g[k] == f[k - 1];
          }
        }
      }
    }
  }

  /** Python's `str(x)` on the cell kinds that reach it (floats do not). */
  function PyStr(c: Cell): string
    requires !c.Num?
  {
    match c
    case Str(s) => s
    case Int(i) => IntToStr(i)
    case Bool(b) => if b then "True" else "False"
    case List(items) => "[" + Join(", ", seq(|items|, k requires 0 <= k < |items| => "'" + items[k] + "'")) + "]"
    case NA => "nan"
  }

  /** Rendering a cell that is not an empty string never gives the empty string. */
  lemma PyStrNonEmpty(c: Cell)
    requires !c.Num? && c != Str("")
    ensures PyStr(c) != ""
  {
    if c.Int? && c.i < 0 {
      assert |IntToStr(c.i)| > 0;
    }
  }

  // ---------------------------------------------------------------------------------
  // Sorting by columns (`sort_values(by=[k1, k2])`, missing cells last)

  /** Kinds of cell in pandas' ordering: numbers, strings, lists, then missing cells last. */
  function Rank(c: Cell): nat {
    match c
    case NA => 3
    case Str(_) => 1
    case List(_) => 2
    case _ => 0
  }

  function NumValue(c: Cell): real
    requires Rank(c) == 0
  {
    match c
    case Int(i) => i as real
    case Num(r) => r
    case Bool(b) => if b then 1.0 else 0.0
  }

  /** Python's `<=` on comparable cells, with `NA` after everything. */
  predicate CellLe(a: Cell, b: Cell) {
    if Rank(a) != Rank(b) then Rank(a) < Rank(b)
    else if Rank(a) == 0 then NumValue(a) <= NumValue(b)
    else if a.Str? && b.Str? then StrLe(a.s, b.s)
    else true
  }

  lemma CellLeTotal(a: Cell, b: Cell)
    ensures CellLe(a, b) || CellLe(b, a)
  {
    if a.Str? && b.Str? {
      StrLeTotal(a.s, b.s);
    }
  }

  lemma CellLeTrans(a: Cell, b: Cell, c: Cell)
    requires CellLe(a, b) && CellLe(b, c)
    ensures CellLe(a, c)
  {
    if a.Str? && b.Str? && c.Str? {
      StrLeTrans(a.s, b.s, c.s);
    }
  }

  /**
   * A column pandas can sort by with several keys: it factorizes each key column, which
   * sorts a mix of numbers and strings (numbers first) but raises TypeError on an
   * unhashable list cell.
   */
  predicate Sortable(rows: seq<Row>, k: string) {
    forall i :: 0 <= i < |rows| ==> !CellOf(rows[i].cells, k).List?
  }

  /** Lexicographic order on the pair of key columns. */
  predicate KeyLe(k1: string, k2: string, a: Record, b: Record) {
    var a1, b1 := CellOf(a, k1), CellOf(b, k1);
    if !CellLe(b1, a1) then true
    else if !CellLe(a1, b1) then false
    else CellLe(CellOf(a, k2), CellOf(b, k2))
  }

  lemma KeyLeTotalPreorder(k1: string, k2: string)
    ensures TotalPreorder((a, b) => KeyLe(k1, k2, a, b))
  {
    var le := (a, b) => KeyLe(k1, k2, a, b);
    forall a, b ensures le(a, b) || le(b, a) {
      CellLeTotal(CellOf(a, k1), CellOf(b, k1));
      CellLeTotal(CellOf(a, k2), CellOf(b, k2));
    }
    forall a, b, c | le(a, b) && le(b, c) ensures le(a, c) {
      var a1, b1, c1 := CellOf(a, k1), CellOf(b, k1), CellOf(c, k1);
      CellLeTotal(a1, b1);
      CellLeTotal(b1, c1);
      CellLeTotal(a1, c1);
      if CellLe(a1, b1) && CellLe(b1, c1) {
        CellLeTrans(a1, b1, c1);
      }
      if CellLe(b1, a1) && CellLe(c1, b1) {
        CellLeTrans(c1, b1, a1);
      }
      if CellLe(c1, a1) && CellLe(a1, b1) {
        CellLeTrans(c1, a1, b1);
      }
      if CellLe(b1, c1) && CellLe(c1, a1) {
        CellLeTrans(b1, c1, a1);
      }
      if CellLe(a1, b1) && CellLe(b1, a1) && CellLe(b1, c1) && CellLe(c1, b1) {
        CellLeTrans(CellOf(a, k2), CellOf(b, k2), CellOf(c, k2));
      }
    }
  }

  /** `sort_values(by=[k1, k2])` followed by `index = range(len)`. */
  function SortReindex(t: Table, k1: string, k2: string): Result<Table> {
    if k1 !in t.columns then Err(KeyError(k1))
    else if k2 !in t.columns then Err(KeyError(k2))
    else if !Sortable(t.rows, k1) || !Sortable(t.rows, k2) then Err(TypeError)
    else Ok(Table(t.columns, Relabel(SortBy(Records(t.rows), (a, b) => KeyLe(k1, k2, a, b)))))
  }

  /**
   * Sorting fails exactly on a missing key column or an unsortable one; otherwise the
   * result is the same rows, ordered by the keys, labelled 0..N-1.
   */
  lemma SortReindexSpec(t: Table, k1: string, k2: string)
    requires WellFormed(t)
    ensures SortReindex(t, k1, k2).Ok? <==>
      k1 in t.columns && k2 in t.columns && Sortable(t.rows, k1) && Sortable(t.rows, k2)
    ensures SortReindex(t, k1, k2).Ok? ==>
      var q := SortReindex(t, k1, k2).value;
      && q.columns == t.columns
      && DenseLabels(q.rows)
      && SortedBy(Records(q.rows), (a, b) => KeyLe(k1, k2, a, b))
      && multiset(Records(q.rows)) == multiset(Records(t.rows))
      && WellFormed(q)
  {
    if SortReindex(t, k1, k2).Ok? {
      var le := (a, b) => KeyLe(k1, k2, a, b);
      KeyLeTotalPreorder(k1, k2);
      SortByCorrect(Records(t.rows), le);
      var q := SortReindex(t, k1, k2).value;
      forall i, j | 0 <= i < j < |q.rows| ensures Labels(q.rows)[i] != Labels(q.rows)[j] {
      }
      forall k | 0 <= k < |q.rows| ensures q.rows[k].cells.Keys == ColumnSet(t.columns) {
        var s := SortBy(Records(t.rows), le);
        assert q.rows[k].cells == s[k];
        assert s[k] in multiset(Records(t.rows));
        var m :| 0 <= m < |Records(t.rows)| && Records(t.rows)[m] == s[k];
      }
    }
  }

  // ---------------------------------------------------------------------------------
  // Cell-wise operations

  function FillRecord(r: Record): Record {
    map k | k in r :: if r[k] == NA then Str("") else r[k]
  }

  /** `fillna('')`: every missing cell becomes the empty string; labels and columns stay. */
  function FillNA(t: Table): (q: Table)
    ensures q.columns == t.columns && Labels(q.rows) == Labels(t.rows)
    ensures forall i :: 0 <= i < |q.rows| ==> q.rows[i].cells.Keys == t.rows[i].cells.Keys
    ensures forall i, k :: 0 <= i < |q.rows| && k in q.rows[i].cells ==>
      q.rows[i].cells[k] != NA &&
      (t.rows[i].cells[k] != NA ==> q.rows[i].cells[k] == t.rows[i].cells[k])
  {
    Table(t.columns, seq(|t.rows|, i requires 0 <= i < |t.rows| => Row(t.rows[i].index, FillRecord(t.rows[i].cells))))
  }

  /** `db[cols]`: a column projection, a KeyError when a column is missing. */
  function Project(t: Table, cols: seq<string>): (r: Result<Table>)
    ensures r.Ok? <==> forall c :: c in cols ==> c in t.columns
    ensures r.Ok? ==> r.value.columns == cols && Labels(r.value.rows) == Labels(t.rows)
    ensures r.Ok? ==> forall i, c :: 0 <= i < |t.rows| && c in cols && c in t.rows[i].cells ==>
      c in r.value.rows[i].cells && r.value.rows[i].cells[c] == t.rows[i].cells[c]
    ensures r.Ok? ==> forall i :: 0 <= i < |t.rows| ==> r.value.rows[i].cells.Keys <= ColumnSet(cols)
  {
    var missing := FirstMissing(cols, t.columns);
    if missing.Some? then Err(KeyError(missing.value))
    else
      Ok(Table(cols, seq(|t.rows|, i requires 0 <= i < |t.rows| =>
        Row(t.rows[i].index, map c | c in t.rows[i].cells && c in cols :: t.rows[i].cells[c]))))
  }

  function LabelDrop(rows: seq<Row>, l: int): seq<Row> {
    FilterRows(rows, (r: Row) => r.index != l)
  }

  /** The position of a index. */
  function IndexOf(rows: seq<Row>, l: int): (i: nat)
    requires l in Labels(rows)
    ensures i < |rows| && rows[i].index == l
    decreases |rows|
  {
    if rows[0].index == l then 0
    else
      assert l in Labels(rows[1..]) by {
        var m :| 0 <= m < |rows| && Labels(rows)[m] == l;
        assert Labels(rows[1..])[m - 1] == l;
      }
      1 + IndexOf(rows[1..], l)
  }

  /** `db.at[l, col] = v`: a new column is added, missing in every other row. */
  function SetAt(t: Table, l: int, col: string, v: Cell): (q: Table)
    ensures q.columns == AddName(t.columns, col) && Labels(q.rows) == Labels(t.rows)
    ensures forall i :: 0 <= i < |q.rows| ==>
      q.rows[i].cells == if t.rows[i].index == l then t.rows[i].cells[col := v]
                         else if col in t.columns then t.rows[i].cells
                         else t.rows[i].cells[col := NA]
  {
    Table(AddName(t.columns, col), seq(|t.rows|, i requires 0 <= i < |t.rows| =>
      Row(t.rows[i].index,
        if t.rows[i].index == l then t.rows[i].cells[col := v]
        else if col in t.columns then t.rows[i].cells
        else t.rows[i].cells[col := NA])))
  }

  lemma SetAtWellFormed(t: Table, l: int, col: string, v: Cell)
    requires WellFormed(t)
    ensures WellFormed(SetAt(t, l, col, v))
  {
    AddNameSpec(t.columns, col);
  }

  /** A pandas DataFrame that functions mutate in place. */
  class Frame {
    var columns: seq<string>
    var rows: seq<Row>

    constructor (t: Table)
      ensures Value() == t
    {
      columns := t.columns;
      rows := t.rows;
    }

    function Value(): Table
      reads this
    {
      Table(columns, rows)
    }

    ghost predicate Valid()
      reads this
    {
      WellFormed(Value())
    }
  }
}
