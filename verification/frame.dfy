/** The data frame the dashboard passes around: named, typed columns and
    rows of cells, plus the cell conversions pandas performs on it. */
module Frame {
  import opened Wrappers
  import opened Sequences

  /** One cell. `Missing` is pandas' NaN/NaT/None; `Stamp` is a converted
      `datetime64[ns]` value in nanoseconds since 1970-01-01. */
  datatype Cell = Missing | Text(text: string) | Number(number: real) | Stamp(nanos: int)

  /** A column's dtype as far as the cleaning step cares: `Numeric` is what
      `select_dtypes(include=[np.number])` selects, `Temporal` is
      `datetime64`, `Other` is everything else (object, bool, ...). */
  datatype Kind = Numeric | Temporal | Other

  datatype Column = Column(name: string, kind: Kind)

  type Row = seq<Cell>

  datatype Table = Table(columns: seq<Column>, rows: seq<Row>)

  /** The conversions the cleaning step delegates to pandas, cell by cell:
      `toDatetime` is `pd.to_datetime(errors='coerce')` (None for a cell it
      turns into NaT), `toNumeric` is `pd.to_numeric(errors='coerce')`, and
      `toYear` is the year that `pd.to_datetime(str(cell) + "-01-01")` reads
      (None where that call raises). Reading the result as January 1 of
      that year is exact for four-digit years only. */
  datatype Parsers = Parsers(
    toDatetime: Cell -> Option<int>,
    toNumeric: Cell -> Option<real>,
    toYear: Cell -> Option<int>)

  predicate DistinctNames(cols: seq<Column>)
  {
    forall i, j :: 0 <= i < j < |cols| ==> cols[i].name != cols[j].name
  }

  predicate Rectangular(t: Table)
  {
    forall r :: r in t.rows ==> |r| == |t.columns|
  }

  predicate WellFormed(t: Table)
  {
    DistinctNames(t.columns) && Rectangular(t)
  }

  predicate HasColumn(cols: seq<Column>, name: string)
  {
    exists i :: 0 <= i < |cols| && cols[i].name == name
  }

  /** Where the column called `name` sits (`df[name]`). */
  function ColumnIndex(cols: seq<Column>, name: string): (r: Option<nat>)
    ensures r.Some? <==> HasColumn(cols, name)
    ensures r.Some? ==> r.value < |cols| && cols[r.value].name == name
  {
    FirstIndex(cols, (c: Column) => c.name == name)
  }

  /** With distinct names, a column is found exactly where it is. */
  lemma ColumnIndexAt(cols: seq<Column>, name: string, k: nat)
    requires DistinctNames(cols) && k < |cols| && cols[k].name == name
    ensures ColumnIndex(cols, name) == Some(k)
  {
  }

  /** `df.rename(columns={old: name})` for the column at `k`: only that
      column's name changes, and a fresh name keeps the names distinct. */
  function Rename(t: Table, k: nat, name: string): (r: Table)
    requires k < |t.columns|
    ensures r.rows == t.rows && |r.columns| == |t.columns|
    ensures r.columns[k] == Column(name, t.columns[k].kind)
    ensures forall j :: 0 <= j < |t.columns| && j != k ==> r.columns[j] == t.columns[j]
    ensures HasColumn(r.columns, name)
    ensures WellFormed(t) && !HasColumn(t.columns, name) ==> WellFormed(r)
  {
    t.(columns := t.columns[k := t.columns[k].(name := name)])
  }

  /** `df[col] = f(df[col])`: replaces the column at `k` cell by cell and
      sets its dtype to `kind`, in place; no name changes. */
  function MapColumn(t: Table, k: nat, kind: Kind, f: Cell -> Cell): (r: Table)
    requires k < |t.columns| && Rectangular(t)
    ensures |r.columns| == |t.columns| && r.columns[k].kind == kind
    ensures forall j :: 0 <= j < |t.columns| ==> r.columns[j].name == t.columns[j].name
    ensures forall j :: 0 <= j < |t.columns| && j != k ==> r.columns[j] == t.columns[j]
    ensures |r.rows| == |t.rows|
    ensures forall i :: 0 <= i < |t.rows| ==> |r.rows[i]| == |t.rows[i]| == |t.columns|
    ensures forall i, j :: 0 <= i < |t.rows| && 0 <= j < |t.columns| ==>
      r.rows[i][j] == if j == k then f(t.rows[i][j]) else t.rows[i][j]
    ensures Rectangular(r)
    ensures WellFormed(t) ==> WellFormed(r)
  {
    Table(t.columns[k := t.columns[k].(kind := kind)],
          seq(|t.rows|, i requires 0 <= i < |t.rows| => t.rows[i][k := f(t.rows[i][k])]))
  }

  /** `df[name] = cells` for a name not yet present: a new last column,
      every existing column and cell left where it was. */
  function AppendColumn(t: Table, c: Column, cells: seq<Cell>): (r: Table)
    requires |cells| == |t.rows| && Rectangular(t)
    ensures |r.columns| == |t.columns| + 1 && r.columns[..|t.columns|] == t.columns
    ensures r.columns[|t.columns|] == c
    ensures |r.rows| == |t.rows|
    ensures forall i :: 0 <= i < |t.rows| ==> |r.rows[i]| == |t.rows[i]| + 1 == |t.columns| + 1
    ensures forall i :: 0 <= i < |t.rows| ==> r.rows[i][..|t.columns|] == t.rows[i] && r.rows[i][|t.columns|] == cells[i]
    ensures Rectangular(r)
    ensures WellFormed(t) && !HasColumn(t.columns, c.name) ==> WellFormed(r)
  {
    Table(t.columns + [c], seq(|t.rows|, i requires 0 <= i < |t.rows| => t.rows[i] + [cells[i]]))
  }
}
