/** `standardize_and_clean`: turns a table with unknown column names into
    one with a `date` column of timestamps and a numeric `value` column,
    drops incomplete and future rows, removes duplicate rows and sorts by
    date. Each step below is one step of the Python function, in its order. */
module Cleaning {
  import opened Wrappers
  import opened Text
  import opened Calendar
  import opened Sequences
  import opened Frame

  const DateName: string := "date"
  const ValueName: string := "value"
  const YearName: string := "year"

  /** What `standardize_and_clean` raises: the `year` conversion fails (it is called
      without `errors='coerce'`), the made-up dates leave the range of
      `datetime64[ns]` (an `OutOfBoundsDatetime`, or, before it, an
      `OverflowError` once the countdown passes year 1), or `dropna` is asked
      for a column that no longer exists (a `KeyError`). */
  datatype Error = YearNotParsable | DateOutOfRange | MissingColumn(name: string)

  // ---------------------------------------------------------------------
  // Step 1: find the date column
  // ---------------------------------------------------------------------

  /** A name that hints at a date: its lower-cased form contains `date`,
      `day` or `time`, that is, one of them occurs in the name when letters
      are compared ignoring case. */
  predicate IsDateLike(c: Column): (b: bool)
    ensures b <==> || (exists k :: OccursFolded("date", c.name, k))
                   || (exists k :: OccursFolded("day", c.name, k))
                   || (exists k :: OccursFolded("time", c.name, k))
  {
    var l := Lower(c.name);
    ContainsLowerIff(c.name, "date");
    ContainsLowerIff(c.name, "day");
    ContainsLowerIff(c.name, "time");
    Contains(l, "date") || Contains(l, "day") || Contains(l, "time")
  }

  /** Whether a name has none of the letters `d` and `t` in either case. */
  predicate LacksHintLetters(name: string)
  {
    forall i :: 0 <= i < |name| ==> name[i] != 'd' && name[i] != 'D' && name[i] != 't' && name[i] != 'T'
  }

  /** A name without `d` or `t` in either case does not hint at a date:
      every hint starts with one of those letters. */
  lemma NotDateLike(c: Column)
    requires LacksHintLetters(c.name)
    ensures !IsDateLike(c)
  {
    var l := Lower(c.name);
    assert 'd' !in l && 't' !in l by {
      forall j | 0 <= j < |l| ensures l[j] != 'd' && l[j] != 't' {
        assert l[j] == LowerChar(c.name[j]);
      }
    }
    FirstCharAbsent(l, "date");
    FirstCharAbsent(l, "day");
    FirstCharAbsent(l, "time");
  }

  /** Keeps an existing `date` column; otherwise renames the first
      date-like column, in column order, to `date`. */
  function RenameDateLike(t: Table): (r: Table)
    requires WellFormed(t)
    ensures WellFormed(r) && r.rows == t.rows && |r.columns| == |t.columns|
    ensures forall i :: 0 <= i < |t.columns| ==> r.columns[i].kind == t.columns[i].kind
    ensures forall i :: 0 <= i < |t.columns| && r.columns[i].name != DateName ==> r.columns[i] == t.columns[i]
  {
    if ColumnIndex(t.columns, DateName).Some? then t
    else match FirstIndex(t.columns, IsDateLike)
      case None => t
      case Some(k) =>
        Rename(t, k, DateName)
  }

  /** A table that already has a `date` column is left as it is. */
  lemma RenameKeepsExistingDate(t: Table)
    requires WellFormed(t) && HasColumn(t.columns, DateName)
    ensures RenameDateLike(t) == t
  {
  }

  /** Otherwise the first date-like column, and only it, becomes `date`. */
  lemma RenameFirstDateLike(t: Table, k: nat)
    requires WellFormed(t) && !HasColumn(t.columns, DateName) && IsFirst(t.columns, IsDateLike, k)
    ensures RenameDateLike(t).columns == t.columns[k := Column(DateName, t.columns[k].kind)]
  {
    var i := FirstIndex(t.columns, IsDateLike);
    IsFirstUnique(t.columns, IsDateLike, i.value, k);
  }

  /** With neither a `date` column nor a date-like one, nothing is renamed. */
  lemma RenameWithoutHint(t: Table)
    requires WellFormed(t) && !HasColumn(t.columns, DateName)
    requires forall k {:trigger IsDateLike(t.columns[k])} :: 0 <= k < |t.columns| ==> !IsDateLike(t.columns[k])
    ensures RenameDateLike(t) == t
  {
  }

  // ---------------------------------------------------------------------
  // Step 2: make sure there is a converted date column
  // ---------------------------------------------------------------------

  /** `pd.to_datetime(cell, errors='coerce')`: a timestamp, or missing. */
  function DateCell(p: Parsers, c: Cell): (r: Cell)
    ensures r.Stamp? || r.Missing?
    ensures r.Stamp? <==> p.toDatetime(c).Some?
    ensures r.Stamp? ==> p.toDatetime(c) == Some(r.nanos)
  {
    match p.toDatetime(c)
    case Some(nanos) => Stamp(nanos)
    case None => Missing
  }

  /** Midnight of January 1 of every row's year, or nothing if some row's
      year does not convert (the whole conversion then raises). */
  function YearStamps(rows: seq<Row>, y: nat, p: Parsers): (r: Option<seq<Cell>>)
    requires forall row :: row in rows ==> y < |row|
    ensures r.Some? <==> forall i :: 0 <= i < |rows| ==> p.toYear(rows[i][y]).Some?
    ensures r.Some? ==>
      && |r.value| == |rows|
      && forall i :: 0 <= i < |rows| ==> r.value[i] == Stamp(StartOfDay(JanFirst(p.toYear(rows[i][y]).value)))
    decreases |rows|
  {
    if |rows| == 0 then Some([])
    else match p.toYear(rows[0][y])
      case None => None
      case Some(year) =>
        match YearStamps(rows[1..], y, p)
        case None =>
          assert forall i :: 1 <= i < |rows| ==> rows[1..][i - 1] == rows[i];
          None
        case Some(rest) =>
          assert forall i :: 1 <= i < |rows| ==> rows[1..][i - 1] == rows[i];
          Some([Stamp(StartOfDay(JanFirst(year)))] + rest)
  }

  /** Whether `n` days counted back from `today` all lie in the range of
      `datetime64[ns]`: only the first and the last need checking. */
  predicate CountdownFits(n: nat, today: int)
  {
    n == 0 || (InStampRange(today) && InStampRange(today - (n - 1)))
  }

  /** Midnight of `today`, the day before, and so on: one per row, each a
      midnight `i` days before `today`, strictly decreasing. They all fit in
      64-bit nanoseconds exactly when `CountdownFits`. */
  function Countdown(n: nat, today: int): (r: seq<Cell>)
    ensures |r| == n
    ensures forall i :: 0 <= i < n ==> r[i].Stamp? && DayOf(r[i].nanos) == today - i && r[i].nanos % NanosPerDay == 0
    ensures forall i, j :: 0 <= i < j < n ==> r[j].nanos < r[i].nanos
    ensures CountdownFits(n, today) <==> forall i :: 0 <= i < n ==> MinInt64 <= r[i].nanos <= MaxInt64
  {
    var r := seq(n, i requires 0 <= i < n => Stamp(StartOfDay(today - i)));
    assert forall i :: 0 <= i < n ==> DayOf(r[i].nanos) == today - i by {
      forall i | 0 <= i < n ensures DayOf(r[i].nanos) == today - i {
        DayOfStartOfDay(today - i);
      }
    }
    assert forall i, j :: 0 <= i < j < n ==> r[j].nanos < r[i].nanos by {
      forall i, j | 0 <= i < j < n ensures r[j].nanos < r[i].nanos {
        StartOfDayMonotonic(today - j, today - i);
      }
    }
    CountdownFitsIff(n, today, r);
    r
  }

  /** Midnights counting back from `today` fit in 64 bits exactly when the
      first and the last do. */
  lemma CountdownFitsIff(n: nat, today: int, r: seq<Cell>)
    requires |r| == n && forall i :: 0 <= i < n ==> r[i] == Stamp(StartOfDay(today - i))
    ensures CountdownFits(n, today) <==> forall i :: 0 <= i < n ==> MinInt64 <= r[i].nanos <= MaxInt64
  {
    forall i | 0 <= i < n ensures InStampRange(today - i) <==> MinInt64 <= r[i].nanos <= MaxInt64 {
      StampRangeIff(today - i);
    }
    if n > 0 {
      assert r[0].nanos == StartOfDay(today) && r[n - 1].nanos == StartOfDay(today - (n - 1));
    }
  }

  /** Converts an existing `date` column in place; otherwise appends a
      `date` column built from `year`, or else counting back from `today`. */
  function EnsureDate(t: Table, today: int, p: Parsers): (r: Result<Table, Error>)
    requires WellFormed(t)
    ensures r.Ok? ==> WellFormed(r.value) && |r.value.rows| == |t.rows| && HasColumn(r.value.columns, DateName)
    ensures r.Ok? ==> ColumnHolds(r.value, DateName, Temporal, IsStampOrMissing)
    ensures r.Err? ==> r.error == YearNotParsable || r.error == DateOutOfRange
  {
    match ColumnIndex(t.columns, DateName)
    case Some(d) =>
      var r := MapColumn(t, d, Temporal, (c: Cell) => DateCell(p, c));
      ConvertedDateHolds(t, d, p, r);
      Ok(r)
    case None =>
      var date := Column(DateName, Temporal);
      match ColumnIndex(t.columns, YearName)
      case Some(y) =>
        (match YearStamps(t.rows, y, p)
         case None => Err(YearNotParsable)
         case Some(cells) =>
           var r := AppendColumn(t, date, cells);
           AppendedDateHolds(t, cells, r);
           Ok(r))
      case None =>
        if !CountdownFits(|t.rows|, today) then Err(DateOutOfRange)
        else
          var r := AppendColumn(t, date, Countdown(|t.rows|, today));
          AppendedDateHolds(t, Countdown(|t.rows|, today), r);
          Ok(r)
  }

  /** An existing `date` column is converted cell by cell where it stands;
      nothing else changes. */
  lemma DateFromExisting(t: Table, today: int, p: Parsers, d: nat)
    requires WellFormed(t) && d < |t.columns| && t.columns[d].name == DateName
    ensures EnsureDate(t, today, p).Ok?
    ensures var r := EnsureDate(t, today, p).value;
      && r.columns == t.columns[d := Column(DateName, Temporal)]
      && |r.rows| == |t.rows|
      && forall i :: 0 <= i < |t.rows| ==> r.rows[i] == t.rows[i][d := DateCell(p, t.rows[i][d])]
  {
    ColumnIndexAt(t.columns, DateName, d);
  }

  /** Without a `date` column, a `year` column yields a new last column of
      January-1 timestamps; the step fails exactly when some year does not
      convert. */
  lemma DateFromYear(t: Table, today: int, p: Parsers, y: nat)
    requires WellFormed(t) && !HasColumn(t.columns, DateName)
    requires y < |t.columns| && t.columns[y].name == YearName
    ensures EnsureDate(t, today, p).Ok? <==> forall i :: 0 <= i < |t.rows| ==> p.toYear(t.rows[i][y]).Some?
    ensures EnsureDate(t, today, p).Err? ==> EnsureDate(t, today, p).error == YearNotParsable
    ensures EnsureDate(t, today, p).Ok? ==>
      var r := EnsureDate(t, today, p).value;
      && r.columns == t.columns + [Column(DateName, Temporal)]
      && |r.rows| == |t.rows|
      && forall i :: 0 <= i < |t.rows| ==>
           r.rows[i] == t.rows[i] + [Stamp(StartOfDay(JanFirst(p.toYear(t.rows[i][y]).value)))]
  {
    ColumnIndexAt(t.columns, YearName, y);
  }

  /** With neither a `date` nor a `year` column, row `i` gets midnight of
      `today` minus `i` days in a new last column; the step fails, with
      `DateOutOfRange`, exactly when those days leave `datetime64[ns]`. */
  lemma DateFromCountdown(t: Table, today: int, p: Parsers)
    requires WellFormed(t) && !HasColumn(t.columns, DateName) && !HasColumn(t.columns, YearName)
    ensures EnsureDate(t, today, p).Ok? <==> CountdownFits(|t.rows|, today)
    ensures EnsureDate(t, today, p).Err? ==> EnsureDate(t, today, p).error == DateOutOfRange
    ensures EnsureDate(t, today, p).Ok? ==>
      var r := EnsureDate(t, today, p).value;
      && r.columns == t.columns + [Column(DateName, Temporal)]
      && |r.rows| == |t.rows|
      && forall i :: 0 <= i < |t.rows| ==> r.rows[i] == t.rows[i] + [Stamp(StartOfDay(today - i))]
  {
    if CountdownFits(|t.rows|, today) {
      var cells := Countdown(|t.rows|, today);
      var r := EnsureDate(t, today, p).value;
      assert r == AppendColumn(t, Column(DateName, Temporal), cells);
      forall i | 0 <= i < |t.rows| ensures r.rows[i] == t.rows[i] + [Stamp(StartOfDay(today - i))] {
        CountdownAt(|t.rows|, today, i);
      }
    }
  }

  /** Entry `i` of the countdown is midnight `i` days before `today`. */
  lemma CountdownAt(n: nat, today: int, i: nat)
    requires i < n
    ensures Countdown(n, today)[i] == Stamp(StartOfDay(today - i))
  {
  }

  lemma ConvertedDateHolds(t: Table, d: nat, p: Parsers, r: Table)
    requires WellFormed(t) && d < |t.columns| && t.columns[d].name == DateName
    requires r == MapColumn(t, d, Temporal, (c: Cell) => DateCell(p, c))
    ensures WellFormed(r) && HasColumn(r.columns, DateName)
    ensures ColumnHolds(r, DateName, Temporal, IsStampOrMissing)
  {
    assert r.columns[d].name == DateName;
    forall k | 0 <= k < |r.columns| && r.columns[k].name == DateName
      ensures r.columns[k].kind == Temporal && forall x :: x in r.rows ==> IsStampOrMissing(x[k])
    {
      assert k == d;
      forall x | x in r.rows ensures IsStampOrMissing(x[k]) {
        var i :| 0 <= i < |r.rows| && r.rows[i] == x;
        assert t.rows[i] in t.rows;
      }
    }
  }

  lemma AppendedDateHolds(t: Table, cells: seq<Cell>, r: Table)
    requires WellFormed(t) && !HasColumn(t.columns, DateName) && |cells| == |t.rows|
    requires forall i :: 0 <= i < |cells| ==> cells[i].Stamp?
    requires r == AppendColumn(t, Column(DateName, Temporal), cells)
    ensures WellFormed(r) && HasColumn(r.columns, DateName)
    ensures ColumnHolds(r, DateName, Temporal, IsStampOrMissing)
  {
    var n := |t.columns|;
    assert r.columns[n].name == DateName;
    forall k | 0 <= k < |r.columns| && r.columns[k].name == DateName
      ensures r.columns[k].kind == Temporal && forall x :: x in r.rows ==> IsStampOrMissing(x[k])
    {
      assert k == n;
      forall x | x in r.rows ensures IsStampOrMissing(x[k]) {
        var i :| 0 <= i < |r.rows| && r.rows[i] == x;
        assert t.rows[i] in t.rows;
        assert x[n] == cells[i];
      }
    }
  }

  predicate IsStampOrMissing(c: Cell) { c.Stamp? || c.Missing? }

  predicate IsNumberOrMissing(c: Cell) { c.Number? || c.Missing? }

  /** Every column called `name` has dtype `kind` and only cells `ok`
      accepts. */
  predicate ColumnHolds(t: Table, name: string, kind: Kind, ok: Cell -> bool)
  {
    Rectangular(t) &&
    forall k :: 0 <= k < |t.columns| && t.columns[k].name == name ==>
      t.columns[k].kind == kind && forall r :: r in t.rows ==> ok(r[k])
  }

  // ---------------------------------------------------------------------
  // Step 3: find the value column
  // ---------------------------------------------------------------------

  predicate IsNumeric(c: Column) { c.kind == Numeric }

  /** Keeps an existing `value` column; otherwise renames the first numeric
      column, or else the last column, to `value`. */
  function ResolveValue(t: Table): (r: Table)
    requires WellFormed(t) && |t.columns| > 0
    ensures WellFormed(r) && r.rows == t.rows && |r.columns| == |t.columns|
    ensures HasColumn(r.columns, ValueName)
    ensures forall i :: 0 <= i < |t.columns| ==> r.columns[i].kind == t.columns[i].kind
    ensures forall i :: 0 <= i < |t.columns| && r.columns[i].name != ValueName ==> r.columns[i] == t.columns[i]
    ensures HasColumn(t.columns, ValueName) ==> r == t
    ensures forall k :: !HasColumn(t.columns, ValueName) && IsFirst(t.columns, IsNumeric, k) ==>
              r.columns == t.columns[k := Column(ValueName, Numeric)]
    ensures !HasColumn(t.columns, ValueName) && (forall k :: 0 <= k < |t.columns| ==> !IsNumeric(t.columns[k])) ==>
              r.columns == t.columns[|t.columns| - 1 := Column(ValueName, t.columns[|t.columns| - 1].kind)]
  {
    if ColumnIndex(t.columns, ValueName).Some? then t
    else
      var k := match FirstIndex(t.columns, IsNumeric)
        case Some(k) => k
        case None => |t.columns| - 1;
      assert forall k' :: IsFirst(t.columns, IsNumeric, k') ==> k' == k;
      var r := Rename(t, k, ValueName);
      assert r.columns[k].name == ValueName;
      r
  }

  // ---------------------------------------------------------------------
  // Step 4: convert the value column
  // ---------------------------------------------------------------------

  /** `pd.to_numeric(cell, errors='coerce')`: a number, or missing. */
  function ValueCell(p: Parsers, c: Cell): (r: Cell)
    ensures r.Number? || r.Missing?
    ensures r.Number? <==> p.toNumeric(c).Some?
    ensures r.Number? ==> p.toNumeric(c) == Some(r.number)
  {
    match p.toNumeric(c)
    case Some(x) => Number(x)
    case None => Missing
  }

  /** Converts the `value` column in place; failures become missing. */
  function CoerceValue(t: Table, p: Parsers): (r: Table)
    requires WellFormed(t) && HasColumn(t.columns, ValueName)
    ensures WellFormed(r) && |r.rows| == |t.rows|
    ensures forall v :: 0 <= v < |t.columns| && t.columns[v].name == ValueName ==>
      && r.columns == t.columns[v := Column(ValueName, Numeric)]
      && forall i :: 0 <= i < |t.rows| ==> r.rows[i] == t.rows[i][v := ValueCell(p, t.rows[i][v])]
  {
    var v := ColumnIndex(t.columns, ValueName).value;
    MapColumn(t, v, Numeric, (c: Cell) => ValueCell(p, c))
  }

  /** Steps 1-4: the table with its `date` and `value` columns converted,
      just before any row is dropped. */
  function Prepare(t: Table, today: int, p: Parsers): (r: Result<Table, Error>)
    requires WellFormed(t)
    ensures r.Err? ==> r.error == YearNotParsable || r.error == DateOutOfRange
    ensures r.Ok? ==> WellFormed(r.value) && |r.value.rows| == |t.rows| && Converted(r.value)
  {
    match EnsureDate(RenameDateLike(t), today, p)
    case Err(e) => Err(e)
    case Ok(dated) =>
      var named := ResolveValue(dated);
      var c := CoerceValue(named, p);
      ConvertedAfterCoercion(dated, named, c, p);
      Ok(c)
  }

  /** After conversion: a numeric `value` column of numbers or missing
      markers, and any `date` column holds timestamps or missing markers. */
  predicate Converted(t: Table)
  {
    && HasColumn(t.columns, ValueName)
    && ColumnHolds(t, ValueName, Numeric, IsNumberOrMissing)
    && ColumnHolds(t, DateName, Temporal, IsStampOrMissing)
  }

  lemma ConvertedAfterCoercion(dated: Table, named: Table, c: Table, p: Parsers)
    requires WellFormed(dated) && |dated.columns| > 0
    requires ColumnHolds(dated, DateName, Temporal, IsStampOrMissing)
    requires named == ResolveValue(dated) && c == CoerceValue(named, p)
    ensures Converted(c)
  {
    var v := ColumnIndex(named.columns, ValueName).value;
    assert c.columns == named.columns[v := Column(ValueName, Numeric)];
    forall k | 0 <= k < |c.columns| && c.columns[k].name == ValueName
      ensures c.columns[k].kind == Numeric && forall r :: r in c.rows ==> IsNumberOrMissing(r[k])
    {
      ColumnIndexAt(named.columns, ValueName, v);
      assert k == v;
      forall r | r in c.rows ensures IsNumberOrMissing(r[k]) {
        var i :| 0 <= i < |c.rows| && c.rows[i] == r;
        assert r == named.rows[i][v := ValueCell(p, named.rows[i][v])];
      }
    }
    assert HasColumn(c.columns, ValueName) by {
      assert c.columns[v].name == ValueName;
    }
    forall k | 0 <= k < |c.columns| && c.columns[k].name == DateName
      ensures c.columns[k].kind == Temporal && forall r :: r in c.rows ==> IsStampOrMissing(r[k])
    {
      assert k != v;
      assert named.columns[k] == dated.columns[k];
      forall r | r in c.rows ensures IsStampOrMissing(r[k]) {
        var i :| 0 <= i < |c.rows| && c.rows[i] == r;
        assert r[k] == named.rows[i][k] == dated.rows[i][k];
        assert dated.rows[i] in dated.rows;
      }
    }
  }

  // ---------------------------------------------------------------------
  // Steps 5-8: drop incomplete rows, future rows and duplicates; sort
  // ---------------------------------------------------------------------

  /** Neither the date nor the value of the row is missing. */
  predicate Present(r: Row, d: nat, v: nat)
  {
    d < |r| && v < |r| && !r[d].Missing? && !r[v].Missing?
  }

  /** `dropna(subset=['date', 'value'])`: raises if either column is gone. */
  function DropMissing(t: Table): (r: Result<Table, Error>)
    ensures r.Err? <==> !HasColumn(t.columns, DateName) || !HasColumn(t.columns, ValueName)
    ensures r.Err? ==> r.error == MissingColumn(if HasColumn(t.columns, DateName) then ValueName else DateName)
    ensures r.Ok? ==>
      var d, v := ColumnIndex(t.columns, DateName).value, ColumnIndex(t.columns, ValueName).value;
      && r.value.columns == t.columns
      && forall x :: multiset(r.value.rows)[x] == if Present(x, d, v) then multiset(t.rows)[x] else 0
  {
    match ColumnIndex(t.columns, DateName)
    case None => Err(MissingColumn(DateName))
    case Some(d) =>
      match ColumnIndex(t.columns, ValueName)
      case None => Err(MissingColumn(ValueName))
      case Some(v) => Ok(t.(rows := Filter(t.rows, (x: Row) => Present(x, d, v))))
  }

  /** The row's date is a timestamp on `today` or earlier. */
  predicate OnOrBefore(r: Row, d: nat, today: int)
  {
    d < |r| && r[d].Stamp? && DayOf(r[d].nanos) <= today
  }

  /** `df[df['date'].dt.date <= today]`: keeps rows dated `today` or
      earlier, comparing calendar days. */
  function DropFuture(t: Table, today: int): (r: Table)
    requires HasColumn(t.columns, DateName)
    ensures r.columns == t.columns
    ensures var d := ColumnIndex(t.columns, DateName).value;
      forall x :: multiset(r.rows)[x] == if OnOrBefore(x, d, today) then multiset(t.rows)[x] else 0
  {
    var d := ColumnIndex(t.columns, DateName).value;
    t.(rows := Filter(t.rows, (x: Row) => OnOrBefore(x, d, today)))
  }

  /** `drop_duplicates()`: exact duplicates across all columns go, the
      first occurrence stays. */
  function DropDuplicates(t: Table): (r: Table)
    ensures r.columns == t.columns
    ensures NoDuplicates(r.rows)
    ensures forall x :: x in r.rows <==> x in t.rows
  {
    t.(rows := Dedup(t.rows))
  }

  /** The sort key: the row's timestamp. */
  function DateKey(d: nat): Row -> int
  {
    (r: Row) => if d < |r| && r[d].Stamp? then r[d].nanos else 0
  }

  /** `sort_values('date')`: ordered by timestamp, rows with equal
      timestamps in no promised order. */
  function SortByDate(t: Table): (r: Table)
    requires HasColumn(t.columns, DateName)
    ensures r.columns == t.columns
    ensures multiset(r.rows) == multiset(t.rows)
    ensures SortedBy(r.rows, DateKey(ColumnIndex(t.columns, DateName).value))
  {
    t.(rows := SortBy(t.rows, DateKey(ColumnIndex(t.columns, DateName).value)))
  }

  /** The cleaned table's promises: converted `date` and `value` columns,
      every row complete and not in the future, no duplicate rows, sorted
      by date. */
  predicate Canonical(o: Table, today: int)
  {
    && WellFormed(o)
    && HasColumn(o.columns, DateName)
    && HasColumn(o.columns, ValueName)
    && var d, v := ColumnIndex(o.columns, DateName).value, ColumnIndex(o.columns, ValueName).value;
    && o.columns[d].kind == Temporal
    && o.columns[v].kind == Numeric
    && (forall r: Row :: r in o.rows ==> r[d].Stamp? && r[v].Number? && DayOf(r[d].nanos) <= today)
    && (forall i, j :: 0 <= i < j < |o.rows| ==> o.rows[i][d].nanos <= o.rows[j][d].nanos)
    && NoDuplicates(o.rows)
  }

  /** The whole cleaning step (`standardize_and_clean`), with `today` in
      place of the wall clock. */
  function Standardize(t: Table, today: int, p: Parsers): (r: Result<Table, Error>)
    requires WellFormed(t)
    ensures r.Ok? ==> Canonical(r.value, today)
    ensures r.Err? ==> r.error == YearNotParsable || r.error == DateOutOfRange || r.error == MissingColumn(DateName)
  {
    match Prepare(t, today, p)
    case Err(e) => Err(e)
    case Ok(c) =>
      match DropMissing(c)
      case Err(e) => Err(e)
      case Ok(present) =>
        var o := SortByDate(DropDuplicates(DropFuture(present, today)));
        CleanedIsCanonical(c, present, o, today);
        Ok(o)
  }

  lemma CleanedIsCanonical(c: Table, present: Table, o: Table, today: int)
    requires WellFormed(c) && Converted(c)
    requires DropMissing(c) == Ok(present)
    requires o == SortByDate(DropDuplicates(DropFuture(present, today)))
    ensures Canonical(o, today)
  {
    var d, v := ColumnIndex(c.columns, DateName).value, ColumnIndex(c.columns, ValueName).value;
    CleanedRowsSurvive(c, present, o, today);
    forall r: Row | r in o.rows
      ensures |r| == |o.columns| && r[d].Stamp? && r[v].Number? && DayOf(r[d].nanos) <= today
    {
      assert r in c.rows;
      assert IsStampOrMissing(r[d]) && IsNumberOrMissing(r[v]);
    }
    CleanedSorted(present, o, today);
    CleanedNoDuplicates(present, o, today);
  }

  /** Every row of the cleaned table is a complete, non-future row of the
      converted table. */
  lemma CleanedRowsSurvive(c: Table, present: Table, o: Table, today: int)
    requires DropMissing(c) == Ok(present)
    requires o == SortByDate(DropDuplicates(DropFuture(present, today)))
    ensures o.columns == c.columns
    ensures var d, v := ColumnIndex(c.columns, DateName).value, ColumnIndex(c.columns, ValueName).value;
      forall r :: r in o.rows ==> r in c.rows && Present(r, d, v) && OnOrBefore(r, d, today)
  {
    var d, v := ColumnIndex(c.columns, DateName).value, ColumnIndex(c.columns, ValueName).value;
    var future := DropFuture(present, today);
    var unique := DropDuplicates(future);
    forall r | r in o.rows
      ensures r in c.rows && Present(r, d, v) && OnOrBefore(r, d, today)
    {
      assert r in multiset(o.rows);
      assert r in unique.rows;
      assert r in multiset(future.rows);
      assert r in multiset(present.rows);
      assert r in multiset(c.rows);
    }
  }

  lemma CleanedSorted(present: Table, o: Table, today: int)
    requires HasColumn(present.columns, DateName)
    requires o == SortByDate(DropDuplicates(DropFuture(present, today)))
    requires var d := ColumnIndex(present.columns, DateName).value;
      forall r: Row :: r in o.rows ==> d < |r| && r[d].Stamp?
    ensures var d := ColumnIndex(present.columns, DateName).value;
      forall i, j :: 0 <= i < j < |o.rows| ==> o.rows[i][d].nanos <= o.rows[j][d].nanos
  {
    var d := ColumnIndex(present.columns, DateName).value;
    assert SortedBy(o.rows, DateKey(d));
    forall i, j | 0 <= i < j < |o.rows| ensures o.rows[i][d].nanos <= o.rows[j][d].nanos {
      assert o.rows[i] in o.rows && o.rows[j] in o.rows;
      assert DateKey(d)(o.rows[i]) <= DateKey(d)(o.rows[j]);
    }
  }

  lemma CleanedNoDuplicates(present: Table, o: Table, today: int)
    requires HasColumn(present.columns, DateName)
    requires o == SortByDate(DropDuplicates(DropFuture(present, today)))
    ensures NoDuplicates(o.rows)
  {
    var unique := DropDuplicates(DropFuture(present, today));
    forall x ensures multiset(o.rows)[x] <= 1 {
      NoDuplicatesCount(unique.rows, x);
    }
    NoDuplicatesFromCount(o.rows);
  }
}
