/** What the cleaning step promises about its output in terms of its input:
    which rows survive and how often, where the dates come from, when the
    step raises, and that cleaning a cleaned table changes nothing but the
    order of rows with equal dates. */
module Properties {
  import opened Wrappers
  import opened Text
  import opened Calendar
  import opened Sequences
  import opened Frame
  import opened Cleaning

  // ---------------------------------------------------------------------
  // Which rows survive
  // ---------------------------------------------------------------------

  /** A row of the converted table survives cleaning exactly when its date
      and value are present and its date is not after `today`; each such
      row appears exactly once, and nothing else appears. */
  lemma SurvivingRows(t: Table, today: int, p: Parsers)
    requires WellFormed(t)
    requires Standardize(t, today, p).Ok?
    ensures Prepare(t, today, p).Ok?
    ensures var c := Prepare(t, today, p).value;
      var o := Standardize(t, today, p).value;
      var d, v := ColumnIndex(c.columns, DateName).value, ColumnIndex(c.columns, ValueName).value;
      && HasColumn(c.columns, DateName)
      && o.columns == c.columns
      && forall x :: multiset(o.rows)[x] == if x in c.rows && Present(x, d, v) && OnOrBefore(x, d, today) then 1 else 0
  {
    var c := Prepare(t, today, p).value;
    var present := DropMissing(c).value;
    var d, v := ColumnIndex(c.columns, DateName).value, ColumnIndex(c.columns, ValueName).value;
    var future := DropFuture(present, today);
    var unique := DropDuplicates(future);
    var o := SortByDate(unique);
    assert Standardize(t, today, p).value == o;
    forall x ensures multiset(o.rows)[x] == if x in c.rows && Present(x, d, v) && OnOrBefore(x, d, today) then 1 else 0 {
      NoDuplicatesCount(unique.rows, x);
      assert x in unique.rows <==> x in future.rows;
      assert x in future.rows <==> multiset(future.rows)[x] > 0;
      assert x in present.rows <==> multiset(present.rows)[x] > 0;
      assert x in c.rows <==> multiset(c.rows)[x] > 0;
    }
  }

  /** The future filter compares calendar days: a row dated any time on
      `today` is kept, one dated at the first instant of tomorrow is not. */
  lemma FutureCutoff(r: Row, d: nat, today: int)
    requires d < |r| && r[d].Stamp?
    ensures OnOrBefore(r, d, today) <==> r[d].nanos < StartOfDay(today + 1)
  {
    OnOrBeforeIff(r[d].nanos, today);
  }

  // ---------------------------------------------------------------------
  // Where the dates come from
  // ---------------------------------------------------------------------

  /** No column is called `date` and none hints at a date. */
  predicate NoDateSource(t: Table)
  {
    !HasColumn(t.columns, DateName) && forall k {:trigger IsDateLike(t.columns[k])} :: 0 <= k < |t.columns| ==> !IsDateLike(t.columns[k])
  }

  /** An existing `date` column is converted where it stands, and no column
      is renamed. */
  lemma ExistingDateColumnKept(t: Table, today: int, p: Parsers, d: nat)
    requires WellFormed(t) && d < |t.columns| && t.columns[d].name == DateName
    ensures EnsureDate(RenameDateLike(t), today, p).Ok?
    ensures var dated := EnsureDate(RenameDateLike(t), today, p).value;
      && dated.columns == t.columns[d := Column(DateName, Temporal)]
      && forall i :: 0 <= i < |t.rows| ==> dated.rows[i] == t.rows[i][d := DateCell(p, t.rows[i][d])]
  {
    assert HasColumn(t.columns, DateName);
    RenameKeepsExistingDate(t);
    DateFromExisting(t, today, p, d);
  }

  /** Without a `date` column, the first date-like column is renamed to
      `date` and converted; every other column keeps its name. */
  lemma FirstDateLikeColumnRenamed(t: Table, today: int, p: Parsers, k: nat)
    requires WellFormed(t) && !HasColumn(t.columns, DateName) && IsFirst(t.columns, IsDateLike, k)
    ensures EnsureDate(RenameDateLike(t), today, p).Ok?
    ensures var dated := EnsureDate(RenameDateLike(t), today, p).value;
      && dated.columns == t.columns[k := Column(DateName, Temporal)]
      && (forall j :: 0 <= j < |t.columns| && j != k ==> dated.columns[j].name == t.columns[j].name)
      && forall i :: 0 <= i < |t.rows| ==> dated.rows[i] == t.rows[i][k := DateCell(p, t.rows[i][k])]
  {
    RenameFirstDateLike(t, k);
    var named := RenameDateLike(t);
    DateFromExisting(named, today, p, k);
  }

  /** From a `year` column: when every year converts, each row gets
      midnight of January 1 of its year in a new last `date` column. */
  lemma YearDatesAreJanuaryFirst(t: Table, today: int, p: Parsers, y: nat)
    requires WellFormed(t) && NoDateSource(t) && y < |t.columns| && t.columns[y].name == YearName
    requires forall i :: 0 <= i < |t.rows| ==> p.toYear(t.rows[i][y]).Some?
    ensures EnsureDate(RenameDateLike(t), today, p).Ok?
    ensures var dated := EnsureDate(RenameDateLike(t), today, p).value;
      && dated.columns == t.columns + [Column(DateName, Temporal)]
      && |dated.rows| == |t.rows|
      && forall i :: 0 <= i < |t.rows| ==>
           dated.rows[i] == t.rows[i] + [Stamp(StartOfDay(JanFirst(p.toYear(t.rows[i][y]).value)))]
  {
    NoDateSourceKept(t);
    DateFromYear(t, today, p, y);
  }

  /** With neither a date-like nor a `year` column, row `i` is dated
      `today` minus `i` days, so the made-up dates strictly decrease down
      the table; the step succeeds exactly when those days fit in
      `datetime64[ns]`. */
  lemma CountdownDates(t: Table, today: int, p: Parsers)
    requires WellFormed(t) && NoDateSource(t) && !HasColumn(t.columns, YearName)
    ensures EnsureDate(RenameDateLike(t), today, p).Ok? <==> CountdownFits(|t.rows|, today)
    ensures EnsureDate(RenameDateLike(t), today, p).Ok? ==>
      var dated := EnsureDate(RenameDateLike(t), today, p).value;
      var n := |t.columns|;
      && dated.columns == t.columns + [Column(DateName, Temporal)]
      && (forall i :: 0 <= i < |t.rows| ==> dated.rows[i][n].Stamp? && DayOf(dated.rows[i][n].nanos) == today - i)
      && forall i, j :: 0 <= i < j < |t.rows| ==> dated.rows[i][n].nanos > dated.rows[j][n].nanos
  {
    NoDateSourceKept(t);
    DateFromCountdown(t, today, p);
    if CountdownFits(|t.rows|, today) {
      var dated := EnsureDate(t, today, p).value;
      var n := |t.columns|;
      forall i | 0 <= i < |t.rows| ensures dated.rows[i][n].Stamp? && DayOf(dated.rows[i][n].nanos) == today - i {
        assert t.rows[i] in t.rows;
        DayOfStartOfDay(today - i);
      }
      forall i, j | 0 <= i < j < |t.rows| ensures dated.rows[i][n].nanos > dated.rows[j][n].nanos {
        assert t.rows[i] in t.rows && t.rows[j] in t.rows;
        StartOfDayMonotonic(today - j, today - i);
      }
    }
  }

  // ---------------------------------------------------------------------
  // When the step raises
  // ---------------------------------------------------------------------

  /** With no date-like column but a `year` column, the step raises exactly
      when some row's year does not convert. */
  lemma YearFailureIff(t: Table, today: int, p: Parsers, y: nat)
    requires WellFormed(t) && NoDateSource(t) && y < |t.columns| && t.columns[y].name == YearName
    ensures Standardize(t, today, p) == Err(YearNotParsable) <==>
              exists i :: 0 <= i < |t.rows| && p.toYear(t.rows[i][y]).None?
  {
    NoDateSourceKept(t);
    YearFailureWhenNothingRenamed(t, today, p, y);
  }

  lemma YearFailureWhenNothingRenamed(t: Table, today: int, p: Parsers, y: nat)
    requires WellFormed(t) && RenameDateLike(t) == t && !HasColumn(t.columns, DateName)
    requires y < |t.columns| && t.columns[y].name == YearName
    ensures Standardize(t, today, p) == Err(YearNotParsable) <==>
              exists i :: 0 <= i < |t.rows| && p.toYear(t.rows[i][y]).None?
  {
    YearStepFails(t, today, p, y);
    YearErrorIsTheDateStep(t, today, p);
  }

  /** The date step raises the year error exactly when some year does not
      convert. */
  lemma YearStepFails(t: Table, today: int, p: Parsers, y: nat)
    requires WellFormed(t) && !HasColumn(t.columns, DateName)
    requires y < |t.columns| && t.columns[y].name == YearName
    ensures EnsureDate(t, today, p) == Err(YearNotParsable) <==>
              exists i :: 0 <= i < |t.rows| && p.toYear(t.rows[i][y]).None?
  {
    DateFromYear(t, today, p, y);
  }

  /** The step raises the year error exactly when the date step does. */
  lemma YearErrorIsTheDateStep(t: Table, today: int, p: Parsers)
    requires WellFormed(t)
    ensures Standardize(t, today, p) == Err(YearNotParsable) <==> EnsureDate(RenameDateLike(t), today, p) == Err(YearNotParsable)
  {
    if EnsureDate(RenameDateLike(t), today, p).Ok? {
      OnlyTheDateStepRaisesYearErrors(t, today, p);
    } else {
      DateStepFailureRaises(t, today, p);
    }
  }

  /** A failing date step makes the whole step raise its error. */
  lemma DateStepFailureRaises(t: Table, today: int, p: Parsers)
    requires WellFormed(t) && EnsureDate(RenameDateLike(t), today, p).Err?
    ensures Standardize(t, today, p) == Err(EnsureDate(RenameDateLike(t), today, p).error)
  {
    assert Prepare(t, today, p) == Err(EnsureDate(RenameDateLike(t), today, p).error);
  }

  lemma NoDateSourceKept(t: Table)
    requires WellFormed(t) && NoDateSource(t)
    ensures RenameDateLike(t) == t
  {
    RenameWithoutHint(t);
  }

  /** Names without `d` or `t` leave no date source. */
  lemma NoDateSourceByLetters(t: Table)
    requires forall k :: 0 <= k < |t.columns| ==> LacksHintLetters(t.columns[k].name)
    ensures NoDateSource(t)
  {
    forall k | 0 <= k < |t.columns| ensures !IsDateLike(t.columns[k]) && t.columns[k].name != DateName {
      NotDateLike(t.columns[k]);
      assert DateName[0] == 'd';
    }
  }

  /** Only the date step raises the year and range errors: after it, only
      the missing-column error is left. */
  lemma OnlyTheDateStepRaisesYearErrors(t: Table, today: int, p: Parsers)
    requires WellFormed(t) && EnsureDate(RenameDateLike(t), today, p).Ok?
    ensures Standardize(t, today, p).Err? ==> Standardize(t, today, p).error.MissingColumn?
  {
    var dated := EnsureDate(RenameDateLike(t), today, p).value;
    var c := CoerceValue(ResolveValue(dated), p);
    assert Prepare(t, today, p) == Ok(c);
    assert DropMissing(c).Err? ==> DropMissing(c).error.MissingColumn?;
  }

  /** Once the date column exists, the step raises exactly when there is no
      `value` column, no numeric column, and the date column is the last
      one: the last-column fallback then renames `date` to `value` and the
      missing-value filter finds no `date`. */
  lemma DateColumnLostIff(t: Table, today: int, p: Parsers)
    requires WellFormed(t)
    requires EnsureDate(RenameDateLike(t), today, p).Ok?
    ensures var dated := EnsureDate(RenameDateLike(t), today, p).value;
      && |dated.columns| > 0
      && (Standardize(t, today, p).Err? <==>
           && !HasColumn(dated.columns, ValueName)
           && (forall k :: 0 <= k < |dated.columns| ==> !IsNumeric(dated.columns[k]))
           && dated.columns[|dated.columns| - 1].name == DateName)
      && (Standardize(t, today, p).Err? ==> Standardize(t, today, p).error == MissingColumn(DateName))
  {
    var dated := EnsureDate(RenameDateLike(t), today, p).value;
    var named := ResolveValue(dated);
    var c := CoerceValue(named, p);
    assert Prepare(t, today, p) == Ok(c);
    CoercionKeepsDate(named, p);
    ValueFallbackTakesDate(dated);
    assert Standardize(t, today, p).Err? <==> DropMissing(c).Err?;
  }

  /** Converting the value column renames nothing. */
  lemma CoercionKeepsDate(named: Table, p: Parsers)
    requires WellFormed(named) && HasColumn(named.columns, ValueName)
    ensures HasColumn(CoerceValue(named, p).columns, DateName) <==> HasColumn(named.columns, DateName)
  {
    var c := CoerceValue(named, p);
    var v := ColumnIndex(named.columns, ValueName).value;
    assert c.columns == named.columns[v := Column(ValueName, Numeric)];
    if HasColumn(named.columns, DateName) {
      var k :| 0 <= k < |named.columns| && named.columns[k].name == DateName;
      assert c.columns[k].name == DateName;
    }
    if HasColumn(c.columns, DateName) {
      var k :| 0 <= k < |c.columns| && c.columns[k].name == DateName;
      assert named.columns[k].name == DateName;
    }
  }

  /** The value fallback renames the date column exactly when there is no
      `value` column, no numeric column, and the date column is last. */
  lemma ValueFallbackTakesDate(dated: Table)
    requires WellFormed(dated) && HasColumn(dated.columns, DateName)
    requires ColumnHolds(dated, DateName, Temporal, IsStampOrMissing)
    ensures |dated.columns| > 0
    ensures !HasColumn(ResolveValue(dated).columns, DateName) <==>
      && !HasColumn(dated.columns, ValueName)
      && (forall k :: 0 <= k < |dated.columns| ==> !IsNumeric(dated.columns[k]))
      && dated.columns[|dated.columns| - 1].name == DateName
  {
    var named := ResolveValue(dated);
    var d :| 0 <= d < |dated.columns| && dated.columns[d].name == DateName;
    assert dated.columns[d].kind == Temporal;
    var last := |dated.columns| - 1;
    assert HasColumn(named.columns, DateName) <==> named.columns[d].name == DateName by {
      if HasColumn(named.columns, DateName) {
        var k :| 0 <= k < |named.columns| && named.columns[k].name == DateName;
        assert named.columns[k] == dated.columns[k];
      }
    }
    if HasColumn(dated.columns, ValueName) {
      assert named == dated;
    } else if k :| IsFirst(dated.columns, IsNumeric, k) {
      assert k != d;
      assert named.columns[d] == dated.columns[d];
    } else {
      assert named.columns == dated.columns[last := Column(ValueName, dated.columns[last].kind)];
      if d != last {
        assert dated.columns[last].name != DateName;
      }
    }
  }

  /** The pitfall of the last-column fallback: a table with no date-like
      column, no `value` column and no numeric column gets a made-up `date`
      column at the end, which is then taken as the value column, and the
      step raises instead of returning a table. Unless, that is, it raised
      earlier because the made-up dates left `datetime64[ns]`. */
  lemma MadeUpDateTakenAsValue(t: Table, today: int, p: Parsers)
    requires WellFormed(t) && NoDateSource(t) && !HasColumn(t.columns, ValueName)
    requires forall k :: 0 <= k < |t.columns| ==> !IsNumeric(t.columns[k])
    requires forall y :: 0 <= y < |t.columns| && t.columns[y].name == YearName ==>
               forall i :: 0 <= i < |t.rows| ==> p.toYear(t.rows[i][y]).Some?
    ensures Standardize(t, today, p) ==
      Err(if HasColumn(t.columns, YearName) || CountdownFits(|t.rows|, today) then MissingColumn(DateName) else DateOutOfRange)
  {
    NoDateSourceKept(t);
    MadeUpDateComesLast(t, today, p);
    if EnsureDate(t, today, p).Err? {
      DateStepFailureRaises(t, today, p);
    } else {
      MadeUpDateLost(t, today, p);
    }
  }

  /** Once made up, the last column `date` is the value fallback's pick. */
  lemma MadeUpDateLost(t: Table, today: int, p: Parsers)
    requires WellFormed(t) && RenameDateLike(t) == t && !HasColumn(t.columns, ValueName)
    requires forall k :: 0 <= k < |t.columns| ==> !IsNumeric(t.columns[k])
    requires EnsureDate(t, today, p).Ok?
    requires EnsureDate(t, today, p).value.columns == t.columns + [Column(DateName, Temporal)]
    ensures Standardize(t, today, p) == Err(MissingColumn(DateName))
  {
    var cols := EnsureDate(t, today, p).value.columns;
    assert forall k :: 0 <= k < |cols| ==> cols[k].name != ValueName by {
      forall k | 0 <= k < |cols| ensures cols[k].name != ValueName {
        if k < |t.columns| {
          assert cols[k] == t.columns[k];
        }
      }
    }
    assert forall k :: 0 <= k < |cols| ==> !IsNumeric(cols[k]) by {
      forall k | 0 <= k < |cols| ensures !IsNumeric(cols[k]) {
        if k < |t.columns| {
          assert cols[k] == t.columns[k];
        }
      }
    }
    DateColumnLostIff(t, today, p);
  }

  /** Without a date-like column and with every year convertible, the date
      step appends `date` as the last column, or raises the range error when
      made-up dates do not fit. */
  lemma MadeUpDateComesLast(t: Table, today: int, p: Parsers)
    requires WellFormed(t) && !HasColumn(t.columns, DateName)
    requires forall y :: 0 <= y < |t.columns| && t.columns[y].name == YearName ==>
               forall i :: 0 <= i < |t.rows| ==> p.toYear(t.rows[i][y]).Some?
    ensures EnsureDate(t, today, p).Ok? <==> HasColumn(t.columns, YearName) || CountdownFits(|t.rows|, today)
    ensures EnsureDate(t, today, p).Err? ==> EnsureDate(t, today, p).error == DateOutOfRange
    ensures EnsureDate(t, today, p).Ok? ==> EnsureDate(t, today, p).value.columns == t.columns + [Column(DateName, Temporal)]
  {
    if y :| 0 <= y < |t.columns| && t.columns[y].name == YearName {
      DateFromYear(t, today, p, y);
    } else {
      DateFromCountdown(t, today, p);
    }
  }

  // ---------------------------------------------------------------------
  // Cleaning a cleaned table
  // ---------------------------------------------------------------------

  /** Converters that leave already-converted cells alone, as pandas'
      `to_datetime` and `to_numeric` do. */
  ghost predicate Lawful(p: Parsers)
  {
    && (forall n: int :: p.toDatetime(Stamp(n)) == Some(n))
    && (forall x: real :: p.toNumeric(Number(x)) == Some(x))
  }

  /** Cleaning a cleaned table again succeeds with the same columns and the
      same rows; only rows with equal dates may come back in another order,
      since the sort promises nothing about them. */
  lemma CleaningIsIdempotent(t: Table, today: int, p: Parsers)
    requires WellFormed(t) && Lawful(p)
    requires Standardize(t, today, p).Ok?
    ensures var o := Standardize(t, today, p).value;
      && WellFormed(o)
      && Standardize(o, today, p).Ok?
      && Standardize(o, today, p).value.columns == o.columns
      && multiset(Standardize(o, today, p).value.rows) == multiset(o.rows)
  {
    var o := Standardize(t, today, p).value;
    assert Canonical(o, today);
    CanonicalIsPrepared(o, today, p);
    CanonicalIsClean(o, today);
  }

  /** Converting a cleaned table's columns again changes nothing. */
  lemma CanonicalIsPrepared(o: Table, today: int, p: Parsers)
    requires Canonical(o, today) && Lawful(p)
    ensures Prepare(o, today, p) == Ok(o)
  {
    var d, v := ColumnIndex(o.columns, DateName).value, ColumnIndex(o.columns, ValueName).value;
    RenameKeepsExistingDate(o);
    DateFromExisting(o, today, p, d);
    var dated := EnsureDate(o, today, p).value;
    assert dated.rows == o.rows by {
      forall i | 0 <= i < |o.rows| ensures dated.rows[i] == o.rows[i] {
        assert o.rows[i] in o.rows;
        assert o.rows[i][d := DateCell(p, o.rows[i][d])] == o.rows[i];
      }
    }
    assert dated == o;
    assert ResolveValue(o) == o;
    var c := CoerceValue(o, p);
    assert c.rows == o.rows by {
      forall i | 0 <= i < |o.rows| ensures c.rows[i] == o.rows[i] {
        assert o.rows[i] in o.rows;
        assert o.rows[i][v := ValueCell(p, o.rows[i][v])] == o.rows[i];
      }
    }
    assert c == o;
  }

  /** Dropping missing, future and duplicate rows of a cleaned table drops
      nothing. */
  lemma CanonicalIsClean(o: Table, today: int)
    requires Canonical(o, today)
    ensures DropMissing(o) == Ok(o)
    ensures DropFuture(o, today) == o
    ensures DropDuplicates(o) == o
  {
    var d, v := ColumnIndex(o.columns, DateName).value, ColumnIndex(o.columns, ValueName).value;
    FilterAll(o.rows, (x: Row) => Present(x, d, v));
    FilterAll(o.rows, (x: Row) => OnOrBefore(x, d, today));
    DedupNoDuplicates(o.rows);
  }

  // ---------------------------------------------------------------------
  // Worked examples
  // ---------------------------------------------------------------------

  /** Korean headers over text columns: `날짜` does not hint at a date in
      Latin letters and `온도` has no numeric dtype, so the made-up date
      column is taken as the value column and the step raises, whatever
      the cells hold; on a table too long to count back from `today`, it
      raises the range error first. */
  lemma KoreanHeadersRaise(rows: seq<Row>, today: int, p: Parsers)
    requires forall r :: r in rows ==> |r| == 2
    ensures var t := Table([Column("날짜", Other), Column("온도", Other)], rows);
      && WellFormed(t)
      && Standardize(t, today, p) == Err(if CountdownFits(|rows|, today) then MissingColumn(DateName) else DateOutOfRange)
  {
    var t := Table([Column("날짜", Other), Column("온도", Other)], rows);
    KoreanHeadersNameNothing(t);
    MadeUpDateTakenAsValue(t, today, p);
  }

  /** The two Korean headers name no date, value or year source. */
  lemma KoreanHeadersNameNothing(t: Table)
    requires t.columns == [Column("날짜", Other), Column("온도", Other)]
    requires forall r :: r in t.rows ==> |r| == 2
    ensures WellFormed(t) && NoDateSource(t) && !HasColumn(t.columns, ValueName)
    ensures forall k :: 0 <= k < |t.columns| ==> !IsNumeric(t.columns[k]) && t.columns[k].name != YearName
  {
    assert DistinctNames(t.columns) by {
      assert t.columns[0].name[0] != t.columns[1].name[0];
    }
    assert forall k :: 0 <= k < |t.columns| ==> LacksHintLetters(t.columns[k].name);
    NoDateSourceByLetters(t);
    assert |ValueName| == 5 && |YearName| == 4;
    assert forall k :: 0 <= k < |t.columns| ==> |t.columns[k].name| == 2;
  }

  /** The columns of a table dated by a `year` column, before and after
      cleaning. */
  const YearValueColumns: seq<Column> := [Column(YearName, Numeric), Column(ValueName, Other)]
  const CleanedYearValueColumns: seq<Column> :=
    [Column(YearName, Numeric), Column(ValueName, Numeric), Column(DateName, Temporal)]

  /** Two identical rows dated by a `year` column collapse into one, dated
      midnight of January 1 of their year, with the value converted. */
  lemma DuplicateYearRowsCollapse(yc: Cell, vc: Cell, year: int, x: real, today: int, p: Parsers)
    requires p.toYear(yc) == Some(year) && p.toNumeric(vc) == Some(x) && JanFirst(year) <= today
    ensures var t := Table(YearValueColumns, [[yc, vc], [yc, vc]]);
      && WellFormed(t)
      && Standardize(t, today, p) ==
           Ok(Table(CleanedYearValueColumns, [[yc, Number(x), Stamp(StartOfDay(JanFirst(year)))]]))
  {
    var t := Table(YearValueColumns, [[yc, vc], [yc, vc]]);
    var row := [yc, Number(x), Stamp(StartOfDay(JanFirst(year)))];
    PairPrepared(t, yc, vc, year, x, today, p);
    var c := Table(CleanedYearValueColumns, [row, row]);
    ColumnIndexAt(CleanedYearValueColumns, DateName, 2);
    ColumnIndexAt(CleanedYearValueColumns, ValueName, 1);
    assert DropMissing(c).Ok?;
    assert Standardize(t, today, p).Ok?;
    PairSurvivorCount(t, row, today, p);
    PairSurvivor(Standardize(t, today, p).value.rows, row, today);
  }

  /** Of two copies of a present row dated no later than `today`, exactly
      one survives. */
  lemma PairSurvivor(rows: seq<Row>, row: Row, today: int)
    requires |row| == 3 && row[1].Number? && row[2].Stamp? && DayOf(row[2].nanos) <= today
    requires forall r :: multiset(rows)[r] ==
               if r in [row, row] && Present(r, 2, 1) && OnOrBefore(r, 2, today) then 1 else 0
    ensures rows == [row]
  {
    assert Present(row, 2, 1) && OnOrBefore(row, 2, today);
    forall r ensures multiset(rows)[r] == if r == row then 1 else 0 {
      if r == row {
        assert r in [row, row];
      } else {
        assert r !in [row, row];
      }
    }
    SingletonFromCount(rows, row);
  }

  lemma PairSurvivorCount(t: Table, row: Row, today: int, p: Parsers)
    requires WellFormed(t) && Prepare(t, today, p) == Ok(Table(CleanedYearValueColumns, [row, row]))
    requires Standardize(t, today, p).Ok?
    ensures var o := Standardize(t, today, p).value;
      && o.columns == CleanedYearValueColumns
      && forall r :: multiset(o.rows)[r] ==
           if r in [row, row] && Present(r, 2, 1) && OnOrBefore(r, 2, today) then 1 else 0
  {
    SurvivingRows(t, today, p);
    ColumnIndexAt(CleanedYearValueColumns, DateName, 2);
    ColumnIndexAt(CleanedYearValueColumns, ValueName, 1);
  }

  /** A sequence holding `x` once and nothing else is `[x]`. */
  lemma SingletonFromCount(s: seq<Row>, x: Row)
    requires forall y :: multiset(s)[y] == if y == x then 1 else 0
    ensures s == [x]
  {
    assert multiset(s) == multiset{x};
    assert |s| == 1;
    assert s[0] in multiset(s);
  }

  lemma PairPrepared(t: Table, yc: Cell, vc: Cell, year: int, x: real, today: int, p: Parsers)
    requires t == Table(YearValueColumns, [[yc, vc], [yc, vc]])
    requires p.toYear(yc) == Some(year) && p.toNumeric(vc) == Some(x)
    ensures WellFormed(t)
    ensures var row := [yc, Number(x), Stamp(StartOfDay(JanFirst(year)))];
      Prepare(t, today, p) == Ok(Table(CleanedYearValueColumns, [row, row]))
  {
    PairNamed(t);
    var dated := PairDated(t, yc, vc, year, today, p);
    PairValued(dated, yc, vc, year, x, p);
  }

  lemma PairNamed(t: Table)
    requires t.columns == YearValueColumns && forall r :: r in t.rows ==> |r| == 2
    ensures WellFormed(t) && RenameDateLike(t) == t
  {
    assert DistinctNames(t.columns) by {
      assert t.columns[0].name[0] != t.columns[1].name[0];
    }
    assert forall k :: 0 <= k < |t.columns| ==> LacksHintLetters(t.columns[k].name);
    NoDateSourceByLetters(t);
    NoDateSourceKept(t);
  }

  lemma PairDated(t: Table, yc: Cell, vc: Cell, year: int, today: int, p: Parsers) returns (dated: Table)
    requires WellFormed(t) && t.columns == YearValueColumns
    requires |t.rows| == 2 && t.rows[0] == [yc, vc] && t.rows[1] == [yc, vc]
    requires p.toYear(yc) == Some(year)
    ensures EnsureDate(t, today, p) == Ok(dated)
    ensures dated.columns == YearValueColumns + [Column(DateName, Temporal)]
    ensures var stamp := Stamp(StartOfDay(JanFirst(year)));
      dated.rows == [[yc, vc, stamp], [yc, vc, stamp]]
  {
    assert !HasColumn(t.columns, DateName) by {
      assert DateName[0] == 'd';
      assert forall k :: 0 <= k < |t.columns| ==> t.columns[k].name[0] != 'd';
    }
    assert forall i :: 0 <= i < |t.rows| ==> t.rows[i] == [yc, vc] by {
      forall i | 0 <= i < |t.rows| ensures t.rows[i] == [yc, vc] {
        if i == 0 {
        } else {
          assert i == 1;
        }
      }
    }
    DateFromYear(t, today, p, 0);
    dated := EnsureDate(t, today, p).value;
    var stamp := Stamp(StartOfDay(JanFirst(year)));
    assert [yc, vc] + [stamp] == [yc, vc, stamp];
    assert dated.rows[0] == [yc, vc, stamp] && dated.rows[1] == [yc, vc, stamp];
    assert dated.rows == [dated.rows[0], dated.rows[1]];
  }

  lemma PairValued(dated: Table, yc: Cell, vc: Cell, year: int, x: real, p: Parsers)
    requires dated.columns == YearValueColumns + [Column(DateName, Temporal)]
    requires var stamp := Stamp(StartOfDay(JanFirst(year)));
      dated.rows == [[yc, vc, stamp], [yc, vc, stamp]]
    requires p.toNumeric(vc) == Some(x)
    ensures WellFormed(dated) && ResolveValue(dated) == dated
    ensures var row := [yc, Number(x), Stamp(StartOfDay(JanFirst(year)))];
      CoerceValue(dated, p) == Table(CleanedYearValueColumns, [row, row])
  {
    assert DistinctNames(dated.columns) by {
      assert forall i :: 0 <= i < 3 ==> dated.columns[i].name[0] == "yvd"[i];
    }
    assert HasColumn(dated.columns, ValueName) by {
      assert dated.columns[1].name == ValueName;
    }
    ColumnIndexAt(dated.columns, ValueName, 1);
    var c := CoerceValue(dated, p);
    var row := [yc, Number(x), Stamp(StartOfDay(JanFirst(year)))];
    assert c.rows[0] == row && c.rows[1] == row;
    assert c.rows == [row, row];
    assert c.columns == CleanedYearValueColumns;
  }
}
