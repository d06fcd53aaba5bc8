/**
 * The asteroid-table helpers: validating a table, completing a file name
 * with ".csv", keeping the close approaches from 2000 on, dropping unused
 * columns, and the queries (the dimmest asteroid, the closest one, the
 * asteroids per orbit, the number with an above-average diameter).
 *
 * A table is abstract: a list of column names and a list of rows, each row
 * a map from every column name to its cell.  Only the two helpers that
 * change the caller's table work on a `DataFrame` object.
 */
module NasaAsteroidDs {
  import opened Wrappers

  /** A cell: a number, a text, a calendar day written as the integer yyyymmdd, or a missing value (NaN, None, NaT). */
  datatype Value = Number(x: real) | Text(s: string) | Date(day: int) | Missing

  type Row = map<string, Value>

  datatype Frame = Frame(columns: seq<string>, rows: seq<Row>)

  function ColumnSet(columns: seq<string>): set<string> {
    set c | c in columns
  }

  /** Every row has a cell for exactly the table's columns. */
  predicate WellFormed(f: Frame) {
    forall i :: 0 <= i < |f.rows| ==> f.rows[i].Keys == ColumnSet(f.columns)
  }

  type Table = f: Frame | WellFormed(f) witness Frame([], [])

  /** A pandas frame the helpers may change in place. */
  class DataFrame {
    var table: Table

    constructor (t: Table)
      ensures table == t
    {
      table := t;
    }
  }

  const DateColumn := "Close Approach Date"
  const MagnitudeColumn := "Absolute Magnitude"
  const NameColumn := "Name"
  const MissDistanceColumn := "Miss Dist.(kilometers)"
  const OrbitColumn := "Orbit ID"
  const DiameterColumn := "Est Dia in KM(max)"
  const DroppedColumns := ["Orbiting Body", "Neo Reference ID", "Equinox"]

  /** 2000-01-01 as yyyymmdd; these integers order days as the calendar does. */
  const Since2000 := 20000101

  // validate_df

  /** pandas' `df.empty`: no rows or no columns. */
  predicate IsEmpty(t: Table) {
    |t.rows| == 0 || |t.columns| == 0
  }

  /** The required columns absent from the table, in the order required. */
  function MissingColumns(columns: seq<string>, required: seq<string>): (missing: seq<string>)
    ensures forall c :: c in missing <==> c in required && c !in columns
  {
    if required == [] then []
    else (if required[0] in columns then [] else [required[0]]) + MissingColumns(columns, required[1..])
  }

  /**
   * `validate_df`: the table must not be empty, and when a non-empty list of
   * required columns is given, none of them may be missing; `None` and the
   * empty list check emptiness only.
   */
  function ValidateDf(t: Table, required: Option<seq<string>>): (ok: bool)
    ensures ok <==> !IsEmpty(t) && (required.Some? ==> forall c :: c in required.value ==> c in t.columns)
  {
    if IsEmpty(t) then false
    else if required.Some? && required.value != [] then
      var missing := MissingColumns(t.columns, required.value);
      assert missing != [] ==> missing[0] in missing;
      missing == []
    else true
  }

  /** Once validated, every row has a cell in each required column. */
  lemma ValidatedRowsHaveColumns(t: Table, required: seq<string>, c: string, i: int)
    requires ValidateDf(t, Some(required)) && c in required && 0 <= i < |t.rows|
    ensures c in t.rows[i]
  {
  }

  // ensure_csv_extension

  /** `str.lower` on ASCII letters; every other character is kept. */
  function LowerChar(c: char): char {
    if 'A' <= c <= 'Z' then (c as int - 'A' as int + 'a' as int) as char else c
  }

  function Lower(s: string): (r: string)
    ensures |r| == |s| && forall i :: 0 <= i < |s| ==> r[i] == LowerChar(s[i])
  {
    if s == [] then [] else [LowerChar(s[0])] + Lower(s[1..])
  }

  predicate EndsWith(s: string, suffix: string) {
    |suffix| <= |s| && s[|s| - |suffix|..] == suffix
  }

  /** `ensure_csv_extension`: ".csv" is added unless the name already ends with it in any letter case. */
  function EnsureCsvExtension(filename: string): (r: string)
    ensures EndsWith(Lower(r), ".csv")
    ensures EndsWith(Lower(filename), ".csv") ==> r == filename
    ensures !EndsWith(Lower(filename), ".csv") ==> r == filename + ".csv"
  {
    if !EndsWith(Lower(filename), ".csv") then
      var r := filename + ".csv";
      LowerAppendCsv(filename);
      r
    else filename
  }

  lemma LowerAppendCsv(s: string)
    ensures Lower(s + ".csv") == Lower(s) + ".csv"
  {
    var l := Lower(s + ".csv");
    assert forall i :: |s| <= i < |s| + 4 ==> l[i] == ".csv"[i - |s|];
  }

  /** Completing a name twice is completing it once. */
  lemma EnsureCsvIdempotent(filename: string)
    ensures EnsureCsvExtension(EnsureCsvExtension(filename)) == EnsureCsvExtension(filename)
  {
  }

  /** The name is returned unchanged exactly when it already ends with ".csv". */
  lemma EnsureCsvUnchangedIff(filename: string)
    ensures EnsureCsvExtension(filename) == filename <==> EndsWith(Lower(filename), ".csv")
  {
    if !EndsWith(Lower(filename), ".csv") {
      assert |EnsureCsvExtension(filename)| == |filename| + 4;
    }
  }

  // mask_data

  /**
   * How `pd.to_datetime(errors='coerce')` reads one cell of the column: the
   * calendar day it denotes (a day cell, a date string in the column's
   * format, ...), or `None` where pandas gives up and writes NaT.
   */
  type DateReading = Value -> Option<int>

  /** `pd.to_datetime(errors='coerce')` on one cell: the day read, or NaT. */
  function CoerceDate(toDay: DateReading, v: Value): (c: Value)
    ensures c.Date? || c.Missing?
    ensures c.Date? <==> toDay(v).Some?
    ensures c.Date? ==> c.day == toDay(v).value
  {
    match toDay(v)
    case Some(d) => Date(d)
    case None => Missing
  }

  function CoerceRow(toDay: DateReading, r: Row): (c: Row)
    requires DateColumn in r
    ensures c.Keys == r.Keys
  {
    r[DateColumn := CoerceDate(toDay, r[DateColumn])]
  }

  /** The table with its date column converted, every other cell as it was. */
  function CoerceDates(toDay: DateReading, t: Table): (c: Table)
    requires DateColumn in t.columns
    ensures c.columns == t.columns && |c.rows| == |t.rows|
  {
    var rows := seq(|t.rows|, i requires 0 <= i < |t.rows| => CoerceRow(toDay, t.rows[i]));
    assert WellFormed(Frame(t.columns, rows));
    Frame(t.columns, rows)
  }

  /** The row's approach day is known and no earlier than 2000-01-01; NaT fails the comparison. */
  predicate FromYear2000(r: Row) {
    DateColumn in r && r[DateColumn].Date? && r[DateColumn].day >= Since2000
  }

  function RowsFrom2000(rows: seq<Row>): (kept: seq<Row>)
    ensures forall r :: r in kept ==> r in rows
  {
    if rows == [] then []
    else
      var last := rows[|rows| - 1];
      RowsFrom2000(rows[..|rows| - 1]) + (if FromYear2000(last) then [last] else [])
  }

  /** `df[mask].copy()`: the rows from 2000 on, under the same columns. */
  function SelectFrom2000(t: Table): (s: Table)
    ensures s.columns == t.columns
  {
    var kept := RowsFrom2000(t.rows);
    assert forall i :: 0 <= i < |kept| ==> kept[i] in t.rows;
    Frame(t.columns, kept)
  }

  /**
   * `mask_data`: `None` when the table is empty or has no date column;
   * otherwise the caller's date column is converted in place and the rows
   * from 2000 on come back as a new table, which may have no rows.
   */
  method MaskData(df: DataFrame, toDay: DateReading) returns (res: Option<Table>)
    modifies df
    ensures !ValidateDf(old(df.table), Some([DateColumn])) ==> res == None && df.table == old(df.table)
    ensures ValidateDf(old(df.table), Some([DateColumn])) ==>
      df.table == CoerceDates(toDay, old(df.table)) && res == Some(SelectFrom2000(df.table))
  {
    if !ValidateDf(df.table, Some([DateColumn])) {
      return None;
    }
    df.table := CoerceDates(toDay, df.table);
    var filtered := SelectFrom2000(df.table);
    return Some(filtered);
  }

  /** The kept rows are exactly those from 2000 on, and there are at most as many. */
  lemma {:induction false} RowsFrom2000Meaning(rows: seq<Row>)
    ensures forall r :: r in RowsFrom2000(rows) <==> r in rows && FromYear2000(r)
    ensures |RowsFrom2000(rows)| <= |rows|
  {
    if rows != [] {
      var init := rows[..|rows| - 1];
      RowsFrom2000Meaning(init);
      assert rows == init + [rows[|rows| - 1]];
    }
  }

  /** Keeping rows preserves their order: it distributes over concatenation. */
  lemma {:induction false} RowsFrom2000Append(a: seq<Row>, b: seq<Row>)
    ensures RowsFrom2000(a + b) == RowsFrom2000(a) + RowsFrom2000(b)
    decreases |b|
  {
    if b == [] {
      assert a + b == a;
    } else {
      var b' := b[..|b| - 1];
      assert (a + b)[..|a + b| - 1] == a + b';
      assert (a + b)[|a + b| - 1] == b[|b| - 1];
      RowsFrom2000Append(a, b');
    }
  }

  /** In terms of the caller's original cells: a row is kept exactly when its cell reads as a day from 2000 on. */
  lemma MaskKeepsDaysFrom2000(toDay: DateReading, t: Table, i: int)
    requires DateColumn in t.columns && 0 <= i < |t.rows|
    ensures var read := toDay(t.rows[i][DateColumn]);
      CoerceDates(toDay, t).rows[i] in SelectFrom2000(CoerceDates(toDay, t)).rows
      <==> read.Some? && read.value >= Since2000
  {
    RowsFrom2000Meaning(CoerceDates(toDay, t).rows);
  }

  // data_details

  /** The columns not in `drop`, in their order. */
  function Without(columns: seq<string>, drop: seq<string>): (kept: seq<string>)
    ensures forall c :: c in kept <==> c in columns && c !in drop
    ensures |kept| <= |columns|
  {
    if columns == [] then []
    else (if columns[0] in drop then [] else [columns[0]]) + Without(columns[1..], drop)
  }

  /** `df.drop(drop, axis=1, errors='ignore')`: absent names are passed over. */
  function DropColumns(t: Table, drop: seq<string>): (d: Table)
    ensures |d.rows| == |t.rows|
    ensures d.columns == Without(t.columns, drop)
  {
    var gone := set c | c in drop;
    var rows := seq(|t.rows|, i requires 0 <= i < |t.rows| => t.rows[i] - gone);
    assert forall i :: 0 <= i < |rows| ==> rows[i].Keys == ColumnSet(t.columns) - gone;
    assert ColumnSet(Without(t.columns, drop)) == ColumnSet(t.columns) - gone;
    Frame(Without(t.columns, drop), rows)
  }

  /** Dropping names none of which is a column changes nothing. */
  lemma {:induction false} WithoutAbsent(columns: seq<string>, drop: seq<string>)
    requires forall c :: c in drop ==> c !in columns
    ensures Without(columns, drop) == columns
  {
    if columns != [] {
      WithoutAbsent(columns[1..], drop);
    }
  }

  /** Dropping the same names again changes nothing. */
  lemma WithoutIdempotent(columns: seq<string>, drop: seq<string>)
    ensures Without(Without(columns, drop), drop) == Without(columns, drop)
  {
    WithoutAbsent(Without(columns, drop), drop);
  }

  /**
   * `data_details`: for a non-empty table, drops the three unused columns
   * from the caller's table and reports its rows, its columns and their
   * names; `None` for an empty one.
   */
  method DataDetails(df: DataFrame) returns (res: Option<(nat, nat, seq<string>)>)
    modifies df
    ensures !ValidateDf(old(df.table), None) ==> res == None && df.table == old(df.table)
    ensures ValidateDf(old(df.table), None) ==>
      df.table == DropColumns(old(df.table), DroppedColumns)
      && res == Some((|old(df.table).rows|, |df.table.columns|, df.table.columns))
  {
    if ValidateDf(df.table, None) {
      df.table := DropColumns(df.table, DroppedColumns);
      var nRows, nCols := |df.table.rows|, |df.table.columns|;
      var colNames := df.table.columns;
      return Some((nRows, nCols, colNames));
    }
    return None;
  }

  // Column queries

  /** The column's cell is a number in every row (no NaN). */
  predicate NumericColumn(t: Table, c: string) {
    forall i :: 0 <= i < |t.rows| ==> c in t.rows[i] && t.rows[i][c].Number?
  }

  function Numbers(t: Table, c: string): (xs: seq<real>)
    requires NumericColumn(t, c)
    ensures |xs| == |t.rows| && forall i :: 0 <= i < |xs| ==> xs[i] == t.rows[i][c].x
  {
    seq(|t.rows|, i requires 0 <= i < |t.rows| => t.rows[i][c].x)
  }

  function Cells(t: Table, c: string): (vs: seq<Value>)
    requires c in t.columns
    ensures |vs| == |t.rows| && forall i :: 0 <= i < |vs| ==> vs[i] == t.rows[i][c]
  {
    seq(|t.rows|, i requires 0 <= i < |t.rows| => t.rows[i][c])
  }

  predicate IsFirstMax(xs: seq<real>, i: int) {
    0 <= i < |xs|
    && (forall j :: 0 <= j < |xs| ==> xs[j] <= xs[i])
    && (forall j :: 0 <= j < i ==> xs[j] < xs[i])
  }

  predicate IsFirstMin(xs: seq<real>, i: int) {
    0 <= i < |xs|
    && (forall j :: 0 <= j < |xs| ==> xs[i] <= xs[j])
    && (forall j :: 0 <= j < i ==> xs[i] < xs[j])
  }

  /** `Series.idxmax` on the default index: the first position of the largest value. */
  function IdxMax(xs: seq<real>): (i: nat)
    requires xs != []
    ensures IsFirstMax(xs, i)
  {
    if |xs| == 1 then 0
    else
      var init := xs[..|xs| - 1];
      var k := IdxMax(init);
      assert forall j :: 0 <= j < |init| ==> init[j] == xs[j];
      if xs[|xs| - 1] > xs[k] then |xs| - 1 else k
  }

  /** `Series.idxmin` on the default index: the first position of the smallest value. */
  function IdxMin(xs: seq<real>): (i: nat)
    requires xs != []
    ensures IsFirstMin(xs, i)
  {
    if |xs| == 1 then 0
    else
      var init := xs[..|xs| - 1];
      var k := IdxMin(init);
      assert forall j :: 0 <= j < |init| ==> init[j] == xs[j];
      if xs[|xs| - 1] < xs[k] then |xs| - 1 else k
  }

  /** The first position of the maximum is the only one. */
  lemma FirstMaxUnique(xs: seq<real>, i: int, j: int)
    requires IsFirstMax(xs, i) && IsFirstMax(xs, j)
    ensures i == j
  {
    assert xs[i] == xs[j];
  }

  // max_absolut_magnitude

  /** `max_absolut_magnitude`: the name and magnitude of the first row with the largest magnitude. */
  function MaxAbsoluteMagnitude(t: Table): (r: Option<(Value, real)>)
    requires ValidateDf(t, Some([MagnitudeColumn, NameColumn])) ==> NumericColumn(t, MagnitudeColumn)
    ensures r.None? <==> !ValidateDf(t, Some([MagnitudeColumn, NameColumn]))
    ensures r.Some? ==> exists i :: IsFirstMax(Numbers(t, MagnitudeColumn), i)
                                    && r.value == (t.rows[i][NameColumn], t.rows[i][MagnitudeColumn].x)
  {
    if !ValidateDf(t, Some([MagnitudeColumn, NameColumn])) then None
    else
      var i := IdxMax(Numbers(t, MagnitudeColumn));
      Some((t.rows[i][NameColumn], t.rows[i][MagnitudeColumn].x))
  }

  // closest_to_earth

  /** `closest_to_earth`: the name in the first row with the smallest miss distance. */
  function ClosestToEarth(t: Table): (r: Option<Value>)
    requires ValidateDf(t, Some([MissDistanceColumn, NameColumn])) ==> NumericColumn(t, MissDistanceColumn)
    ensures r.None? <==> !ValidateDf(t, Some([MissDistanceColumn, NameColumn]))
    ensures r.Some? ==> exists i :: IsFirstMin(Numbers(t, MissDistanceColumn), i)
                                    && r.value == t.rows[i][NameColumn]
  {
    if !ValidateDf(t, Some([MissDistanceColumn, NameColumn])) then None
    else
      var i := IdxMin(Numbers(t, MissDistanceColumn));
      Some(t.rows[i][NameColumn])
  }

  // common_orbit

  /** Each distinct value with the number of its occurrences, a missing value included. */
  function Tally(vs: seq<Value>): (m: map<Value, nat>)
    ensures m.Keys == set v | v in vs
    ensures forall v :: v in m ==> m[v] == multiset(vs)[v]
  {
    if vs == [] then map[]
    else
      var init := vs[..|vs| - 1];
      var last := vs[|vs| - 1];
      assert vs == init + [last];
      var m := Tally(init);
      m[last := if last in m then m[last] + 1 else 1]
  }

  /** The values that are not missing, in their order. */
  function Known(vs: seq<Value>): (k: seq<Value>)
    ensures forall v :: v in k <==> v in vs && !v.Missing?
    ensures forall v: Value :: !v.Missing? ==> multiset(k)[v] == multiset(vs)[v]
    ensures |k| == |vs| - multiset(vs)[Missing]
  {
    if vs == [] then []
    else
      var init := vs[..|vs| - 1];
      var last := vs[|vs| - 1];
      assert vs == init + [last];
      Known(init) + (if last.Missing? then [] else [last])
  }

  /**
   * `value_counts().to_dict()`: each distinct value with the number of its
   * occurrences; missing values are dropped, as `dropna=True` does.
   */
  function ValueCounts(vs: seq<Value>): (m: map<Value, nat>)
    ensures m.Keys == set v | v in vs && !v.Missing?
    ensures forall v :: v in m ==> m[v] == multiset(vs)[v]
  {
    Tally(Known(vs))
  }

  /**
   * `common_orbit`: the number of asteroids per known orbit, `None` without
   * an orbit column.
   */
  function CommonOrbit(t: Table): (r: Option<map<Value, nat>>)
    ensures r.None? <==> !ValidateDf(t, Some([OrbitColumn]))
    ensures r.Some? ==> r.value.Keys == set i | 0 <= i < |t.rows| && !t.rows[i][OrbitColumn].Missing? :: t.rows[i][OrbitColumn]
    ensures r.Some? ==> forall v :: v in r.value ==> r.value[v] == multiset(Cells(t, OrbitColumn))[v]
  {
    if !ValidateDf(t, Some([OrbitColumn])) then None
    else
      var cells := Cells(t, OrbitColumn);
      assert (set v | v in cells && !v.Missing?)
             == set i | 0 <= i < |t.rows| && !t.rows[i][OrbitColumn].Missing? :: t.rows[i][OrbitColumn] by {
        forall v | v in cells && !v.Missing?
          ensures exists i :: 0 <= i < |t.rows| && !t.rows[i][OrbitColumn].Missing? && t.rows[i][OrbitColumn] == v
        {
          var i :| 0 <= i < |cells| && cells[i] == v;
        }
      }
      Some(ValueCounts(cells))
  }

  /** The values in order of first occurrence, each once. */
  function Distinct(vs: seq<Value>): (d: seq<Value>)
    ensures forall v :: v in d <==> v in vs
  {
    if vs == [] then []
    else
      var init := vs[..|vs| - 1];
      var last := vs[|vs| - 1];
      assert vs == init + [last];
      Distinct(init) + (if last in init then [] else [last])
  }

  predicate NoDuplicates(d: seq<Value>) {
    forall i, j :: 0 <= i < j < |d| ==> d[i] != d[j]
  }

  lemma {:induction false} DistinctNoDuplicates(vs: seq<Value>)
    ensures NoDuplicates(Distinct(vs))
  {
    if vs != [] {
      DistinctNoDuplicates(vs[..|vs| - 1]);
    }
  }

  /** The counts listed under `keys`, added up. */
  function CountsSum(m: map<Value, nat>, keys: seq<Value>): int
    requires forall k :: k in keys ==> k in m
  {
    if keys == [] then 0 else CountsSum(m, keys[..|keys| - 1]) + m[keys[|keys| - 1]]
  }

  lemma {:induction false} CountsSumBump(m: map<Value, nat>, keys: seq<Value>, v: Value)
    requires forall k :: k in keys ==> k in m
    requires v in m && NoDuplicates(keys)
    ensures CountsSum(m[v := m[v] + 1], keys) == CountsSum(m, keys) + (if v in keys then 1 else 0)
  {
    if keys != [] {
      var init := keys[..|keys| - 1];
      assert v in keys <==> v in init || v == keys[|keys| - 1];
      assert keys[|keys| - 1] == v ==> v !in init;
      CountsSumBump(m, init, v);
    }
  }

  lemma {:induction false} CountsSumOther(m: map<Value, nat>, keys: seq<Value>, v: Value, n: nat)
    requires forall k :: k in keys ==> k in m
    requires v !in keys
    ensures CountsSum(m[v := n], keys) == CountsSum(m, keys)
  {
    if keys != [] {
      CountsSumOther(m, keys[..|keys| - 1], v, n);
    }
  }

  /** The tallies, over the distinct values, add up to the number of values. */
  lemma {:induction false} TallyTotal(vs: seq<Value>)
    ensures CountsSum(Tally(vs), Distinct(vs)) == |vs|
  {
    if vs != [] {
      TallyTotal(vs[..|vs| - 1]);
      TallyStep(vs);
    }
  }

  /** One more value adds one to the total of the tallies. */
  lemma TallyStep(vs: seq<Value>)
    requires vs != []
    ensures CountsSum(Tally(vs), Distinct(vs))
            == CountsSum(Tally(vs[..|vs| - 1]), Distinct(vs[..|vs| - 1])) + 1
  {
    var init := vs[..|vs| - 1];
    var last := vs[|vs| - 1];
    DistinctNoDuplicates(init);
    if last in init {
      SnocSeen(vs);
      CountsSumBump(Tally(init), Distinct(init), last);
    } else {
      SnocUnseen(vs);
      CountsSumNew(Tally(init), Distinct(init), last);
    }
  }

  /** A value seen before bumps its tally and adds no key. */
  lemma SnocSeen(vs: seq<Value>)
    requires vs != [] && vs[|vs| - 1] in vs[..|vs| - 1]
    ensures var init, last := vs[..|vs| - 1], vs[|vs| - 1];
      last in Tally(init) && last in Distinct(init)
      && Tally(vs) == Tally(init)[last := Tally(init)[last] + 1]
      && Distinct(vs) == Distinct(init)
  {
  }

  /** A new value gets the tally 1 and comes last among the keys. */
  lemma SnocUnseen(vs: seq<Value>)
    requires vs != [] && vs[|vs| - 1] !in vs[..|vs| - 1]
    ensures var init, last := vs[..|vs| - 1], vs[|vs| - 1];
      last !in Tally(init) && last !in Distinct(init)
      && Tally(vs) == Tally(init)[last := 1]
      && Distinct(vs) == Distinct(init) + [last]
  {
  }

  lemma CountsSumNew(m: map<Value, nat>, d: seq<Value>, v: Value)
    requires forall k :: k in d ==> k in m
    requires v !in d
    ensures CountsSum(m[v := 1], d + [v]) == CountsSum(m, d) + 1
  {
    CountsSumOther(m, d, v, 1);
    assert (d + [v])[..|d + [v]| - 1] == d;
  }

  /** The counts, over the distinct known values, add up to the number of values not missing. */
  lemma ValueCountsTotal(vs: seq<Value>)
    ensures CountsSum(ValueCounts(vs), Distinct(Known(vs))) == |vs| - multiset(vs)[Missing]
  {
    TallyTotal(Known(vs));
  }

  /** The positions whose value is not missing. */
  function KnownAt(vs: seq<Value>): set<int> {
    set i | 0 <= i < |vs| && !vs[i].Missing?
  }

  /** `Known` keeps exactly the positions whose value is not missing. */
  lemma {:induction false} KnownPositions(vs: seq<Value>)
    ensures |Known(vs)| == |KnownAt(vs)|
  {
    if vs != [] {
      KnownPositions(vs[..|vs| - 1]);
      KnownSnoc(vs);
      KnownAtSnoc(vs);
    }
  }

  lemma KnownSnoc(vs: seq<Value>)
    requires vs != []
    ensures |Known(vs)| == |Known(vs[..|vs| - 1])| + (if vs[|vs| - 1].Missing? then 0 else 1)
  {
  }

  lemma KnownAtSnoc(vs: seq<Value>)
    requires vs != []
    ensures |KnownAt(vs)| == |KnownAt(vs[..|vs| - 1])| + (if vs[|vs| - 1].Missing? then 0 else 1)
  {
    var init := vs[..|vs| - 1];
    assert forall i :: 0 <= i < |init| ==> init[i] == vs[i];
    if vs[|vs| - 1].Missing? {
      assert KnownAt(vs) == KnownAt(init);
    } else {
      assert KnownAt(vs) == KnownAt(init) + {|vs| - 1};
    }
  }

  /** So the orbit counts add up to the number of rows whose orbit is known. */
  lemma CommonOrbitTotal(t: Table)
    requires ValidateDf(t, Some([OrbitColumn]))
    ensures CountsSum(CommonOrbit(t).value, Distinct(Known(Cells(t, OrbitColumn))))
            == |set i | 0 <= i < |t.rows| && !t.rows[i][OrbitColumn].Missing?|
  {
    TallyTotal(Known(Cells(t, OrbitColumn)));
    KnownOrbits(t);
  }

  lemma KnownOrbits(t: Table)
    requires OrbitColumn in t.columns
    ensures |Known(Cells(t, OrbitColumn))| == |set i | 0 <= i < |t.rows| && !t.rows[i][OrbitColumn].Missing?|
  {
    KnownPositions(Cells(t, OrbitColumn));
    KnownOrbitRows(t);
  }

  lemma KnownOrbitRows(t: Table)
    requires OrbitColumn in t.columns
    ensures KnownAt(Cells(t, OrbitColumn)) == set i | 0 <= i < |t.rows| && !t.rows[i][OrbitColumn].Missing?
  {
  }

  // min_max_diameter

  function Sum(xs: seq<real>): real {
    if xs == [] then 0.0 else Sum(xs[..|xs| - 1]) + xs[|xs| - 1]
  }

  /** `Series.mean` of a non-empty column. */
  function Mean(xs: seq<real>): real
    requires xs != []
  {
    Sum(xs) / |xs| as real
  }

  /** The number of values strictly above `m`. */
  function CountAbove(xs: seq<real>, m: real): (n: nat)
    ensures n <= |xs|
  {
    if xs == [] then 0
    else CountAbove(xs[..|xs| - 1], m) + (if xs[|xs| - 1] > m then 1 else 0)
  }

  /**
   * `min_max_diameter`: the number of rows whose maximal diameter is
   * strictly above the column mean, `None` without a diameter column.
   */
  function MinMaxDiameter(t: Table): (r: Option<nat>)
    requires ValidateDf(t, Some([DiameterColumn])) ==> NumericColumn(t, DiameterColumn)
    ensures r.None? <==> !ValidateDf(t, Some([DiameterColumn]))
    ensures r.Some? ==> r.value <= |t.rows|
    ensures r.Some? ==> r.value == |set i | 0 <= i < |t.rows| && t.rows[i][DiameterColumn].x > Mean(Numbers(t, DiameterColumn))|
  {
    if !ValidateDf(t, Some([DiameterColumn])) then None
    else
      var xs := Numbers(t, DiameterColumn);
      CountAboveMeaning(xs, Mean(xs));
      assert (set i | 0 <= i < |xs| && xs[i] > Mean(xs))
             == set i | 0 <= i < |t.rows| && t.rows[i][DiameterColumn].x > Mean(xs);
      Some(CountAbove(xs, Mean(xs)))
  }

  /** `CountAbove` counts exactly the positions above `m`. */
  lemma {:induction false} CountAboveMeaning(xs: seq<real>, m: real)
    ensures CountAbove(xs, m) == |set i | 0 <= i < |xs| && xs[i] > m|
  {
    if xs != [] {
      var init := xs[..|xs| - 1];
      CountAboveMeaning(init, m);
      var s := set i | 0 <= i < |init| && init[i] > m;
      var s' := set i | 0 <= i < |xs| && xs[i] > m;
      if xs[|xs| - 1] > m {
        assert s' == s + {|xs| - 1};
      } else {
        assert s' == s;
      }
    }
  }

  lemma {:induction false} SumAtLeast(xs: seq<real>, lo: real)
    requires forall i :: 0 <= i < |xs| ==> lo <= xs[i]
    ensures |xs| as real * lo <= Sum(xs)
  {
    if xs != [] {
      var init := xs[..|xs| - 1];
      assert forall i :: 0 <= i < |init| ==> init[i] == xs[i];
      SumAtLeast(init, lo);
    }
  }

  lemma {:induction false} SumOfEqual(xs: seq<real>, c: real)
    requires forall i :: 0 <= i < |xs| ==> xs[i] == c
    ensures Sum(xs) == |xs| as real * c
  {
    if xs != [] {
      var init := xs[..|xs| - 1];
      assert forall i :: 0 <= i < |init| ==> init[i] == xs[i];
      SumOfEqual(init, c);
    }
  }

  /** The smallest value is never above the mean. */
  lemma MinAtMostMean(xs: seq<real>)
    requires xs != []
    ensures xs[IdxMin(xs)] <= Mean(xs)
  {
    var lo := xs[IdxMin(xs)];
    SumAtLeast(xs, lo);
    QuotientAtLeast(Sum(xs), |xs| as real, lo);
  }

  lemma QuotientAtLeast(s: real, n: real, lo: real)
    requires n > 0.0 && n * lo <= s
    ensures lo <= s / n
  {
  }

  lemma QuotientOfMultiple(n: real, c: real)
    requires n > 0.0
    ensures (n * c) / n == c
  {
  }

  lemma {:induction false} CountAboveBelowLength(xs: seq<real>, m: real, j: int)
    requires 0 <= j < |xs| && xs[j] <= m
    ensures CountAbove(xs, m) < |xs|
  {
    var init := xs[..|xs| - 1];
    if j < |xs| - 1 {
      assert init[j] == xs[j];
      CountAboveBelowLength(init, m, j);
    }
  }

  /** Never every asteroid is above the mean: the count is below the number of rows. */
  lemma CountAboveMeanBelowLength(xs: seq<real>)
    requires xs != []
    ensures CountAbove(xs, Mean(xs)) < |xs|
  {
    MinAtMostMean(xs);
    CountAboveBelowLength(xs, Mean(xs), IdxMin(xs));
  }

  lemma {:induction false} CountAboveNone(xs: seq<real>, m: real)
    requires forall i :: 0 <= i < |xs| ==> xs[i] <= m
    ensures CountAbove(xs, m) == 0
  {
    if xs != [] {
      var init := xs[..|xs| - 1];
      assert forall i :: 0 <= i < |init| ==> init[i] == xs[i];
      CountAboveNone(init, m);
    }
  }

  /** When all diameters are equal, none is above the mean. */
  lemma CountAboveMeanOfEqual(xs: seq<real>, c: real)
    requires xs != [] && forall i :: 0 <= i < |xs| ==> xs[i] == c
    ensures CountAbove(xs, Mean(xs)) == 0
  {
    MeanOfEqual(xs, c);
    CountAboveNone(xs, Mean(xs));
  }

  lemma MeanOfEqual(xs: seq<real>, c: real)
    requires xs != [] && forall i :: 0 <= i < |xs| ==> xs[i] == c
    ensures Mean(xs) == c
  {
    SumOfEqual(xs, c);
    QuotientOfMultiple(|xs| as real, c);
  }

  /** For a valid table, the answer lies below its number of rows. */
  lemma MinMaxDiameterBelowRows(t: Table)
    requires ValidateDf(t, Some([DiameterColumn])) && NumericColumn(t, DiameterColumn)
    ensures MinMaxDiameter(t).value < |t.rows|
  {
    CountAboveMeanBelowLength(Numbers(t, DiameterColumn));
  }
}
