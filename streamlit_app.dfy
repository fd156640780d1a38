/**
 * The row filters of the dashboard and the placement of example tweets into two rows of columns.
 * A data frame is a sequence of rows; only the columns the filters read are kept.
 */
module Dashboard {
  /** A row of the state FIPS table: state name and its FIPS code (0 or negative for regions and divisions). */
  datatype StateRow = StateRow(name: string, stateFips: int)

  /** A row of a county data set: its five-digit FIPS code (state * 1000 + county) and its area name. */
  datatype CountyRow = CountyRow(fips: int, areaName: string)

  /** The option that selects every county in the time series. */
  const AllCounties: string := "all counties"

  /** Number of counties a state code can hold: FIPS codes are state * 1000 + county. */
  const CountiesPerState: int := 1000

  // ---------------------------------------------------------------------------------------------
  // State list

  /** Rows of the state table kept by `load_state_fips`: those with a positive State FIPS. */
  function StateRows(rows: seq<StateRow>): (r: seq<StateRow>)
    ensures |r| <= |rows|
    ensures forall x :: x in r <==> x in rows && x.stateFips > 0
  {
    if rows == [] then []
    else (if rows[0].stateFips > 0 then [rows[0]] else []) + StateRows(rows[1..])
  }

  /** The name-to-code dictionary built from the kept rows, a later row overriding an earlier one. */
  function StateFipsMap(rows: seq<StateRow>): (m: map<string, int>)
    ensures forall name :: name in m <==> exists k :: 0 <= k < |rows| && rows[k].name == name
  {
    if rows == [] then map[]
    else
      var front := StateFipsMap(rows[..|rows| - 1]);
      var last := rows[|rows| - 1];
      assert forall k :: 0 <= k < |rows| - 1 ==> rows[..|rows| - 1][k] == rows[k];
      front[last.name := last.stateFips]
  }

  /** `load_state_fips` on the table's rows: every state listed has a positive code, and every named row
      with a positive code is listed under its name with the code of some row of that name. */
  lemma {:induction false} StateFipsPositive(rows: seq<StateRow>)
    ensures var m := StateFipsMap(StateRows(rows));
            (forall name :: name in m ==> m[name] > 0) &&
            (forall x :: x in rows && x.stateFips > 0 ==> x.name in m) &&
            (forall name :: name in m ==> StateRow(name, m[name]) in rows)
  {
    var kept := StateRows(rows);
    StateFipsValues(kept);
    forall x | x in rows && x.stateFips > 0
      ensures x.name in StateFipsMap(kept)
    {
      assert x in kept;
      var k :| 0 <= k < |kept| && kept[k] == x;
    }
  }

  /** Every entry of the dictionary comes from a row. */
  lemma {:induction false} StateFipsValues(rows: seq<StateRow>)
    ensures forall name :: name in StateFipsMap(rows) ==> StateRow(name, StateFipsMap(rows)[name]) in rows
  {
    if rows != [] {
      var front := rows[..|rows| - 1];
      StateFipsValues(front);
      assert rows == front + [rows[|rows| - 1]];
    }
  }

  // ---------------------------------------------------------------------------------------------
  // County filters

  /** A county code of the given state: neither a state-level row (a multiple of 1000) nor another state's. */
  predicate InStateCounty(fips: int, stateFips: int) {
    fips % CountiesPerState != 0 && fips / CountiesPerState == stateFips
  }

  /** The county code test holds exactly for `stateFips * 1000 + c` with `c` from 1 to 999. */
  lemma InStateCountyRange(fips: int, stateFips: int)
    ensures InStateCounty(fips, stateFips) <==> 1 <= fips - stateFips * 1000 < 1000
  {
    var c := fips - stateFips * 1000;
    if 1 <= c < 1000 {
      assert fips == stateFips * 1000 + c;
      assert fips / 1000 == stateFips && fips % 1000 == c;
    }
    if InStateCounty(fips, stateFips) {
      assert fips == (fips / 1000) * 1000 + fips % 1000;
    }
  }

  /** A county code of the state is a code of the state's range other than the state row itself. */
  lemma InStateCountyNotStateRow(fips: int, stateFips: int)
    ensures InStateCounty(fips, stateFips) <==> fips / CountiesPerState == stateFips && fips != stateFips * 1000
  {
    if fips / 1000 == stateFips {
      assert fips == stateFips * 1000 + fips % 1000;
    }
  }

  /** The two USDA filters in sequence: county rows of the selected state, in their original order. */
  function UsdaCounties(rows: seq<CountyRow>, stateFips: int): (r: seq<CountyRow>)
    ensures |r| <= |rows|
    ensures forall x :: x in r <==> x in rows && InStateCounty(x.fips, stateFips)
  {
    if rows == [] then []
    else (if InStateCounty(rows[0].fips, stateFips) then [rows[0]] else []) + UsdaCounties(rows[1..], stateFips)
  }

  /** The COVID filter: every row whose code lies in the selected state's range, the state-level row included. */
  function CovidRows(rows: seq<CountyRow>, stateFips: int): (r: seq<CountyRow>)
    ensures |r| <= |rows|
    ensures forall x :: x in r <==> x in rows && x.fips / CountiesPerState == stateFips
  {
    if rows == [] then []
    else (if rows[0].fips / CountiesPerState == stateFips then [rows[0]] else []) + CovidRows(rows[1..], stateFips)
  }

  /** The USDA rows are the COVID filter's rows minus the state-level row `stateFips * 1000`. */
  lemma {:induction false} UsdaIsCovidWithoutStateRow(rows: seq<CountyRow>, stateFips: int)
    ensures UsdaCounties(rows, stateFips) == CovidRows(Without(rows, stateFips * 1000), stateFips)
  {
    if rows != [] {
      UsdaIsCovidWithoutStateRow(rows[1..], stateFips);
      var x := rows[0];
      InStateCountyNotStateRow(x.fips, stateFips);
      var w := Without(rows, stateFips * 1000);
      var rest := Without(rows[1..], stateFips * 1000);
      if x.fips != stateFips * 1000 {
        assert w == [x] + rest;
        assert w[0] == x && w[1..] == rest;
      } else {
        assert w == rest;
      }
    }
  }

  /** Rows whose code is not `fips`. */
  function Without(rows: seq<CountyRow>, fips: int): (r: seq<CountyRow>)
    ensures forall x :: x in r <==> x in rows && x.fips != fips
  {
    if rows == [] then []
    else (if rows[0].fips != fips then [rows[0]] else []) + Without(rows[1..], fips)
  }

  /** Filtering a concatenation filters each part; so the filters keep the input order. */
  lemma {:induction false} UsdaCountiesAppend(a: seq<CountyRow>, b: seq<CountyRow>, stateFips: int)
    ensures UsdaCounties(a + b, stateFips) == UsdaCounties(a, stateFips) + UsdaCounties(b, stateFips)
  {
    if a == [] {
      assert a + b == b;
    } else {
      assert (a + b)[1..] == a[1..] + b;
      UsdaCountiesAppend(a[1..], b, stateFips);
    }
  }

  // ---------------------------------------------------------------------------------------------
  // Time series selection

  /** Rows whose area name is one of the selected names (`isin`). */
  function SelectedNames(rows: seq<CountyRow>, selection: seq<string>): (r: seq<CountyRow>)
    ensures |r| <= |rows|
    ensures forall x :: x in r <==> x in rows && x.areaName in selection
  {
    if rows == [] then []
    else (if rows[0].areaName in selection then [rows[0]] else []) + SelectedNames(rows[1..], selection)
  }

  /** The time-series rows: all of them when "all counties" is selected, else the selected counties. */
  function TimeSeriesRows(rows: seq<CountyRow>, selection: seq<string>): (r: seq<CountyRow>)
    ensures AllCounties in selection ==> r == rows
    ensures AllCounties !in selection ==> forall x :: x in r <==> x in rows && x.areaName in selection
  {
    if AllCounties in selection then rows else SelectedNames(rows, selection)
  }

  /** Selecting every county by name gives the same rows as selecting "all counties". */
  lemma {:induction false} NamingEveryCountySelectsAll(rows: seq<CountyRow>, selection: seq<string>)
    requires forall k :: 0 <= k < |rows| ==> rows[k].areaName in selection
    ensures SelectedNames(rows, selection) == rows
  {
    if rows != [] {
      NamingEveryCountySelectsAll(rows[1..], selection);
      assert rows == [rows[0]] + rows[1..];
    }
  }

  // ---------------------------------------------------------------------------------------------
  // Example tweets

  /** What a column holds after the loop: the markdown written into it, in order. */
  type Column = seq<string>

  /**
   * `draw_embedded_tweets` for the given embeddings: half of them (rounded down) go into the first row
   * of columns, the rest into the second, one tweet per column, in order. A row is requested from the
   * page only when it has at least one column.
   */
  method DrawEmbeddedTweets(oembeds: seq<string>) returns (row1: array<Column>, row2: array<Column>,
                                                           requested1: bool, requested2: bool)
    ensures fresh(row1) && fresh(row2)
    ensures row1.Length == |oembeds| / 2 && row2.Length == |oembeds| - |oembeds| / 2
    ensures row2.Length == row1.Length || row2.Length == row1.Length + 1
    ensures forall i :: 0 <= i < row1.Length ==> row1[i] == [oembeds[i]]
    ensures forall i :: 0 <= i < row2.Length ==> row2[i] == [oembeds[row1.Length + i]]
    ensures requested1 <==> row1.Length > 0
    ensures requested2 <==> row2.Length > 0
  {
    var n := |oembeds|;
    var half := n / 2;
    requested1 := half > 0;
    requested2 := n - half > 0;
    row1 := new Column[half](_ => []);
    row2 := new Column[n - half](_ => []);
    for i := 0 to n
      invariant forall k :: 0 <= k < half ==> row1[k] == if k < i then [oembeds[k]] else []
      invariant forall k :: 0 <= k < n - half ==> row2[k] == if half + k < i then [oembeds[half + k]] else []
    {
      if i < half {
        row1[i] := row1[i] + [oembeds[i]];
      } else {
        row2[i - half] := row2[i - half] + [oembeds[i]];
      }
    }
  }
}
