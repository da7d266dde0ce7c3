/**
 * The averaging page for one station: the variable list, the sorted station
 * list, the station filter, the two averaging modes ("Total" and "Por año"),
 * the long form of the "Total" table, and the name of the exported file.
 * The widgets' choices (station, mode, variable) are parameters.
 */
module Promedios {
  import opened Wrappers
  import opened Ordering
  import opened Frame

  /** The identifier columns that are not variables. */
  const Reserved: seq<string> := ["Escenario", "ID_SIGA", "Fecha"]

  /** The variable columns: every column but the identifier ones, in table order. */
  function Variables(columns: seq<string>): (vars: seq<string>)
    ensures forall c :: c in vars <==> c in columns && c !in Reserved
    ensures |vars| <= |columns|
  {
    if columns == [] then [] else Keep(columns[0]) + Variables(columns[1..])
  }

  function Keep(column: string): seq<string>
  {
    if column in Reserved then [] else [column]
  }

  /** The variable list keeps the table's column order: it distributes over concatenation. */
  lemma {:induction false} VariablesAppend(a: seq<string>, b: seq<string>)
    ensures Variables(a + b) == Variables(a) + Variables(b)
  {
    if a != [] {
      assert (a + b)[0] == a[0] && (a + b)[1..] == a[1..] + b;
      assert Variables(a + b) == Keep(a[0]) + Variables(a[1..] + b);
      VariablesAppend(a[1..], b);
    } else {
      assert a + b == b;
    }
  }

  /** Without identifier columns, every column is a variable, in the same order. */
  lemma {:induction false} VariablesKeepOthers(columns: seq<string>)
    requires forall c :: c in columns ==> c !in Reserved
    ensures Variables(columns) == columns
  {
    if columns != [] {
      assert columns[0] in columns;
      VariablesKeepOthers(columns[1..]);
    }
  }

  lemma {:induction false} VariablesDistinct(columns: seq<string>)
    requires Distinct(columns)
    ensures Distinct(Variables(columns))
  {
    if columns != [] {
      VariablesDistinct(columns[1..]);
      var rest := Variables(columns[1..]);
      assert columns[0] !in columns[1..] by {
        forall k | 1 <= k < |columns| ensures columns[k] != columns[0] { }
      }
      assert columns[0] !in rest;
    }
  }

  function StationOf(r: Row): string { r.station }

  function ScenarioOf(r: Row): string { r.scenario }

  /** The station list: every `ID_SIGA` that occurs, once each, ascending. */
  function Stations(t: Table): (ids: seq<string>)
    ensures Ascending(ids, Below)
    ensures forall s :: s in ids <==> exists r :: r in t.rows && r.station == s
  {
    BelowIsStrictTotalOrder();
    SortedUnique(Project(t.rows, StationOf), Below)
  }

  /** The station list depends on which rows the table has, not on their order. */
  lemma StationsIgnoreRowOrder(t: Table, u: Table)
    requires multiset(t.rows) == multiset(u.rows)
    ensures Stations(t) == Stations(u)
  {
    BelowIsStrictTotalOrder();
    forall r ensures r in t.rows <==> r in u.rows {
      assert r in t.rows <==> r in multiset(t.rows);
    }
    AscendingUnique(Stations(t), Stations(u), Below);
  }

  /** The rows of one station, in their original order. */
  function FilterStation(rows: seq<Row>, station: string): (selected: seq<Row>)
    ensures forall r :: r in selected <==> r in rows && r.station == station
    ensures |selected| <= |rows|
  {
    Where(rows, StationOf, station)
  }

  /** The filter keeps the order of the rows: it distributes over concatenation. */
  lemma FilterStationKeepsOrder(a: seq<Row>, b: seq<Row>, station: string)
    ensures FilterStation(a + b, station) == FilterStation(a, station) + FilterStation(b, station)
  {
    WhereAppend(a, b, StationOf, station);
  }

  /** A station has rows exactly when it is in the station list; any other station selects nothing. */
  lemma FilterStationEmpty(t: Table, station: string)
    ensures FilterStation(t.rows, station) == [] <==> station !in Stations(t)
  {
    EmptyIffNoElements(FilterStation(t.rows, station));
  }

  /**
   * "Total" mode: one row per scenario of the given rows, ascending, and in
   * it, per variable, the mean of that variable's non-missing values over
   * the scenario's rows.
   */
  function TotalMeans(rows: seq<Row>, vars: seq<string>): (wide: seq<Group<string>>)
    ensures Ascending(GroupKeys(wide), Below)
    ensures forall sc :: sc in GroupKeys(wide) <==> exists r :: r in rows && r.scenario == sc
    ensures Rectangular(wide, vars)
    ensures forall i, j :: 0 <= i < |wide| && 0 <= j < |vars| ==>
      wide[i].means[j] == Mean(Column(Where(rows, ScenarioOf, wide[i].key), vars[j]))
  {
    BelowIsStrictTotalOrder();
    GroupByMean(rows, ScenarioOf, Below, vars)
  }

  /**
   * A variable's means depend only on each row's scenario and its value of
   * that variable: a value missing, or different, in another column changes
   * nothing in this one.
   */
  lemma TotalMeansColumnIndependent(a: seq<Row>, b: seq<Row>, vars: seq<string>, j: nat)
    requires j < |vars| && |a| == |b|
    requires forall k :: 0 <= k < |a| ==> a[k].scenario == b[k].scenario && Cell(a[k], vars[j]) == Cell(b[k], vars[j])
    ensures GroupKeys(TotalMeans(a, vars)) == GroupKeys(TotalMeans(b, vars))
    ensures forall i :: 0 <= i < |TotalMeans(a, vars)| ==> TotalMeans(a, vars)[i].means[j] == TotalMeans(b, vars)[i].means[j]
  {
    BelowIsStrictTotalOrder();
    var wa, wb := TotalMeans(a, vars), TotalMeans(b, vars);
    forall sc ensures sc in GroupKeys(wa) <==> sc in GroupKeys(wb) {
      if sc in GroupKeys(wa) {
        var r :| r in a && r.scenario == sc;
        var k :| 0 <= k < |a| && a[k] == r;
        assert b[k] in b;
      }
      if sc in GroupKeys(wb) {
        var r :| r in b && r.scenario == sc;
        var k :| 0 <= k < |b| && b[k] == r;
        assert a[k] in a;
      }
    }
    AscendingUnique(GroupKeys(wa), GroupKeys(wb), Below);
    forall i | 0 <= i < |wa| ensures wa[i].means[j] == wb[i].means[j] {
      assert GroupKeys(wa)[i] == wa[i].key && GroupKeys(wb)[i] == wb[i].key;
      WhereColumnAgrees(a, b, ScenarioOf, wa[i].key, vars[j]);
    }
  }

  /** Two readings 10.0 and 20.0 of Temp for RCP45 average to 15.0; a reading missing in another column does not count there. */
  lemma TotalMeansExample(rows: seq<Row>)
    requires rows == [
      Row("A1", "RCP45", Date(2020, 1, 1), map["Temp" := Some(10.0), "Prec" := Some(4.0)]),
      Row("A1", "RCP45", Date(2021, 1, 1), map["Temp" := Some(20.0), "Prec" := None])]
    ensures TotalMeans(rows, ["Temp", "Prec"]) == [Group("RCP45", [Some(15.0), Some(4.0)])]
  {
    var vars := ["Temp", "Prec"];
    var wide := TotalMeans(rows, vars);
    BelowIsStrictTotalOrder();
    forall sc ensures sc in GroupKeys(wide) <==> sc in ["RCP45"] {
      assert rows[0] in rows;
    }
    AscendingUnique(GroupKeys(wide), ["RCP45"], Below);
    assert wide[0].key == GroupKeys(wide)[0];
    WhereAll(rows, ScenarioOf, "RCP45");
    assert Where(rows, ScenarioOf, wide[0].key) == rows;
    assert Column(rows, "Temp") == [Some(10.0), Some(20.0)];
    assert Column(rows, "Prec") == [Some(4.0), None];
    MeanExamples();
    assert wide[0].means == [Some(15.0), Some(4.0)];
  }

  /** Two values 10.0 and 20.0 average to 15.0; a missing value is skipped, not counted as zero. */
  lemma MeanExamples()
    ensures Mean([Some(10.0), Some(20.0)]) == Some(15.0)
    ensures Mean([Some(4.0), None]) == Some(4.0)
  {
    assert Present([Some(10.0), Some(20.0)]) == [10.0, 20.0];
    assert Present([Some(4.0), None]) == [4.0];
  }

  /** The long form of the "Total" table: one (Escenario, Variable, Promedio) row per cell. */
  function TotalLong(wide: seq<Group<string>>, vars: seq<string>): (long: seq<LongRow>)
    requires Rectangular(wide, vars)
    ensures |long| == |wide| * |vars|
    ensures forall r :: r in long <==>
      exists j, i :: 0 <= j < |vars| && 0 <= i < |wide| && r == LongRow(wide[i].key, vars[j], wide[i].means[j])
  {
    Melt(wide, vars)
  }

  /**
   * Reshaping the "Total" table loses nothing: each (scenario, variable)
   * pair occurs once in the long form and pivoting it back gives the table.
   */
  lemma TotalLongRoundTrip(t: Table, station: string)
    requires Distinct(t.columns)
    ensures
      var vars := Variables(t.columns);
      var wide := TotalMeans(FilterStation(t.rows, station), vars);
      UniquePairs(TotalLong(wide, vars)) && Pivot(TotalLong(wide, vars), GroupKeys(wide), vars) == wide
  {
    BelowIsStrictTotalOrder();
    var vars := Variables(t.columns);
    var wide := TotalMeans(FilterStation(t.rows, station), vars);
    VariablesDistinct(t.columns);
    AscendingIsDistinct(GroupKeys(wide), Below);
    MeltUniquePairs(wide, vars);
    MeltPivot(wide, vars);
  }

  /** A (year, scenario) group key of the "Por año" mode. */
  datatype YearKey = YearKey(year: int, scenario: string)

  /** Ascending year, then ascending scenario: the order of a two-column `groupby`. */
  predicate YearKeyBelow(a: YearKey, b: YearKey)
  {
    a.year < b.year || (a.year == b.year && Below(a.scenario, b.scenario))
  }

  lemma YearKeyBelowIsStrictTotalOrder()
    ensures StrictTotalOrder(YearKeyBelow)
  {
    BelowIsStrictTotalOrder();
  }

  /** The `Año` column: the calendar year of `Fecha`. */
  function Year(r: Row): int { r.fecha.year }

  function YearScenarioOf(r: Row): YearKey { YearKey(Year(r), r.scenario) }

  /** One row of the "Por año" table: `Año`, `Escenario` and the chosen variable's mean. */
  datatype YearRow = YearRow(year: int, scenario: string, mean: Option<real>)

  function YearRowKeys(yearly: seq<YearRow>): seq<YearKey>
  {
    seq(|yearly|, i requires 0 <= i < |yearly| => YearKey(yearly[i].year, yearly[i].scenario))
  }

  /**
   * "Por año" mode: one row per (year, scenario) pair of the given rows,
   * ascending, with the mean of the chosen variable's non-missing values
   * over the rows of that pair.
   */
  function YearMeans(rows: seq<Row>, variable: string): (yearly: seq<YearRow>)
    ensures Ascending(YearRowKeys(yearly), YearKeyBelow)
    ensures forall k :: k in YearRowKeys(yearly) <==> exists r :: r in rows && YearScenarioOf(r) == k
    ensures forall i :: 0 <= i < |yearly| ==>
      yearly[i].mean == Mean(Column(Where(rows, YearScenarioOf, YearKey(yearly[i].year, yearly[i].scenario)), variable))
  {
    YearKeyBelowIsStrictTotalOrder();
    var groups := GroupByMean(rows, YearScenarioOf, YearKeyBelow, [variable]);
    var yearly := seq(|groups|, i requires 0 <= i < |groups| => YearRow(groups[i].key.year, groups[i].key.scenario, groups[i].means[0]));
    assert YearRowKeys(yearly) == GroupKeys(groups);
    yearly
  }

  /** The years of the "Por año" table are exactly the years of the rows' dates. */
  lemma YearMeansYears(rows: seq<Row>, variable: string)
    ensures (set y | y in YearMeans(rows, variable) :: y.year) == (set r | r in rows :: Year(r))
  {
    var yearly := YearMeans(rows, variable);
    var keys := YearRowKeys(yearly);
    var outYears := set y | y in yearly :: y.year;
    var rowYears := set r | r in rows :: Year(r);
    forall year | year in outYears ensures year in rowYears {
      var y :| y in yearly && y.year == year;
      var i :| 0 <= i < |yearly| && yearly[i] == y;
      assert keys[i] in keys;
      var r :| r in rows && YearScenarioOf(r) == keys[i];
    }
    forall year | year in rowYears ensures year in outYears {
      var r :| r in rows && Year(r) == year;
      assert YearScenarioOf(r) in keys;
      var i :| 0 <= i < |keys| && keys[i] == YearScenarioOf(r);
      assert yearly[i] in yearly;
    }
  }

  /** What the mode radio and the variable selector choose. */
  datatype Mode = Total | PerYear(variable: string)

  /** The radio label of a mode. */
  function ModeLabel(mode: Mode): string
  {
    match mode
    case Total => "Total"
    case PerYear(_) => "Por año"
  }

  /** `str.lower()` on the letters A to Z; every other character is kept. */
  function Lower(s: string): (r: string)
    ensures |r| == |s|
    ensures forall i :: 0 <= i < |s| ==> !('A' <= r[i] <= 'Z')
    ensures forall i :: 0 <= i < |s| && !('A' <= s[i] <= 'Z') ==> r[i] == s[i]
    ensures forall i :: 0 <= i < |s| && 'A' <= s[i] <= 'Z' ==>
      'a' <= r[i] <= 'z' && r[i] as int - 'a' as int == s[i] as int - 'A' as int
  {
    seq(|s|, i requires 0 <= i < |s| => if 'A' <= s[i] <= 'Z' then (s[i] as int + 32) as char else s[i])
  }

  /** `str.replace(' ', '_')`. */
  function Underscored(s: string): (r: string)
    ensures |r| == |s| && ' ' !in r
    ensures forall i :: 0 <= i < |s| && s[i] != ' ' ==> r[i] == s[i]
    ensures forall i :: 0 <= i < |s| && s[i] == ' ' ==> r[i] == '_'
  {
    seq(|s|, i requires 0 <= i < |s| => if s[i] == ' ' then '_' else s[i])
  }

  /** The export name's mode part: the label lower-cased, spaces turned into underscores. */
  function ModeSlug(mode: Mode): (slug: string)
    ensures slug == if mode.Total? then "total" else "por_año"
  {
    var caption := ModeLabel(mode);
    var slug := Underscored(Lower(caption));
    assert slug == if mode.Total? then "total" else "por_año";
    slug
  }

  /** `promedios_<station>_<variable or "todas">_<mode>.csv`. */
  function FileName(station: string, mode: Mode): (name: string)
    ensures mode.Total? ==> name == "promedios_" + station + "_todas_total.csv"
    ensures mode.PerYear? ==> name == "promedios_" + station + "_" + mode.variable + "_por_año.csv"
  {
    var variableName := if mode.PerYear? then mode.variable else "todas";
    "promedios_" + station + "_" + variableName + "_" + ModeSlug(mode) + ".csv"
  }

  /** Station A1, variable Temp, "Por año" mode. */
  lemma FileNamePerYearExample()
    ensures FileName("A1", PerYear("Temp")) == "promedios_A1_Temp_por_año.csv"
  {
  }

  /** Station B2, "Total" mode. */
  lemma FileNameTotalExample()
    ensures FileName("B2", Total) == "promedios_B2_todas_total.csv"
  {
  }

  /** The table the page computes: the wide and long "Total" tables, or the "Por año" table. */
  datatype Averages =
    | TotalAverages(wide: seq<Group<string>>, long: seq<LongRow>)
    | YearlyAverages(yearly: seq<YearRow>)

  /**
   * Filter to the station, then average in the chosen mode: the "Total"
   * table and its long form, or the "Por año" table of the chosen variable.
   */
  function Aggregate(t: Table, station: string, mode: Mode): (out: Averages)
    ensures out.TotalAverages? <==> mode.Total?
    ensures out.TotalAverages? ==>
      && out.wide == TotalMeans(FilterStation(t.rows, station), Variables(t.columns))
      && out.long == TotalLong(out.wide, Variables(t.columns))
    ensures out.YearlyAverages? ==> out.yearly == YearMeans(FilterStation(t.rows, station), mode.variable)
    ensures out.TotalAverages? ==> |out.long| == |out.wide| * |Variables(t.columns)|
    ensures out.TotalAverages? ==> (out.wide == [] <==> station !in Stations(t))
    ensures out.YearlyAverages? ==> (out.yearly == [] <==> station !in Stations(t))
    ensures station !in Stations(t) ==> out == TotalAverages([], []) || out == YearlyAverages([])
  {
    var rows := FilterStation(t.rows, station);
    FilterStationEmpty(t, station);
    match mode
    case Total =>
      var vars := Variables(t.columns);
      var wide := TotalMeans(rows, vars);
      TotalMeansEmpty(rows, vars);
      TotalAverages(wide, TotalLong(wide, vars))
    case PerYear(variable) =>
      YearMeansEmpty(rows, variable);
      YearlyAverages(YearMeans(rows, variable))
  }

  /** The "Total" table is empty exactly when there are no rows to average. */
  lemma TotalMeansEmpty(rows: seq<Row>, vars: seq<string>)
    ensures TotalMeans(rows, vars) == [] <==> rows == []
  {
    var wide := TotalMeans(rows, vars);
    EmptyIffNoElements(rows);
    EmptyIffNoElements(GroupKeys(wide));
    assert |GroupKeys(wide)| == |wide|;
  }

  /** The "Por año" table is empty exactly when there are no rows to average. */
  lemma YearMeansEmpty(rows: seq<Row>, variable: string)
    ensures YearMeans(rows, variable) == [] <==> rows == []
  {
    var yearly := YearMeans(rows, variable);
    EmptyIffNoElements(rows);
    EmptyIffNoElements(YearRowKeys(yearly));
    assert |YearRowKeys(yearly)| == |yearly|;
  }
}
