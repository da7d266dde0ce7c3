/**
 * The table operations the script takes from pandas, written out: the
 * boolean-mask row filter, `groupby(...)[...].mean()` with NaN skipped per
 * column, `melt` and, as its inverse, `pivot`.
 */
module Frame {
  import opened Wrappers
  import opened Ordering

  /** A `Fecha` value once parsed as a date. */
  datatype Date = Date(year: int, month: int, day: int)

  /**
   * One measurement row: `ID_SIGA`, `Escenario`, `Fecha`, and the value of
   * every other column by name. A name mapped to `None`, or not mapped at
   * all, is a missing (NaN) value.
   */
  datatype Row = Row(station: string, scenario: string, fecha: Date, cells: map<string, Option<real>>)

  /** A table: its column names in order, and its rows. */
  datatype Table = Table(columns: seq<string>, rows: seq<Row>)

  function Cell(row: Row, column: string): Option<real>
  {
    if column in row.cells then row.cells[column] else None
  }

  /** `df[column]`: one cell per row, in row order. */
  function Column(rows: seq<Row>, column: string): seq<Option<real>>
  {
    seq(|rows|, i requires 0 <= i < |rows| => Cell(rows[i], column))
  }

  /** `df[col]`: the key of every row, in row order, duplicates included (`SortedUnique` removes them). */
  function Project<K(!new)>(rows: seq<Row>, key: Row -> K): (keys: seq<K>)
    ensures |keys| == |rows|
    ensures forall k :: k in keys <==> exists r :: r in rows && key(r) == k
  {
    var keys := seq(|rows|, i requires 0 <= i < |rows| => key(rows[i]));
    assert forall r :: r in rows ==> key(r) in keys by {
      forall r | r in rows ensures key(r) in keys {
        var i :| 0 <= i < |rows| && rows[i] == r;
        assert keys[i] == key(r);
      }
    }
    keys
  }

  /** `df[key == k]`: the rows whose key is `k`, in their original order. */
  function Where<K(==)>(rows: seq<Row>, key: Row -> K, k: K): (selected: seq<Row>)
    ensures forall r :: r in selected <==> r in rows && key(r) == k
    ensures |selected| <= |rows|
  {
    if rows == [] then []
    else (if key(rows[0]) == k then [rows[0]] else []) + Where(rows[1..], key, k)
  }

  /** The filter keeps the relative order of rows: it distributes over concatenation. */
  lemma {:induction false} WhereAppend<K>(a: seq<Row>, b: seq<Row>, key: Row -> K, k: K)
    ensures Where(a + b, key, k) == Where(a, key, k) + Where(b, key, k)
  {
    if a != [] {
      assert (a + b)[0] == a[0] && (a + b)[1..] == a[1..] + b;
      WhereAppend(a[1..], b, key, k);
    } else {
      assert a + b == b;
    }
  }

  /** A filter that every row passes returns the table unchanged. */
  lemma {:induction false} WhereAll<K>(rows: seq<Row>, key: Row -> K, k: K)
    requires forall r :: r in rows ==> key(r) == k
    ensures Where(rows, key, k) == rows
  {
    if rows != [] {
      WhereAll(rows[1..], key, k);
    }
  }

  lemma ColumnAppend(a: seq<Row>, b: seq<Row>, column: string)
    ensures Column(a + b, column) == Column(a, column) + Column(b, column)
  {
  }

  /**
   * Which rows a group holds and what they hold in `column` decide the
   * group's values in `column`: the other columns of those rows, missing or
   * not, play no part.
   */
  lemma {:induction false} WhereColumnAgrees<K>(a: seq<Row>, b: seq<Row>, key: Row -> K, k: K, column: string)
    requires |a| == |b|
    requires forall i :: 0 <= i < |a| ==> key(a[i]) == key(b[i]) && Cell(a[i], column) == Cell(b[i], column)
    ensures Column(Where(a, key, k), column) == Column(Where(b, key, k), column)
  {
    if a != [] {
      WhereColumnAgrees(a[1..], b[1..], key, k, column);
      var headA := if key(a[0]) == k then [a[0]] else [];
      var headB := if key(b[0]) == k then [b[0]] else [];
      ColumnAppend(headA, Where(a[1..], key, k), column);
      ColumnAppend(headB, Where(b[1..], key, k), column);
      assert Column(headA, column) == Column(headB, column);
    }
  }

  /** The non-missing values of a column, in order. */
  function Present(xs: seq<Option<real>>): (values: seq<real>)
    ensures |values| <= |xs|
    ensures forall v :: v in values <==> Some(v) in xs
  {
    if xs == [] then []
    else
      var rest := Present(xs[1..]);
      assert forall v :: Some(v) in xs <==> Some(v) == xs[0] || Some(v) in xs[1..];
      match xs[0]
      case Some(v) => [v] + rest
      case None => rest
  }

  /** A column has no non-missing values exactly when every cell is missing. */
  lemma {:induction false} PresentEmpty(xs: seq<Option<real>>)
    ensures Present(xs) == [] <==> forall i :: 0 <= i < |xs| ==> xs[i].None?
  {
    if xs != [] {
      PresentEmpty(xs[1..]);
      assert forall i :: 1 <= i < |xs| ==> xs[i] == xs[1..][i - 1];
    }
  }

  lemma {:induction false} PresentAppend(a: seq<Option<real>>, b: seq<Option<real>>)
    ensures Present(a + b) == Present(a) + Present(b)
  {
    if a != [] {
      assert (a + b)[0] == a[0] && (a + b)[1..] == a[1..] + b;
      PresentAppend(a[1..], b);
    } else {
      assert a + b == b;
    }
  }

  function Sum(values: seq<real>): real
  {
    if values == [] then 0.0 else values[0] + Sum(values[1..])
  }

  /**
   * `Series.mean()` with the default `skipna=True`: the arithmetic mean of
   * the non-missing values, or missing when there are none.
   */
  function Mean(xs: seq<Option<real>>): (m: Option<real>)
    ensures m.None? <==> forall i :: 0 <= i < |xs| ==> xs[i].None?
    ensures m.Some? ==> MeanOf(m.value, Present(xs))
  {
    var values := Present(xs);
    PresentEmpty(xs);
    Average(values)
  }

  /** `m` times the number of values is their sum. */
  predicate MeanOf(m: real, values: seq<real>)
  {
    m * (|values| as real) == Sum(values)
  }

  /** Sum over count, or missing for no values. */
  function Average(values: seq<real>): (m: Option<real>)
    ensures m.None? <==> values == []
    ensures m.Some? ==> MeanOf(m.value, values)
  {
    if values == [] then None
    else
      var n := |values| as real;
      DivMul(Sum(values), n);
      Some(Sum(values) / n)
  }

  lemma DivMul(s: real, n: real)
    requires n != 0.0
    ensures (s / n) * n == s
  {
  }

  lemma {:induction false} SumBounds(values: seq<real>, lo: real, hi: real)
    requires forall v :: v in values ==> lo <= v <= hi
    ensures (|values| as real) * lo <= Sum(values) <= (|values| as real) * hi
  {
    if values != [] {
      assert values[0] in values;
      assert forall v :: v in values[1..] ==> v in values;
      SumBounds(values[1..], lo, hi);
      var m := |values[1..]| as real;
      assert |values| as real == 1.0 + m;
      Distribute(m, lo);
      Distribute(m, hi);
    }
  }

  lemma Distribute(m: real, x: real)
    ensures (1.0 + m) * x == x + m * x
  {
  }

  /** A mean lies between the least and the greatest of the values it is taken over. */
  lemma MeanWithin(xs: seq<Option<real>>, lo: real, hi: real)
    requires forall i :: 0 <= i < |xs| && xs[i].Some? ==> lo <= xs[i].value <= hi
    requires Mean(xs).Some?
    ensures lo <= Mean(xs).value <= hi
  {
    var values := Present(xs);
    forall v | v in values ensures lo <= v <= hi {
      var i :| 0 <= i < |xs| && xs[i] == Some(v);
    }
    assert Mean(xs) == Average(values);
    AverageWithin(values, lo, hi);
  }

  lemma AverageWithin(values: seq<real>, lo: real, hi: real)
    requires forall v :: v in values ==> lo <= v <= hi
    requires values != []
    ensures lo <= Average(values).value <= hi
  {
    SumBounds(values, lo, hi);
    ScaleBounds(Average(values).value, |values| as real, lo, hi);
  }

  lemma ScaleBounds(m: real, n: real, lo: real, hi: real)
    requires n > 0.0 && n * lo <= m * n <= n * hi
    ensures lo <= m <= hi
  {
  }

  /** A missing value, wherever it stands, leaves the mean as it was. */
  lemma MeanSkipsMissing(a: seq<Option<real>>, b: seq<Option<real>>)
    ensures Mean(a + [None] + b) == Mean(a + b)
  {
    PresentAppend(a + [None], b);
    PresentAppend(a, [None]);
    PresentAppend(a, b);
    assert Present([None]) == [];
    assert Present(a + [None] + b) == Present(a + b);
  }

  /** One row of `groupby(key)[columns].mean().reset_index()`: the key and one mean per column. */
  datatype Group<K> = Group(key: K, means: seq<Option<real>>)

  function GroupKeys<K>(groups: seq<Group<K>>): seq<K>
  {
    seq(|groups|, i requires 0 <= i < |groups| => groups[i].key)
  }

  /** Every group holds one mean per column. */
  ghost predicate Rectangular<K>(groups: seq<Group<K>>, columns: seq<string>)
  {
    forall i :: 0 <= i < |groups| ==> |groups[i].means| == |columns|
  }

  /** The mean of every column over one set of rows. */
  function ColumnMeans(rows: seq<Row>, columns: seq<string>): seq<Option<real>>
  {
    seq(|columns|, j requires 0 <= j < |columns| => Mean(Column(rows, columns[j])))
  }

  /**
   * `groupby(key)[columns].mean()` with pandas' default `sort=True`: one
   * group per distinct key value among the rows, in ascending key order, and
   * in it the mean of each column over the rows with that key.
   */
  function GroupByMean<K(==,!new)>(rows: seq<Row>, key: Row -> K, below: (K, K) -> bool, columns: seq<string>)
    : (groups: seq<Group<K>>)
    requires StrictTotalOrder(below)
    ensures Ascending(GroupKeys(groups), below)
    ensures forall k :: k in GroupKeys(groups) <==> exists r :: r in rows && key(r) == k
    ensures Rectangular(groups, columns)
    ensures forall i, j :: 0 <= i < |groups| && 0 <= j < |columns| ==>
      groups[i].means[j] == Mean(Column(Where(rows, key, groups[i].key), columns[j]))
  {
    var keys := SortedUnique(Project(rows, key), below);
    var groups := seq(|keys|, i requires 0 <= i < |keys| => Group(keys[i], ColumnMeans(Where(rows, key, keys[i]), columns)));
    assert GroupKeys(groups) == keys;
    groups
  }

  /** One row of `melt(id_vars='Escenario', var_name='Variable', value_name='Promedio')`. */
  datatype LongRow = LongRow(scenario: string, variable: string, promedio: Option<real>)

  /** The long rows of one value column: one per wide row, in row order. */
  function MeltBlock(wide: seq<Group<string>>, columns: seq<string>, j: nat): seq<LongRow>
    requires Rectangular(wide, columns) && j < |columns|
  {
    seq(|wide|, i requires 0 <= i < |wide| => LongRow(wide[i].key, columns[j], wide[i].means[j]))
  }

  /** `r` is the cell of some wide row in one of the first `m` value columns. */
  ghost predicate MeltedCell(r: LongRow, wide: seq<Group<string>>, columns: seq<string>, m: nat)
    requires Rectangular(wide, columns) && m <= |columns|
  {
    exists j, i :: 0 <= j < m && 0 <= i < |wide| && r == LongRow(wide[i].key, columns[j], wide[i].means[j])
  }

  /** The long form of the first `m` value columns, column after column. */
  function MeltFirst(wide: seq<Group<string>>, columns: seq<string>, m: nat): (long: seq<LongRow>)
    requires Rectangular(wide, columns) && m <= |columns|
    ensures |long| == Offset(m, |wide|)
  {
    if m == 0 then [] else MeltFirst(wide, columns, m - 1) + MeltBlock(wide, columns, m - 1)
  }

  /** The long form of the first `m` columns holds their cells and nothing else. */
  lemma {:induction false} MeltFirstMembers(wide: seq<Group<string>>, columns: seq<string>, m: nat)
    requires Rectangular(wide, columns) && m <= |columns|
    ensures forall r :: r in MeltFirst(wide, columns, m) <==> MeltedCell(r, wide, columns, m)
    ensures forall r :: r in MeltFirst(wide, columns, m) ==> r.scenario in GroupKeys(wide) && r.variable in columns[..m]
  {
    if m > 0 {
      var prefix := MeltFirst(wide, columns, m - 1);
      var block := MeltBlock(wide, columns, m - 1);
      MeltFirstMembers(wide, columns, m - 1);
      MeltedCellStep(wide, columns, m);
      forall r | r in block ensures r.scenario in GroupKeys(wide) && r.variable in columns[..m] {
        var i :| 0 <= i < |wide| && block[i] == r;
        assert GroupKeys(wide)[i] == r.scenario;
        assert columns[..m][m - 1] == r.variable;
      }
      assert columns[..m - 1] <= columns[..m];
      assert MeltFirst(wide, columns, m) == prefix + block;
    }
  }

  /** The cells of the first `m` columns are those of the first `m - 1` and those of column `m - 1`. */
  lemma MeltedCellStep(wide: seq<Group<string>>, columns: seq<string>, m: nat)
    requires Rectangular(wide, columns) && 0 < m <= |columns|
    ensures forall r :: MeltedCell(r, wide, columns, m) <==> MeltedCell(r, wide, columns, m - 1) || r in MeltBlock(wide, columns, m - 1)
  {
    var block := MeltBlock(wide, columns, m - 1);
    forall r ensures MeltedCell(r, wide, columns, m) <==> MeltedCell(r, wide, columns, m - 1) || r in block {
      if MeltedCell(r, wide, columns, m) {
        var j, i :| 0 <= j < m && 0 <= i < |wide| && r == LongRow(wide[i].key, columns[j], wide[i].means[j]);
        if j == m - 1 {
          assert r == block[i];
        }
      }
      if r in block {
        var i :| 0 <= i < |wide| && block[i] == r;
        assert r == LongRow(wide[i].key, columns[m - 1], wide[i].means[m - 1]);
      }
    }
  }

  /** `j * n` by repeated addition, the start of block `j` of a melted table. */
  function Offset(j: nat, n: nat): nat
  {
    if j == 0 then 0 else Offset(j - 1, n) + n
  }

  lemma {:induction false} OffsetIsProduct(j: nat, n: nat)
    ensures Offset(j, n) == j * n
  {
    if j > 0 {
      OffsetIsProduct(j - 1, n);
    }
  }

  lemma {:induction false} OffsetInBlocks(j: nat, i: nat, n: nat, m: nat)
    requires j < m && i < n
    ensures Offset(j, n) + i < Offset(m, n)
  {
    if j < m - 1 {
      OffsetInBlocks(j, i, n, m - 1);
    }
  }

  /**
   * `melt`: the wide table as one long row per (row, value column) pair and
   * nothing else.
   */
  function Melt(wide: seq<Group<string>>, columns: seq<string>): (long: seq<LongRow>)
    requires Rectangular(wide, columns)
    ensures |long| == |wide| * |columns|
    ensures forall r :: r in long <==>
      exists j, i :: 0 <= j < |columns| && 0 <= i < |wide| && r == LongRow(wide[i].key, columns[j], wide[i].means[j])
    ensures forall r :: r in long ==> r.scenario in GroupKeys(wide) && r.variable in columns
  {
    assert columns[..|columns|] == columns;
    var long := MeltFirst(wide, columns, |columns|);
    MeltFirstMembers(wide, columns, |columns|);
    OffsetIsProduct(|columns|, |wide|);
    assert |long| == |wide| * |columns| by { MulComm(|columns|, |wide|); }
    long
  }

  lemma MulComm(a: nat, b: nat)
    ensures a * b == b * a
  {
  }

  lemma {:induction false} MeltFirstAt(wide: seq<Group<string>>, columns: seq<string>, m: nat, j: nat, i: nat)
    requires Rectangular(wide, columns) && m <= |columns| && j < m && i < |wide|
    ensures Offset(j, |wide|) + i < |MeltFirst(wide, columns, m)|
    ensures MeltFirst(wide, columns, m)[Offset(j, |wide|) + i] == LongRow(wide[i].key, columns[j], wide[i].means[j])
  {
    var prefix := MeltFirst(wide, columns, m - 1);
    var block := MeltBlock(wide, columns, m - 1);
    assert MeltFirst(wide, columns, m) == prefix + block;
    var n := |wide|;
    var k := Offset(j, n) + i;
    OffsetInBlocks(j, i, n, m);
    if j < m - 1 {
      MeltFirstAt(wide, columns, m - 1, j, i);
      assert (prefix + block)[k] == prefix[k];
    } else {
      assert k == |prefix| + i;
      assert (prefix + block)[|prefix| + i] == block[i];
    }
  }

  /**
   * pandas' layout of `melt`: all rows of the first value column, then all
   * rows of the second, and so on; the cell of wide row `i` in column `j`
   * stands at position `j * |wide| + i`.
   */
  lemma MeltLayout(wide: seq<Group<string>>, columns: seq<string>, j: nat, i: nat)
    requires Rectangular(wide, columns) && j < |columns| && i < |wide|
    ensures j * |wide| + i < |Melt(wide, columns)|
    ensures Melt(wide, columns)[j * |wide| + i] == LongRow(wide[i].key, columns[j], wide[i].means[j])
  {
    assert columns[..|columns|] == columns;
    MeltFirstAt(wide, columns, |columns|, j, i);
    OffsetIsProduct(j, |wide|);
  }

  /** No two long rows share a (scenario, variable) pair. */
  ghost predicate UniquePairs(long: seq<LongRow>)
  {
    forall a, b :: 0 <= a < b < |long| ==> long[a].scenario != long[b].scenario || long[a].variable != long[b].variable
  }

  lemma {:induction false} MeltFirstUniquePairs(wide: seq<Group<string>>, columns: seq<string>, m: nat)
    requires Rectangular(wide, columns) && m <= |columns|
    requires Distinct(GroupKeys(wide)) && Distinct(columns)
    ensures UniquePairs(MeltFirst(wide, columns, m))
  {
    if m > 0 {
      var prefix := MeltFirst(wide, columns, m - 1);
      var block := MeltBlock(wide, columns, m - 1);
      MeltFirstUniquePairs(wide, columns, m - 1);
      MeltFirstMembers(wide, columns, m - 1);
      var long := prefix + block;
      forall a, b | 0 <= a < b < |long|
        ensures long[a].scenario != long[b].scenario || long[a].variable != long[b].variable
      {
        if b < |prefix| {
          assert long[a] == prefix[a] && long[b] == prefix[b];
        } else if a >= |prefix| {
          assert long[a] == block[a - |prefix|] && long[b] == block[b - |prefix|];
          assert GroupKeys(wide)[a - |prefix|] == long[a].scenario;
          assert GroupKeys(wide)[b - |prefix|] == long[b].scenario;
        } else {
          assert long[a] == prefix[a] && long[a] in prefix;
          var j :| 0 <= j < m - 1 && columns[..m - 1][j] == long[a].variable;
          assert long[b] == block[b - |prefix|];
          assert long[b].variable == columns[m - 1];
          assert columns[j] != columns[m - 1];
        }
      }
    }
  }

  /** Every (scenario, variable) pair of a melted table occurs once. */
  lemma MeltUniquePairs(wide: seq<Group<string>>, columns: seq<string>)
    requires Rectangular(wide, columns)
    requires Distinct(GroupKeys(wide)) && Distinct(columns)
    ensures UniquePairs(Melt(wide, columns))
  {
    assert columns[..|columns|] == columns;
    MeltFirstUniquePairs(wide, columns, |columns|);
  }

  /** The `Promedio` of the first long row with this scenario and variable; missing if none has them. */
  function Lookup(long: seq<LongRow>, scenario: string, variable: string): Option<real>
  {
    if long == [] then None
    else if long[0].scenario == scenario && long[0].variable == variable then long[0].promedio
    else Lookup(long[1..], scenario, variable)
  }

  lemma {:induction false} LookupAt(long: seq<LongRow>, k: nat)
    requires UniquePairs(long) && k < |long|
    ensures Lookup(long, long[k].scenario, long[k].variable) == long[k].promedio
  {
    if k > 0 {
      assert long[1..][k - 1] == long[k];
      LookupAt(long[1..], k - 1);
    }
  }

  /**
   * `pivot(index='Escenario', columns='Variable', values='Promedio')`: one
   * wide row per scenario, one cell per column, missing where the long
   * table has no such pair.
   */
  function Pivot(long: seq<LongRow>, scenarios: seq<string>, columns: seq<string>): (wide: seq<Group<string>>)
    ensures GroupKeys(wide) == scenarios
    ensures Rectangular(wide, columns)
  {
    var wide := seq(|scenarios|, i requires 0 <= i < |scenarios| =>
      Group(scenarios[i], seq(|columns|, j requires 0 <= j < |columns| => Lookup(long, scenarios[i], columns[j]))));
    assert GroupKeys(wide) == scenarios;
    wide
  }

  /** `melt` loses nothing: pivoting the long table back gives the wide table. */
  lemma MeltPivot(wide: seq<Group<string>>, columns: seq<string>)
    requires Rectangular(wide, columns)
    requires Distinct(GroupKeys(wide)) && Distinct(columns)
    ensures Pivot(Melt(wide, columns), GroupKeys(wide), columns) == wide
  {
    var long := Melt(wide, columns);
    MeltUniquePairs(wide, columns);
    forall i | 0 <= i < |wide| ensures Pivot(long, GroupKeys(wide), columns)[i] == wide[i] {
      PivotRow(long, wide, columns, i);
    }
  }

  lemma PivotRow(long: seq<LongRow>, wide: seq<Group<string>>, columns: seq<string>, i: nat)
    requires Rectangular(wide, columns) && i < |wide|
    requires long == Melt(wide, columns) && UniquePairs(long)
    ensures Pivot(long, GroupKeys(wide), columns)[i] == wide[i]
  {
    var back := Pivot(long, GroupKeys(wide), columns)[i];
    assert back.key == GroupKeys(wide)[i] == wide[i].key;
    forall j | 0 <= j < |columns| ensures back.means[j] == wide[i].means[j] {
      var cell := LongRow(wide[i].key, columns[j], wide[i].means[j]);
      assert cell in long;
      var k :| 0 <= k < |long| && long[k] == cell;
      LookupAt(long, k);
    }
    assert back.means == wide[i].means;
  }
}
