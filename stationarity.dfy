/** The stationarity stage: `StationaryReturnsProcessor.make_stationary`,
    `test_stationarity` and `log_adf_results`, and
    `StationaryReturnsProcessorFactory.create_handler`.

    `make_stationary` adds the `<col>_diff` columns to the frame it is given (the
    caller sees them) and then returns a new frame, `data.dropna()`; it is a
    method on a `Frame`.  `test_stationarity` builds its report in a loop and
    is a method that only reads.  The ADF routine is a foreign statistical
    function and is passed in as a parameter. */
module Stationarity {
  import opened DataModel
  import MissingData

  // ------------------------------------------------------------ differencing

  /** `a - b` on cells, as IEEE subtraction behaves on NaN and the infinities:
      the difference is missing exactly when an operand is, or when it is
      `inf - inf` of one sign; it is finite exactly when both operands are,
      and then it is the difference of the values. */
  function Sub(a: Cell, b: Cell): (r: Cell)
    ensures r.Missing? <==>
      a.Missing? || b.Missing? || (a == b && (a == PosInf || a == NegInf))
    ensures r.Val? <==> a.Val? && b.Val?
    ensures a.Val? && b.Val? ==> r == Val(a.v - b.v)
  {
    match (a, b)
    case (Missing, _) => Missing
    case (_, Missing) => Missing
    case (Val(x), Val(y)) => Val(x - y)
    case (PosInf, PosInf) => Missing
    case (NegInf, NegInf) => Missing
    case (PosInf, _) => PosInf
    case (NegInf, _) => NegInf
    case (Val(_), PosInf) => NegInf
    case (Val(_), NegInf) => PosInf
  }

  /** `column.diff()`: the first cell is missing, every later one is the
      difference with the cell before it. */
  function Diff(cells: seq<Cell>): (r: seq<Cell>)
    ensures |r| == |cells|
  {
    seq(|cells|, t requires 0 <= t < |cells| => if t == 0 then Missing else Sub(cells[t], cells[t - 1]))
  }

  /** The first differences of a finite series. */
  function Differences(xs: seq<real>): (d: seq<real>)
    requires |xs| > 0
    ensures |d| == |xs| - 1
  {
    seq(|xs| - 1, t requires 0 <= t < |xs| - 1 => xs[t + 1] - xs[t])
  }

  /** What `diff()` produces: missing first, then `x[t] - x[t-1]`, missing
      whenever an operand is missing, finite exactly when both operands are. */
  lemma DiffAt(cells: seq<Cell>, t: nat)
    requires t < |cells|
    ensures t == 0 ==> Diff(cells)[t].Missing?
    ensures t > 0 && cells[t].Val? && cells[t - 1].Val? ==>
      Diff(cells)[t] == Val(cells[t].v - cells[t - 1].v)
    ensures t > 0 && (cells[t].Missing? || cells[t - 1].Missing?) ==> Diff(cells)[t].Missing?
    ensures t > 0 ==> (Diff(cells)[t].Val? <==> cells[t].Val? && cells[t - 1].Val?)
  {
    if t > 0 {
      assert Diff(cells)[t] == Sub(cells[t], cells[t - 1]);
    }
  }

  /** Summing a series' first differences from its first value gives the series back. */
  function Integrate(x0: real, d: seq<real>): (xs: seq<real>)
    ensures |xs| == |d| + 1 && xs[0] == x0
    decreases |d|
  {
    if d == [] then [x0] else [x0] + Integrate(x0 + d[0], d[1..])
  }

  /** Differencing loses nothing but the first value: integrating the
      differences of a finite series from its first value restores it. */
  lemma {:induction false} IntegrateDifferences(xs: seq<real>)
    requires |xs| > 0
    ensures Integrate(xs[0], Differences(xs)) == xs
    decreases |xs|
  {
    if |xs| > 1 {
      assert Differences(xs)[1..] == Differences(xs[1..]);
      IntegrateDifferences(xs[1..]);
      assert xs == [xs[0]] + xs[1..];
    }
  }

  /** For a finite column, the `diff()` column after its first row holds the
      first differences of the values, from which the column is recovered. */
  lemma DiffOfFiniteColumn(cells: seq<Cell>)
    requires |cells| > 0 && AllFinite(cells)
    ensures AllFinite(Diff(cells)[1..])
    ensures Values(Diff(cells)[1..]) == Differences(Values(cells))
    ensures Integrate(Values(cells)[0], Values(Diff(cells)[1..])) == Values(cells)
  {
    DiffTailValues(cells);
    IntegrateDifferences(Values(cells));
  }

  lemma DiffTailValues(cells: seq<Cell>)
    requires |cells| > 0 && AllFinite(cells)
    ensures AllFinite(Diff(cells)[1..])
    ensures Values(Diff(cells)[1..]) == Differences(Values(cells))
  {
    var d := Diff(cells)[1..];
    var dx := Differences(Values(cells));
    forall t | 0 <= t < |d| ensures d[t] == Val(dx[t]) {
      DiffTailAt(cells, t);
    }
    ValuesOf(d, dx);
  }

  lemma DiffTailAt(cells: seq<Cell>, t: nat)
    requires t + 1 < |cells| && AllFinite(cells)
    ensures Diff(cells)[1..][t] == Val(Differences(Values(cells))[t])
  {
    DiffAt(cells, t + 1);
    DifferencesOfValues(cells, t);
  }

  lemma DifferencesOfValues(cells: seq<Cell>, t: nat)
    requires t + 1 < |cells| && AllFinite(cells)
    ensures Differences(Values(cells))[t] == cells[t + 1].v - cells[t].v
  {
  }

  /** A column whose cells are the given values, one by one, has those values. */
  lemma ValuesOf(cells: seq<Cell>, xs: seq<real>)
    requires |cells| == |xs|
    requires forall i | 0 <= i < |cells| :: cells[i] == Val(xs[i])
    ensures AllFinite(cells) && Values(cells) == xs
  {
  }

  // ------------------------------------------------------ columns by name

  /** The position of the first column called `name`, or -1. */
  function IndexOf(cols: seq<Column>, name: string): (k: int)
    ensures -1 <= k < |cols|
    ensures k == -1 <==> forall j | 0 <= j < |cols| :: cols[j].name != name
    ensures 0 <= k ==> cols[k].name == name && forall j | 0 <= j < k :: cols[j].name != name
  {
    if cols == [] then -1
    else if cols[0].name == name then 0
    else
      var k := IndexOf(cols[1..], name);
      if k == -1 then -1 else k + 1
  }

  /** `data[name] = cells`: an existing column of that name is overwritten in
      place (and becomes numeric, as the assigned float series is); otherwise a
      new numeric column is appended.  Afterwards `name` is found and holds
      `cells`; every other column is where it was and unchanged. */
  function SetColumn(cols: seq<Column>, name: string, cells: seq<Cell>): (r: seq<Column>)
    ensures var k := IndexOf(cols, name);
      |r| == if k == -1 then |cols| + 1 else |cols|
    ensures var k := IndexOf(cols, name);
      IndexOf(r, name) == (if k == -1 then |cols| else k)
    ensures 0 <= IndexOf(r, name) && r[IndexOf(r, name)] == Column(name, true, cells)
    ensures forall j | 0 <= j < |cols| && j != IndexOf(cols, name) :: r[j] == cols[j]
  {
    var k := IndexOf(cols, name);
    if k == -1 then
      var r := cols + [Column(name, true, cells)];
      FirstMatch(r, name, |cols|);
      r
    else
      var r := cols[k := Column(name, true, cells)];
      FirstMatch(r, name, k);
      r
  }

  /** A column called `name` with none of that name before it is the one found. */
  lemma FirstMatch(cols: seq<Column>, name: string, k: nat)
    requires k < |cols| && cols[k].name == name
    requires forall j | 0 <= j < k :: cols[j].name != name
    ensures IndexOf(cols, name) == k
  {
  }

  /** Setting a column of the right length keeps a table valid. */
  lemma SetColumnValid(index: seq<int>, cols: seq<Column>, name: string, cells: seq<Cell>)
    requires Table(index, cols).Valid() && |cells| == |index|
    ensures Table(index, SetColumn(cols, name, cells)).Valid()
    ensures |SetColumn(cols, name, cells)| >= |cols|
    ensures forall j | 0 <= j < |cols| :: SetColumn(cols, name, cells)[j].name == cols[j].name
  {
  }

  /** The names in `select_dtypes(include=[np.number]).columns`, in order. */
  function NumericNames(cols: seq<Column>): (r: seq<string>)
    ensures |r| <= |cols|
  {
    if cols == [] then []
    else
      var init, last := cols[..|cols| - 1], cols[|cols| - 1];
      NumericNames(init) + (if last.numeric then [last.name] else [])
  }

  /** Every numeric name is the name of a numeric column. */
  lemma {:induction false} NumericNameSource(cols: seq<Column>, q: nat) returns (j: nat)
    requires q < |NumericNames(cols)|
    ensures j < |cols| && cols[j].numeric && cols[j].name == NumericNames(cols)[q]
  {
    var init := cols[..|cols| - 1];
    if q < |NumericNames(init)| {
      j := NumericNameSource(init, q);
      assert init[j] == cols[j];
    } else {
      j := |cols| - 1;
    }
  }

  /** Every numeric column's name is among the numeric names. */
  lemma {:induction false} NumericNamesComplete(cols: seq<Column>, j: nat)
    requires j < |cols| && cols[j].numeric
    ensures cols[j].name in NumericNames(cols)
  {
    var init := cols[..|cols| - 1];
    if j < |cols| - 1 {
      NumericNamesComplete(init, j);
      assert init[j] == cols[j];
    }
  }

  /** The diff loop: for each name in turn, `data[name + "_diff"] = data[name].diff()`,
      reading the column as it stands at that moment.  The loop's names are
      always columns of the frame; a name that is not leaves the columns alone. */
  function AddDiffs(cols: seq<Column>, names: seq<string>): (r: seq<Column>)
    ensures |r| >= |cols|
    ensures forall j | 0 <= j < |cols| :: r[j].name == cols[j].name
  {
    if names == [] then cols
    else
      var before := AddDiffs(cols, names[..|names| - 1]);
      DiffStep(before, names[|names| - 1])
  }

  /** One pass of the diff loop's body for column `name`. */
  function DiffStep(cols: seq<Column>, name: string): (r: seq<Column>)
    ensures |r| >= |cols|
    ensures forall j | 0 <= j < |cols| :: r[j].name == cols[j].name
  {
    var k := IndexOf(cols, name);
    if k == -1 then cols else SetColumn(cols, name + "_diff", Diff(cols[k].cells))
  }

  lemma AddDiffsSnoc(cols: seq<Column>, ns: seq<string>, n: string)
    ensures AddDiffs(cols, ns + [n]) == DiffStep(AddDiffs(cols, ns), n)
  {
    assert (ns + [n])[..|ns|] == ns;
  }

  /** Running the loop over one more name is one more pass of its body. */
  lemma AddDiffsPrefix(cols: seq<Column>, ns: seq<string>, i: nat)
    requires i < |ns|
    ensures AddDiffs(cols, ns[..i + 1]) == DiffStep(AddDiffs(cols, ns[..i]), ns[i])
  {
    assert ns[..i + 1] == ns[..i] + [ns[i]];
    AddDiffsSnoc(cols, ns[..i], ns[i]);
  }

  /** The diff loop keeps a table valid. */
  lemma {:induction false} AddDiffsValid(index: seq<int>, cols: seq<Column>, names: seq<string>)
    requires Table(index, cols).Valid()
    ensures Table(index, AddDiffs(cols, names)).Valid()
  {
    if names != [] {
      var init, name := names[..|names| - 1], names[|names| - 1];
      AddDiffsValid(index, cols, init);
      var before := AddDiffs(cols, init);
      var k := IndexOf(before, name);
      if k != -1 {
        SetColumnValid(index, before, name + "_diff", Diff(before[k].cells));
      }
    }
  }

  /** One `<col>_diff` column per numeric column, in column order. */
  function DiffColumns(cols: seq<Column>): (r: seq<Column>)
    ensures |r| == |NumericNames(cols)|
    ensures forall q | 0 <= q < |r| :: r[q].name == NumericNames(cols)[q] + "_diff" && r[q].numeric
  {
    if cols == [] then []
    else
      var init, last := cols[..|cols| - 1], cols[|cols| - 1];
      DiffColumns(init) + (if last.numeric then [Column(last.name + "_diff", true, Diff(last.cells))] else [])
  }

  /** Every diff column is the `diff()` of some numeric column, under its name with `_diff`. */
  lemma {:induction false} DiffColumnSource(cols: seq<Column>, q: nat) returns (j: nat)
    requires q < |DiffColumns(cols)|
    ensures j < |cols| && cols[j].numeric
    ensures DiffColumns(cols)[q] == Column(cols[j].name + "_diff", true, Diff(cols[j].cells))
  {
    var init := cols[..|cols| - 1];
    if q < |DiffColumns(init)| {
      j := DiffColumnSource(init, q);
      assert init[j] == cols[j];
    } else {
      j := |cols| - 1;
    }
  }

  /** No column is called `<c>_diff` for a numeric column `c`: the loop then only appends. */
  predicate NoDiffNameClash(cols: seq<Column>) {
    forall j, k | 0 <= j < |cols| && 0 <= k < |cols| && cols[j].numeric ::
      cols[k].name != cols[j].name + "_diff"
  }

  lemma SuffixInjective(m: string, n: string)
    requires m + "_diff" == n + "_diff"
    ensures m == n
  {
    assert |m| == |n|;
    assert m == (m + "_diff")[..|m|];
    assert n == (n + "_diff")[..|n|];
  }

  /** A name that no column has does not appear with a `_diff` suffix among their diff columns. */
  lemma DiffNamesAvoid(cols: seq<Column>, n: string)
    requires forall j | 0 <= j < |cols| :: cols[j].name != n
    ensures forall q | 0 <= q < |DiffColumns(cols)| :: DiffColumns(cols)[q].name != n + "_diff"
  {
    forall q | 0 <= q < |DiffColumns(cols)| ensures DiffColumns(cols)[q].name != n + "_diff" {
      var j := DiffColumnSource(cols, q);
      if cols[j].name + "_diff" == n + "_diff" {
        SuffixInjective(cols[j].name, n);
      }
    }
  }

  /** Extending a prefix by one column extends its numeric names and diff columns. */
  lemma PrefixStep(cols: seq<Column>, i: nat)
    requires i < |cols|
    ensures NumericNames(cols[..i + 1]) ==
      NumericNames(cols[..i]) + (if cols[i].numeric then [cols[i].name] else [])
    ensures DiffColumns(cols[..i + 1]) ==
      DiffColumns(cols[..i]) + (if cols[i].numeric then [Column(cols[i].name + "_diff", true, Diff(cols[i].cells))] else [])
    ensures !cols[i].numeric ==>
      NumericNames(cols[..i + 1]) == NumericNames(cols[..i]) && DiffColumns(cols[..i + 1]) == DiffColumns(cols[..i])
  {
    assert cols[..i + 1][..i] == cols[..i];
    if !cols[i].numeric {
      assert NumericNames(cols[..i]) + [] == NumericNames(cols[..i]);
      assert DiffColumns(cols[..i]) + [] == DiffColumns(cols[..i]);
    }
  }

  /** With distinct names, looking a column's name up past appended columns finds that column. */
  lemma IndexOfOriginal(cols: seq<Column>, extra: seq<Column>, i: nat)
    requires DistinctNames(cols) && i < |cols|
    ensures IndexOf(cols + extra, cols[i].name) == i
  {
    var all := cols + extra;
    assert all[i].name == cols[i].name;
  }

  /** Column `i`'s diff name is new when nothing clashes. */
  lemma DiffNameIsNew(cols: seq<Column>, i: nat)
    requires DistinctNames(cols) && NoDiffNameClash(cols) && i < |cols| && cols[i].numeric
    ensures IndexOf(cols + DiffColumns(cols[..i]), cols[i].name + "_diff") == -1
  {
    var n := cols[i].name;
    var prefix := cols[..i];
    var dc := DiffColumns(prefix);
    forall j | 0 <= j < |prefix| ensures prefix[j].name != n {
      assert prefix[j] == cols[j];
    }
    DiffNamesAvoid(prefix, n);
    var all := cols + dc;
    forall j | 0 <= j < |all| ensures all[j].name != n + "_diff" {
      if j < |cols| {
        assert all[j] == cols[j];
      } else {
        assert all[j] == dc[j - |cols|];
      }
    }
  }

  /** The diff loop's step for a numeric column `i` whose name is found at `i`
      and whose diff name is new: its diff column is appended. */
  lemma AppendsNumericStep(cols: seq<Column>, i: nat)
    requires i < |cols| && cols[i].numeric
    requires IndexOf(cols + DiffColumns(cols[..i]), cols[i].name) == i
    requires IndexOf(cols + DiffColumns(cols[..i]), cols[i].name + "_diff") == -1
    ensures DiffStep(cols + DiffColumns(cols[..i]), cols[i].name) == cols + DiffColumns(cols[..i + 1])
  {
    AppendStep(cols, DiffColumns(cols[..i]), i, cols[i].name);
    PrefixStep(cols, i);
  }

  /** One more numeric column means one more pass of the loop body. */
  lemma LoopStep(cols: seq<Column>, i: nat)
    requires i < |cols| && cols[i].numeric
    ensures AddDiffs(cols, NumericNames(cols[..i + 1])) ==
      DiffStep(AddDiffs(cols, NumericNames(cols[..i])), cols[i].name)
  {
    PrefixStep(cols, i);
    AddDiffsSnoc(cols, NumericNames(cols[..i]), cols[i].name);
  }

  /** A pass for a name found at `k` whose diff name is new appends its diff column. */
  lemma AppendStep(cols: seq<Column>, extra: seq<Column>, k: nat, name: string)
    requires k < |cols| && IndexOf(cols + extra, name) == k && IndexOf(cols + extra, name + "_diff") == -1
    ensures DiffStep(cols + extra, name) == cols + (extra + [Column(name + "_diff", true, Diff(cols[k].cells))])
  {
    var c := Column(name + "_diff", true, Diff(cols[k].cells));
    assert (cols + extra)[k] == cols[k];
    assert (cols + extra) + [c] == cols + (extra + [c]);
  }

  /** With distinct names and no clash, the diff loop over the first `i`
      columns appends exactly their diff columns. */
  lemma {:induction false} AddDiffsAppends(cols: seq<Column>, i: nat)
    requires DistinctNames(cols) && NoDiffNameClash(cols) && i <= |cols|
    ensures AddDiffs(cols, NumericNames(cols[..i])) == cols + DiffColumns(cols[..i])
  {
    if i > 0 {
      AddDiffsAppends(cols, i - 1);
      var before := cols + DiffColumns(cols[..i - 1]);
      if cols[i - 1].numeric {
        assert IndexOf(before, cols[i - 1].name) == i - 1 by {
          IndexOfOriginal(cols, DiffColumns(cols[..i - 1]), i - 1);
        }
        assert IndexOf(before, cols[i - 1].name + "_diff") == -1 by {
          DiffNameIsNew(cols, i - 1);
        }
        LoopStep(cols, i - 1);
        AppendsNumericStep(cols, i - 1);
      } else {
        PrefixStep(cols, i - 1);
      }
    }
  }

  /** The columns `make_stationary` leaves in the caller's frame: when no name
      clashes, the input columns unchanged followed by one `<col>_diff` column
      per numeric column, in column order; the new columns are not differenced. */
  lemma DifferencingShape(cols: seq<Column>)
    requires DistinctNames(cols) && NoDiffNameClash(cols)
    ensures AddDiffs(cols, NumericNames(cols)) == cols + DiffColumns(cols)
  {
    AddDiffsAppends(cols, |cols|);
    assert cols[..|cols|] == cols;
  }

  /** `make_stationary`.  Disabled: the same frame comes back untouched, whatever
      the method.  Unknown method: the ValueError, frame untouched.  Otherwise
      the caller's frame gains the diff columns and the result is a new frame
      holding its rows with no missing cell. */
  method MakeStationary(data: Frame, methodName: string, enabled: bool) returns (r: Result<Frame>)
    requires data.Value().Valid()
    modifies data
    ensures !enabled ==> r == Ok(data) && unchanged(data)
    ensures enabled && Lower(methodName) != "difference" ==>
      r == Err(UnknownStationaryMethod(methodName)) && unchanged(data)
    ensures enabled && Lower(methodName) == "difference" ==>
      && data.index == old(data.index)
      && data.columns == AddDiffs(old(data.columns), NumericNames(old(data.columns)))
      && data.Value().Valid()
      && r.Ok? && fresh(r.value) && r.value != data
      && r.value.Value() == MissingData.DropNa(data.Value())
  {
    if !enabled {
      return Ok(data);
    }
    var numericColumns := NumericNames(data.columns);
    if Lower(methodName) == "difference" {
      ghost var cols0 := data.columns;
      var i := 0;
      while i < |numericColumns|
        invariant 0 <= i <= |numericColumns|
        invariant data.index == old(data.index)
        invariant data.columns == AddDiffs(cols0, numericColumns[..i])
      {
        var column := numericColumns[i];
        ghost var j := NumericNameSource(cols0, i);
        assert data.columns[j].name == column;
        var k := IndexOf(data.columns, column);
        AddDiffsPrefix(cols0, numericColumns, i);
        data.columns := SetColumn(data.columns, column + "_diff", Diff(data.columns[k].cells));
        i := i + 1;
      }
      assert numericColumns[..i] == numericColumns;
      AddDiffsValid(data.index, cols0, numericColumns);
      var dropped := new Frame(MissingData.DropNa(data.Value()));
      r := Ok(dropped);
    } else {
      r := Err(UnknownStationaryMethod(methodName));
    }
  }

  /** Each diff column of a rectangular table has one cell per row; it is
      missing in row 0 and, when its source column is finite, present after it. */
  lemma DiffColumnsCells(t: Table, q: nat)
    requires t.Rectangular() && q < |DiffColumns(t.columns)|
    requires forall j | 0 <= j < |t.columns| && t.columns[j].numeric :: AllFinite(t.columns[j].cells)
    ensures var c := DiffColumns(t.columns)[q].cells;
      && |c| == t.Rows()
      && (t.Rows() > 0 ==> c[0].Missing?)
      && forall i | 1 <= i < t.Rows() :: c[i].Val?
  {
    var j := DiffColumnSource(t.columns, q);
    forall i | 0 <= i < t.Rows() ensures i == 0 ==> Diff(t.columns[j].cells)[i].Missing?
      ensures i > 0 ==> Diff(t.columns[j].cells)[i].Val?
    {
      DiffAt(t.columns[j].cells, i);
    }
  }

  /** The table after the diff loop, for an input without missing cells whose
      numeric columns are finite: rectangular, row 0 incomplete when a numeric
      column exists, every later row complete. */
  lemma WidenedRows(t: Table)
    requires t.Rectangular() && t.Rows() >= 1
    requires forall j | 0 <= j < |t.columns| ::
      if t.columns[j].numeric then AllFinite(t.columns[j].cells) else !HasMissing(t.columns[j].cells)
    ensures var w := Table(t.index, t.columns + DiffColumns(t.columns));
      && w.Rectangular()
      && (|DiffColumns(t.columns)| > 0 ==> !RowComplete(w, 0))
      && forall i | 1 <= i < w.Rows() :: RowComplete(w, i)
  {
    var dc := DiffColumns(t.columns);
    var w := Table(t.index, t.columns + dc);
    forall j | 0 <= j < |w.columns| ensures |w.columns[j].cells| == t.Rows() {
      if j >= |t.columns| {
        DiffColumnsCells(t, j - |t.columns|);
      }
    }
    if |dc| > 0 {
      DiffColumnsCells(t, 0);
      assert w.columns[|t.columns|] == dc[0];
    }
    forall i | 1 <= i < w.Rows() ensures RowComplete(w, i) {
      forall j | 0 <= j < |w.columns| ensures !w.columns[j].cells[i].Missing? {
        if j < |t.columns| {
          assert w.columns[j] == t.columns[j];
        } else {
          DiffColumnsCells(t, j - |t.columns|);
          assert w.columns[j] == dc[j - |t.columns|];
        }
      }
    }
  }

  /** For an input without missing cells whose numeric columns are finite, and
      with at least one numeric column, differencing removes exactly the first
      row: the result keeps the labels and cells of rows 1.. of the input
      columns and of the new diff columns. */
  lemma DifferencingDropsFirstRow(t: Table)
    requires t.Valid() && NoDiffNameClash(t.columns) && t.Rows() >= 1
    requires exists j | 0 <= j < |t.columns| :: t.columns[j].numeric
    requires forall j | 0 <= j < |t.columns| ::
      if t.columns[j].numeric then AllFinite(t.columns[j].cells) else !HasMissing(t.columns[j].cells)
    ensures AddDiffs(t.columns, NumericNames(t.columns)) == t.columns + DiffColumns(t.columns)
    ensures var w := Table(t.index, t.columns + DiffColumns(t.columns));
      w.Rectangular() &&
      var d := MissingData.DropNa(w);
      && d.index == t.index[1..]
      && |d.columns| == |w.columns|
      && forall j | 0 <= j < |w.columns| :: d.columns[j].cells == w.columns[j].cells[1..]
  {
    DifferencingShape(t.columns);
    var j0 :| 0 <= j0 < |t.columns| && t.columns[j0].numeric;
    NumericNamesComplete(t.columns, j0);
    WidenedRows(t);
    MissingData.DropNaRemovesFirstRow(Table(t.index, t.columns + DiffColumns(t.columns)));
  }

  // ------------------------------------------------------ test_stationarity

  /** What `adfuller` reports for a column: the test statistic and its p-value. */
  datatype AdfResult = AdfResult(statistic: real, pValue: real)

  /** A column the ADF test is run on: numeric, nothing missing, everything finite. */
  predicate Testable(c: Column) {
    c.numeric && !HasMissing(c.cells) && AllFinite(c.cells)
  }

  /** The column names the report has keys for. */
  function TestableNames(cols: seq<Column>): set<string> {
    set j | 0 <= j < |cols| && Testable(cols[j]) :: cols[j].name
  }

  /** `test_stationarity`: an unsupported test is a ValueError; otherwise the
      report has exactly one entry per numeric column without missing or
      infinite cells, holding the ADF result of that column's values; other
      columns are skipped. */
  method TestStationarity(data: Table, test: string, adf: seq<real> -> AdfResult)
    returns (r: Result<map<string, AdfResult>>)
    requires data.Valid()
    ensures r.Err? <==> Lower(test) != "adf"
    ensures r.Err? ==> r.error == UnsupportedStationarityTest(test)
    ensures r.Ok? ==> r.value.Keys == TestableNames(data.columns)
    ensures r.Ok? ==> forall j | 0 <= j < |data.columns| && Testable(data.columns[j]) ::
      r.value[data.columns[j].name] == adf(Values(data.columns[j].cells))
  {
    if Lower(test) != "adf" {
      return Err(UnsupportedStationarityTest(test));
    }
    var cols := data.columns;
    var results: map<string, AdfResult> := map[];
    var j := 0;
    while j < |cols|
      invariant 0 <= j <= |cols|
      invariant results.Keys == set p | 0 <= p < j && Testable(cols[p]) :: cols[p].name
      invariant forall p | 0 <= p < j && Testable(cols[p]) ::
        cols[p].name in results && results[cols[p].name] == adf(Values(cols[p].cells))
    {
      var column := cols[j];
      if !column.numeric || HasMissing(column.cells) || !AllFinite(column.cells) {
        j := j + 1;
        continue;
      }
      results := results[column.name := adf(Values(column.cells))];
      j := j + 1;
    }
    r := Ok(results);
  }

  // -------------------------------------------------------- log_adf_results

  datatype Verdict = Stationary | NonStationary

  /** `log_adf_results`: each entry of the report is classified exactly once,
      as stationary exactly when its p-value is strictly below the threshold. */
  function LogAdfResults(report: map<string, AdfResult>, threshold: real): (r: map<string, Verdict>)
    ensures r.Keys == report.Keys
    ensures forall name | name in report :: r[name] == Stationary <==> report[name].pValue < threshold
    ensures forall name | name in report :: r[name] == NonStationary <==> report[name].pValue >= threshold
  {
    map name | name in report :: if report[name].pValue < threshold then Stationary else NonStationary
  }

  /** Raising the threshold never turns a stationary verdict into a non-stationary one. */
  lemma ThresholdMonotone(report: map<string, AdfResult>, low: real, high: real, name: string)
    requires low <= high && name in report
    requires LogAdfResults(report, low)[name] == Stationary
    ensures LogAdfResults(report, high)[name] == Stationary
  {
  }

  // ------------------------------------------------------------------ factory

  /** The one processor object every accepted key returns. */
  datatype Processor = StationaryReturnsProcessor

  /** `StationaryReturnsProcessorFactory.create_handler`: three keys, matched
      after lowering, all return the same processor. */
  function CreateProcessor(strategy: string): (r: Result<Processor>)
    ensures r.Ok? <==>
      Lower(strategy) in {"transform_to_stationary_returns", "test_stationarity", "log_stationarity"}
    ensures r.Err? ==> r.error == UnknownProcessorStrategy(strategy)
  {
    if Lower(strategy) == "transform_to_stationary_returns" then Ok(StationaryReturnsProcessor)
    else if Lower(strategy) == "test_stationarity" then Ok(StationaryReturnsProcessor)
    else if Lower(strategy) == "log_stationarity" then Ok(StationaryReturnsProcessor)
    else Err(UnknownProcessorStrategy(strategy))
  }

  /** Keys that lower to the same text are accepted or refused together. */
  lemma CreateProcessorIgnoresCase(a: string, b: string)
    requires Lower(a) == Lower(b)
    ensures CreateProcessor(a).Ok? == CreateProcessor(b).Ok? == CreateProcessor(Lower(a)).Ok?
  {
    LowerIdempotent(a);
  }
}
