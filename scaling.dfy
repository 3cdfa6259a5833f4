/** Scaling: `DataScaler.scale_data_minmax` and `DataScalerFactory.create_handler`.

    `scale_data_minmax` overwrites every numeric column of the frame it is
    given and returns that same frame, so it is a method on a `Frame`.  The
    column arithmetic follows IEEE semantics on the cell tags: pandas' `min()`
    and `max()` skip missing cells, `0/0`, `inf/inf` and `inf - inf` are NaN,
    which pandas reports as missing. */
module Scaling {
  import opened DataModel

  /** The finite payloads of a column, in order (what `min()`/`max()` look at
      when the column holds no infinity). */
  function FiniteValues(cells: seq<Cell>): (r: seq<real>)
    ensures forall x :: x in r <==> Val(x) in cells
  {
    if cells == [] then []
    else
      assert forall c :: c in cells <==> c == cells[0] || c in cells[1..];
      (if cells[0].Val? then [cells[0].v] else []) + FiniteValues(cells[1..])
  }

  function MinOf(xs: seq<real>): (m: real)
    requires |xs| > 0
    ensures m in xs && forall x | x in xs :: m <= x
  {
    if |xs| == 1 then xs[0]
    else
      var m := MinOf(xs[1..]);
      assert forall x | x in xs :: x == xs[0] || x in xs[1..];
      if xs[0] <= m then xs[0] else m
  }

  function MaxOf(xs: seq<real>): (m: real)
    requires |xs| > 0
    ensures m in xs && forall x | x in xs :: x <= m
  {
    if |xs| == 1 then xs[0]
    else
      var m := MaxOf(xs[1..]);
      assert forall x | x in xs :: x == xs[0] || x in xs[1..];
      if xs[0] >= m then xs[0] else m
  }

  /** `(col - col.min()) / (col.max() - col.min())` on one column.
      - any `-inf`: the range is infinite and every numerator is NaN or
        infinite, so every cell becomes NaN;
      - otherwise any `+inf`: the range is `+inf`, finite cells become 0 and the
        infinite ones `inf/inf`, NaN;
      - no finite cell: the column is all missing and stays so;
      - otherwise finite cells map affinely, except that a zero range gives
        `0/0`, NaN, for every present cell. */
  function ScaleCells(cells: seq<Cell>): (r: seq<Cell>)
    ensures |r| == |cells|
  {
    var vals := FiniteValues(cells);
    if NegInf in cells then
      seq(|cells|, i requires 0 <= i < |cells| => Missing)
    else if PosInf in cells then
      seq(|cells|, i requires 0 <= i < |cells| => if cells[i].Val? then Val(0.0) else Missing)
    else if vals == [] then
      cells
    else
      var lo, hi := MinOf(vals), MaxOf(vals);
      seq(|cells|, i requires 0 <= i < |cells| => ScaleFinite(cells[i], lo, hi))
  }

  /** One cell of a column without infinities whose minimum is `lo` and maximum `hi`. */
  function ScaleFinite(c: Cell, lo: real, hi: real): Cell {
    if c.Val? && hi != lo then Val(Unit(c.v, lo, hi)) else Missing
  }

  /** `(x - lo) / (hi - lo)`, the position of `x` in [lo, hi]. */
  function Unit(x: real, lo: real, hi: real): real
    requires hi != lo
  {
    (x - lo) / (hi - lo)
  }

  /** The inverse of `Unit`. */
  function Unscale(y: real, lo: real, hi: real): real {
    lo + y * (hi - lo)
  }

  /** The column range that min-max scaling divides by is positive. */
  predicate HasRange(cells: seq<Cell>) {
    NegInf !in cells && PosInf !in cells &&
    exists i, k | 0 <= i < |cells| && 0 <= k < |cells| ::
      cells[i].Val? && cells[k].Val? && cells[i].v != cells[k].v
  }

  /** A column with a positive range has finite values, and its minimum is
      below its maximum. */
  lemma RangeIsPositive(cells: seq<Cell>)
    requires HasRange(cells)
    ensures FiniteValues(cells) != []
    ensures MinOf(FiniteValues(cells)) < MaxOf(FiniteValues(cells))
  {
    var vals := FiniteValues(cells);
    var a, b :| 0 <= a < |cells| && 0 <= b < |cells| && cells[a].Val? && cells[b].Val? && cells[a].v != cells[b].v;
    assert cells[a] == Val(cells[a].v) && cells[b] == Val(cells[b].v);
    assert cells[a].v in vals && cells[b].v in vals;
  }

  /** Cell `i` of a scaled column with a positive range. */
  lemma ScaleCellsAt(cells: seq<Cell>, i: nat)
    requires HasRange(cells) && i < |cells|
    ensures FiniteValues(cells) != []
    ensures MinOf(FiniteValues(cells)) < MaxOf(FiniteValues(cells))
    ensures ScaleCells(cells)[i] == ScaleFinite(cells[i], MinOf(FiniteValues(cells)), MaxOf(FiniteValues(cells)))
  {
    RangeIsPositive(cells);
  }

  /** The affine map of [lo, hi] onto [0, 1], its inverse, and its order. */
  lemma AffineToUnit(x: real, lo: real, hi: real)
    requires lo <= x <= hi && lo < hi
    ensures 0.0 <= Unit(x, lo, hi) <= 1.0
    ensures Unscale(Unit(x, lo, hi), lo, hi) == x
    ensures x == lo ==> Unit(x, lo, hi) == 0.0
    ensures x == hi ==> Unit(x, lo, hi) == 1.0
  {
    var y := (x - lo) / (hi - lo);
    assert y * (hi - lo) == x - lo;
    assert x - lo <= hi - lo;
  }

  lemma UnitMonotone(x: real, z: real, lo: real, hi: real)
    requires x <= z && lo < hi
    ensures Unit(x, lo, hi) <= Unit(z, lo, hi)
  {
    var d := hi - lo;
    assert (z - lo) / d - (x - lo) / d == (z - x) / d;
  }

  /** For a column of finite and missing cells with a positive range: missing
      cells stay missing, every value lands in [0, 1], the minimum goes to 0,
      the maximum to 1, and the original value is recovered from the scaled
      one as `min + y * (max - min)`. */
  lemma MinMaxInUnitInterval(cells: seq<Cell>, i: nat)
    requires HasRange(cells) && i < |cells|
    ensures var r := ScaleCells(cells);
      && (r[i].Missing? <==> cells[i].Missing?)
      && (cells[i].Val? ==> r[i].Val? && 0.0 <= r[i].v <= 1.0)
      && (cells[i].Val? && (forall k | 0 <= k < |cells| && cells[k].Val? :: cells[i].v <= cells[k].v) ==> r[i] == Val(0.0))
      && (cells[i].Val? && (forall k | 0 <= k < |cells| && cells[k].Val? :: cells[k].v <= cells[i].v) ==> r[i] == Val(1.0))
      && (cells[i].Val? ==>
            FiniteValues(cells) != [] &&
            Unscale(r[i].v, MinOf(FiniteValues(cells)), MaxOf(FiniteValues(cells))) == cells[i].v)
  {
    ScaleCellsAt(cells, i);
    var vals := FiniteValues(cells);
    var lo, hi := MinOf(vals), MaxOf(vals);
    if cells[i].Val? {
      var x := cells[i].v;
      assert cells[i] == Val(x);
      assert x in vals;
      AffineToUnit(x, lo, hi);
      if forall k | 0 <= k < |cells| && cells[k].Val? :: x <= cells[k].v {
        assert Val(lo) in cells;
        var k :| 0 <= k < |cells| && cells[k] == Val(lo);
        assert x <= lo;
      }
      if forall k | 0 <= k < |cells| && cells[k].Val? :: cells[k].v <= x {
        assert Val(hi) in cells;
        var k :| 0 <= k < |cells| && cells[k] == Val(hi);
        assert hi <= x;
      }
    }
  }

  /** Min-max scaling keeps the order of the values it scales. */
  lemma MinMaxMonotone(cells: seq<Cell>, i: nat, k: nat)
    requires HasRange(cells) && i < |cells| && k < |cells|
    requires cells[i].Val? && cells[k].Val? && cells[i].v <= cells[k].v
    ensures ScaleCells(cells)[i].Val? && ScaleCells(cells)[k].Val?
    ensures ScaleCells(cells)[i].v <= ScaleCells(cells)[k].v
  {
    ScaleCellsAt(cells, i);
    ScaleCellsAt(cells, k);
    UnitMonotone(cells[i].v, cells[k].v, MinOf(FiniteValues(cells)), MaxOf(FiniteValues(cells)));
  }

  /** A column whose present values are all equal (zero range) comes out with
      every cell missing, each present cell being `0/0`.  The TODO at
      generalized_timeseries/data_processor.py:203 reports that min-max scaling
      flattens columns; this case and the `+inf` case of `InfiniteRangeCollapses`
      (every finite cell becomes 0) are the ones where the model's result has
      no spread, and which of them the TODO means is not recorded. */
  lemma ZeroRangeGivesAllMissing(cells: seq<Cell>, x: real)
    requires forall i | 0 <= i < |cells| :: cells[i].Missing? || cells[i] == Val(x)
    ensures forall i | 0 <= i < |cells| :: ScaleCells(cells)[i].Missing?
  {
    var vals := FiniteValues(cells);
    if vals != [] {
      assert MinOf(vals) in vals && MaxOf(vals) in vals;
      assert Val(MinOf(vals)) in cells && Val(MaxOf(vals)) in cells;
    }
  }

  /** With `+inf` present (and no `-inf`), finite cells become 0 and infinite
      ones missing; with `-inf` present every cell becomes missing. */
  lemma InfiniteRangeCollapses(cells: seq<Cell>, i: nat)
    requires i < |cells|
    ensures NegInf in cells ==> ScaleCells(cells)[i].Missing?
    ensures NegInf !in cells && PosInf in cells ==>
      ScaleCells(cells)[i] == (if cells[i].Val? then Val(0.0) else Missing)
  {
  }

  /** Every numeric column scaled; the others, the names and the tags untouched. */
  function MinMaxScaled(cols: seq<Column>): (r: seq<Column>)
    ensures |r| == |cols|
    ensures forall j | 0 <= j < |cols| ::
      r[j].name == cols[j].name && r[j].numeric == cols[j].numeric &&
      |r[j].cells| == |cols[j].cells|
    ensures forall j | 0 <= j < |cols| && !cols[j].numeric :: r[j] == cols[j]
  {
    seq(|cols|, j requires 0 <= j < |cols| =>
      if cols[j].numeric then cols[j].(cells := ScaleCells(cols[j].cells)) else cols[j])
  }

  /** `scale_data_minmax`: overwrites each numeric column of `data` with its
      scaled form and returns the same frame; the row labels are untouched. */
  method ScaleDataMinmax(data: Frame) returns (r: Frame)
    modifies data
    ensures r == data
    ensures data.index == old(data.index)
    ensures data.columns == MinMaxScaled(old(data.columns))
  {
    var j := 0;
    while j < |data.columns|
      invariant 0 <= j <= |data.columns| == |old(data.columns)|
      invariant data.index == old(data.index)
      invariant forall k | 0 <= k < j :: data.columns[k] == MinMaxScaled(old(data.columns))[k]
      invariant forall k | j <= k < |data.columns| :: data.columns[k] == old(data.columns)[k]
    {
      var column := data.columns[j];
      if column.numeric {
        data.columns := data.columns[j := column.(cells := ScaleCells(column.cells))];
      }
      j := j + 1;
    }
    r := data;
  }

  /** After `scale_data_minmax`, every value of a numeric column with a positive
      range lies in [0, 1]; the row count is unchanged. */
  lemma MinMaxTableInUnitInterval(t: Table, j: nat, i: nat)
    requires t.Rectangular() && j < |t.columns| && i < t.Rows()
    requires t.columns[j].numeric && HasRange(t.columns[j].cells)
    ensures var s := Table(t.index, MinMaxScaled(t.columns));
      s.Rectangular() &&
      (t.columns[j].cells[i].Val? ==> 0.0 <= s.columns[j].cells[i].v <= 1.0)
  {
    MinMaxInUnitInterval(t.columns[j].cells, i);
  }

  datatype Scaler = Standardize | MinMax

  /** `DataScalerFactory.create_handler`: the key is matched after lowering. */
  function CreateScaler(strategy: string): (r: Result<Scaler>)
    ensures r == Ok(Standardize) <==> Lower(strategy) == "standardize"
    ensures r == Ok(MinMax) <==> Lower(strategy) == "minmax"
    ensures r.Err? <==> Lower(strategy) !in {"standardize", "minmax"}
    ensures r.Err? ==> r.error == UnknownScalingStrategy(strategy)
  {
    if Lower(strategy) == "standardize" then Ok(Standardize)
    else if Lower(strategy) == "minmax" then Ok(MinMax)
    else Err(UnknownScalingStrategy(strategy))
  }

  /** Keys that lower to the same text select the same scaler. */
  lemma CreateScalerIgnoresCase(a: string, b: string)
    requires Lower(a) == Lower(b)
    ensures CreateScaler(a).Ok? == CreateScaler(b).Ok?
    ensures CreateScaler(a).Ok? ==> CreateScaler(a) == CreateScaler(b) == CreateScaler(Lower(a))
  {
    LowerIdempotent(a);
  }
}
