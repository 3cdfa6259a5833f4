/** Missing-value handling: `MissingDataHandler.drop_na`,
    `MissingDataHandler.forward_fill`, `MissingDataHandlerFactory.create_handler`
    and `fill_data`.  Both handlers return a new table and leave their input alone,
    so they are functions on table values. */
module MissingData {
  import opened DataModel

  // ---------------------------------------------------------------- drop_na

  /** The rows from `i` on that have no missing cell, in increasing order. */
  function CompleteRowsFrom(t: Table, i: nat): (r: seq<nat>)
    requires t.Rectangular() && i <= t.Rows()
    ensures forall k | 0 <= k < |r| :: i <= r[k] < t.Rows() && RowComplete(t, r[k])
    ensures forall k, l | 0 <= k < l < |r| :: r[k] < r[l]
    decreases t.Rows() - i
  {
    if i == t.Rows() then []
    else if RowComplete(t, i) then [i] + CompleteRowsFrom(t, i + 1)
    else CompleteRowsFrom(t, i + 1)
  }

  /** No complete row from `i` on is missed. */
  lemma {:induction false} CompleteRowsFromIncludes(t: Table, i: nat, x: nat)
    requires t.Rectangular() && i <= x < t.Rows() && RowComplete(t, x)
    ensures x in CompleteRowsFrom(t, i)
    decreases x - i
  {
    if i < x {
      CompleteRowsFromIncludes(t, i + 1, x);
    }
  }

  /** The rows `dropna()` keeps: exactly the complete ones, in their original order. */
  function CompleteRows(t: Table): (r: seq<nat>)
    requires t.Rectangular()
    ensures forall k | 0 <= k < |r| :: r[k] < t.Rows() && RowComplete(t, r[k])
    ensures forall k, l | 0 <= k < l < |r| :: r[k] < r[l]
  {
    CompleteRowsFrom(t, 0)
  }

  /** The table made of the given rows of `t`, labels included, same columns. */
  function SelectRows(t: Table, keep: seq<nat>): (r: Table)
    requires t.Rectangular()
    requires forall k | 0 <= k < |keep| :: keep[k] < |t.index|
    ensures r.Rectangular() && r.Rows() == |keep|
    ensures |r.columns| == |t.columns|
    ensures forall j | 0 <= j < |t.columns| ::
      r.columns[j].name == t.columns[j].name && r.columns[j].numeric == t.columns[j].numeric
    ensures forall k | 0 <= k < |keep| ::
      r.index[k] == t.index[keep[k]] && Row(r, k) == Row(t, keep[k])
  {
    var r := Table(
      seq(|keep|, k requires 0 <= k < |keep| => t.index[keep[k]]),
      seq(|t.columns|, j requires 0 <= j < |t.columns| =>
        t.columns[j].(cells := seq(|keep|, k requires 0 <= k < |keep| => t.columns[j].cells[keep[k]]))));
    assert forall k | 0 <= k < |keep| :: Row(r, k) == Row(t, keep[k]) by {
      forall k | 0 <= k < |keep| ensures Row(r, k) == Row(t, keep[k]) {
        assert forall j | 0 <= j < |t.columns| :: Row(r, k)[j] == Row(t, keep[k])[j];
      }
    }
    r
  }

  /** `drop_na`: `data.dropna()`.  No row of the result has a missing cell; the
      result's rows are the complete rows of the input, in order, with their
      labels and cells unchanged; the columns are the input's. */
  function DropNa(t: Table): (r: Table)
    requires t.Rectangular()
    ensures r.Rectangular()
    ensures SameHeaders(r.columns, t.columns)
    ensures forall i | 0 <= i < r.Rows() :: RowComplete(r, i)
    ensures r.Rows() == |CompleteRows(t)|
    ensures forall k | 0 <= k < r.Rows() ::
      r.index[k] == t.index[CompleteRows(t)[k]] && Row(r, k) == Row(t, CompleteRows(t)[k])
  {
    var keep := CompleteRows(t);
    var r := SelectRows(t, keep);
    forall i | 0 <= i < r.Rows() ensures RowComplete(r, i) {
      forall j | 0 <= j < |r.columns| ensures !r.columns[j].cells[i].Missing? {
        assert r.columns[j].cells[i] == Row(r, i)[j] == Row(t, keep[i])[j];
      }
    }
    r
  }

  /** Every complete input row survives `drop_na`, with its label and its cells,
      and the survivors keep their relative order. */
  lemma DropNaKeepsCompleteRows(t: Table, x: nat)
    requires t.Rectangular() && x < t.Rows() && RowComplete(t, x)
    ensures exists k | 0 <= k < DropNa(t).Rows() ::
      DropNa(t).index[k] == t.index[x] && Row(DropNa(t), k) == Row(t, x)
  {
    var keep := CompleteRows(t);
    CompleteRowsFromIncludes(t, 0, x);
    var k :| 0 <= k < |keep| && keep[k] == x;
    assert DropNa(t).index[k] == t.index[x] && Row(DropNa(t), k) == Row(t, x);
  }

  /** A table without missing cells passes `drop_na` unchanged. */
  lemma {:induction false} DropNaOfCompleteTable(t: Table)
    requires t.Rectangular()
    requires forall i | 0 <= i < t.Rows() :: RowComplete(t, i)
    ensures DropNa(t) == t
  {
    AllRowsKept(t, 0);
    SameRowsSameTable(DropNa(t), t);
  }

  /** Two tables with the same labels, the same rows and the same column
      headers are equal. */
  lemma SameRowsSameTable(r: Table, t: Table)
    requires r.Rectangular() && t.Rectangular() && r.Rows() == t.Rows()
    requires SameHeaders(r.columns, t.columns)
    requires forall k | 0 <= k < r.Rows() :: r.index[k] == t.index[k] && Row(r, k) == Row(t, k)
    ensures r == t
  {
    forall j | 0 <= j < |t.columns| ensures r.columns[j] == t.columns[j] {
      forall i | 0 <= i < t.Rows() ensures r.columns[j].cells[i] == t.columns[j].cells[i] {
        assert r.columns[j].cells[i] == Row(r, i)[j];
      }
    }
  }

  lemma {:induction false} AllRowsKept(t: Table, i: nat)
    requires t.Rectangular() && i <= t.Rows()
    requires forall x | i <= x < t.Rows() :: RowComplete(t, x)
    ensures |CompleteRowsFrom(t, i)| == t.Rows() - i
    ensures forall k | 0 <= k < t.Rows() - i :: CompleteRowsFrom(t, i)[k] == i + k
    decreases t.Rows() - i
  {
    if i < t.Rows() {
      AllRowsKept(t, i + 1);
    }
  }

  /** When only the first row has a missing cell, `drop_na` removes exactly
      that row: labels and every column lose their first entry. */
  lemma DropNaRemovesFirstRow(t: Table)
    requires t.Rectangular() && t.Rows() >= 1 && !RowComplete(t, 0)
    requires forall i | 1 <= i < t.Rows() :: RowComplete(t, i)
    ensures DropNa(t).index == t.index[1..]
    ensures |DropNa(t).columns| == |t.columns|
    ensures forall j | 0 <= j < |t.columns| :: DropNa(t).columns[j].cells == t.columns[j].cells[1..]
  {
    var d := DropNa(t);
    assert d.Rows() + 1 == t.Rows() && forall k | 0 <= k < d.Rows() ::
      d.index[k] == t.index[k + 1] && Row(d, k) == Row(t, k + 1)
    by {
      AllRowsKept(t, 1);
      assert CompleteRows(t) == CompleteRowsFrom(t, 1);
    }
    RowsShiftedByOne(d, t);
  }

  /** A table whose rows are those of `t` from the second on holds the tails of
      `t`'s labels and columns. */
  lemma RowsShiftedByOne(d: Table, t: Table)
    requires d.Rectangular() && t.Rectangular() && d.Rows() + 1 == t.Rows()
    requires |d.columns| == |t.columns|
    requires forall k | 0 <= k < d.Rows() :: d.index[k] == t.index[k + 1] && Row(d, k) == Row(t, k + 1)
    ensures d.index == t.index[1..]
    ensures forall j | 0 <= j < |t.columns| :: d.columns[j].cells == t.columns[j].cells[1..]
  {
    forall j | 0 <= j < |t.columns| ensures d.columns[j].cells == t.columns[j].cells[1..] {
      forall k | 0 <= k < d.Rows() ensures d.columns[j].cells[k] == t.columns[j].cells[k + 1] {
        assert d.columns[j].cells[k] == Row(d, k)[j];
      }
    }
  }

  // ----------------------------------------------------------- forward_fill

  /** Forward fill of one column, carrying `last`, the most recent present cell. */
  function FillForwardFrom(s: seq<Cell>, last: Cell): (r: seq<Cell>)
    ensures |r| == |s|
  {
    if s == [] then []
    else
      var c := if s[0].Missing? then last else s[0];
      [c] + FillForwardFrom(s[1..], c)
  }

  /** `fillna(method="ffill")` on one column. */
  function FillForward(s: seq<Cell>): (r: seq<Cell>)
    ensures |r| == |s|
  {
    FillForwardFrom(s, Missing)
  }

  /** Cell `i` of a forward fill carrying `last`: a present cell stays; a missing
      one takes the nearest earlier present cell, or `last` if there is none. */
  lemma {:induction false} FillForwardFromAt(s: seq<Cell>, last: Cell, i: nat)
    requires i < |s|
    ensures !s[i].Missing? ==> FillForwardFrom(s, last)[i] == s[i]
    ensures forall j | 0 <= j < i && !s[j].Missing? && (forall k | j < k <= i :: s[k].Missing?) ::
      FillForwardFrom(s, last)[i] == s[j]
    ensures (forall k | 0 <= k <= i :: s[k].Missing?) ==> FillForwardFrom(s, last)[i] == last
  {
    var c := if s[0].Missing? then last else s[0];
    var rest := s[1..];
    assert FillForwardFrom(s, last) == [c] + FillForwardFrom(rest, c);
    if i > 0 {
      FillForwardFromAt(rest, c, i - 1);
      assert forall k | 0 <= k < |rest| :: rest[k] == s[k + 1];
      forall j | 0 <= j < i && !s[j].Missing? && (forall k | j < k <= i :: s[k].Missing?)
        ensures FillForwardFrom(s, last)[i] == s[j]
      {
        if j > 0 {
          assert rest[j - 1] == s[j];
        }
      }
    }
  }

  /** The meaning of `forward_fill` on a column: present cells are unchanged; a
      missing cell becomes the nearest earlier present cell; a missing cell with
      no present cell before it stays missing. */
  lemma FillForwardAt(s: seq<Cell>, i: nat)
    requires i < |s|
    ensures !s[i].Missing? ==> FillForward(s)[i] == s[i]
    ensures forall j | 0 <= j < i && !s[j].Missing? && (forall k | j < k <= i :: s[k].Missing?) ::
      FillForward(s)[i] == s[j]
    ensures (forall k | 0 <= k <= i :: s[k].Missing?) ==> FillForward(s)[i].Missing?
  {
    FillForwardFromAt(s, Missing, i);
  }

  /** After a forward fill, a cell is missing only if every cell up to it was. */
  lemma FillForwardLeavesOnlyLeadingGaps(s: seq<Cell>, i: nat)
    requires i < |s| && FillForward(s)[i].Missing?
    ensures forall k | 0 <= k <= i :: s[k].Missing?
  {
    forall k | 0 <= k <= i ensures s[k].Missing? {
      if !s[k].Missing? {
        var j := LastPresentAtOrBefore(s, k, i);
        FillForwardAt(s, i);
      }
    }
  }

  /** The last present cell at or before `i`, given one at `k`. */
  lemma {:induction false} LastPresentAtOrBefore(s: seq<Cell>, k: nat, i: nat) returns (j: nat)
    requires k <= i < |s| && !s[k].Missing?
    ensures k <= j <= i && !s[j].Missing?
    ensures forall m | j < m <= i :: s[m].Missing?
    decreases i - k
  {
    if k == i || forall m | k < m <= i :: s[m].Missing? {
      j := k;
    } else {
      var m :| k < m <= i && !s[m].Missing?;
      j := LastPresentAtOrBefore(s, m, i);
    }
  }

  /** `forward_fill`: `data.fillna(method="ffill")`, every column filled on its own. */
  function ForwardFill(t: Table): (r: Table)
    requires t.Rectangular()
    ensures r.Rectangular() && r.index == t.index && |r.columns| == |t.columns|
    ensures forall j | 0 <= j < |t.columns| ::
      r.columns[j].name == t.columns[j].name && r.columns[j].numeric == t.columns[j].numeric
  {
    Table(t.index, seq(|t.columns|, j requires 0 <= j < |t.columns| =>
      t.columns[j].(cells := FillForward(t.columns[j].cells))))
  }

  /** Forward fill keeps the shape and the present cells, and fills every other
      cell from the nearest earlier present cell in its column when there is one. */
  lemma ForwardFillCell(t: Table, j: nat, i: nat)
    requires t.Rectangular() && j < |t.columns| && i < t.Rows()
    ensures ForwardFill(t).Rows() == t.Rows() && |ForwardFill(t).columns| == |t.columns|
    ensures var c := t.columns[j].cells; var d := ForwardFill(t).columns[j].cells;
      && (!c[i].Missing? ==> d[i] == c[i])
      && (forall p | 0 <= p < i && !c[p].Missing? && (forall k | p < k <= i :: c[k].Missing?) :: d[i] == c[p])
      && (d[i].Missing? <==> forall k | 0 <= k <= i :: c[k].Missing?)
  {
    var c := t.columns[j].cells;
    FillForwardAt(c, i);
    if FillForward(c)[i].Missing? {
      FillForwardLeavesOnlyLeadingGaps(c, i);
    }
  }

  // --------------------------------------------------- factory and fill_data

  datatype MissingDataStrategy = Drop | ForwardFillStrategy

  /** `MissingDataHandlerFactory.create_handler`: the key is matched after lowering. */
  function CreateHandler(strategy: string): (r: Result<MissingDataStrategy>)
    ensures r == Ok(Drop) <==> Lower(strategy) == "drop"
    ensures r == Ok(ForwardFillStrategy) <==> Lower(strategy) == "forward_fill"
    ensures r.Err? <==> Lower(strategy) !in {"drop", "forward_fill"}
    ensures r.Err? ==> r.error == UnknownMissingDataStrategy(strategy)
  {
    if Lower(strategy) == "drop" then Ok(Drop)
    else if Lower(strategy) == "forward_fill" then Ok(ForwardFillStrategy)
    else Err(UnknownMissingDataStrategy(strategy))
  }

  /** Keys that lower to the same text select the same handler, and a key
      selects what its lower-case form selects. */
  lemma CreateHandlerIgnoresCase(a: string, b: string)
    requires Lower(a) == Lower(b)
    ensures CreateHandler(a).Ok? == CreateHandler(b).Ok?
    ensures CreateHandler(a).Ok? ==> CreateHandler(a) == CreateHandler(b) == CreateHandler(Lower(a))
  {
    LowerIdempotent(a);
  }

  /** `handler_missing(df)`: either handler keeps the column headers; `drop_na`
      leaves no incomplete row, `forward_fill` keeps every row and its label. */
  function ApplyHandler(h: MissingDataStrategy, t: Table): (r: Table)
    requires t.Rectangular()
    ensures r.Rectangular() && SameHeaders(r.columns, t.columns)
    ensures h == Drop ==> forall i | 0 <= i < r.Rows() :: RowComplete(r, i)
    ensures h == ForwardFillStrategy ==> r.index == t.index
  {
    match h
    case Drop => DropNa(t)
    case ForwardFillStrategy => ForwardFill(t)
  }

  /** `fill_data`: with handling disabled the input comes back as it is, missing
      values and all; otherwise the configured handler is applied, and an
      unknown strategy is the factory's ValueError. */
  function FillData(t: Table, enabled: bool, strategy: string): (r: Result<Table>)
    requires t.Rectangular()
    ensures !enabled ==> r == Ok(t)
    ensures enabled ==> (r.Ok? <==> Lower(strategy) in {"drop", "forward_fill"})
    ensures enabled && r.Err? ==> r.error == UnknownMissingDataStrategy(strategy)
    ensures enabled && Lower(strategy) == "drop" ==> r == Ok(DropNa(t))
    ensures enabled && Lower(strategy) == "forward_fill" ==> r == Ok(ForwardFill(t))
  {
    if !enabled then Ok(t)
    else
      match CreateHandler(strategy)
      case Err(e) => Err(e)
      case Ok(h) => Ok(ApplyHandler(h, t))
  }

  /** With the `drop` strategy, `fill_data` leaves no missing cell. */
  lemma FillDataDropLeavesNoGaps(t: Table, strategy: string)
    requires t.Rectangular() && Lower(strategy) == "drop"
    ensures FillData(t, true, strategy).Ok?
    ensures var r := FillData(t, true, strategy).value;
      r.Rectangular() && forall i | 0 <= i < r.Rows() :: RowComplete(r, i)
  {
  }
}
