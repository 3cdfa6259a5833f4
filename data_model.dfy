/** The table the data processor works on, written out explicitly.

    A pandas DataFrame is modelled as a row index plus a sequence of named
    columns of equal length.  Every column carries the tag that
    `select_dtypes(include=[np.number])` reads (numeric or not), and every cell
    says explicitly whether it is missing (NaN/None), an infinity or a finite
    value.  Case-insensitive strategy keys and the ValueError raised for an
    unknown key live here too, because all three factories share them.
 */
module DataModel {

  /** What a factory or a stage returns: a value, or the ValueError it raises. */
  datatype Result<T> = Ok(value: T) | Err(error: Error)

  /** The ValueErrors of the data processor, each naming the offending key as given. */
  datatype Error =
    | UnknownMissingDataStrategy(strategy: string)
    | UnknownScalingStrategy(strategy: string)
    | UnknownStationaryMethod(name: string)
    | UnsupportedStationarityTest(test: string)
    | UnknownProcessorStrategy(strategy: string)

  /** A cell: missing (what pandas' isnull reports), an infinity, or a finite
      real.  In a non-numeric column a present cell's payload is abstracted as
      a `Val`; no operation of the processor looks inside it. */
  datatype Cell = Missing | PosInf | NegInf | Val(v: real)

  datatype Column = Column(name: string, numeric: bool, cells: seq<Cell>)

  /** A table: row labels (the date index) and columns in order. */
  datatype Table = Table(index: seq<int>, columns: seq<Column>) {

    function Rows(): nat { |index| }

    /** Every column has one cell per row. */
    predicate Rectangular() {
      forall j | 0 <= j < |columns| :: |columns[j].cells| == |index|
    }

    /** Rectangular, and column names are unique, as every lookup by name assumes. */
    predicate Valid() {
      Rectangular() && DistinctNames(columns)
    }
  }

  predicate DistinctNames(cols: seq<Column>) {
    forall j, k | 0 <= j < k < |cols| :: cols[j].name != cols[k].name
  }

  /** Same number of columns, with the same names and tags in the same order. */
  predicate SameHeaders(a: seq<Column>, b: seq<Column>) {
    |a| == |b| && forall j | 0 <= j < |a| :: a[j].name == b[j].name && a[j].numeric == b[j].numeric
  }

  /** The cells of row `i`, one per column. */
  function Row(t: Table, i: nat): seq<Cell>
    requires t.Rectangular() && i < t.Rows()
  {
    seq(|t.columns|, j requires 0 <= j < |t.columns| => t.columns[j].cells[i])
  }

  /** Row `i` has no missing cell (what `dropna()` keeps). */
  predicate RowComplete(t: Table, i: nat)
    requires t.Rectangular() && i < t.Rows()
  {
    forall j | 0 <= j < |t.columns| :: !t.columns[j].cells[i].Missing?
  }

  predicate HasMissing(cells: seq<Cell>) {
    exists i | 0 <= i < |cells| :: cells[i].Missing?
  }

  /** `np.isfinite(column).all()`: every cell is a finite value. */
  predicate AllFinite(cells: seq<Cell>) {
    forall i | 0 <= i < |cells| :: cells[i].Val?
  }

  /** The payloads of a column whose cells are all finite. */
  function Values(cells: seq<Cell>): (r: seq<real>)
    requires AllFinite(cells)
    ensures |r| == |cells|
    ensures forall i | 0 <= i < |cells| :: cells[i] == Val(r[i])
  {
    seq(|cells|, i requires 0 <= i < |cells| => cells[i].v)
  }

  /** Python's `str.lower()` on one character, as far as it can produce an
      ASCII letter: 'A'..'Z' and the KELVIN SIGN (U+212A) lower to ASCII; every
      other character either lowers to a non-ASCII text or is left as it is
      here.  All strategy keys are ASCII, so matching a lowered key against
      them is exact. */
  function LowerChar(c: char): char {
    if 'A' <= c <= 'Z' then (c as int + 32) as char
    else if c == '\U{212A}' then 'k'
    else c
  }

  /** `str.lower()`: same length, no ASCII capital left, and every other
      ASCII character kept where it is. */
  function Lower(s: string): (r: string)
    ensures |r| == |s|
    ensures forall i | 0 <= i < |s| :: !('A' <= r[i] <= 'Z')
    ensures forall i | 0 <= i < |s| && s[i] < 128 as char && !('A' <= s[i] <= 'Z') :: r[i] == s[i]
  {
    seq(|s|, i requires 0 <= i < |s| => LowerChar(s[i]))
  }

  /** Lowering twice is lowering once, so a key already lowered selects the same entry. */
  lemma LowerIdempotent(s: string)
    ensures |Lower(s)| == |s|
    ensures Lower(Lower(s)) == Lower(s)
  {
    forall i | 0 <= i < |s| ensures Lower(Lower(s))[i] == Lower(s)[i] {
      var c := s[i];
      if 'A' <= c <= 'Z' {
        assert 'a' <= LowerChar(c) <= 'z';
      }
    }
  }

  /** Two keys that differ only in the case of ASCII letters, in either
      direction at each position, are one key. */
  lemma LowerIgnoresAsciiCase(s: string, t: string)
    requires |s| == |t|
    requires forall i | 0 <= i < |s| :: SameUpToAsciiCase(s[i], t[i])
    ensures Lower(s) == Lower(t)
  {
    forall i | 0 <= i < |s| ensures Lower(s)[i] == Lower(t)[i] {
      if 'A' <= s[i] <= 'Z' && t[i] as int == s[i] as int + 32 {
        assert 'a' <= t[i] <= 'z';
      } else if 'A' <= t[i] <= 'Z' && s[i] as int == t[i] as int + 32 {
        assert 'a' <= s[i] <= 'z';
      }
    }
  }

  /** The same character, or an ASCII letter and its other-case form. */
  predicate SameUpToAsciiCase(a: char, b: char) {
    a == b
    || ('A' <= a <= 'Z' && b as int == a as int + 32)
    || ('A' <= b <= 'Z' && a as int == b as int + 32)
  }

  /** The DataFrame object that `scale_data_minmax` and `make_stationary`
      update in place: its row labels and its columns. */
  class Frame {
    var index: seq<int>
    var columns: seq<Column>

    constructor (t: Table)
      ensures Value() == t
    {
      index := t.index;
      columns := t.columns;
    }

    function Value(): Table
      reads this
    {
      Table(index, columns)
    }
  }
}
