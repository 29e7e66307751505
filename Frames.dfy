/** Data frames: an ordered list of column names and a sequence of rows,
    each row mapping every column name to a cell value.  The operations here
    are the pieces of the pandas API the pipeline uses: column assignment
    `df[c] = values`, boolean row selection `df[mask]`, column projection
    `df[cols]` and `astype(str)` on a cell. */
module Frames {
  import opened Seqs
  import opened Text

  /** A cell: text, an integer, a floating-point number, an already parsed
      calendar date, or a missing value (NaN / NaT / None). */
  datatype Value =
    | Str(s: string)
    | Int(i: int)
    | Real(r: real)
    | Date(year: int, month: int, day: int)
    | Missing

  type Row = map<string, Value>

  datatype Frame = Frame(columns: seq<string>, rows: seq<Row>)

  /** The exceptions the pipeline raises: a column it indexes is absent
      (KeyError / ValueError), or pandas' `.str` accessor refuses a column
      that holds no text (AttributeError). */
  datatype Error = MissingColumn(column: string) | NotTextColumn(column: string)

  datatype Result<T> = Ok(value: T) | Err(error: Error)

  function ColumnSet(cols: seq<string>): set<string> {
    set c | c in cols
  }

  /** Column names are unique and every row has exactly the frame's columns. */
  predicate Valid(f: Frame) {
    Distinct(f.columns) && forall i :: 0 <= i < |f.rows| ==> f.rows[i].Keys == ColumnSet(f.columns)
  }

  /** `df[c] = values`: an existing column keeps its position, a new one is
      appended at the end. */
  function SetColumn(f: Frame, c: string, values: seq<Value>): (g: Frame)
    requires Valid(f) && |values| == |f.rows|
    ensures Valid(g)
    ensures g.columns == if c in f.columns then f.columns else f.columns + [c]
    ensures |g.rows| == |f.rows|
    ensures forall i :: 0 <= i < |f.rows| ==> g.rows[i] == f.rows[i][c := values[i]]
  {
    var cols := if c in f.columns then f.columns else f.columns + [c];
    assert ColumnSet(cols) == ColumnSet(f.columns) + {c};
    Frame(cols, seq(|f.rows|, i requires 0 <= i < |f.rows| => f.rows[i][c := values[i]]))
  }

  /** Column names after renaming each one by `f`. */
  function Names(cols: seq<string>, f: string -> string): (r: seq<string>)
    ensures |r| == |cols| && forall j :: 0 <= j < |cols| ==> r[j] == f(cols[j])
  {
    seq(|cols|, j requires 0 <= j < |cols| => f(cols[j]))
  }

  /** A row with every column `cols[j]` renamed to `f(cols[j])`. */
  function RenameRow(row: Row, cols: seq<string>, f: string -> string): (r: Row)
    requires Distinct(Names(cols, f)) && forall j :: 0 <= j < |cols| ==> cols[j] in row
    ensures r.Keys == ColumnSet(Names(cols, f))
    ensures forall j :: 0 <= j < |cols| ==> r[f(cols[j])] == row[cols[j]]
  {
    var r := map j | 0 <= j < |cols| :: f(cols[j]) := row[cols[j]];
    forall j | 0 <= j < |cols| ensures r[f(cols[j])] == row[cols[j]] {
      var names := Names(cols, f);
      assert names[j] == f(cols[j]);
    }
    assert r.Keys == ColumnSet(Names(cols, f)) by {
      forall k | k in ColumnSet(Names(cols, f)) ensures k in r {
        var j :| 0 <= j < |cols| && Names(cols, f)[j] == k;
      }
    }
    r
  }

  /** `df.columns = [f(c) for c in df.columns]`. */
  function RenameColumns(f: Frame, g: string -> string): (h: Frame)
    requires Valid(f) && Distinct(Names(f.columns, g))
    ensures Valid(h) && h.columns == Names(f.columns, g) && |h.rows| == |f.rows|
    ensures forall i :: 0 <= i < |f.rows| ==> h.rows[i] == RenameRow(f.rows[i], f.columns, g)
  {
    Frame(Names(f.columns, g), seq(|f.rows|, i requires 0 <= i < |f.rows| => RenameRow(f.rows[i], f.columns, g)))
  }

  /** Cell `c` of a row, missing when the row has no such column. */
  function Get(row: Row, c: string): Value {
    if c in row then row[c] else Missing
  }

  /** The cells of column `c`, top to bottom. */
  function Column(f: Frame, c: string): (vs: seq<Value>)
    requires Valid(f) && c in f.columns
    ensures |vs| == |f.rows| && forall i :: 0 <= i < |f.rows| ==> vs[i] == f.rows[i][c]
  {
    seq(|f.rows|, i requires 0 <= i < |f.rows| => f.rows[i][c])
  }

  /** `df[c] = fn(df[c])`, cell by cell. */
  function MapColumn(f: Frame, c: string, fn: Value -> Value): (g: Frame)
    requires Valid(f) && c in f.columns
    ensures Valid(g) && g.columns == f.columns && |g.rows| == |f.rows|
    ensures forall i :: 0 <= i < |f.rows| ==> g.rows[i] == f.rows[i][c := fn(f.rows[i][c])]
  {
    SetColumn(f, c, seq(|f.rows|, i requires 0 <= i < |f.rows| => fn(f.rows[i][c])))
  }

  /** `df[mask]`: the rows whose mask entry is true, in order. */
  function SelectRows(f: Frame, keep: seq<bool>): (g: Frame)
    requires Valid(f) && |keep| == |f.rows|
    ensures Valid(g) && g.columns == f.columns
    ensures FilteredBy(g.rows, f.rows, keep)
  {
    SelectFiltered(f.rows, keep);
    var g := Frame(f.columns, Select(f.rows, keep));
    forall k | 0 <= k < |g.rows| ensures g.rows[k].Keys == ColumnSet(f.columns) {
      var i := FilteredSource(g.rows, f.rows, keep, k);
    }
    g
  }

  /** Two rows with the same columns and the same cells are equal. */
  lemma RowsEqual(a: Row, b: Row)
    requires a.Keys == b.Keys && forall c :: c in a ==> a[c] == b[c]
    ensures a == b
  {
  }

  /** A row cut down to the given columns. */
  function Restrict(row: Row, cols: seq<string>): (r: Row)
    ensures r.Keys == row.Keys * ColumnSet(cols)
    ensures forall c :: c in r ==> r[c] == row[c]
  {
    map c | c in row.Keys * ColumnSet(cols) :: row[c]
  }

  /** `df[cols]`: the listed columns, in the listed order. */
  function Project(f: Frame, cols: seq<string>): (g: Frame)
    requires Valid(f) && Distinct(cols) && forall j :: 0 <= j < |cols| ==> cols[j] in f.columns
    ensures Valid(g) && g.columns == cols && |g.rows| == |f.rows|
    ensures forall i :: 0 <= i < |f.rows| ==> g.rows[i] == Restrict(f.rows[i], cols)
  {
    Frame(cols, seq(|f.rows|, i requires 0 <= i < |f.rows| => Restrict(f.rows[i], cols)))
  }

  /** Python's `str()` of a number with a fractional part, to six decimals. */
  function RealToString(r: real): string {
    var a := if r < 0.0 then -r else r;
    var whole := a.Floor;
    var frac := ((a - whole as real) * 1000000.0).Floor;
    (if r < 0.0 then "-" else "") + IntToString(whole) + "." +
    DropTrailingZeros(ZeroPad(IntToString(frac), 6))
  }

  /** `astype(str)` of one cell: text is itself, integers in decimal, dates as
      year-month-day, a missing value as "nan". */
  function ToStr(v: Value): string {
    match v
    case Str(s) => s
    case Int(i) => IntToString(i)
    case Real(r) => RealToString(r)
    case Date(y, m, d) => ZeroPad(IntToString(y), 4) + "-" + ZeroPad(IntToString(m), 2) + "-" + ZeroPad(IntToString(d), 2)
    case Missing => "nan"
  }
}
