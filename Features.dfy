/** The feature builder `preparer_features`: contract age in months with a
    range filter, the gap in days between the return date and the contract
    end, the yes/no encoding of three service columns, and the projection on
    the fixed list of model columns. */
module Features {
  import opened Seqs
  import opened Text
  import opened Calendar
  import opened Frames

  const Seller := "Vendeur Réseau"
  const OrderDate := "Date de Commande"
  const EndDate := "Date de fin du contrat"
  const ReturnDate := "Date de restitution"
  const Age := "Anciennete_contrat"
  const Gap := "Ecart_restitution_jours"

  /** The service columns, in the order the encoder visits them. */
  const Services := ["Gest. carburant", "Assurance", "Divers"]

  /** The columns of the result, in this order, as far as they are present. */
  const FinalColumns := [
    "No du Contrat", "Non_renouvellement", "flag_actif", Age, Gap,
    "Montant loyer mensuel", "Km souscrit", "Nombre de prestations",
    "Gest. carburant_bin", "Assurance_bin", "Divers_bin"]

  function BinName(service: string): string {
    service + "_bin"
  }

  // ---------------------------------------------------------------------
  // Cells
  // ---------------------------------------------------------------------

  /** A cell holding a calendar date. */
  predicate IsDay(v: Value) {
    v.Date? && ValidDate(v.year, v.month, v.day)
  }

  /** `pd.to_datetime(..., errors="coerce")` of a cell already holding a
      date or nothing: a calendar date stays, anything else is missing. */
  function ToDate(v: Value): (r: Value)
    ensures IsDay(r) || r == Missing
    ensures IsDay(v) <==> r == v && r != Missing
  {
    if IsDay(v) then v else Missing
  }

  /** `fillna("Inconnu")`. */
  function FillUnknown(v: Value): (r: Value)
    ensures r != Missing
    ensures v != Missing ==> r == v
  {
    if v == Missing then Str("Inconnu") else v
  }

  /** `(end.dt.year - order.dt.year) * 12 + (end.dt.month - order.dt.month)`
      on two parsed cells: a whole number, or missing when a date is. */
  function MonthsBetween(order: Value, end: Value): (a: Value)
    ensures a.Int? || a == Missing
    ensures a.Int? <==> order.Date? && end.Date?
  {
    if order.Date? && end.Date? then Int((end.year - order.year) * 12 + (end.month - order.month))
    else Missing
  }

  /** How pandas stores a column of optional integers: integers when none is
      missing, floating-point numbers otherwise (the missing ones as NaN). */
  function NumberCell(x: Value, allPresent: bool): (v: Value)
    requires x.Int? || x == Missing
    ensures v == Missing <==> x == Missing
  {
    if x == Missing then Missing else if allPresent then x else Real(x.i as real)
  }

  predicate AllPresent(xs: seq<Value>) {
    forall i :: 0 <= i < |xs| ==> xs[i] != Missing
  }

  predicate IntsOrMissing(xs: seq<Value>) {
    forall i :: 0 <= i < |xs| ==> xs[i].Int? || xs[i] == Missing
  }

  function Numbers(xs: seq<Value>): (vs: seq<Value>)
    requires IntsOrMissing(xs)
    ensures |vs| == |xs| && forall i :: 0 <= i < |xs| ==> vs[i] == NumberCell(xs[i], AllPresent(xs))
  {
    seq(|xs|, i requires 0 <= i < |xs| => NumberCell(xs[i], AllPresent(xs)))
  }

  /** `Series.between(1, 120)` of one cell: inclusive, false for a missing value. */
  predicate InAgeRange(v: Value) {
    (v.Int? && 1 <= v.i <= 120) || (v.Real? && 1.0 <= v.r <= 120.0)
  }

  /** The range test does not depend on how the age is stored. */
  lemma InAgeRangeNumber(x: Value, allPresent: bool)
    requires x.Int? || x == Missing
    ensures InAgeRange(NumberCell(x, allPresent)) <==> x.Int? && 1 <= x.i <= 120
  {
  }

  /** The masked write of `preparer_features`, line 34: a return date before 2000 becomes missing. */
  function DropOldReturn(v: Value): (r: Value)
    ensures r == Missing || r == v
    ensures r == Missing <==> v == Missing || (v.Date? && v.year < 2000)
  {
    if v.Date? && v.year < 2000 then Missing else v
  }

  /** `fillna(end)` of the return date. */
  function FillReturn(ret: Value, end: Value): Value {
    if ret == Missing then end else ret
  }

  /** `(ret - end).dt.days`: whole days between two dates, missing when
      either is. */
  function DaysBetween(ret: Value, end: Value): (g: Value)
    ensures g.Int? || g == Missing
    ensures g.Int? <==> IsDay(ret) && IsDay(end)
  {
    if IsDay(ret) && IsDay(end) then Int(DayNumber(ret.year, ret.month, ret.day) - DayNumber(end.year, end.month, end.day))
    else Missing
  }

  /** `fillna(0)` of the gap column. */
  function FillZero(v: Value): (r: Value)
    ensures r != Missing
    ensures v != Missing ==> r == v
  {
    if v == Missing then Real(0.0) else v
  }

  /** `.str.upper().map({"OUI": 1, "NON": 0})` of one cell: no trimming, and
      a cell that is not text, or another word, gives a missing value. */
  function Bin(v: Value): (b: Value)
    ensures b == Int(1) || b == Int(0) || b == Missing
    ensures b == Int(1) <==> v.Str? && Upper(v.s) == "OUI"
    ensures b == Int(0) <==> v.Str? && Upper(v.s) == "NON"
  {
    if v.Str? && Upper(v.s) == "OUI" then Int(1)
    else if v.Str? && Upper(v.s) == "NON" then Int(0)
    else Missing
  }

  /** pandas refuses `.str` on a column whose values are all numbers or all
      dates: such a column does not have the text (object) type. */
  predicate NotText(vs: seq<Value>) {
    (exists i :: 0 <= i < |vs| && vs[i] != Missing) &&
    ((forall i :: 0 <= i < |vs| ==> vs[i] == Missing || vs[i].Int? || vs[i].Real?) ||
     (forall i :: 0 <= i < |vs| ==> vs[i] == Missing || vs[i].Date?))
  }

  // ---------------------------------------------------------------------
  // What the builder computes, row by row
  // ---------------------------------------------------------------------

  /** The contract age of a raw row, before pandas chooses how to store it. */
  function RawAge(row: Row): (a: Value)
    ensures a.Int? || a == Missing
  {
    MonthsBetween(ToDate(Get(row, OrderDate)), ToDate(Get(row, EndDate)))
  }

  function RawAges(df: Frame): (xs: seq<Value>)
    ensures |xs| == |df.rows| && IntsOrMissing(xs)
    ensures forall i :: 0 <= i < |df.rows| ==> xs[i] == RawAge(df.rows[i])
  {
    seq(|df.rows|, i requires 0 <= i < |df.rows| => RawAge(df.rows[i]))
  }

  /** The age cell of row `i`: a float column as soon as one raw row lacks an age. */
  function AgeCell(df: Frame, i: nat): Value
    requires i < |df.rows|
  {
    NumberCell(RawAge(df.rows[i]), AllPresent(RawAges(df)))
  }

  /** The rows the range filter keeps: those whose two dates make an age of
      1 to 120 months. */
  function Retained(df: Frame): (keep: seq<bool>)
    ensures |keep| == |df.rows|
    ensures forall i :: 0 <= i < |df.rows| ==>
      (keep[i] <==> RawAge(df.rows[i]).Int? && 1 <= RawAge(df.rows[i]).i <= 120)
  {
    seq(|df.rows|, i requires 0 <= i < |df.rows| => RawAge(df.rows[i]).Int? && 1 <= RawAge(df.rows[i]).i <= 120)
  }

  /** The return date the gap is measured from: the recorded one when it
      is a date from 2000 on, the contract end otherwise. */
  function ReturnOrEnd(row: Row): Value {
    var ret := ToDate(Get(row, ReturnDate));
    if IsDay(ret) && ret.year >= 2000 then ret else ToDate(Get(row, EndDate))
  }

  /** The gap in days of a row whose end date is a date. */
  function GapDays(row: Row): int
    requires IsDay(ToDate(Get(row, EndDate)))
  {
    var ret, end := ReturnOrEnd(row), ToDate(Get(row, EndDate));
    DayNumber(ret.year, ret.month, ret.day) - DayNumber(end.year, end.month, end.day)
  }

  /** The service column a `_bin` name encodes, if any. */
  function ServiceOf(c: string): (j: int)
    ensures -1 <= j < |Services|
    ensures 0 <= j ==> c == BinName(Services[j])
    ensures j == -1 ==> forall k :: 0 <= k < |Services| ==> c != BinName(Services[k])
  {
    if c == BinName(Services[0]) then 0
    else if c == BinName(Services[1]) then 1
    else if c == BinName(Services[2]) then 2
    else -1
  }

  /** No retained row has a missing encoding for service `j`, so the `_bin`
      column holds integers. */
  predicate BinsPresent(df: Frame, j: nat)
    requires j < |Services|
  {
    forall i :: 0 <= i < |df.rows| && Retained(df)[i] ==> Bin(Get(df.rows[i], Services[j])) != Missing
  }

  function BinCell(df: Frame, j: nat, i: nat): Value
    requires j < |Services| && i < |df.rows|
  {
    NumberCell(Bin(Get(df.rows[i], Services[j])), BinsPresent(df, j))
  }

  /** The `_bin` columns the encoder adds. */
  function BinColumns(df: Frame): set<string> {
    set j | 0 <= j < |Services| && Services[j] in df.columns :: BinName(Services[j])
  }

  lemma FinalColumnsDistinct()
    ensures Distinct(FinalColumns)
  {
  }

  /** The columns of the result: the fixed list, in its order, filtered to
      those present once the age, the gap and the `_bin` columns exist. */
  function OutColumns(df: Frame): (cols: seq<string>)
    ensures Distinct(cols)
    ensures forall c :: c in cols <==> c in FinalColumns && (c in df.columns || c == Age || c == Gap || c in BinColumns(df))
  {
    var present := ColumnSet(df.columns) + {Age, Gap} + BinColumns(df);
    FinalColumnsDistinct();
    KeepDistinct(FinalColumns, present);
    forall c ensures c in Keep(FinalColumns, present) <==> c in FinalColumns && c in present {
      KeepMembers(FinalColumns, present, c);
    }
    Keep(FinalColumns, present)
  }

  /** One cell of the result for raw row `i`. */
  function FeatureCell(df: Frame, i: nat, c: string): Value
    requires Valid(df) && i < |df.rows| && Retained(df)[i]
  {
    if c == Age then AgeCell(df, i)
    else if c == Gap then Int(GapDays(df.rows[i]))
    else if ServiceOf(c) >= 0 && Services[ServiceOf(c)] in df.columns then BinCell(df, ServiceOf(c), i)
    else Get(df.rows[i], c)
  }

  /** The row of the result for raw row `i`. */
  function FeatureRow(df: Frame, i: nat): (r: Row)
    requires Valid(df) && i < |df.rows| && Retained(df)[i]
    ensures r.Keys == ColumnSet(OutColumns(df))
    ensures forall c :: c in r ==> r[c] == FeatureCell(df, i, c)
  {
    map c | c in ColumnSet(OutColumns(df)) :: FeatureCell(df, i, c)
  }

  /** The rows of the result for every raw row, the dropped ones left as they are. */
  function FeatureRows(df: Frame): (rs: seq<Row>)
    requires Valid(df)
    ensures |rs| == |df.rows|
    ensures forall i :: 0 <= i < |df.rows| && Retained(df)[i] ==> rs[i] == FeatureRow(df, i)
  {
    seq(|df.rows|, i requires 0 <= i < |df.rows| => if Retained(df)[i] then FeatureRow(df, i) else df.rows[i])
  }

  /** Service `j` is present in the input but pandas refuses `.str` on it. */
  predicate Rejected(df: Frame, j: nat)
    requires Valid(df) && j < |Services|
  {
    Services[j] in df.columns && NotText(Column(df, Services[j]))
  }

  /** Service `j` is the first one refused: the encoder stops there. */
  predicate FirstRejected(df: Frame, j: int)
    requires Valid(df)
  {
    0 <= j < |Services| && Rejected(df, j) && forall j' :: 0 <= j' < j ==> !Rejected(df, j')
  }

  // ---------------------------------------------------------------------
  // The steps, row by row
  // ---------------------------------------------------------------------

  /** `preparer_features`, line 16 on one row. */
  function SellerFill(row: Row): (r: Row)
    ensures r.Keys == row.Keys
  {
    if Seller in row then row[Seller := FillUnknown(row[Seller])] else row
  }

  /** `preparer_features`, lines 23-29 on one row; `allPresent` says whether every row has an age. */
  function DateAge(row: Row, allPresent: bool): Row {
    row[OrderDate := ToDate(Get(row, OrderDate))][EndDate := ToDate(Get(row, EndDate))][Age := NumberCell(RawAge(row), allPresent)]
  }

  /** The condition of `preparer_features`, line 30, on one row. */
  predicate AgeKept(row: Row) {
    Age in row && InAgeRange(row[Age])
  }

  /** `preparer_features`, lines 33-35 on one row: the return date, dropped before 2000 and
      replaced by the end date when missing. */
  function FilledReturn(row: Row): Value {
    FillReturn(DropOldReturn(ToDate(Get(row, ReturnDate))), Get(row, EndDate))
  }

  function RawGap(row: Row): (g: Value)
    ensures g.Int? || g == Missing
  {
    DaysBetween(FilledReturn(row), Get(row, EndDate))
  }

  function RawGaps(f: Frame): (xs: seq<Value>)
    ensures |xs| == |f.rows| && IntsOrMissing(xs)
    ensures forall k :: 0 <= k < |f.rows| ==> xs[k] == RawGap(f.rows[k])
  {
    seq(|f.rows|, k requires 0 <= k < |f.rows| => RawGap(f.rows[k]))
  }

  /** `preparer_features`, lines 33-39 on one row. */
  function WithGap(row: Row, allPresent: bool): Row {
    row[ReturnDate := FilledReturn(row)][Gap := FillZero(NumberCell(RawGap(row), allPresent))]
  }

  /** Whether the `_bin` column of service `j` is an integer column. */
  function BinFlag(f: Frame, j: nat): bool
    requires Valid(f) && j < |Services| && Services[j] in f.columns
  {
    AllPresent(Apply(Column(f, Services[j]), Bin))
  }

  /** Cell `c` of row `k` once the first `n` services are encoded. */
  function EncodedCell(f: Frame, n: nat, k: nat, c: string): Value
    requires Valid(f) && k < |f.rows| && n <= |Services|
  {
    var j := ServiceOf(c);
    if 0 <= j < n && Services[j] in f.columns then NumberCell(Bin(f.rows[k][Services[j]]), BinFlag(f, j))
    else Get(f.rows[k], c)
  }

  /** The `_bin` columns of the first `n` services. */
  function EncodedBins(f: Frame, n: nat): set<string> {
    set j | 0 <= j < n && j < |Services| && Services[j] in f.columns :: BinName(Services[j])
  }

  lemma EncodedBinsStep(f: Frame, n: nat)
    requires n < |Services|
    ensures EncodedBins(f, n + 1) == EncodedBins(f, n) + (if Services[n] in f.columns then {BinName(Services[n])} else {})
  {
  }

  /** No service column is named like a `_bin` column. */
  lemma ServiceNotBin(f: Frame, n: nat, j: nat)
    requires j < |Services|
    ensures Services[j] !in EncodedBins(f, n) && ServiceOf(Services[j]) == -1
  {
  }

  // ---------------------------------------------------------------------
  // The builder
  // ---------------------------------------------------------------------

  /** `preparer_features`: the model table of the contracts whose two dates
      give an age of 1 to 120 months, with the gap in days, the service
      encodings and the listed columns in their order; or the error raised on
      a missing date column or on a service column pandas refuses to treat as
      text. */
  method PrepareFeatures(df: Frame) returns (r: Result<Frame>)
    requires Valid(df)
    ensures r.Ok? <==>
      (OrderDate in df.columns && EndDate in df.columns && ReturnDate in df.columns &&
       forall j :: 0 <= j < |Services| ==> !Rejected(df, j))
    ensures OrderDate !in df.columns ==> r == Err(MissingColumn(OrderDate))
    ensures OrderDate in df.columns && EndDate !in df.columns ==> r == Err(MissingColumn(EndDate))
    ensures OrderDate in df.columns && EndDate in df.columns && ReturnDate !in df.columns ==>
      r == Err(MissingColumn(ReturnDate))
    ensures OrderDate in df.columns && EndDate in df.columns && ReturnDate in df.columns && r.Err? ==>
      exists j :: FirstRejected(df, j) && r.error == NotTextColumn(Services[j])
    ensures r.Ok? ==> Valid(r.value) && r.value.columns == OutColumns(df)
    ensures r.Ok? ==> FilteredBy(r.value.rows, FeatureRows(df), Retained(df))
  {
    var aged := FilterByAge(df);
    if aged.Err? {
      return Err(aged.error);
    }
    var g := aged.value;
    assert EndDate in g.columns && (ReturnDate in g.columns <==> ReturnDate in df.columns) by {
      assert EndDate in ColumnSet(g.columns);
      assert ReturnDate in ColumnSet(g.columns) <==> ReturnDate in ColumnSet(df.columns);
    }
    if ReturnDate !in g.columns {
      return Err(MissingColumn(ReturnDate));
    }
    AgedFromAll(df);
    GapsPresent(df, Aged(df), g);
    var h := AddGap(g);
    ServicesKept(df, g, h);
    var e := EncodeServices(df, h);
    if e.Err? {
      return Err(e.error);
    }
    BuiltColumnsOf(df, g, h, e.value);
    var cols := Keep(FinalColumns, ColumnSet(e.value.columns));
    assert cols == OutColumns(df);
    OutColumnsIn(df, e.value);
    var out := Project(e.value, cols);
    FeatureRowsFiltered(df, Aged(df), g, h, e.value, out.rows);
    r := Ok(out);
  }

  /** `preparer_features`, lines 15-30: the seller fill, the age, and the range filter. */
  method FilterByAge(df: Frame) returns (r: Result<Frame>)
    requires Valid(df)
    ensures r.Ok? <==> OrderDate in df.columns && EndDate in df.columns
    ensures OrderDate !in df.columns ==> r == Err(MissingColumn(OrderDate))
    ensures OrderDate in df.columns && EndDate !in df.columns ==> r == Err(MissingColumn(EndDate))
    ensures r.Ok? ==> Valid(r.value) && ColumnSet(r.value.columns) == ColumnSet(df.columns) + {Age}
    ensures r.Ok? ==> FilteredBy(r.value.rows, Aged(df), Retained(df))
  {
    // line 16; the median fill of lines 18-20 writes a column the result drops
    var f := df;
    if Seller in df.columns {
      f := MapColumn(df, Seller, FillUnknown);
    }
    if OrderDate !in f.columns {
      return Err(MissingColumn(OrderDate));
    }
    if EndDate !in f.columns {
      return Err(MissingColumn(EndDate));
    }
    var a := AddAge(f);
    AgedRows(df, f, a);
    r := Ok(SelectRows(a, Mask(a.rows, AgeKept)));
  }

  /** Adding the age and the gap keeps the service columns as they are. */
  lemma ServicesKept(df: Frame, a: Frame, h: Frame)
    requires ColumnSet(a.columns) == ColumnSet(df.columns) + {Age}
    requires ColumnSet(h.columns) == ColumnSet(a.columns) + {Gap}
    ensures forall j :: 0 <= j < |Services| ==> (Services[j] in h.columns <==> Services[j] in df.columns)
  {
    forall j | 0 <= j < |Services| ensures Services[j] in h.columns <==> Services[j] in df.columns {
      ServiceUntouched(j);
      assert Services[j] in h.columns <==> Services[j] in ColumnSet(h.columns);
      assert Services[j] in df.columns <==> Services[j] in ColumnSet(df.columns);
    }
  }

  /** The columns once the age, the gap and the `_bin` columns are added. */
  lemma BuiltColumnsOf(df: Frame, a: Frame, h: Frame, e: Frame)
    requires ColumnSet(a.columns) == ColumnSet(df.columns) + {Age}
    requires ColumnSet(h.columns) == ColumnSet(a.columns) + {Gap}
    requires forall j :: 0 <= j < |Services| ==> (Services[j] in h.columns <==> Services[j] in df.columns)
    requires ColumnSet(e.columns) == ColumnSet(h.columns) + BinColumns(h)
    ensures ColumnSet(e.columns) == BuiltColumns(df)
  {
    assert BinColumns(h) == BinColumns(df);
  }

  /** The result's columns are columns of a frame holding the built ones. */
  lemma OutColumnsIn(df: Frame, e: Frame)
    requires ColumnSet(e.columns) == BuiltColumns(df)
    ensures forall j :: 0 <= j < |OutColumns(df)| ==> OutColumns(df)[j] in e.columns
  {
    OutColumnsBuilt(df);
    forall j | 0 <= j < |OutColumns(df)| ensures OutColumns(df)[j] in e.columns {
      assert OutColumns(df)[j] in ColumnSet(e.columns);
    }
  }

  /** `preparer_features`, lines 23-29: both dates parsed, then the age in months. */
  method AddAge(f: Frame) returns (a: Frame)
    requires Valid(f) && OrderDate in f.columns && EndDate in f.columns
    ensures Valid(a) && ColumnSet(a.columns) == ColumnSet(f.columns) + {Age} && |a.rows| == |f.rows|
    ensures forall i :: 0 <= i < |f.rows| ==> a.rows[i] == DateAge(f.rows[i], AllPresent(RawAges(f)))
  {
    a := MapColumn(f, OrderDate, ToDate);
    a := MapColumn(a, EndDate, ToDate);
    var ages := seq(|a.rows|, i requires 0 <= i < |a.rows| => MonthsBetween(a.rows[i][OrderDate], a.rows[i][EndDate]));
    assert ages == RawAges(f);
    a := SetColumn(a, Age, Numbers(ages));
  }

  /** `preparer_features`, lines 33-39: the return date cleaned, then the gap in days. */
  method AddGap(g: Frame) returns (h: Frame)
    requires Valid(g) && ReturnDate in g.columns && EndDate in g.columns
    ensures Valid(h) && ColumnSet(h.columns) == ColumnSet(g.columns) + {Gap} && |h.rows| == |g.rows|
    ensures forall k :: 0 <= k < |g.rows| ==> h.rows[k] == WithGap(g.rows[k], AllPresent(RawGaps(g)))
  {
    // lines 33-35: parse, drop the dates before 2000, fall back on the end date
    var h1 := SetColumn(g, ReturnDate, FilledReturns(g));
    var gaps := DayGaps(h1);
    GapsOfFilled(g, h1);
    var h2 := SetColumn(h1, Gap, Numbers(gaps));
    h := MapColumn(h2, Gap, FillZero);
    forall k | 0 <= k < |g.rows| ensures h.rows[k] == WithGap(g.rows[k], AllPresent(RawGaps(g))) {
      GapRow(g.rows[k], h1.rows[k], h2.rows[k], h.rows[k], AllPresent(RawGaps(g)));
    }
  }

  /** The return dates of `preparer_features`, lines 33-35, row by row. */
  function FilledReturns(g: Frame): (vs: seq<Value>)
    ensures |vs| == |g.rows| && forall k :: 0 <= k < |g.rows| ==> vs[k] == FilledReturn(g.rows[k])
  {
    seq(|g.rows|, k requires 0 <= k < |g.rows| => FilledReturn(g.rows[k]))
  }

  /** `preparer_features`, lines 36-38: the day differences of the return and end date columns. */
  function DayGaps(h: Frame): (xs: seq<Value>)
    requires Valid(h) && ReturnDate in h.columns && EndDate in h.columns
    ensures |xs| == |h.rows| && forall k :: 0 <= k < |h.rows| ==> xs[k] == DaysBetween(h.rows[k][ReturnDate], h.rows[k][EndDate])
  {
    seq(|h.rows|, k requires 0 <= k < |h.rows| => DaysBetween(h.rows[k][ReturnDate], h.rows[k][EndDate]))
  }

  lemma GapsOfFilled(g: Frame, h1: Frame)
    requires Valid(g) && ReturnDate in g.columns && EndDate in g.columns
    requires h1 == SetColumn(g, ReturnDate, FilledReturns(g))
    ensures DayGaps(h1) == RawGaps(g)
  {
    forall k | 0 <= k < |g.rows| ensures DayGaps(h1)[k] == RawGaps(g)[k] {
      assert h1.rows[k][EndDate] == Get(g.rows[k], EndDate);
    }
  }

  lemma GapRow(row: Row, r1: Row, r2: Row, r: Row, allPresent: bool)
    requires r1 == row[ReturnDate := FilledReturn(row)]
    requires r2 == r1[Gap := NumberCell(RawGap(row), allPresent)]
    requires Gap in r2 && r == r2[Gap := FillZero(r2[Gap])]
    ensures r == WithGap(row, allPresent)
  {
  }

  /** `preparer_features`, lines 42-44: each present service encoded into its `_bin` column, or the
      error pandas raises on the first one that holds no text. */
  method EncodeServices(df: Frame, f: Frame) returns (r: Result<Frame>)
    requires Valid(df) && Valid(f)
    requires forall j :: 0 <= j < |Services| ==> (Services[j] in f.columns <==> Services[j] in df.columns)
    ensures r.Ok? <==> forall j :: 0 <= j < |Services| ==> !Rejected(df, j)
    ensures r.Err? ==> exists j :: FirstRejected(df, j) && r.error == NotTextColumn(Services[j])
    ensures r.Ok? ==> Valid(r.value) && |r.value.rows| == |f.rows|
    ensures r.Ok? ==> ColumnSet(r.value.columns) == ColumnSet(f.columns) + BinColumns(f)
    ensures r.Ok? ==> forall k, c :: 0 <= k < |f.rows| && c in r.value.rows[k] ==>
      r.value.rows[k][c] == EncodedCell(f, |Services|, k, c)
  {
    var e := f;
    assert EncodedBins(f, 0) == {};
    for n := 0 to |Services|
      invariant Encoded(f, e, n)
      invariant forall j :: 0 <= j < n ==> !Rejected(df, j)
    {
      var step := EncodeNext(df, f, e, n);
      if step.Err? {
        assert FirstRejected(df, n);
        return Err(NotTextColumn(Services[n]));
      }
      e := step.value;
    }
    assert EncodedBins(f, |Services|) == BinColumns(f);
    r := Ok(e);
  }

  /** One turn of the encoding loop: service `n` encoded, skipped when
      absent, or refused. */
  method EncodeNext(df: Frame, f: Frame, e: Frame, n: nat) returns (r: Result<Frame>)
    requires Valid(df) && Valid(f) && n < |Services| && Encoded(f, e, n)
    requires Services[n] in f.columns <==> Services[n] in df.columns
    ensures r.Err? <==> Rejected(df, n)
    ensures r.Ok? ==> Encoded(f, r.value, n + 1)
  {
    var s := Services[n];
    EncodeStep(f, e, n);
    if s in e.columns {
      if NotText(Column(df, s)) {
        return Err(NotTextColumn(s));
      }
      r := Ok(SetColumn(e, BinName(s), Numbers(Apply(Column(e, s), Bin))));
    } else {
      r := Ok(e);
    }
  }

  /** `e` is `f` with the first `n` services encoded. */
  predicate Encoded(f: Frame, e: Frame, n: nat)
    requires Valid(f) && n <= |Services|
  {
    Valid(e) && |e.rows| == |f.rows| &&
    ColumnSet(e.columns) == ColumnSet(f.columns) + EncodedBins(f, n) &&
    forall k, c :: 0 <= k < |f.rows| && c in e.rows[k] ==> e.rows[k][c] == EncodedCell(f, n, k, c)
  }

  lemma EncodedCellStep(f: Frame, n: nat, k: nat, c: string)
    requires Valid(f) && n < |Services| && k < |f.rows|
    ensures EncodedCell(f, n + 1, k, c) ==
      if c == BinName(Services[n]) && Services[n] in f.columns
      then NumberCell(Bin(f.rows[k][Services[n]]), BinFlag(f, n))
      else EncodedCell(f, n, k, c)
  {
  }

  /** One turn of the encoding loop. */
  lemma EncodeStep(f: Frame, e: Frame, n: nat)
    requires Valid(f) && n < |Services| && Encoded(f, e, n)
    ensures Services[n] in e.columns <==> Services[n] in f.columns
    ensures Services[n] !in e.columns ==> Encoded(f, e, n + 1)
    ensures Services[n] in e.columns ==>
      Encoded(f, SetColumn(e, BinName(Services[n]), Numbers(Apply(Column(e, Services[n]), Bin))), n + 1)
  {
    var s := Services[n];
    ServiceNotBin(f, n, n);
    assert s in e.columns <==> s in ColumnSet(e.columns);
    assert s in f.columns <==> s in ColumnSet(f.columns);
    if s in e.columns {
      EncodePresent(f, e, n);
    } else {
      EncodeAbsent(f, e, n);
    }
  }

  /** A present service gains its `_bin` column. */
  lemma EncodePresent(f: Frame, e: Frame, n: nat)
    requires Valid(f) && n < |Services| && Encoded(f, e, n)
    requires Services[n] in e.columns && Services[n] in f.columns
    ensures Encoded(f, SetColumn(e, BinName(Services[n]), Numbers(Apply(Column(e, Services[n]), Bin))), n + 1)
  {
    var s := Services[n];
    ServiceNotBin(f, n, n);
    EncodedBinsStep(f, n);
    var bins := Apply(Column(e, s), Bin);
    forall k | 0 <= k < |f.rows| ensures bins[k] == Bin(f.rows[k][s]) {
      assert EncodedCell(f, n, k, s) == f.rows[k][s];
    }
    assert bins == Apply(Column(f, s), Bin);
    var e2 := SetColumn(e, BinName(s), Numbers(bins));
    forall k, c | 0 <= k < |f.rows| && c in e2.rows[k] ensures e2.rows[k][c] == EncodedCell(f, n + 1, k, c) {
      EncodedCellStep(f, n, k, c);
      if c != BinName(s) {
        assert c in e.rows[k];
      } else {
        assert e2.rows[k][c] == NumberCell(bins[k], AllPresent(bins));
      }
    }
    assert ColumnSet(e2.columns) == ColumnSet(e.columns) + {BinName(s)};
  }

  /** An absent service changes nothing. */
  lemma EncodeAbsent(f: Frame, e: Frame, n: nat)
    requires Valid(f) && n < |Services| && Encoded(f, e, n) && Services[n] !in f.columns
    ensures Encoded(f, e, n + 1)
  {
    EncodedBinsStep(f, n);
    forall k, c | 0 <= k < |f.rows| && c in e.rows[k] ensures e.rows[k][c] == EncodedCell(f, n + 1, k, c) {
      EncodedCellStep(f, n, k, c);
    }
  }

  // ---------------------------------------------------------------------
  // From the steps to the row-by-row description
  // ---------------------------------------------------------------------

  /** The columns the seller fill and the age step rewrite. */
  predicate AgeStepTouches(c: string) {
    c == Seller || c == OrderDate || c == EndDate || c == Age
  }

  /** `row` is raw row `i` after the seller fill and the age step. */
  predicate AgedFrom(df: Frame, i: nat, row: Row)
    requires i < |df.rows|
  {
    row.Keys == df.rows[i].Keys + {Age} && row[Age] == AgeCell(df, i) &&
    Get(row, EndDate) == ToDate(Get(df.rows[i], EndDate)) &&
    forall c :: c in row && !AgeStepTouches(c) ==> row[c] == df.rows[i][c]
  }

  /** No service column is rewritten by the date and gap steps. */
  lemma ServiceUntouched(j: nat)
    requires j < |Services|
    ensures !AgeStepTouches(Services[j]) && Services[j] != ReturnDate && Services[j] != Gap
  {
  }

  lemma WithGapKeeps(row: Row, allPresent: bool, c: string)
    requires c != ReturnDate && c != Gap
    ensures Get(WithGap(row, allPresent), c) == Get(row, c)
  {
  }

  lemma SellerFillAge(row: Row)
    ensures RawAge(SellerFill(row)) == RawAge(row)
  {
  }

  /** Every raw row after the seller fill and the age step. */
  function Aged(df: Frame): (rows: seq<Row>)
    ensures |rows| == |df.rows|
  {
    seq(|df.rows|, i requires 0 <= i < |df.rows| => DateAge(SellerFill(df.rows[i]), AllPresent(RawAges(df))))
  }

  /** The seller fill and the age step give each raw row its age. */
  lemma AgedFromAll(df: Frame)
    requires Valid(df) && OrderDate in df.columns && EndDate in df.columns
    ensures forall i :: 0 <= i < |df.rows| ==> AgedFrom(df, i, Aged(df)[i])
  {
    forall i | 0 <= i < |df.rows| ensures AgedFrom(df, i, Aged(df)[i]) {
      AgedRow(df, i);
    }
  }

  lemma AgedRow(df: Frame, i: nat)
    requires Valid(df) && OrderDate in df.columns && EndDate in df.columns && i < |df.rows|
    ensures AgedFrom(df, i, Aged(df)[i])
  {
    var row := df.rows[i];
    var a := DateAge(SellerFill(row), AllPresent(RawAges(df)));
    assert Aged(df)[i] == a;
    SellerFillAge(row);
    assert OrderDate in row && EndDate in row;
    assert a[Age] == AgeCell(df, i);
    assert Get(SellerFill(row), EndDate) == Get(row, EndDate);
  }

  /** The steps compute `Aged`, and the range filter keeps exactly the
      retained rows. */
  lemma AgedRows(df: Frame, f: Frame, a: Frame)
    requires Valid(df) && |f.rows| == |df.rows| && |a.rows| == |df.rows|
    requires forall i :: 0 <= i < |df.rows| ==> f.rows[i] == SellerFill(df.rows[i])
    requires forall i :: 0 <= i < |df.rows| ==> a.rows[i] == DateAge(f.rows[i], AllPresent(RawAges(f)))
    ensures a.rows == Aged(df)
    ensures Mask(a.rows, AgeKept) == Retained(df)
  {
    forall i | 0 <= i < |df.rows| ensures RawAge(f.rows[i]) == RawAge(df.rows[i]) {
      SellerFillAge(df.rows[i]);
    }
    assert RawAges(f) == RawAges(df);
    forall i | 0 <= i < |df.rows| ensures AgeKept(a.rows[i]) <==> Retained(df)[i] {
      InAgeRangeNumber(RawAge(df.rows[i]), AllPresent(RawAges(df)));
    }
  }

  /** Every row that survives the range filter has a calendar end date, so no
      gap is missing. */
  lemma GapsPresent(df: Frame, aged: seq<Row>, g: Frame)
    requires Valid(df) && |aged| == |df.rows|
    requires forall i :: 0 <= i < |df.rows| ==> AgedFrom(df, i, aged[i])
    requires FilteredBy(g.rows, aged, Retained(df))
    ensures AllPresent(RawGaps(g))
  {
    forall k | 0 <= k < |g.rows| ensures RawGap(g.rows[k]).Int? {
      var i := FilteredSource(g.rows, aged, Retained(df), k);
      assert IsDay(Get(g.rows[k], EndDate));
    }
  }

  /** The `_bin` column of a present service is an integer column exactly
      when no retained row lacks an encoding. */
  lemma BinFlagRetained(df: Frame, aged: seq<Row>, g: Frame, h: Frame, j: nat)
    requires Valid(df) && Valid(h) && j < |Services| && Services[j] in df.columns && Services[j] in h.columns
    requires |aged| == |df.rows| && forall i :: 0 <= i < |df.rows| ==> AgedFrom(df, i, aged[i])
    requires FilteredBy(g.rows, aged, Retained(df))
    requires |h.rows| == |g.rows| && forall k :: 0 <= k < |g.rows| ==> h.rows[k] == WithGap(g.rows[k], true)
    ensures BinFlag(h, j) == BinsPresent(df, j)
  {
    AgedBins(df, aged, j);
    GappedBins(g, h, j);
    BinFlagFromBins(df, aged, g, h, j);
  }

  lemma BinFlagFromBins(df: Frame, aged: seq<Row>, g: Frame, h: Frame, j: nat)
    requires Valid(h) && j < |Services| && Services[j] in h.columns && |aged| == |df.rows| && |h.rows| == |g.rows|
    requires forall i :: 0 <= i < |df.rows| ==> Bin(Get(aged[i], Services[j])) == Bin(Get(df.rows[i], Services[j]))
    requires FilteredBy(g.rows, aged, Retained(df))
    requires forall k :: 0 <= k < |g.rows| ==> Apply(Column(h, Services[j]), Bin)[k] == Bin(Get(g.rows[k], Services[j]))
    ensures BinFlag(h, j) == BinsPresent(df, j)
  {
    var s, keep := Services[j], Retained(df);
    var bins := Apply(Column(h, s), Bin);
    if BinsPresent(df, j) {
      forall k | 0 <= k < |g.rows| ensures bins[k] != Missing {
        var i := FilteredSource(g.rows, aged, keep, k);
        assert g.rows[k] == aged[i];
      }
    }
    if BinFlag(h, j) {
      forall i | 0 <= i < |df.rows| && keep[i] ensures Bin(Get(df.rows[i], s)) != Missing {
        var k := CountTrue(keep[..i]);
        assert g.rows[k] == aged[i];
      }
    }
  }

  /** The service cells the age step leaves alone. */
  lemma AgedBins(df: Frame, aged: seq<Row>, j: nat)
    requires j < |Services| && |aged| == |df.rows| && forall i :: 0 <= i < |df.rows| ==> AgedFrom(df, i, aged[i])
    ensures forall i :: 0 <= i < |df.rows| ==> Bin(Get(aged[i], Services[j])) == Bin(Get(df.rows[i], Services[j]))
  {
    ServiceUntouched(j);
  }

  /** The service cells the gap step leaves alone. */
  lemma GappedBins(g: Frame, h: Frame, j: nat)
    requires Valid(h) && j < |Services| && Services[j] in h.columns
    requires |h.rows| == |g.rows| && forall k :: 0 <= k < |g.rows| ==> h.rows[k] == WithGap(g.rows[k], true)
    ensures forall k :: 0 <= k < |g.rows| ==> Apply(Column(h, Services[j]), Bin)[k] == Bin(Get(g.rows[k], Services[j]))
  {
    ServiceUntouched(j);
    forall k | 0 <= k < |g.rows| ensures Apply(Column(h, Services[j]), Bin)[k] == Bin(Get(g.rows[k], Services[j])) {
      WithGapKeeps(g.rows[k], true, Services[j]);
    }
  }

  /** The result's columns are never rewritten by the date steps. */
  lemma FinalColumnsUntouched(c: string)
    requires c in FinalColumns && c != Age
    ensures !AgeStepTouches(c) && c != ReturnDate
  {
  }

  /** The gap of a retained row, as the gap step computes it. */
  lemma GapAt(df: Frame, i: nat, grow: Row)
    requires Valid(df) && i < |df.rows| && Retained(df)[i] && AgedFrom(df, i, grow)
    ensures RawGap(grow) == Int(GapDays(df.rows[i]))
  {
    assert Get(grow, ReturnDate) == Get(df.rows[i], ReturnDate) by {
      assert !AgeStepTouches(ReturnDate);
    }
    assert Get(grow, EndDate) == ToDate(Get(df.rows[i], EndDate));
  }

  /** The two computed columns are not `_bin` columns. */
  lemma ComputedNotBins()
    ensures ServiceOf(Age) == -1 && ServiceOf(Gap) == -1 && Age != Gap
  {
  }

  /** One cell of the result of the steps is the cell the row-by-row
      description gives. */
  lemma FeatureCellAt(df: Frame, i: nat, grow: Row, h: Frame, k: nat, c: string)
    requires Valid(df) && i < |df.rows| && Retained(df)[i] && AgedFrom(df, i, grow)
    requires Valid(h) && k < |h.rows| && h.rows[k] == WithGap(grow, true)
    requires forall j :: 0 <= j < |Services| ==> (Services[j] in h.columns <==> Services[j] in df.columns)
    requires forall j :: 0 <= j < |Services| && Services[j] in df.columns ==> BinFlag(h, j) == BinsPresent(df, j)
    requires c in FinalColumns
    ensures EncodedCell(h, |Services|, k, c) == FeatureCell(df, i, c)
  {
    var j := ServiceOf(c);
    ComputedNotBins();
    if c == Age {
    } else if c == Gap {
      GapAt(df, i, grow);
    } else {
      FinalColumnsUntouched(c);
      if 0 <= j && Services[j] in df.columns {
        ServiceUntouched(j);
        WithGapKeeps(grow, true, Services[j]);
      } else {
        WithGapKeeps(grow, true, c);
      }
    }
  }

  /** The columns present once the builder has added its own. */
  function BuiltColumns(df: Frame): set<string> {
    ColumnSet(df.columns) + {Age, Gap} + BinColumns(df)
  }

  lemma OutColumnsBuilt(df: Frame)
    ensures ColumnSet(OutColumns(df)) <= BuiltColumns(df)
    ensures forall c :: c in ColumnSet(OutColumns(df)) ==> c in FinalColumns
  {
  }

  /** One row of the result of the steps has the columns of the row-by-row
      description. */
  lemma FeatureRowKeys(df: Frame, i: nat, e: Frame, k: nat)
    requires Valid(df) && i < |df.rows| && Retained(df)[i]
    requires Valid(e) && k < |e.rows| && ColumnSet(e.columns) == BuiltColumns(df)
    ensures Restrict(e.rows[k], OutColumns(df)).Keys == FeatureRow(df, i).Keys
  {
    OutColumnsBuilt(df);
    assert e.rows[k].Keys == BuiltColumns(df);
  }

  /** One row of the result of the steps holds the cells of the row-by-row
      description. */
  lemma FeatureRowAt(df: Frame, i: nat, grow: Row, h: Frame, e: Frame, k: nat)
    requires Valid(df) && i < |df.rows| && Retained(df)[i] && AgedFrom(df, i, grow)
    requires Valid(h) && k < |h.rows| && h.rows[k] == WithGap(grow, true)
    requires forall j :: 0 <= j < |Services| ==> (Services[j] in h.columns <==> Services[j] in df.columns)
    requires forall j :: 0 <= j < |Services| && Services[j] in df.columns ==> BinFlag(h, j) == BinsPresent(df, j)
    requires Valid(e) && |e.rows| == |h.rows|
    requires forall c :: c in e.rows[k] ==> e.rows[k][c] == EncodedCell(h, |Services|, k, c)
    ensures var out := Restrict(e.rows[k], OutColumns(df));
      forall c :: c in out ==> out[c] == FeatureCell(df, i, c)
  {
    var cols := OutColumns(df);
    var out := Restrict(e.rows[k], cols);
    forall c | c in out ensures out[c] == FeatureCell(df, i, c) {
      assert c in FinalColumns;
      FeatureCellAt(df, i, grow, h, k, c);
    }
  }

  /** The rows of the result of the steps are the retained rows of the
      row-by-row description, in order. */
  lemma FeatureRowsFiltered(df: Frame, aged: seq<Row>, g: Frame, h: Frame, e: Frame, out: seq<Row>)
    requires Valid(df) && |aged| == |df.rows| && forall i :: 0 <= i < |df.rows| ==> AgedFrom(df, i, aged[i])
    requires FilteredBy(g.rows, aged, Retained(df))
    requires Valid(h) && |h.rows| == |g.rows| && forall k :: 0 <= k < |g.rows| ==> h.rows[k] == WithGap(g.rows[k], true)
    requires forall j :: 0 <= j < |Services| ==> (Services[j] in h.columns <==> Services[j] in df.columns)
    requires Valid(e) && |e.rows| == |h.rows| && ColumnSet(e.columns) == BuiltColumns(df)
    requires forall k, c :: 0 <= k < |h.rows| && c in e.rows[k] ==> e.rows[k][c] == EncodedCell(h, |Services|, k, c)
    requires |out| == |e.rows| && forall k :: 0 <= k < |out| ==> out[k] == Restrict(e.rows[k], OutColumns(df))
    ensures FilteredBy(out, FeatureRows(df), Retained(df))
  {
    var keep := Retained(df);
    forall j | 0 <= j < |Services| && Services[j] in df.columns ensures BinFlag(h, j) == BinsPresent(df, j) {
      BinFlagRetained(df, aged, g, h, j);
    }
    forall i | 0 <= i < |df.rows| && keep[i]
      ensures CountTrue(keep[..i]) < |out| && out[CountTrue(keep[..i])] == FeatureRows(df)[i]
    {
      var k := CountTrue(keep[..i]);
      FeatureRowKeys(df, i, e, k);
      FeatureRowAt(df, i, aged[i], h, e, k);
      RowsEqual(out[k], FeatureRow(df, i));
    }
  }

  // ---------------------------------------------------------------------
  // Properties of the result
  // ---------------------------------------------------------------------

  /** Every row of a result of the builder has an age of 1 to 120 months. */
  lemma ResultAgesInRange(df: Frame, out: seq<Row>)
    requires Valid(df) && FilteredBy(out, FeatureRows(df), Retained(df))
    ensures forall k :: 0 <= k < |out| ==> Age in out[k] && InAgeRange(out[k][Age])
  {
    forall k | 0 <= k < |out| ensures Age in out[k] && InAgeRange(out[k][Age]) {
      var i := FilteredSource(out, FeatureRows(df), Retained(df), k);
      assert Age in OutColumns(df);
      InAgeRangeNumber(RawAge(df.rows[i]), AllPresent(RawAges(df)));
    }
  }

  /** Every row of a result of the builder has a whole number of days as its
      gap: the fill with 0 never has a missing value to replace. */
  lemma ResultGapsPresent(df: Frame, out: seq<Row>)
    requires Valid(df) && FilteredBy(out, FeatureRows(df), Retained(df))
    ensures forall k :: 0 <= k < |out| ==> Gap in out[k] && out[k][Gap].Int?
  {
    forall k | 0 <= k < |out| ensures Gap in out[k] && out[k][Gap].Int? {
      var i := FilteredSource(out, FeatureRows(df), Retained(df), k);
      assert Gap in OutColumns(df);
    }
  }

  /** A retained row whose return date is missing, unreadable or before 2000
      has a gap of 0 days. */
  lemma GapZeroWithoutReturn(df: Frame, i: nat)
    requires Valid(df) && i < |df.rows| && Retained(df)[i]
    requires var ret := ToDate(Get(df.rows[i], ReturnDate)); !IsDay(ret) || ret.year < 2000
    ensures FeatureCell(df, i, Gap) == Int(0)
  {
    ComputedNotBins();
  }

  /** For a retained row with a return date from 2000 on, the gap is negative
      exactly when the return came before the contract end, and zero exactly
      when it fell on the same day. */
  lemma GapSign(df: Frame, i: nat)
    requires Valid(df) && i < |df.rows| && Retained(df)[i]
    requires var ret := ToDate(Get(df.rows[i], ReturnDate)); IsDay(ret) && ret.year >= 2000
    ensures var ret, end := ToDate(Get(df.rows[i], ReturnDate)), ToDate(Get(df.rows[i], EndDate));
      (FeatureCell(df, i, Gap).i < 0 <==> Before(ret.year, ret.month, ret.day, end.year, end.month, end.day)) &&
      (FeatureCell(df, i, Gap).i == 0 <==> (ret.year, ret.month, ret.day) == (end.year, end.month, end.day))
  {
    var ret, end := ToDate(Get(df.rows[i], ReturnDate)), ToDate(Get(df.rows[i], EndDate));
    ComputedNotBins();
    DayNumberOrder(ret.year, ret.month, ret.day, end.year, end.month, end.day);
  }

  /** The encoding of a present service: 1 for "oui" in any case, 0 for
      "non", missing otherwise, stored as an integer when no retained row is
      missing and as a float otherwise. */
  lemma BinValues(df: Frame, i: nat, j: nat)
    requires Valid(df) && i < |df.rows| && Retained(df)[i] && j < |Services| && Services[j] in df.columns
    ensures var v, b := Get(df.rows[i], Services[j]), FeatureCell(df, i, BinName(Services[j]));
      (b == Int(1) || b == Real(1.0) <==> v.Str? && Upper(v.s) == "OUI") &&
      (b == Int(0) || b == Real(0.0) <==> v.Str? && Upper(v.s) == "NON") &&
      (b == Missing <==> !(v.Str? && (Upper(v.s) == "OUI" || Upper(v.s) == "NON"))) &&
      (b.Int? <==> BinsPresent(df, j) && b != Missing) && (BinsPresent(df, j) ==> b != Missing)
  {
    ComputedNotBins();
    assert ServiceOf(BinName(Services[j])) == j;
  }

  /** The seller column and the three date columns never reach the result,
      while the age and the gap always do. */
  lemma OutColumnsSelection(df: Frame)
    ensures Seller !in OutColumns(df) && OrderDate !in OutColumns(df)
    ensures EndDate !in OutColumns(df) && ReturnDate !in OutColumns(df)
    ensures Age in OutColumns(df) && Gap in OutColumns(df)
  {
    assert FinalColumns[3] == Age && FinalColumns[4] == Gap;
    RewrittenDropped(df, Seller);
    RewrittenDropped(df, OrderDate);
    RewrittenDropped(df, EndDate);
    RewrittenDropped(df, ReturnDate);
  }

  lemma RewrittenDropped(df: Frame, c: string)
    requires (AgeStepTouches(c) && c != Age) || c == ReturnDate
    ensures c !in OutColumns(df)
  {
    if c in OutColumns(df) {
      FinalColumnsUntouched(c);
    }
  }

  /** The result's columns come in the order of the fixed list. */
  lemma OutColumnsOrder(df: Frame, p: nat, q: nat)
    requires p < q < |OutColumns(df)|
    ensures exists a, b :: 0 <= a < b < |FinalColumns| && FinalColumns[a] == OutColumns(df)[p] && FinalColumns[b] == OutColumns(df)[q]
  {
    var present := ColumnSet(df.columns) + {Age, Gap} + BinColumns(df);
    var keep := Mask(FinalColumns, x => x in present);
    var cols := OutColumns(df);
    assert cols == Keep(FinalColumns, present);
    var a := FilteredSource(cols, FinalColumns, keep, p);
    var b := FilteredSource(cols, FinalColumns, keep, q);
    if b <= a {
      CountTrueMonotone(keep, b, a);
    }
  }

  /** The age counts calendar months and ignores the days: it is at least 1
      exactly when the end falls in a later month than the order. */
  lemma AgePositiveIff(order: Value, end: Value)
    requires IsDay(order) && IsDay(end)
    ensures MonthsBetween(order, end).i >= 1 <==>
      end.year > order.year || (end.year == order.year && end.month > order.month)
  {
  }

  /** An order on 31 January and an end on 1 February, one day apart, make
      an age of one month; 15 January 2020 to 15 July 2021 is 18 months. */
  lemma AgeExamples()
    ensures MonthsBetween(Date(2020, 1, 31), Date(2020, 2, 1)) == Int(1)
    ensures MonthsBetween(Date(2020, 1, 15), Date(2021, 7, 15)) == Int(18)
  {
  }
}
