/** The first three steps of the pipeline: cleaning the raw contract table,
    keeping the contracts eligible for the non-renewal prediction, and adding
    the target label `Non_renouvellement`. */
module Preprocessing {
  import opened Seqs
  import opened Text
  import opened Frames

  const TypeCommande := "Type Commande"
  const NouveauClient := "Nouveau Client"
  const Label := "Non_renouvellement"

  /** The two text columns the cleaner strips, in the order it visits them. */
  const TextColumns := [TypeCommande, NouveauClient]

  // ---------------------------------------------------------------------
  // Cleaning
  // ---------------------------------------------------------------------

  /** A row whose every cell is missing. */
  predicate AllMissing(row: Row) {
    forall c :: c in row ==> row[c] == Missing
  }

  predicate HasValue(row: Row) {
    !AllMissing(row)
  }

  /** `drop_duplicates()`: the first occurrence of every row, in order. */
  function DropDuplicates(f: Frame): (g: Frame)
    requires Valid(f)
    ensures Valid(g) && g.columns == f.columns
    ensures FilteredBy(g.rows, f.rows, FirstOccurrences(f.rows))
    ensures Distinct(g.rows)
    ensures forall i :: 0 <= i < |f.rows| ==> f.rows[i] in g.rows
  {
    DedupDistinct(f.rows);
    DedupCoversAll(f.rows);
    SelectRows(f, FirstOccurrences(f.rows))
  }

  /** `dropna(how="all")`: the rows that hold at least one value, in order. */
  function DropAllMissing(f: Frame): (g: Frame)
    requires Valid(f)
    ensures Valid(g) && g.columns == f.columns
    ensures FilteredBy(g.rows, f.rows, Mask(f.rows, HasValue))
    ensures forall k :: 0 <= k < |g.rows| ==> HasValue(g.rows[k])
  {
    var g := SelectRows(f, Mask(f.rows, HasValue));
    forall k | 0 <= k < |g.rows| ensures HasValue(g.rows[k]) {
      var i := FilteredSource(g.rows, f.rows, Mask(f.rows, HasValue), k);
    }
    g
  }

  /** `astype(str).str.strip()` of one cell. */
  function StripText(v: Value): Value {
    Str(Strip(ToStr(v)))
  }

  /** A row whose cells in the columns `cs` are replaced by `g` of themselves. */
  function MapCells(row: Row, cs: seq<string>, g: Value -> Value): (r: Row)
    ensures r.Keys == row.Keys
    ensures forall c :: c in row ==> r[c] == if c in cs then g(row[c]) else row[c]
  {
    map c | c in row :: if c in cs then g(row[c]) else row[c]
  }

  lemma MapCellsStep(row: Row, cs: seq<string>, c: string, g: Value -> Value)
    requires c !in cs
    ensures MapCells(row, cs + [c], g) == if c in row then MapCells(row, cs, g)[c := g(row[c])] else MapCells(row, cs, g)
  {
  }

  /** What cleaning makes of one raw row: every column under its stripped name,
      `Type Commande` and `Nouveau Client` (when present) as stripped text, every
      other cell unchanged. */
  function CleanRow(cols: seq<string>, row: Row): (r: Row)
    requires Distinct(Names(cols, Strip)) && row.Keys == ColumnSet(cols)
    ensures r.Keys == ColumnSet(Names(cols, Strip))
  {
    MapCells(RenameRow(row, cols, Strip), TextColumns, StripText)
  }

  /** The cells of a cleaned row: column `cols[j]`'s cell sits under the
      stripped name, as stripped text when that name is one of the two text
      columns and unchanged otherwise. */
  lemma CleanRowCells(cols: seq<string>, row: Row, j: nat)
    requires Distinct(Names(cols, Strip)) && row.Keys == ColumnSet(cols) && j < |cols|
    ensures var name := Strip(cols[j]);
      name in CleanRow(cols, row) &&
      CleanRow(cols, row)[name] == if name in TextColumns then StripText(row[cols[j]]) else row[cols[j]]
  {
  }

  /** The cleaned form of every raw row. */
  function CleanRows(df: Frame): (rs: seq<Row>)
    requires Valid(df) && Distinct(Names(df.columns, Strip))
    ensures |rs| == |df.rows| && forall i :: 0 <= i < |df.rows| ==> rs[i] == CleanRow(df.columns, df.rows[i])
  {
    seq(|df.rows|, i requires 0 <= i < |df.rows| => CleanRow(df.columns, df.rows[i]))
  }

  /** The raw rows cleaning keeps: the first occurrence of each row, judged on
      the raw cells before any stripping, when it holds at least one value. */
  function CleanKeep(rows: seq<Row>): (keep: seq<bool>)
    ensures |keep| == |rows|
    ensures forall i :: 0 <= i < |rows| ==> (keep[i] <==> rows[i] !in rows[..i] && HasValue(rows[i]))
  {
    seq(|rows|, i requires 0 <= i < |rows| => FirstOccurrences(rows)[i] && HasValue(rows[i]))
  }

  /** The loop of `nettoyer_donnees` over the two text columns: each one
      present is replaced, cell by cell, by its stripped text. */
  method StripTextColumns(named: Frame) returns (f: Frame)
    requires Valid(named)
    ensures Valid(f) && f.columns == named.columns && |f.rows| == |named.rows|
    ensures forall i :: 0 <= i < |f.rows| ==> f.rows[i] == MapCells(named.rows[i], TextColumns, StripText)
  {
    f := named;
    for k := 0 to |TextColumns|
      invariant Valid(f) && f.columns == named.columns && |f.rows| == |named.rows|
      invariant forall i :: 0 <= i < |f.rows| ==> f.rows[i] == MapCells(named.rows[i], TextColumns[..k], StripText)
    {
      var c := TextColumns[k];
      assert TextColumns[..k + 1] == TextColumns[..k] + [c];
      forall i | 0 <= i < |f.rows| {
        MapCellsStep(named.rows[i], TextColumns[..k], c, StripText);
      }
      if c in f.columns {
        f := MapColumn(f, c, StripText);
      }
    }
    assert TextColumns[..|TextColumns|] == TextColumns;
  }

  /** `nettoyer_donnees`: duplicates, then all-empty rows are dropped, column
      names are stripped, and the two text columns are stripped in place.
      The output holds, in input order, the cleaned form of exactly the raw
      rows `CleanKeep` keeps. */
  method Clean(df: Frame) returns (out: Frame)
    requires Valid(df) && Distinct(Names(df.columns, Strip))
    ensures Valid(out)
    ensures out.columns == Names(df.columns, Strip)
    ensures FilteredBy(out.rows, CleanRows(df), CleanKeep(df.rows))
  {
    var unique := DropDuplicates(df);
    var nonEmpty := DropAllMissing(unique);
    var named := RenameColumns(nonEmpty, Strip);
    out := StripTextColumns(named);

    forall k | 0 <= k < |out.rows| ensures out.rows[k] == CleanRow(df.columns, nonEmpty.rows[k]) {
    }
    CleanSelection(df, unique, nonEmpty, out);
  }

  /** The two row selections of `Clean`, followed by the renaming and
      stripping of every surviving row, select the cleaned rows by `CleanKeep`. */
  lemma CleanSelection(df: Frame, unique: Frame, nonEmpty: Frame, out: Frame)
    requires Valid(df) && Distinct(Names(df.columns, Strip))
    requires FilteredBy(unique.rows, df.rows, FirstOccurrences(df.rows))
    requires FilteredBy(nonEmpty.rows, unique.rows, Mask(unique.rows, HasValue))
    requires Valid(nonEmpty) && nonEmpty.columns == df.columns
    requires |out.rows| == |nonEmpty.rows|
    requires forall k :: 0 <= k < |out.rows| ==> out.rows[k] == CleanRow(df.columns, nonEmpty.rows[k])
    ensures FilteredBy(out.rows, CleanRows(df), CleanKeep(df.rows))
  {
    assert forall i :: 0 <= i < |df.rows| ==> CleanKeep(df.rows)[i] == (FirstOccurrences(df.rows)[i] && HasValue(df.rows[i]));
    FilterFilterMap(df.rows, FirstOccurrences(df.rows), unique.rows, HasValue, nonEmpty.rows, out.rows,
                    CleanRows(df), CleanKeep(df.rows));
  }

  /** Duplicates are judged before stripping: a row and its copy with a
      trailing blank in one of the text columns are both kept, and they
      become equal once cleaned. */
  lemma CleanMayKeepDuplicates(cols: seq<string>, row: Row, c: string, t: string)
    requires Distinct(Names(cols, Strip)) && row.Keys == ColumnSet(cols)
    requires c in cols && Strip(c) in TextColumns && row[c] == Str(t)
    ensures var padded := row[c := Str(t + " ")];
      CleanKeep([row, padded]) == [true, true] && CleanRow(cols, padded) == CleanRow(cols, row)
  {
    var padded := row[c := Str(t + " ")];
    BothKept(row, c, t);
    assert Strip(t + " ") == Strip(t) by {
      StripPadded([], t, " ");
      assert [] + t + " " == t + " ";
    }
    PaddedCleansEqual(cols, row, c, t);
  }

  lemma BothKept(row: Row, c: string, t: string)
    requires c in row && row[c] == Str(t)
    ensures CleanKeep([row, row[c := Str(t + " ")]]) == [true, true]
  {
    var padded := row[c := Str(t + " ")];
    assert padded[c] != row[c] by { assert |t + " "| != |t|; }
    assert [row, padded][..1] == [row];
    assert HasValue(row) by { assert row[c] != Missing; }
    assert HasValue(padded) by { assert padded[c] != Missing; }
  }

  lemma PaddedCleansEqual(cols: seq<string>, row: Row, c: string, t: string)
    requires Distinct(Names(cols, Strip)) && row.Keys == ColumnSet(cols)
    requires c in cols && Strip(c) in TextColumns && row[c] == Str(t) && Strip(t + " ") == Strip(t)
    ensures CleanRow(cols, row[c := Str(t + " ")]) == CleanRow(cols, row)
  {
    var padded := row[c := Str(t + " ")];
    var a, b := CleanRow(cols, padded), CleanRow(cols, row);
    assert StripText(Str(t + " ")) == StripText(row[c]);
    forall k | k in a ensures a[k] == b[k] {
      var j :| 0 <= j < |cols| && Names(cols, Strip)[j] == k;
      RenamedCellsAgree(cols, Strip, TextColumns, StripText, row, c, Str(t + " "), j);
    }
    RowsEqual(a, b);
  }

  /** Renaming then mapping the cells of `cs` by `g` cannot tell a row from its
      copy with a different cell in column `c`, when `c`'s new name is among
      `cs` and `g` maps both cells alike. */
  lemma RenamedCellsAgree(cols: seq<string>, f: string -> string, cs: seq<string>, g: Value -> Value,
                          row: Row, c: string, v: Value, j: nat)
    requires Distinct(Names(cols, f)) && row.Keys == ColumnSet(cols) && j < |cols|
    requires c in cols && f(c) in cs && g(v) == g(row[c])
    ensures MapCells(RenameRow(row[c := v], cols, f), cs, g)[f(cols[j])] ==
            MapCells(RenameRow(row, cols, f), cs, g)[f(cols[j])]
  {
    if cols[j] == c {
      assert f(cols[j]) in cs;
    } else {
      assert row[c := v][cols[j]] == row[cols[j]];
    }
  }

  // ---------------------------------------------------------------------
  // Eligibility filter
  // ---------------------------------------------------------------------

  /** `astype(str).str.strip().str.upper()` of one cell. */
  function UpperText(v: Value): Value {
    Str(Upper(Strip(ToStr(v))))
  }

  /** `astype(str).str.strip().str.lower()` of one cell. */
  function LowerText(v: Value): Value {
    Str(Lower(Strip(ToStr(v))))
  }

  /** A row with its two filter columns, where present, normalised as the
      filter writes them. */
  function NormaliseForFilter(row: Row): (r: Row)
    ensures r.Keys == row.Keys
  {
    var upper := if NouveauClient in row then row[NouveauClient := UpperText(row[NouveauClient])] else row;
    if TypeCommande in upper then upper[TypeCommande := LowerText(upper[TypeCommande])] else upper
  }

  /** The mask of the filter, on a normalised row. */
  predicate KeptAfterNormalising(row: Row) {
    NouveauClient in row && TypeCommande in row &&
    row[NouveauClient] == Str("NON") && row[TypeCommande] != Str("nouvelle commande")
  }

  /** An existing customer whose order is not a new order. */
  predicate Eligible(row: Row) {
    NouveauClient in row && TypeCommande in row &&
    Upper(Strip(ToStr(row[NouveauClient]))) == "NON" && Lower(Strip(ToStr(row[TypeCommande]))) != "nouvelle commande"
  }

  /** The mask computed on the normalised columns is eligibility of the raw row. */
  lemma EligibleNormalised(row: Row)
    ensures KeptAfterNormalising(NormaliseForFilter(row)) == Eligible(row)
  {
  }

  /** `filtrer_contrats_eligibles`.  Both columns are normalised when present,
      but the mask indexes both unconditionally, so a missing column fails,
      `Nouveau Client` being looked up first.  Otherwise the result holds, in
      order, the normalised form of exactly the eligible rows. */
  function FilterEligible(df: Frame): (r: Result<Frame>)
    requires Valid(df)
    ensures r.Ok? <==> NouveauClient in df.columns && TypeCommande in df.columns
    ensures NouveauClient !in df.columns ==> r == Err(MissingColumn(NouveauClient))
    ensures NouveauClient in df.columns && TypeCommande !in df.columns ==> r == Err(MissingColumn(TypeCommande))
    ensures r.Ok? ==> Valid(r.value) && r.value.columns == df.columns
    ensures r.Ok? ==> FilteredBy(r.value.rows, Apply(df.rows, NormaliseForFilter), Mask(df.rows, Eligible))
  {
    var both := NormaliseFilterColumns(df);
    if NouveauClient !in both.columns then Err(MissingColumn(NouveauClient))
    else if TypeCommande !in both.columns then Err(MissingColumn(TypeCommande))
    else
      var g := SelectRows(both, Mask(both.rows, KeptAfterNormalising));
      FilterSelection(df, both, g);
      Ok(g)
  }

  /** `filtrer_contrats_eligibles`, lines 54-58: the two filter columns, where present, normalised. */
  function NormaliseFilterColumns(df: Frame): (both: Frame)
    requires Valid(df)
    ensures Valid(both) && both.columns == df.columns && |both.rows| == |df.rows|
    ensures forall i :: 0 <= i < |df.rows| ==> both.rows[i] == NormaliseForFilter(df.rows[i])
  {
    var upper := if NouveauClient in df.columns then MapColumn(df, NouveauClient, UpperText) else df;
    assert forall i :: 0 <= i < |df.rows| ==> (NouveauClient in df.rows[i] <==> NouveauClient in df.columns);
    assert forall i :: 0 <= i < |df.rows| ==> (TypeCommande in upper.rows[i] <==> TypeCommande in df.columns);
    if TypeCommande in upper.columns then MapColumn(upper, TypeCommande, LowerText) else upper
  }

  lemma FilterSelection(df: Frame, both: Frame, g: Frame)
    requires |both.rows| == |df.rows| && forall i :: 0 <= i < |df.rows| ==> both.rows[i] == NormaliseForFilter(df.rows[i])
    requires FilteredBy(g.rows, both.rows, Mask(both.rows, KeptAfterNormalising))
    ensures FilteredBy(g.rows, Apply(df.rows, NormaliseForFilter), Mask(df.rows, Eligible))
  {
    assert both.rows == Apply(df.rows, NormaliseForFilter);
    forall i | 0 <= i < |df.rows| ensures Mask(both.rows, KeptAfterNormalising)[i] == Mask(df.rows, Eligible)[i] {
      EligibleNormalised(df.rows[i]);
    }
    assert Mask(both.rows, KeptAfterNormalising) == Mask(df.rows, Eligible);
  }

  /** Every contract the filter keeps is, as written back, an existing
      customer's contract that is not a new order. */
  lemma FilterKeepsOnlyEligible(df: Frame)
    requires Valid(df)
    ensures var r := FilterEligible(df);
      r.Ok? ==> forall k :: 0 <= k < |r.value.rows| ==>
        r.value.rows[k][NouveauClient] == Str("NON") && r.value.rows[k][TypeCommande] != Str("nouvelle commande")
  {
    var r := FilterEligible(df);
    if r.Ok? {
      forall k | 0 <= k < |r.value.rows|
        ensures r.value.rows[k][NouveauClient] == Str("NON") && r.value.rows[k][TypeCommande] != Str("nouvelle commande")
      {
        var i := FilteredSource(r.value.rows, Apply(df.rows, NormaliseForFilter), Mask(df.rows, Eligible), k);
        EligibleNormalised(df.rows[i]);
      }
    }
  }

  // ---------------------------------------------------------------------
  // Target label
  // ---------------------------------------------------------------------

  /** The label of one row: 0 for a renewal, 1 for anything else. */
  function LabelOf(typeCommande: Value): (v: Value)
    ensures v == Int(0) || v == Int(1)
    ensures v == Int(0) <==> Lower(Strip(ToStr(typeCommande))) == "renouvellement"
  {
    if Lower(Strip(ToStr(typeCommande))) == "renouvellement" then Int(0) else Int(1)
  }

  /** `ajouter_variable_cible`: fails when `Type Commande` is absent;
      otherwise every row gains (or has overwritten) the label, and nothing
      else changes. */
  function AddTarget(df: Frame): (r: Result<Frame>)
    requires Valid(df)
    ensures r.Ok? <==> TypeCommande in df.columns
    ensures r.Err? ==> r.error == MissingColumn(TypeCommande)
    ensures r.Ok? ==> Valid(r.value) && |r.value.rows| == |df.rows|
    ensures r.Ok? ==> r.value.columns == if Label in df.columns then df.columns else df.columns + [Label]
    ensures r.Ok? ==> forall i :: 0 <= i < |df.rows| ==>
      r.value.rows[i] == df.rows[i][Label := LabelOf(df.rows[i][TypeCommande])]
  {
    if TypeCommande in df.columns then
      Ok(SetColumn(df, Label, seq(|df.rows|, i requires 0 <= i < |df.rows| => LabelOf(df.rows[i][TypeCommande]))))
    else
      Err(MissingColumn(TypeCommande))
  }

  /** Normalising `Type Commande` for the filter does not change its label. */
  lemma LabelAfterNormalising(v: Value)
    ensures LabelOf(LowerText(v)) == LabelOf(v)
  {
    var x := Strip(ToStr(v));
    StripLower(x);
    StripIdempotent(ToStr(v));
    LowerIdempotent(x);
  }

  /** Filtering then labelling: every eligible raw row reappears, at its
      rank among the eligible rows, with the label its raw `Type Commande`
      gives. */
  lemma FilterThenLabel(df: Frame)
    requires Valid(df) && FilterEligible(df).Ok?
    ensures var l := AddTarget(FilterEligible(df).value); var keep := Mask(df.rows, Eligible);
      l.Ok? &&
      forall i :: 0 <= i < |df.rows| && keep[i] ==>
        CountTrue(keep[..i]) < |l.value.rows| && Label in l.value.rows[CountTrue(keep[..i])] &&
        l.value.rows[CountTrue(keep[..i])][Label] == LabelOf(df.rows[i][TypeCommande])
  {
    var f := FilterEligible(df).value;
    var l := AddTarget(f).value;
    var keep := Mask(df.rows, Eligible);
    forall i | 0 <= i < |df.rows| && keep[i]
      ensures CountTrue(keep[..i]) < |l.rows| && Label in l.rows[CountTrue(keep[..i])] &&
              l.rows[CountTrue(keep[..i])][Label] == LabelOf(df.rows[i][TypeCommande])
    {
      var k := CountTrue(keep[..i]);
      assert f.rows[k] == NormaliseForFilter(df.rows[i]);
      LabelAfterNormalising(df.rows[i][TypeCommande]);
    }
  }
}
