/** The scoring step `predire_clients_a_risque`: the active contracts are
    scored by a trained classifier after their columns are reconciled with
    the classifier's feature list; the contracts predicted not to renew are
    returned, with the fifty of highest score.  The classifier is a
    parameter: `predict` and `proba` give the class and the probability of
    non-renewal for one feature vector. */
module Predict {
  import opened Seqs
  import opened Frames
  import Features

  const ContractNo := "No du Contrat"
  const Target := "Non_renouvellement"
  const ActiveFlag := "flag_actif"
  const PredictionColumn := "Prediction"
  const ScoreColumn := "score_risque"

  /** How many contracts the ranking keeps. */
  const TopCount := 50

  /** The columns removed before scoring (missing ones are ignored). */
  const Dropped: set<string> := {ContractNo, Target, ActiveFlag}

  /** `df["flag_actif"] == 1` on one cell: the integer or the float 1. */
  predicate IsActive(v: Value) {
    v == Int(1) || v == Real(1.0)
  }

  predicate ActiveRow(row: Row) {
    IsActive(Get(row, ActiveFlag))
  }

  // ---------------------------------------------------------------------
  // Reconciliation with the classifier's features
  // ---------------------------------------------------------------------

  /** The columns `drop(columns=[...], errors="ignore")` keeps, in order. */
  function Remaining(cols: seq<string>, drop: set<string>): (r: seq<string>)
    requires Distinct(cols)
    ensures Distinct(r)
    ensures forall c :: c in r <==> c in cols && c !in drop
    ensures FilteredBy(r, cols, Mask(cols, c => c !in drop))
  {
    var kept := ColumnSet(cols) - drop;
    assert Mask(cols, c => c !in drop) == Mask(cols, x => x in kept);
    KeepDistinct(cols, ColumnSet(cols) - drop);
    forall c ensures c in Keep(cols, ColumnSet(cols) - drop) <==> c in cols && c !in drop {
      KeepMembers(cols, ColumnSet(cols) - drop, c);
    }
    Keep(cols, ColumnSet(cols) - drop)
  }

  /** The vector the classifier sees for a row: each expected feature in
      turn, 0 for one the row lacks or that was dropped. */
  function FeatureVector(row: Row, expected: seq<string>): (v: seq<Value>)
    ensures |v| == |expected|
    ensures forall j :: 0 <= j < |expected| ==>
      v[j] == if expected[j] in row && expected[j] !in Dropped then row[expected[j]] else Int(0)
  {
    seq(|expected|, j requires 0 <= j < |expected| =>
      if expected[j] in row && expected[j] !in Dropped then row[expected[j]] else Int(0))
  }

  /** Row `i` of a frame read in the order of its columns. */
  function RowVector(m: Frame, i: nat): (v: seq<Value>)
    requires Valid(m) && i < |m.rows|
    ensures |v| == |m.columns| && forall j :: 0 <= j < |m.columns| ==> v[j] == m.rows[i][m.columns[j]]
  {
    seq(|m.columns|, j requires 0 <= j < |m.columns| => m.rows[i][m.columns[j]])
  }

  /** `n` zeros: the cells of `X[col] = 0`. */
  function Zeros(n: nat): (z: seq<Value>)
    ensures |z| == n && forall i :: 0 <= i < n ==> z[i] == Int(0)
  {
    seq(n, _ => Int(0))
  }

  /** Each cell of row `r` is the cell of `xr`, or 0 where `cols` lacks the column. */
  predicate RowFilled(r: Row, xr: Row, cols: seq<string>) {
    forall c :: c in r ==> r[c] == if c in cols then Get(xr, c) else Int(0)
  }

  /** Each row of `f` is filled from the same row of `x`. */
  ghost predicate FilledFrom(f: Frame, x: Frame) {
    Valid(x) && |f.rows| == |x.rows| &&
    forall i :: 0 <= i < |x.rows| ==> RowFilled(f.rows[i], x.rows[i], x.columns)
  }

  /** Adding a zero column that `x` lacks keeps that relation. */
  lemma ZeroFillKeeps(f: Frame, x: Frame, c: string)
    requires Valid(f) && FilledFrom(f, x) && c !in x.columns
    ensures FilledFrom(SetColumn(f, c, Zeros(|f.rows|)), x)
  {
    var g := SetColumn(f, c, Zeros(|f.rows|));
    forall i | 0 <= i < |x.rows| ensures RowFilled(g.rows[i], x.rows[i], x.columns) {
      assert g.rows[i] == f.rows[i][c := Int(0)];
      ZeroFillRow(f.rows[i], x.rows[i], x.columns, c);
    }
  }

  lemma ZeroFillRow(r: Row, xr: Row, cols: seq<string>, c: string)
    requires RowFilled(r, xr, cols) && c !in cols
    ensures RowFilled(r[c := Int(0)], xr, cols)
  {
  }

  /** `m` has exactly the expected columns, in order, and each cell is the
      cell of `x` when `x` has the column, 0 otherwise. */
  predicate ZeroFilled(m: Frame, x: Frame, expected: seq<string>) {
    Valid(m) && m.columns == expected && |m.rows| == |x.rows| &&
    forall i, j :: 0 <= i < |x.rows| && 0 <= j < |expected| ==>
      m.rows[i][expected[j]] == if expected[j] in x.columns then Get(x.rows[i], expected[j]) else Int(0)
  }

  /** `predire_clients_a_risque`, lines 30-35: every expected feature the frame lacks is added with 0 in
      every row, then the frame is cut down to the expected features, in
      their order. */
  method Reconcile(x: Frame, expected: seq<string>) returns (m: Frame)
    requires Valid(x) && Distinct(expected)
    ensures ZeroFilled(m, x, expected)
  {
    var f := x;
    for n := 0 to |expected|
      invariant Valid(f) && |f.rows| == |x.rows|
      invariant ColumnSet(f.columns) == ColumnSet(x.columns) + ColumnSet(expected[..n])
      invariant FilledFrom(f, x)
    {
      assert ColumnSet(expected[..n + 1]) == ColumnSet(expected[..n]) + {expected[n]};
      if expected[n] !in f.columns {
        assert expected[n] !in ColumnSet(x.columns);
        assert ColumnSet(f.columns + [expected[n]]) == ColumnSet(f.columns) + {expected[n]};
        ZeroFillKeeps(f, x, expected[n]);
        f := SetColumn(f, expected[n], Zeros(|f.rows|));
      } else {
        assert expected[n] in ColumnSet(f.columns);
      }
    }
    assert expected[..|expected|] == expected;
    forall j | 0 <= j < |expected| ensures expected[j] in f.columns {
      assert expected[j] in ColumnSet(expected);
    }
    m := Project(f, expected);
  }

  /** The feature names recorded at training (`src/training_xgboost.py`):
      every column of the training frame but the identifier and the target. */
  function TrainedFeatures(cols: seq<string>): (r: seq<string>)
    requires Distinct(cols)
    ensures Distinct(r)
    ensures forall c :: c in r <==> c in cols && c != ContractNo && c != Target
    ensures FilteredBy(r, cols, Mask(cols, c => c != ContractNo && c != Target))
  {
    var r := Remaining(cols, {ContractNo, Target});
    SameKeptColumns(cols, {ContractNo, Target}, r);
    r
  }

  lemma SameKeptColumns(cols: seq<string>, drop: set<string>, r: seq<string>)
    requires drop == {ContractNo, Target} && FilteredBy(r, cols, Mask(cols, c => c !in drop))
    ensures FilteredBy(r, cols, Mask(cols, c => c != ContractNo && c != Target))
  {
    var a, b := Mask(cols, c => c != ContractNo && c != Target), Mask(cols, c => c !in drop);
    forall i | 0 <= i < |cols| ensures a[i] == b[i] {
    }
    assert a == b;
  }

  /** The classifier is trained on the prepared frame, whose activity flag it
      keeps as a feature; at scoring the flag is dropped and then zero-filled,
      so every scored row shows the classifier 0 where its own flag is 1. */
  lemma {:induction false} FlagZeroFilled(df: Frame, row: Row)
    requires ActiveFlag in df.columns && ActiveRow(row)
    ensures ActiveFlag in TrainedFeatures(Features.OutColumns(df))
    ensures forall j :: (0 <= j < |TrainedFeatures(Features.OutColumns(df))| &&
                         TrainedFeatures(Features.OutColumns(df))[j] == ActiveFlag) ==>
      (FeatureVector(row, TrainedFeatures(Features.OutColumns(df)))[j] == Int(0) && Get(row, ActiveFlag) != Int(0))
  {
    assert Features.FinalColumns[2] == ActiveFlag;
    assert ActiveFlag in Features.OutColumns(df);
  }

  // ---------------------------------------------------------------------
  // Ranking
  // ---------------------------------------------------------------------

  /** The score of a scored row. */
  function ScoreOf(row: Row): real {
    match Get(row, ScoreColumn)
    case Real(r) => r
    case Int(i) => i as real
    case _ => 0.0
  }

  predicate NonIncreasing(s: seq<Row>) {
    forall a, b :: 0 <= a < b < |s| ==> ScoreOf(s[a]) >= ScoreOf(s[b])
  }

  /** `x` placed into a sequence sorted by decreasing score. */
  function InsertByScore(x: Row, s: seq<Row>): (r: seq<Row>)
    requires NonIncreasing(s)
    ensures NonIncreasing(r) && multiset(r) == multiset(s) + multiset{x}
  {
    if |s| == 0 then [x]
    else if ScoreOf(x) >= ScoreOf(s[0]) then
      HeadBounds(s);
      ConsSorted(x, s);
      [x] + s
    else
      HeadBounds(s);
      var t := InsertByScore(x, s[1..]);
      assert s == [s[0]] + s[1..];
      AtMostPermuted(t, s[1..], x, ScoreOf(s[0]));
      ConsSorted(s[0], t);
      [s[0]] + t
  }

  /** In rows sorted by decreasing score the first scores highest, and the
      rest stay sorted. */
  lemma HeadBounds(s: seq<Row>)
    requires NonIncreasing(s) && |s| > 0
    ensures AtMost(s, ScoreOf(s[0])) && NonIncreasing(s[1..]) && AtMost(s[1..], ScoreOf(s[0]))
  {
  }

  /** A row scoring at least every row of a sorted sequence can lead it. */
  lemma ConsSorted(h: Row, t: seq<Row>)
    requires NonIncreasing(t) && AtMost(t, ScoreOf(h))
    ensures NonIncreasing([h] + t)
  {
  }

  /** No row of `s` scores above `b`. */
  predicate AtMost(s: seq<Row>, b: real) {
    forall k :: 0 <= k < |s| ==> ScoreOf(s[k]) <= b
  }

  /** A bound on the scores of `s` and of `x` bounds any arrangement of them. */
  lemma AtMostPermuted(t: seq<Row>, s: seq<Row>, x: Row, b: real)
    requires AtMost(s, b) && ScoreOf(x) <= b && multiset(t) == multiset(s) + multiset{x}
    ensures AtMost(t, b)
  {
    forall k | 0 <= k < |t| ensures ScoreOf(t[k]) <= b {
      assert t[k] in multiset(t);
      if t[k] != x {
        assert t[k] in multiset(s);
        var j :| 0 <= j < |s| && s[j] == t[k];
      }
    }
  }

  /** The rows sorted by decreasing score (`sort_values(ascending=False)`). */
  function SortByScore(s: seq<Row>): (r: seq<Row>)
    ensures NonIncreasing(r) && multiset(r) == multiset(s)
  {
    if |s| == 0 then []
    else
      assert s == [s[0]] + s[1..];
      InsertByScore(s[0], SortByScore(s[1..]))
  }

  /** `sort_values("score_risque", ascending=False).head(50)`. */
  function TopByScore(s: seq<Row>): (r: seq<Row>) {
    var sorted := SortByScore(s);
    if |sorted| <= TopCount then sorted else sorted[..TopCount]
  }

  /** `top` holds `min(50, |s|)` rows of `s`, by decreasing score, and no row
      of `s` left out scores above a row kept. */
  ghost predicate IsTop(top: seq<Row>, s: seq<Row>) {
    |top| == (if |s| <= TopCount then |s| else TopCount) &&
    multiset(top) <= multiset(s) && NonIncreasing(top) &&
    forall x, y :: x in multiset(s) - multiset(top) && y in top ==> ScoreOf(x) <= ScoreOf(y)
  }

  /** The ranking meets that description. */
  lemma TopByScoreIsTop(s: seq<Row>)
    ensures IsTop(TopByScore(s), s)
  {
    var sorted := SortByScore(s);
    var n := if |sorted| <= TopCount then |sorted| else TopCount;
    var top, rest := sorted[..n], sorted[n..];
    assert TopByScore(s) == top;
    SplitSorted(sorted, n);
    assert sorted == top + rest;
    assert multiset(s) - multiset(top) == multiset(rest);
    forall x, y | x in multiset(s) - multiset(top) && y in top ensures ScoreOf(x) <= ScoreOf(y) {
      assert x in rest;
    }
  }

  /** Cut in two, rows sorted by decreasing score give two sorted parts, and
      no row of the second scores above a row of the first. */
  lemma SplitSorted(sorted: seq<Row>, n: nat)
    requires NonIncreasing(sorted) && n <= |sorted|
    ensures NonIncreasing(sorted[..n])
    ensures forall x, y :: x in sorted[n..] && y in sorted[..n] ==> ScoreOf(x) <= ScoreOf(y)
  {
    forall x, y | x in sorted[n..] && y in sorted[..n] ensures ScoreOf(x) <= ScoreOf(y) {
      var b :| 0 <= b < |sorted[n..]| && sorted[n..][b] == x;
      var a :| 0 <= a < n && sorted[..n][a] == y;
      assert sorted[a] == y && sorted[n + b] == x;
    }
  }

  // ---------------------------------------------------------------------
  // Scoring
  // ---------------------------------------------------------------------

  /** A row with its two new columns: the predicted class and the score. */
  function ScoreRow(row: Row, expected: seq<string>, predict: seq<Value> -> int, proba: seq<Value> -> real): Row {
    var v := FeatureVector(row, expected);
    row[PredictionColumn := Int(predict(v))][ScoreColumn := Real(proba(v))]
  }

  /** Every input row scored. */
  function ScoredRows(df: Frame, expected: seq<string>, predict: seq<Value> -> int, proba: seq<Value> -> real): (rs: seq<Row>)
    ensures |rs| == |df.rows|
    ensures forall i :: 0 <= i < |df.rows| ==> rs[i] == ScoreRow(df.rows[i], expected, predict, proba)
  {
    seq(|df.rows|, i requires 0 <= i < |df.rows| => ScoreRow(df.rows[i], expected, predict, proba))
  }

  /** The input rows the result keeps: active and predicted not to renew. */
  function AtRiskMask(df: Frame, expected: seq<string>, predict: seq<Value> -> int): (keep: seq<bool>)
    ensures |keep| == |df.rows|
    ensures forall i :: 0 <= i < |df.rows| ==>
      (keep[i] <==> ActiveRow(df.rows[i]) && predict(FeatureVector(df.rows[i], expected)) == 1)
  {
    seq(|df.rows|, i requires 0 <= i < |df.rows| =>
      ActiveRow(df.rows[i]) && predict(FeatureVector(df.rows[i], expected)) == 1)
  }

  function ScoredColumns(cols: seq<string>): seq<string> {
    var c1 := if PredictionColumn in cols then cols else cols + [PredictionColumn];
    if ScoreColumn in c1 then c1 else c1 + [ScoreColumn]
  }

  datatype Scoring = Scoring(atRisk: Frame, top: Frame)

  predicate Predicted(row: Row) {
    Get(row, PredictionColumn) == Int(1)
  }

  /** `predire_clients_a_risque`: the error raised without the activity flag,
      or the scored active contracts predicted not to renew, in input order,
      and the fifty of them with the highest score. */
  method PredictAtRisk(df: Frame, expected: seq<string>, predict: seq<Value> -> int, proba: seq<Value> -> real)
    returns (r: Result<Scoring>)
    requires Valid(df) && Distinct(expected)
    ensures r.Ok? <==> ActiveFlag in df.columns
    ensures r.Err? ==> r.error == MissingColumn(ActiveFlag)
    ensures r.Ok? ==> Valid(r.value.atRisk) && r.value.atRisk.columns == ScoredColumns(df.columns)
    ensures r.Ok? ==> FilteredBy(r.value.atRisk.rows, ScoredRows(df, expected, predict, proba), AtRiskMask(df, expected, predict))
    ensures r.Ok? ==> Valid(r.value.top) && r.value.top.columns == r.value.atRisk.columns
    ensures r.Ok? ==> IsTop(r.value.top.rows, r.value.atRisk.rows)
  {
    if ActiveFlag !in df.columns {
      return Err(MissingColumn(ActiveFlag));
    }
    var actives := SelectRows(df, Mask(df.rows, ActiveRow));
    var m := FeatureMatrix(actives, expected);
    var scored := AddScores(actives, Vectors(m), predict, proba);
    var risque := SelectRows(scored, Mask(scored.rows, Predicted));
    AtRiskRows(df, actives, scored, risque, expected, predict, proba);
    var top := TopByScore(risque.rows);
    TopByScoreIsTop(risque.rows);
    TopRowsValid(risque, top);
    r := Ok(Scoring(risque, Frame(risque.columns, top)));
  }

  /** The rows of a frame read in the order of its columns. */
  function Vectors(m: Frame): (vs: seq<seq<Value>>)
    requires Valid(m)
    ensures |vs| == |m.rows| && forall k :: 0 <= k < |m.rows| ==> vs[k] == RowVector(m, k)
  {
    seq(|m.rows|, k requires 0 <= k < |m.rows| => RowVector(m, k))
  }

  /** `predire_clients_a_risque`, lines 38-39: the class and the score of each row's vector, as two new
      columns. */
  function AddScores(f: Frame, vs: seq<seq<Value>>, predict: seq<Value> -> int, proba: seq<Value> -> real): (g: Frame)
    requires Valid(f) && |vs| == |f.rows|
    ensures Valid(g) && g.columns == ScoredColumns(f.columns) && |g.rows| == |f.rows|
    ensures forall k :: 0 <= k < |f.rows| ==>
      g.rows[k] == f.rows[k][PredictionColumn := Int(predict(vs[k]))][ScoreColumn := Real(proba(vs[k]))]
  {
    var p := SetColumn(f, PredictionColumn, seq(|vs|, k requires 0 <= k < |vs| => Int(predict(vs[k]))));
    SetColumn(p, ScoreColumn, seq(|vs|, k requires 0 <= k < |vs| => Real(proba(vs[k]))))
  }

  /** `predire_clients_a_risque`, lines 27-35: the identifier, the target and the flag are dropped, the
      missing features zero-filled and the columns put in the classifier's
      order; row `k` then reads as the feature vector of row `k`. */
  method FeatureMatrix(actives: Frame, expected: seq<string>) returns (m: Frame)
    requires Valid(actives) && Distinct(expected)
    ensures Valid(m) && m.columns == expected && |m.rows| == |actives.rows|
    ensures forall k :: 0 <= k < |actives.rows| ==> Vectors(m)[k] == FeatureVector(actives.rows[k], expected)
  {
    var x := DropColumns(actives, Dropped);
    m := Reconcile(x, expected);
    VectorsOfActives(actives, x, m, expected);
  }

  /** `predire_clients_a_risque`, line 27: `drop(columns=..., errors="ignore")` keeps the other columns,
      in order, with their cells. */
  method DropColumns(f: Frame, drop: set<string>) returns (x: Frame)
    requires Valid(f)
    ensures Valid(x) && x.columns == Remaining(f.columns, drop) && |x.rows| == |f.rows|
    ensures forall c :: c in x.columns <==> c in f.columns && c !in drop
    ensures forall k :: 0 <= k < |x.rows| ==> x.rows[k] == Restrict(f.rows[k], x.columns)
  {
    x := Project(f, Remaining(f.columns, drop));
  }

  /** The vector the classifier sees for an active row is its feature vector. */
  lemma VectorsOfActives(actives: Frame, x: Frame, m: Frame, expected: seq<string>)
    requires Valid(actives) && Distinct(expected) && Valid(x)
    requires forall c :: c in x.columns <==> c in actives.columns && c !in Dropped
    requires |x.rows| == |actives.rows| && forall k :: 0 <= k < |x.rows| ==> x.rows[k] == Restrict(actives.rows[k], x.columns)
    requires ZeroFilled(m, x, expected)
    ensures forall k :: 0 <= k < |m.rows| ==> Vectors(m)[k] == FeatureVector(actives.rows[k], expected)
  {
    forall k | 0 <= k < |m.rows| ensures RowVector(m, k) == FeatureVector(actives.rows[k], expected) {
      forall j | 0 <= j < |expected| ensures RowVector(m, k)[j] == FeatureVector(actives.rows[k], expected)[j] {
        var c := expected[j];
        assert c in actives.rows[k] <==> c in actives.columns;
      }
    }
  }

  /** The rows kept as at risk are the scored active rows predicted not to renew. */
  lemma AtRiskRows(df: Frame, actives: Frame, scored: Frame, risque: Frame, expected: seq<string>,
                   predict: seq<Value> -> int, proba: seq<Value> -> real)
    requires Valid(df) && FilteredBy(actives.rows, df.rows, Mask(df.rows, ActiveRow))
    requires |scored.rows| == |actives.rows|
    requires forall k :: 0 <= k < |actives.rows| ==>
      scored.rows[k] == actives.rows[k][PredictionColumn := Int(predict(FeatureVector(actives.rows[k], expected)))]
                                       [ScoreColumn := Real(proba(FeatureVector(actives.rows[k], expected)))]
    requires FilteredBy(risque.rows, scored.rows, Mask(scored.rows, Predicted))
    ensures FilteredBy(risque.rows, ScoredRows(df, expected, predict, proba), AtRiskMask(df, expected, predict))
  {
    var f := (row: Row) => ScoreRow(row, expected, predict, proba);
    assert forall k :: 0 <= k < |actives.rows| ==> scored.rows[k] == f(actives.rows[k]);
    FilterMapFilter(df.rows, Mask(df.rows, ActiveRow), actives.rows, f, scored.rows, Predicted, risque.rows,
                    AtRiskMask(df, expected, predict));
    assert Apply(df.rows, f) == ScoredRows(df, expected, predict, proba);
  }

  /** The ranked rows are rows of the at-risk frame, so they have its columns. */
  lemma TopRowsValid(risque: Frame, top: seq<Row>)
    requires Valid(risque) && multiset(top) <= multiset(risque.rows)
    ensures Valid(Frame(risque.columns, top))
  {
    forall k | 0 <= k < |top| ensures top[k].Keys == ColumnSet(risque.columns) {
      assert top[k] in multiset(risque.rows);
    }
  }
}
