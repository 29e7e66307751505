/** Column anonymisation: the listed columns that the frame has are replaced,
    cell by cell, by the SHA-256 hex digest of the cell's string form.  The
    digest is a parameter: `sha(s)` stands for the hex digest of the UTF-8
    bytes of `s`. */
module Anonymisation {
  import opened Seqs
  import opened Frames

  /** One cell hashed: `sha256(str(v).encode()).hexdigest()`. */
  function HashCell(v: Value, sha: string -> string): Value {
    Str(sha(ToStr(v)))
  }

  /** `hash_column`: the column's cells hashed one by one, in place. */
  function HashColumn(values: seq<Value>, sha: string -> string): (r: seq<Value>)
    ensures |r| == |values|
    ensures forall i :: 0 <= i < |values| ==> r[i] == Str(sha(ToStr(values[i])))
  {
    seq(|values|, i requires 0 <= i < |values| => HashCell(values[i], sha))
  }

  /** A cell hashed `n` times over: a column listed `n` times is hashed once
      per listing, the later times hashing the digest text. */
  function HashTimes(v: Value, n: nat, sha: string -> string): Value
    decreases n
  {
    if n == 0 then v else HashCell(HashTimes(v, n - 1, sha), sha)
  }

  /** Hashed once or more, a cell depends on the cell's string form alone. */
  lemma {:induction false} HashTimesByForm(v: Value, w: Value, n: nat, sha: string -> string)
    requires n >= 1 && ToStr(v) == ToStr(w)
    ensures HashTimes(v, n, sha) == HashTimes(w, n, sha)
    decreases n
  {
    if n > 1 {
      HashTimesByForm(v, w, n - 1, sha);
    }
  }

  /** Every cell of `f` is the cell of `df` hashed once per listing of its
      column among `listed`. */
  ghost predicate HashedAsListed(f: Frame, df: Frame, listed: seq<string>, sha: string -> string) {
    Valid(df) && Valid(f) && f.columns == df.columns && |f.rows| == |df.rows| &&
    forall i, c :: 0 <= i < |df.rows| && c in df.columns ==>
      f.rows[i][c] == HashTimes(df.rows[i][c], multiset(listed)[c], sha)
  }

  /** `anonymiser_dataframe`: on a copy of the frame, each listed column that
      is present is replaced by its hashed column; absent ones are skipped. */
  method Anonymise(df: Frame, listed: seq<string>, sha: string -> string) returns (r: Frame)
    requires Valid(df)
    ensures Valid(r) && r.columns == df.columns && |r.rows| == |df.rows|
    ensures forall i, c :: 0 <= i < |df.rows| && c in df.columns ==>
      r.rows[i][c] == HashTimes(df.rows[i][c], multiset(listed)[c], sha)
  {
    var f := df;
    for k := 0 to |listed|
      invariant HashedAsListed(f, df, listed[..k], sha)
    {
      f := AnonymiseStep(f, df, listed, k, sha);
    }
    assert listed[..|listed|] == listed;
    r := f;
  }

  /** One turn of the loop: the `k`-th listed column, when present, is hashed. */
  method AnonymiseStep(f: Frame, df: Frame, listed: seq<string>, k: nat, sha: string -> string) returns (g: Frame)
    requires k < |listed| && HashedAsListed(f, df, listed[..k], sha)
    ensures HashedAsListed(g, df, listed[..k + 1], sha)
  {
    var c := listed[k];
    assert listed[..k + 1] == listed[..k] + [c];
    var before, after := multiset(listed[..k]), multiset(listed[..k + 1]);
    assert after == before + multiset{c};
    if c in f.columns {
      g := SetColumn(f, c, HashColumn(Column(f, c), sha));
      forall i, d | 0 <= i < |df.rows| && d in df.columns
        ensures g.rows[i][d] == HashTimes(df.rows[i][d], after[d], sha)
      {
        HashedCell(f.rows[i], g.rows[i], df.rows[i], c, d, before, after, sha);
      }
    } else {
      g := f;
    }
  }

  /** One cell after hashing column `c` once more. */
  lemma HashedCell(fr: Row, gr: Row, dr: Row, c: string, d: string,
                   before: multiset<string>, after: multiset<string>, sha: string -> string)
    requires c in fr && d in fr && d in dr && gr == fr[c := HashCell(fr[c], sha)]
    requires fr[d] == HashTimes(dr[d], before[d], sha) && after == before + multiset{c}
    ensures gr[d] == HashTimes(dr[d], after[d], sha)
  {
    if d == c {
      assert after[d] == before[d] + 1;
    } else {
      assert after[d] == before[d];
    }
  }

  /** A column listed once has every cell replaced by the hash of its string form. */
  lemma ListedOnce(df: Frame, r: Frame, listed: seq<string>, sha: string -> string, c: string)
    requires HashedAsListed(r, df, listed, sha) && c in df.columns && multiset(listed)[c] == 1
    ensures forall i :: 0 <= i < |df.rows| ==> r.rows[i][c] == Str(sha(ToStr(df.rows[i][c])))
  {
    forall i | 0 <= i < |df.rows| ensures r.rows[i][c] == Str(sha(ToStr(df.rows[i][c]))) {
      assert HashTimes(df.rows[i][c], 1, sha) == HashCell(HashTimes(df.rows[i][c], 0, sha), sha);
    }
  }

  /** A column not listed is left as it was. */
  lemma UnlistedUnchanged(df: Frame, r: Frame, listed: seq<string>, sha: string -> string, c: string)
    requires HashedAsListed(r, df, listed, sha) && c in df.columns && c !in listed
    ensures forall i :: 0 <= i < |df.rows| ==> r.rows[i][c] == df.rows[i][c]
  {
    assert multiset(listed)[c] == 0;
  }

  /** Two cells of a listed column with the same string form end up equal. */
  lemma SameFormSameHash(df: Frame, r: Frame, listed: seq<string>, sha: string -> string, c: string, i: nat, j: nat)
    requires HashedAsListed(r, df, listed, sha) && c in listed && c in df.columns
    requires i < |df.rows| && j < |df.rows| && ToStr(df.rows[i][c]) == ToStr(df.rows[j][c])
    ensures r.rows[i][c] == r.rows[j][c]
  {
    assert multiset(listed)[c] >= 1;
    HashTimesByForm(df.rows[i][c], df.rows[j][c], multiset(listed)[c], sha);
  }
}
