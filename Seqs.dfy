/** Sequences filtered by a boolean mask.

    A pandas boolean row index `df[mask]` keeps the rows whose mask entry is
    true, in their original order.  `Select` computes that selection and
    `FilteredBy` states what it means: the k-th kept element sits at
    position k of the result, and nothing else is there. */
module Seqs {

  /** No element occurs twice. */
  predicate Distinct<T(==)>(s: seq<T>) {
    forall i, j :: 0 <= i < j < |s| ==> s[i] != s[j]
  }

  /** Number of true entries of a mask. */
  function CountTrue(keep: seq<bool>): (n: nat)
    ensures n <= |keep|
    ensures n == |keep| <==> forall i :: 0 <= i < |keep| ==> keep[i]
  {
    if |keep| == 0 then 0
    else
      var init := keep[..|keep| - 1];
      assert forall i :: 0 <= i < |init| ==> init[i] == keep[i];
      CountTrue(init) + (if keep[|keep| - 1] then 1 else 0)
  }

  /** The mask of a predicate over a sequence. */
  function Mask<T>(s: seq<T>, p: T -> bool): (m: seq<bool>)
    ensures |m| == |s|
    ensures forall i :: 0 <= i < |s| ==> m[i] == p(s[i])
  {
    seq(|s|, i requires 0 <= i < |s| => p(s[i]))
  }

  /** `f` applied to every element. */
  function Apply<T, U>(s: seq<T>, f: T -> U): (r: seq<U>)
    ensures |r| == |s|
    ensures forall i :: 0 <= i < |s| ==> r[i] == f(s[i])
  {
    seq(|s|, i requires 0 <= i < |s| => f(s[i]))
  }

  /** The elements of `s` whose mask entry is true, in order. */
  function Select<T>(s: seq<T>, keep: seq<bool>): (r: seq<T>)
    requires |keep| == |s|
    ensures |r| == CountTrue(keep)
  {
    if |s| == 0 then []
    else
      Select(s[..|s| - 1], keep[..|keep| - 1]) + (if keep[|s| - 1] then [s[|s| - 1]] else [])
  }

  /** `out` is exactly the elements of `s` kept by `keep`, in their order:
      each kept element `s[i]` is at the position given by the number of kept
      elements before it, and `out` holds as many elements as are kept. */
  ghost predicate FilteredBy<T>(out: seq<T>, s: seq<T>, keep: seq<bool>) {
    |keep| == |s| && |out| == CountTrue(keep) &&
    forall i :: 0 <= i < |s| && keep[i] ==>
      CountTrue(keep[..i]) < |out| && out[CountTrue(keep[..i])] == s[i]
  }

  lemma {:induction false} CountTrueMonotone(keep: seq<bool>, a: nat, b: nat)
    requires a <= b <= |keep|
    ensures CountTrue(keep[..a]) <= CountTrue(keep[..b])
    ensures a < b && keep[a] ==> CountTrue(keep[..a]) < CountTrue(keep[..b])
    decreases b - a
  {
    if a < b {
      assert keep[..b][..b - 1] == keep[..b - 1];
      CountTrueMonotone(keep, a, b - 1);
      if a == b - 1 {
        assert keep[..b][b - 1] == keep[a];
      }
    }
  }

  lemma {:induction false} SelectAt<T>(s: seq<T>, keep: seq<bool>, i: nat)
    requires |keep| == |s| && i < |s| && keep[i]
    ensures CountTrue(keep[..i]) < |Select(s, keep)|
    ensures Select(s, keep)[CountTrue(keep[..i])] == s[i]
    decreases |s|
  {
    var n := |s| - 1;
    var si, ki := s[..n], keep[..n];
    if i == n {
      assert ki == keep[..i];
    } else {
      SelectAt(si, ki, i);
      assert ki[..i] == keep[..i];
      CountTrueMonotone(keep, i, n);
    }
  }

  /** `Select` computes the selection `FilteredBy` specifies. */
  lemma SelectFiltered<T>(s: seq<T>, keep: seq<bool>)
    requires |keep| == |s|
    ensures FilteredBy(Select(s, keep), s, keep)
  {
    forall i | 0 <= i < |s| && keep[i]
      ensures CountTrue(keep[..i]) < |Select(s, keep)| && Select(s, keep)[CountTrue(keep[..i])] == s[i]
    {
      SelectAt(s, keep, i);
    }
  }

  /** Every position below the number of kept entries is the rank of some kept entry. */
  lemma {:induction false} KeptIndexAt(keep: seq<bool>, k: nat) returns (i: nat)
    requires k < CountTrue(keep)
    ensures i < |keep| && keep[i] && CountTrue(keep[..i]) == k
    decreases |keep|
  {
    var n := |keep| - 1;
    var init := keep[..n];
    if k < CountTrue(init) {
      i := KeptIndexAt(init, k);
      assert init[..i] == keep[..i];
    } else {
      i := n;
      assert init == keep[..i];
    }
  }

  /** Every element of a filtered sequence is a kept element of the source,
      and later positions come from later source positions. */
  lemma FilteredSource<T>(out: seq<T>, s: seq<T>, keep: seq<bool>, k: nat) returns (i: nat)
    requires FilteredBy(out, s, keep) && k < |out|
    ensures i < |s| && keep[i] && out[k] == s[i] && CountTrue(keep[..i]) == k
  {
    i := KeptIndexAt(keep, k);
  }

  /** The specification determines the filtered sequence completely. */
  lemma FilteredUnique<T>(a: seq<T>, b: seq<T>, s: seq<T>, keep: seq<bool>)
    requires FilteredBy(a, s, keep) && FilteredBy(b, s, keep)
    ensures a == b
  {
    forall k | 0 <= k < |a| ensures a[k] == b[k] {
      var i := KeptIndexAt(keep, k);
    }
  }

  /** Applying a function to every element commutes with filtering. */
  lemma FilteredMap<T, U>(out: seq<T>, s: seq<T>, keep: seq<bool>, outU: seq<U>, sU: seq<U>, f: T -> U)
    requires FilteredBy(out, s, keep)
    requires |outU| == |out| && forall k :: 0 <= k < |out| ==> outU[k] == f(out[k])
    requires |sU| == |s| && forall i :: 0 <= i < |s| ==> sU[i] == f(s[i])
    ensures FilteredBy(outU, sU, keep)
  {
  }

  /** A filtered sequence avoids `x` exactly when every kept element does. */
  lemma FilteredAvoids<T>(out: seq<T>, s: seq<T>, keep: seq<bool>, x: T)
    requires FilteredBy(out, s, keep)
    ensures (forall k :: 0 <= k < |out| ==> out[k] != x) <==> (forall i :: 0 <= i < |s| && keep[i] ==> s[i] != x)
  {
    if forall i :: 0 <= i < |s| && keep[i] ==> s[i] != x {
      forall k | 0 <= k < |out| ensures out[k] != x {
        var i := FilteredSource(out, s, keep, k);
      }
    }
  }

  /** Selection distributes over concatenation. */
  lemma {:induction false} SelectAppend<T>(a: seq<T>, ka: seq<bool>, b: seq<T>, kb: seq<bool>)
    requires |ka| == |a| && |kb| == |b|
    ensures Select(a + b, ka + kb) == Select(a, ka) + Select(b, kb)
    decreases |b|
  {
    if |b| == 0 {
      assert a + b == a && ka + kb == ka;
    } else {
      var n := |b| - 1;
      assert (a + b)[..|a + b| - 1] == a + b[..n];
      assert (ka + kb)[..|ka + kb| - 1] == ka + kb[..n];
      SelectAppend(a, ka, b[..n], kb[..n]);
    }
  }

  /** The conjunction of a mask and a predicate on the elements. */
  function AndMask<T>(s: seq<T>, keep: seq<bool>, p: T -> bool): (m: seq<bool>)
    requires |keep| == |s|
    ensures |m| == |s|
    ensures forall i :: 0 <= i < |s| ==> m[i] == (keep[i] && p(s[i]))
  {
    seq(|s|, i requires 0 <= i < |s| => keep[i] && p(s[i]))
  }

  /** Filtering twice, the second time by a predicate on the elements, is
      filtering once by the conjunction. */
  lemma {:induction false} SelectSelect<T>(s: seq<T>, keep: seq<bool>, p: T -> bool)
    requires |keep| == |s|
    ensures Select(Select(s, keep), Mask(Select(s, keep), p)) == Select(s, AndMask(s, keep, p))
    decreases |s|
  {
    if |s| > 0 {
      var n := |s| - 1;
      var si, ki := s[..n], keep[..n];
      SelectSelect(si, ki, p);
      var once := Select(si, ki);
      var tail: seq<T> := if keep[n] then [s[n]] else [];
      SelectLast(s, keep);
      assert Select(s, keep) == once + tail;
      var both := AndMask(s, keep, p);
      var last: seq<T> := if both[n] then [s[n]] else [];
      SelectMaskAppend(once, tail, p);
      assert Select(tail, Mask(tail, p)) == last by {
        if keep[n] {
          SelectLast(tail, Mask(tail, p));
        }
      }
      AndMaskPrefix(s, keep, p, n);
      SelectLast(s, both);
      assert Select(s, both) == Select(si, AndMask(si, ki, p)) + last;
    }
  }

  lemma AndMaskPrefix<T>(s: seq<T>, keep: seq<bool>, p: T -> bool, n: nat)
    requires |keep| == |s| && n <= |s|
    ensures AndMask(s, keep, p)[..n] == AndMask(s[..n], keep[..n], p)
  {
    var a, b := AndMask(s, keep, p)[..n], AndMask(s[..n], keep[..n], p);
    assert |a| == |b|;
    forall i | 0 <= i < n ensures a[i] == b[i] {
      assert s[..n][i] == s[i] && keep[..n][i] == keep[i];
    }
  }

  /** Selecting by a predicate distributes over concatenation. */
  lemma SelectMaskAppend<T>(a: seq<T>, b: seq<T>, p: T -> bool)
    ensures Select(a + b, Mask(a + b, p)) == Select(a, Mask(a, p)) + Select(b, Mask(b, p))
  {
    MaskAppend(a, b, p);
    SelectAppend(a, Mask(a, p), b, Mask(b, p));
  }

  /** The definition of `Select`, one step. */
  lemma SelectLast<T>(s: seq<T>, keep: seq<bool>)
    requires |keep| == |s| > 0
    ensures Select(s, keep) == Select(s[..|s| - 1], keep[..|s| - 1]) + (if keep[|s| - 1] then [s[|s| - 1]] else [])
  {
  }

  lemma MaskAppend<T>(a: seq<T>, b: seq<T>, p: T -> bool)
    ensures Mask(a + b, p) == Mask(a, p) + Mask(b, p)
  {
  }

  /** Filtering twice, the second time by a predicate on the elements, is
      filtering once by the conjunction. */
  lemma FilterFilter<T>(s: seq<T>, keep: seq<bool>, mid: seq<T>, p: T -> bool, fin: seq<T>)
    requires FilteredBy(mid, s, keep) && FilteredBy(fin, mid, Mask(mid, p))
    ensures FilteredBy(fin, s, AndMask(s, keep, p))
  {
    SelectFiltered(s, keep);
    FilteredUnique(mid, Select(s, keep), s, keep);
    SelectFiltered(mid, Mask(mid, p));
    FilteredUnique(fin, Select(mid, Mask(mid, p)), mid, Mask(mid, p));
    SelectSelect(s, keep, p);
    SelectFiltered(s, AndMask(s, keep, p));
  }

  /** A filtering carries over to sequences that correspond element by element. */
  lemma FilteredTransfer<T, U>(fin: seq<T>, s: seq<T>, keep: seq<bool>, out: seq<U>, all: seq<U>)
    requires FilteredBy(fin, s, keep) && |out| == |fin| && |all| == |s|
    requires forall k, i :: 0 <= k < |fin| && 0 <= i < |s| && fin[k] == s[i] ==> out[k] == all[i]
    ensures FilteredBy(out, all, keep)
  {
  }

  /** Filtering twice and then transforming every survivor is transforming
      the source and filtering it once by the conjunction of the two
      conditions: `out` holds the survivors `fin` transformed, and `all` the
      whole source transformed the same way. */
  lemma FilterFilterMap<T, U>(s: seq<T>, keep: seq<bool>, mid: seq<T>, p: T -> bool, fin: seq<T>,
                              out: seq<U>, all: seq<U>, both: seq<bool>)
    requires FilteredBy(mid, s, keep) && FilteredBy(fin, mid, Mask(mid, p))
    requires |out| == |fin| && |all| == |s|
    requires forall k, i :: 0 <= k < |fin| && 0 <= i < |s| && fin[k] == s[i] ==> out[k] == all[i]
    requires |both| == |s| && forall i :: 0 <= i < |s| ==> both[i] == (keep[i] && p(s[i]))
    ensures FilteredBy(out, all, both)
  {
    FilterFilter(s, keep, mid, p, fin);
    assert both == AndMask(s, keep, p);
    FilteredTransfer(fin, s, both, out, all);
  }

  /** Filtering, transforming the survivors and filtering them again by a
      predicate on the transformed elements is transforming the whole source
      and filtering it once by the conjunction. */
  lemma FilterMapFilter<T, U>(s: seq<T>, keep: seq<bool>, mid: seq<T>, f: T -> U, mapped: seq<U>,
                              p: U -> bool, fin: seq<U>, both: seq<bool>)
    requires FilteredBy(mid, s, keep)
    requires |mapped| == |mid| && forall k :: 0 <= k < |mid| ==> mapped[k] == f(mid[k])
    requires FilteredBy(fin, mapped, Mask(mapped, p))
    requires |both| == |s| && forall i :: 0 <= i < |s| ==> both[i] == (keep[i] && p(f(s[i])))
    ensures FilteredBy(fin, Apply(s, f), both)
  {
    var all := Apply(s, f);
    FilteredMap(mid, s, keep, mapped, all, f);
    FilterFilterMap(all, keep, mapped, p, fin, fin, all, both);
  }

  /** The mask keeping the first occurrence of every element. */
  function FirstOccurrences<T(==)>(s: seq<T>): (m: seq<bool>)
    ensures |m| == |s|
    ensures forall i :: 0 <= i < |s| ==> (m[i] <==> s[i] !in s[..i])
  {
    seq(|s|, i requires 0 <= i < |s| => s[i] !in s[..i])
  }

  /** Index of the first occurrence of an element. */
  function FirstIndex<T(==)>(s: seq<T>, x: T): (i: nat)
    requires x in s
    ensures i < |s| && s[i] == x && x !in s[..i]
  {
    if s[0] == x then 0
    else
      var j := FirstIndex(s[1..], x);
      assert s[..j + 1] == [s[0]] + s[1..][..j];
      j + 1
  }

  /** Keeping first occurrences leaves no duplicate. */
  lemma DedupDistinct<T>(s: seq<T>)
    ensures Distinct(Select(s, FirstOccurrences(s)))
  {
    var keep := FirstOccurrences(s);
    var out := Select(s, keep);
    SelectFiltered(s, keep);
    forall j, k | 0 <= j < k < |out| ensures out[j] != out[k] {
      var i1 := FilteredSource(out, s, keep, j);
      var i2 := FilteredSource(out, s, keep, k);
      if i2 <= i1 {
        CountTrueMonotone(keep, i2, i1);
      }
      assert s[i1] == s[..i2][i1];
    }
  }

  /** Keeping first occurrences loses no element. */
  lemma DedupCovers<T>(s: seq<T>, x: T)
    requires x in s
    ensures x in Select(s, FirstOccurrences(s))
  {
    var keep := FirstOccurrences(s);
    SelectFiltered(s, keep);
    var f := FirstIndex(s, x);
    assert keep[f];
  }

  /** Keeping first occurrences loses no element, stated for every element. */
  lemma DedupCoversAll<T>(s: seq<T>)
    ensures forall i :: 0 <= i < |s| ==> s[i] in Select(s, FirstOccurrences(s))
  {
    forall i | 0 <= i < |s| ensures s[i] in Select(s, FirstOccurrences(s)) {
      DedupCovers(s, s[i]);
    }
  }

  /** The elements of `s` that belong to `a`, in the order of `s`. */
  function Keep<T>(s: seq<T>, a: set<T>): (r: seq<T>)
    ensures FilteredBy(r, s, Mask(s, x => x in a))
  {
    SelectFiltered(s, Mask(s, x => x in a));
    Select(s, Mask(s, x => x in a))
  }

  /** What `Keep` contains. */
  lemma KeepMembers<T>(s: seq<T>, a: set<T>, x: T)
    ensures x in Keep(s, a) <==> x in s && x in a
  {
    var keep := Mask(s, y => y in a);
    var r := Keep(s, a);
    if x in r {
      var k :| 0 <= k < |r| && r[k] == x;
      var i := FilteredSource(r, s, keep, k);
    }
    if x in s && x in a {
      var i :| 0 <= i < |s| && s[i] == x;
      assert keep[i];
    }
  }

  /** `Keep` of a sequence without duplicates has none either. */
  lemma KeepDistinct<T>(s: seq<T>, a: set<T>)
    requires Distinct(s)
    ensures Distinct(Keep(s, a))
  {
    var keep := Mask(s, y => y in a);
    var r := Keep(s, a);
    forall j, k | 0 <= j < k < |r| ensures r[j] != r[k] {
      var i1 := FilteredSource(r, s, keep, j);
      var i2 := FilteredSource(r, s, keep, k);
      if i1 == i2 {
      } else if i2 < i1 {
        CountTrueMonotone(keep, i2, i1);
      }
    }
  }
}
