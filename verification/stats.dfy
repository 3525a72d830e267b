/** Column statistics over finite sequences of reals: the `min`, `max`,
    `sum` and `mean` reductions that the edge and grid tables apply to a
    column.  Real arithmetic stands in for floating point. */
module Stats {

  /** Left-to-right total of a column; 0 for an empty column. */
  function Sum(xs: seq<real>): real
    decreases |xs|
  {
    if |xs| == 0 then 0.0 else xs[0] + Sum(xs[1..])
  }

  /** Smallest entry of a non-empty column. */
  function Min(xs: seq<real>): (m: real)
    requires |xs| > 0
    ensures m in xs
    ensures forall i :: 0 <= i < |xs| ==> m <= xs[i]
    decreases |xs|
  {
    if |xs| == 1 then xs[0]
    else
      var rest := Min(xs[1..]);
      if xs[0] <= rest then xs[0] else rest
  }

  /** Largest entry of a non-empty column. */
  function Max(xs: seq<real>): (m: real)
    requires |xs| > 0
    ensures m in xs
    ensures forall i :: 0 <= i < |xs| ==> xs[i] <= m
    decreases |xs|
  {
    if |xs| == 1 then xs[0]
    else
      var rest := Max(xs[1..]);
      if rest <= xs[0] then xs[0] else rest
  }

  /** Every entry lies in the closed interval [lo, hi]. */
  predicate Within(xs: seq<real>, lo: real, hi: real) {
    forall i :: 0 <= i < |xs| ==> lo <= xs[i] <= hi
  }

  /** A column bounded entry-wise by [lo, hi] has a total bounded by
      n*lo and n*hi, where n is its length. */
  lemma {:induction false} SumWithin(xs: seq<real>, lo: real, hi: real)
    requires Within(xs, lo, hi)
    ensures (|xs| as real) * lo <= Sum(xs) <= (|xs| as real) * hi
    decreases |xs|
  {
    if |xs| > 0 {
      var tail := xs[1..];
      assert Within(tail, lo, hi) by {
        forall i | 0 <= i < |tail| ensures lo <= tail[i] <= hi {
          assert tail[i] == xs[i + 1];
        }
      }
      SumWithin(tail, lo, hi);
      assert (|xs| as real) * lo == (|tail| as real) * lo + lo;
      assert (|xs| as real) * hi == (|tail| as real) * hi + hi;
    }
  }

  /** Arithmetic mean of a non-empty column; it lies between the
      column's smallest and largest entries. */
  function Mean(xs: seq<real>): (r: real)
    requires |xs| > 0
    ensures Min(xs) <= r <= Max(xs)
  {
    ExtremesBound(xs);
    QuotientWithin(xs, Min(xs), Max(xs));
    Sum(xs) / (|xs| as real)
  }

  /** The total of a concatenation is the sum of the two totals. */
  lemma {:induction false} SumAppend(a: seq<real>, b: seq<real>)
    ensures Sum(a + b) == Sum(a) + Sum(b)
    decreases |a|
  {
    if |a| > 0 {
      assert (a + b)[1..] == a[1..] + b;
      SumAppend(a[1..], b);
    } else {
      assert a + b == b;
    }
  }

  /** Taking entry k out of a column leaves the rest of its multiset. */
  lemma SplitAt<T>(ys: seq<T>, k: int)
    requires 0 <= k < |ys|
    ensures multiset(ys) == multiset{ys[k]} + multiset(ys[..k] + ys[k + 1..])
  {
    assert ys == ys[..k] + [ys[k]] + ys[k + 1..];
  }

  /** Two orderings of the same entries stay orderings of the same entries
      once the first entry of one and a matching entry of the other are
      taken out. */
  lemma RemoveMatched<T>(xs: seq<T>, ys: seq<T>, k: int)
    requires |xs| > 0 && 0 <= k < |ys| && ys[k] == xs[0]
    requires multiset(xs) == multiset(ys)
    ensures multiset(xs[1..]) == multiset(ys[..k] + ys[k + 1..])
  {
    SplitAt(xs, 0);
    assert xs[..0] + xs[1..] == xs[1..];
    SplitAt(ys, k);
    var rest := ys[..k] + ys[k + 1..];
    forall z: T ensures multiset(xs[1..])[z] == multiset(rest)[z] {
      assert multiset(xs)[z] == multiset(ys)[z];
    }
  }

  /** The total does not depend on the order of the entries. */
  lemma {:induction false} SumPermutation(xs: seq<real>, ys: seq<real>)
    requires multiset(xs) == multiset(ys)
    ensures Sum(xs) == Sum(ys)
    decreases |xs|
  {
    if |xs| > 0 {
      assert xs[0] in multiset(ys);
      var k :| 0 <= k < |ys| && ys[k] == xs[0];
      RemoveMatched(xs, ys, k);
      SumPermutation(xs[1..], ys[..k] + ys[k + 1..]);
      assert ys == ys[..k] + [ys[k]] + ys[k + 1..];
      SumAppend(ys[..k] + [ys[k]], ys[k + 1..]);
      SumAppend(ys[..k], [ys[k]]);
      SumAppend(ys[..k], ys[k + 1..]);
      assert Sum([ys[k]]) == ys[k];
    }
  }

  /** The mean does not depend on the order of the entries. */
  lemma MeanPermutation(xs: seq<real>, ys: seq<real>)
    requires |xs| > 0
    requires multiset(xs) == multiset(ys)
    ensures |ys| > 0
    ensures Mean(xs) == Mean(ys)
  {
    assert |xs| == |multiset(xs)| == |multiset(ys)| == |ys|;
    SumPermutation(xs, ys);
  }

  /** Dividing a total bounded by n*lo and n*hi by n > 0 lands in [lo, hi]. */
  lemma DivideBoundedTotal(s: real, n: real, lo: real, hi: real)
    requires n > 0.0
    requires n * lo <= s <= n * hi
    ensures lo <= s / n <= hi
  {
    var q := s / n;
    assert q * n == s;
  }

  /** Total over count of a column bounded by [lo, hi] is in [lo, hi]. */
  lemma QuotientWithin(xs: seq<real>, lo: real, hi: real)
    requires |xs| > 0
    requires Within(xs, lo, hi)
    ensures lo <= Sum(xs) / (|xs| as real) <= hi
  {
    SumWithin(xs, lo, hi);
    DivideBoundedTotal(Sum(xs), |xs| as real, lo, hi);
  }

  /** A column lies between its own extremes. */
  lemma ExtremesBound(xs: seq<real>)
    requires |xs| > 0
    ensures Within(xs, Min(xs), Max(xs))
  {
  }

  /** A column bounded entry-wise by [lo, hi] has its mean in [lo, hi]. */
  lemma MeanWithin(xs: seq<real>, lo: real, hi: real)
    requires |xs| > 0
    requires Within(xs, lo, hi)
    ensures lo <= Mean(xs) <= hi
  {
    QuotientWithin(xs, lo, hi);
  }

  /** The value m is the minimum exactly when it is an entry no larger
      than any other entry. */
  lemma MinCharacterised(xs: seq<real>, m: real)
    requires m in xs
    requires forall i :: 0 <= i < |xs| ==> m <= xs[i]
    ensures m == Min(xs)
  {
    var k :| 0 <= k < |xs| && xs[k] == m;
    assert Min(xs) <= xs[k];
  }

  /** The value m is the maximum exactly when it is an entry no smaller
      than any other entry. */
  lemma MaxCharacterised(xs: seq<real>, m: real)
    requires m in xs
    requires forall i :: 0 <= i < |xs| ==> xs[i] <= m
    ensures m == Max(xs)
  {
    var k :| 0 <= k < |xs| && xs[k] == m;
    assert xs[k] <= Max(xs);
  }

  /** The product c * x, named so that facts about it are stated once,
      over plain scalars, and reused by congruence. */
  function Times(c: real, x: real): real {
    c * x
  }

  /** Multiplying by a positive constant preserves and reflects order. */
  lemma TimesMonotone(c: real, x: real, y: real)
    requires c > 0.0
    ensures x <= y <==> Times(c, x) <= Times(c, y)
  {
    assert Times(c, y) - Times(c, x) == c * (y - x);
  }

  /** The column multiplied entry-wise by c (a change of unit). */
  function Scale(c: real, xs: seq<real>): (ys: seq<real>)
    ensures |ys| == |xs|
    ensures forall i :: 0 <= i < |xs| ==> ys[i] == Times(c, xs[i])
    decreases |xs|
  {
    if |xs| == 0 then [] else [Times(c, xs[0])] + Scale(c, xs[1..])
  }

  /** Scaling by c > 0 keeps a least entry least. */
  lemma ScaleLeast(c: real, xs: seq<real>, a: int)
    requires c > 0.0
    requires 0 <= a < |xs|
    requires forall i :: 0 <= i < |xs| ==> xs[a] <= xs[i]
    ensures Min(Scale(c, xs)) == Times(c, xs[a])
  {
    var ys := Scale(c, xs);
    var m := Min(ys);
    var k :| 0 <= k < |ys| && ys[k] == m;
    assert m <= ys[a];
    TimesMonotone(c, xs[a], xs[k]);
  }

  /** Scaling by c > 0 keeps a greatest entry greatest. */
  lemma ScaleGreatest(c: real, xs: seq<real>, b: int)
    requires c > 0.0
    requires 0 <= b < |xs|
    requires forall i :: 0 <= i < |xs| ==> xs[i] <= xs[b]
    ensures Max(Scale(c, xs)) == Times(c, xs[b])
  {
    var ys := Scale(c, xs);
    var m := Max(ys);
    var k :| 0 <= k < |ys| && ys[k] == m;
    assert ys[b] <= m;
    TimesMonotone(c, xs[k], xs[b]);
  }

  /** A positive change of unit scales the minimum and maximum with it. */
  lemma ScaleExtremes(c: real, xs: seq<real>)
    requires c > 0.0
    requires |xs| > 0
    ensures Min(Scale(c, xs)) == Times(c, Min(xs))
    ensures Max(Scale(c, xs)) == Times(c, Max(xs))
  {
    var lo, hi := Min(xs), Max(xs);
    var a :| 0 <= a < |xs| && xs[a] == lo;
    var b :| 0 <= b < |xs| && xs[b] == hi;
    ScaleLeast(c, xs, a);
    ScaleGreatest(c, xs, b);
  }
}
