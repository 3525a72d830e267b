/** Min-max normalisation of a column onto [0, 1]: each entry x becomes
    (x - min) / (max - min).  The tables divide by the range with no guard,
    so a column whose entries are all equal is excluded by the
    precondition `NonDegenerate`. */
module MinMax {
  import opened Stats

  /** The column has at least one entry and its range is not zero. */
  predicate NonDegenerate(xs: seq<real>) {
    |xs| > 0 && Min(xs) < Max(xs)
  }

  /** Position of x on the scale from lo (0) to hi (1). */
  function Unit(x: real, lo: real, hi: real): real
    requires lo < hi
  {
    (x - lo) / (hi - lo)
  }

  /** Inverse of `Unit`: the value at position r on the scale lo..hi. */
  function FromUnit(r: real, lo: real, hi: real): real
    requires lo < hi
  {
    lo + r * (hi - lo)
  }

  /** Values inside [lo, hi] land inside [0, 1]. */
  lemma UnitBounds(x: real, lo: real, hi: real)
    requires lo < hi
    requires lo <= x <= hi
    ensures 0.0 <= Unit(x, lo, hi) <= 1.0
  {
    var d := hi - lo;
    var q := (x - lo) / d;
    assert q * d == x - lo;
  }

  /** The scale sends lo, and only lo, to 0. */
  lemma UnitZero(x: real, lo: real, hi: real)
    requires lo < hi
    ensures Unit(x, lo, hi) == 0.0 <==> x == lo
  {
    var d := hi - lo;
    var q := (x - lo) / d;
    assert q * d == x - lo;
  }

  /** The scale sends hi, and only hi, to 1. */
  lemma UnitOne(x: real, lo: real, hi: real)
    requires lo < hi
    ensures Unit(x, lo, hi) == 1.0 <==> x == hi
  {
    var d := hi - lo;
    var q := (x - lo) / d;
    assert q * d == x - lo;
    assert (q - 1.0) * d == x - hi;
    ProductZero(q - 1.0, d);
  }

  /** A product with a non-zero factor is zero exactly when the other
      factor is. */
  lemma ProductZero(a: real, d: real)
    requires d != 0.0
    ensures a * d == 0.0 <==> a == 0.0
  {
  }

  /** The scale preserves and reflects order. */
  lemma UnitMonotone(x: real, y: real, lo: real, hi: real)
    requires lo < hi
    ensures x <= y <==> Unit(x, lo, hi) <= Unit(y, lo, hi)
  {
    var d := hi - lo;
    var p, q := (x - lo) / d, (y - lo) / d;
    assert p * d == x - lo;
    assert q * d == y - lo;
    assert (q - p) * d == y - x;
  }

  /** `FromUnit` undoes `Unit`. */
  lemma UnitRoundTrip(x: real, lo: real, hi: real)
    requires lo < hi
    ensures FromUnit(Unit(x, lo, hi), lo, hi) == x
  {
    var d := hi - lo;
    var q := (x - lo) / d;
    assert q * d == x - lo;
  }

  /** Measuring x, lo and hi in a unit c > 0 times larger leaves the
      position of x unchanged. */
  lemma UnitScaleInvariant(c: real, x: real, lo: real, hi: real)
    requires c > 0.0
    requires lo < hi
    ensures Times(c, lo) < Times(c, hi)
    ensures Unit(Times(c, x), Times(c, lo), Times(c, hi)) == Unit(x, lo, hi)
  {
    TimesMonotone(c, hi, lo);
    var d := hi - lo;
    var q := (x - lo) / d;
    assert q * d == x - lo;
    assert Times(c, hi) - Times(c, lo) == c * d;
    assert Times(c, x) - Times(c, lo) == c * (x - lo);
    assert (c * (x - lo)) / (c * d) == q;
  }

  /** Every entry placed on the scale lo..hi. */
  function Rescale(xs: seq<real>, lo: real, hi: real): (r: seq<real>)
    requires lo < hi
    ensures |r| == |xs|
    ensures forall i :: 0 <= i < |xs| ==> r[i] == Unit(xs[i], lo, hi)
    decreases |xs|
  {
    if |xs| == 0 then [] else [Unit(xs[0], lo, hi)] + Rescale(xs[1..], lo, hi)
  }

  /** Every entry placed back from the scale lo..hi. */
  function Unscale(rs: seq<real>, lo: real, hi: real): (xs: seq<real>)
    requires lo < hi
    ensures |xs| == |rs|
    ensures forall i :: 0 <= i < |rs| ==> xs[i] == FromUnit(rs[i], lo, hi)
    decreases |rs|
  {
    if |rs| == 0 then [] else [FromUnit(rs[0], lo, hi)] + Unscale(rs[1..], lo, hi)
  }

  /** The min-max normalised column.  Every entry lies in [0, 1]; exactly
      the smallest entries become 0 and exactly the largest become 1; and
      the order between any two entries is kept in both directions. */
  function Normalise(xs: seq<real>): (r: seq<real>)
    requires NonDegenerate(xs)
    ensures |r| == |xs|
    ensures forall i :: 0 <= i < |xs| ==> 0.0 <= r[i] <= 1.0
    ensures forall i :: 0 <= i < |xs| ==> (r[i] == 0.0 <==> xs[i] == Min(xs))
    ensures forall i :: 0 <= i < |xs| ==> (r[i] == 1.0 <==> xs[i] == Max(xs))
    ensures forall i, j :: 0 <= i < |xs| && 0 <= j < |xs| ==>
              (xs[i] <= xs[j] <==> r[i] <= r[j])
  {
    var lo, hi := Min(xs), Max(xs);
    NormaliseFacts(xs, lo, hi);
    Rescale(xs, lo, hi)
  }

  /** The facts `Normalise` promises, for any scale lo..hi that contains
      the column. */
  lemma NormaliseFacts(xs: seq<real>, lo: real, hi: real)
    requires lo < hi
    requires Within(xs, lo, hi)
    ensures forall i :: 0 <= i < |xs| ==> 0.0 <= Rescale(xs, lo, hi)[i] <= 1.0
    ensures forall i :: 0 <= i < |xs| ==> (Rescale(xs, lo, hi)[i] == 0.0 <==> xs[i] == lo)
    ensures forall i :: 0 <= i < |xs| ==> (Rescale(xs, lo, hi)[i] == 1.0 <==> xs[i] == hi)
    ensures forall i, j :: 0 <= i < |xs| && 0 <= j < |xs| ==>
              (xs[i] <= xs[j] <==> Rescale(xs, lo, hi)[i] <= Rescale(xs, lo, hi)[j])
  {
    var r := Rescale(xs, lo, hi);
    forall i | 0 <= i < |xs|
      ensures 0.0 <= r[i] <= 1.0
      ensures r[i] == 0.0 <==> xs[i] == lo
      ensures r[i] == 1.0 <==> xs[i] == hi
    {
      UnitBounds(xs[i], lo, hi);
      UnitZero(xs[i], lo, hi);
      UnitOne(xs[i], lo, hi);
    }
    forall i, j | 0 <= i < |xs| && 0 <= j < |xs|
      ensures xs[i] <= xs[j] <==> r[i] <= r[j]
    {
      UnitMonotone(xs[i], xs[j], lo, hi);
    }
  }

  /** Normalisation loses nothing: the column is recovered from its
      normalised form together with its minimum and maximum. */
  lemma {:induction false} NormaliseRoundTrip(xs: seq<real>)
    requires NonDegenerate(xs)
    ensures Unscale(Normalise(xs), Min(xs), Max(xs)) == xs
  {
    var lo, hi := Min(xs), Max(xs);
    var back := Unscale(Normalise(xs), lo, hi);
    forall i | 0 <= i < |xs| ensures back[i] == xs[i] {
      UnitRoundTrip(xs[i], lo, hi);
    }
  }

  /** Normalisation does not depend on the unit: multiplying every entry
      by the same c > 0 gives the same normalised column. */
  lemma NormaliseScaleInvariant(c: real, xs: seq<real>)
    requires c > 0.0
    requires NonDegenerate(xs)
    ensures NonDegenerate(Scale(c, xs))
    ensures Normalise(Scale(c, xs)) == Normalise(xs)
  {
    var lo, hi := Min(xs), Max(xs);
    var ys := Scale(c, xs);
    ScaleExtremes(c, xs);
    UnitScaleInvariant(c, lo, lo, hi);
    var a, b := Normalise(ys), Normalise(xs);
    forall i | 0 <= i < |xs| ensures a[i] == b[i] {
      UnitScaleInvariant(c, xs[i], lo, hi);
    }
  }
}
