/** The blended edge weight: distance_factor * length_norm +
    heat_factor * heat_norm.  The factors are configuration, passed in as
    a value; by convention they lie in [0, 1] and sum to 1, but nothing
    enforces that. */
module Blend {
  import opened Stats

  /** Weights on the normalised distance and the normalised heat. */
  datatype Factors = Factors(distance: real, heat: real)

  /** The shipped configuration: distance only, heat ignored. */
  const Default: Factors := Factors(1.0, 0.0)

  /** The heat-only configuration. */
  const HeatOnly: Factors := Factors(0.0, 1.0)

  /** Non-negative factors that sum to 1 (a convex combination). */
  predicate Convex(f: Factors) {
    f.distance >= 0.0 && f.heat >= 0.0 && f.distance + f.heat == 1.0
  }

  /** Blended cost of one edge from its normalised length and heat. */
  function Cost(f: Factors, lengthNorm: real, heatNorm: real): (c: real)
    ensures f == Default ==> c == lengthNorm
    ensures f == HeatOnly ==> c == heatNorm
  {
    f.distance * lengthNorm + f.heat * heatNorm
  }

  /** A convex blend lies between its two inputs, whichever is larger. */
  lemma ConvexCostBetween(f: Factors, a: real, b: real)
    requires Convex(f)
    ensures a <= b ==> a <= Cost(f, a, b) <= b
    ensures b <= a ==> b <= Cost(f, a, b) <= a
  {
    var c := Cost(f, a, b);
    assert c - a == f.heat * (b - a);
    assert b - c == f.distance * (b - a);
    if a <= b {
      ProductNonNegative(f.heat, b - a);
      ProductNonNegative(f.distance, b - a);
    } else {
      assert a - c == f.heat * (a - b);
      assert c - b == f.distance * (a - b);
      ProductNonNegative(f.heat, a - b);
      ProductNonNegative(f.distance, a - b);
    }
  }

  /** The product of two non-negative reals is non-negative. */
  lemma ProductNonNegative(x: real, y: real)
    requires x >= 0.0 && y >= 0.0
    ensures x * y >= 0.0
  {
  }

  /** Blended cost of every edge, in table order. */
  function Costs(f: Factors, lengthNorm: seq<real>, heatNorm: seq<real>): (r: seq<real>)
    requires |lengthNorm| == |heatNorm|
    ensures |r| == |lengthNorm|
    ensures forall i :: 0 <= i < |r| ==> r[i] == Cost(f, lengthNorm[i], heatNorm[i])
    decreases |lengthNorm|
  {
    if |lengthNorm| == 0 then []
    else [Cost(f, lengthNorm[0], heatNorm[0])] + Costs(f, lengthNorm[1..], heatNorm[1..])
  }

  /** The default factors (1, 0) give exactly the normalised length. */
  lemma DefaultIsLength(lengthNorm: seq<real>, heatNorm: seq<real>)
    requires |lengthNorm| == |heatNorm|
    ensures Costs(Default, lengthNorm, heatNorm) == lengthNorm
  {
  }

  /** The factors (0, 1) give exactly the normalised heat. */
  lemma HeatOnlyIsHeat(lengthNorm: seq<real>, heatNorm: seq<real>)
    requires |lengthNorm| == |heatNorm|
    ensures Costs(HeatOnly, lengthNorm, heatNorm) == heatNorm
  {
  }

  /** Convex factors applied to columns within [0, 1] give costs within
      [0, 1]. */
  lemma ConvexCostsInUnit(f: Factors, lengthNorm: seq<real>, heatNorm: seq<real>)
    requires Convex(f)
    requires |lengthNorm| == |heatNorm|
    requires Within(lengthNorm, 0.0, 1.0) && Within(heatNorm, 0.0, 1.0)
    ensures Within(Costs(f, lengthNorm, heatNorm), 0.0, 1.0)
  {
    var r := Costs(f, lengthNorm, heatNorm);
    forall i | 0 <= i < |r| ensures 0.0 <= r[i] <= 1.0 {
      ConvexCostBetween(f, lengthNorm[i], heatNorm[i]);
    }
  }
}
