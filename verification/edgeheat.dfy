/** Per-edge heat: the spatial join pairs every street edge with the grid
    cells it intersects; an edge's score is the mean heat score of those
    cells, left unset when it meets none, and unset scores are then filled
    with the mean of the scores that were set. */
module EdgeHeat {
  import opened Wrappers
  import opened Stats

  /** The cells one edge intersects, as indices into the grid (one entry per
      joined row), all of which name existing cells. */
  predicate HitsValid(nCells: nat, hits: seq<nat>) {
    forall k :: 0 <= k < |hits| ==> hits[k] < nCells
  }

  /** A join result for a whole edge table: entry e lists the cells that
      edge e intersects. */
  predicate JoinValid(nCells: nat, join: seq<seq<nat>>) {
    forall e :: 0 <= e < |join| ==> HitsValid(nCells, join[e])
  }

  /** The heat scores of the cells one edge intersects. */
  function Gather(cellHeat: seq<real>, hits: seq<nat>): (v: seq<real>)
    requires HitsValid(|cellHeat|, hits)
    ensures |v| == |hits|
    ensures forall k :: 0 <= k < |hits| ==> v[k] == cellHeat[hits[k]]
    decreases |hits|
  {
    if |hits| == 0 then [] else [cellHeat[hits[0]]] + Gather(cellHeat, hits[1..])
  }

  /** Aggregated score of one edge: the arithmetic mean of the heat scores
      of the cells it intersects, or unset when it intersects none.  A set
      score lies between the lowest and the highest of those cells. */
  function EdgeScore(cellHeat: seq<real>, hits: seq<nat>): (r: Option<real>)
    requires HitsValid(|cellHeat|, hits)
    ensures r.None? <==> |hits| == 0
    ensures r.Some? ==> exists k :: 0 <= k < |hits| && cellHeat[hits[k]] <= r.value
    ensures r.Some? ==> exists k :: 0 <= k < |hits| && r.value <= cellHeat[hits[k]]
  {
    if |hits| == 0 then None
    else
      var v := Gather(cellHeat, hits);
      var lo, hi := Min(v), Max(v);
      var m := Mean(v);
      assert lo <= m <= hi;
      Some(m)
  }

  /** When every intersected cell scores within [lo, hi], so does the edge. */
  lemma EdgeScoreWithin(cellHeat: seq<real>, hits: seq<nat>, lo: real, hi: real)
    requires HitsValid(|cellHeat|, hits)
    requires forall k :: 0 <= k < |hits| ==> lo <= cellHeat[hits[k]] <= hi
    ensures EdgeScore(cellHeat, hits).Some? ==> lo <= EdgeScore(cellHeat, hits).value <= hi
  {
    if |hits| > 0 {
      var v := Gather(cellHeat, hits);
      MeanWithin(v, lo, hi);
    }
  }

  /** An edge meeting a single cell takes that cell's score. */
  lemma EdgeScoreSingle(cellHeat: seq<real>, c: nat)
    requires c < |cellHeat|
    ensures EdgeScore(cellHeat, [c]) == Some(cellHeat[c])
  {
    var v := Gather(cellHeat, [c]);
    assert v == [cellHeat[c]];
    assert Sum(v) == cellHeat[c];
  }

  /** Reordering the joined rows of an edge reorders its gathered scores
      the same way. */
  lemma {:induction false} GatherPermutation(cellHeat: seq<real>, hits: seq<nat>, hits2: seq<nat>)
    requires HitsValid(|cellHeat|, hits) && HitsValid(|cellHeat|, hits2)
    requires multiset(hits) == multiset(hits2)
    ensures multiset(Gather(cellHeat, hits)) == multiset(Gather(cellHeat, hits2))
    decreases |hits|
  {
    if |hits| == 0 {
      assert |hits2| == |multiset(hits2)| == 0;
    } else {
      assert hits[0] in multiset(hits2);
      var k :| 0 <= k < |hits2| && hits2[k] == hits[0];
      RemoveMatched(hits, hits2, k);
      var rest := hits2[..k] + hits2[k + 1..];
      GatherPermutation(cellHeat, hits[1..], rest);
      var g := Gather(cellHeat, hits);
      var g2 := Gather(cellHeat, hits2);
      assert Gather(cellHeat, rest) == g2[..k] + g2[k + 1..];
      assert Gather(cellHeat, hits[1..]) == g[1..];
      SplitAt(g, 0);
      assert g[..0] + g[1..] == g[1..];
      SplitAt(g2, k);
    }
  }

  /** An edge's score does not depend on the order in which the join lists
      the cells it meets. */
  lemma EdgeScoreOrderFree(cellHeat: seq<real>, hits: seq<nat>, hits2: seq<nat>)
    requires HitsValid(|cellHeat|, hits) && HitsValid(|cellHeat|, hits2)
    requires multiset(hits) == multiset(hits2)
    ensures EdgeScore(cellHeat, hits) == EdgeScore(cellHeat, hits2)
  {
    assert |hits| == |multiset(hits)| == |multiset(hits2)| == |hits2|;
    if |hits| > 0 {
      GatherPermutation(cellHeat, hits, hits2);
      MeanPermutation(Gather(cellHeat, hits), Gather(cellHeat, hits2));
    }
  }

  /** Scores of every edge of the table, in table order. */
  function EdgeScores(cellHeat: seq<real>, join: seq<seq<nat>>): (s: seq<Option<real>>)
    requires JoinValid(|cellHeat|, join)
    ensures |s| == |join|
    ensures forall e :: 0 <= e < |join| ==> s[e] == EdgeScore(cellHeat, join[e])
    decreases |join|
  {
    if |join| == 0 then []
    else [EdgeScore(cellHeat, join[0])] + EdgeScores(cellHeat, join[1..])
  }

  /** When every cell scores within [lo, hi], every set edge score does. */
  lemma EdgeScoresWithin(cellHeat: seq<real>, join: seq<seq<nat>>, lo: real, hi: real)
    requires JoinValid(|cellHeat|, join)
    requires Within(cellHeat, lo, hi)
    ensures forall e :: 0 <= e < |join| && EdgeScores(cellHeat, join)[e].Some? ==>
              lo <= EdgeScores(cellHeat, join)[e].value <= hi
  {
    forall e | 0 <= e < |join|
      ensures EdgeScores(cellHeat, join)[e].Some? ==> lo <= EdgeScores(cellHeat, join)[e].value <= hi
    {
      EdgeScoreWithin(cellHeat, join[e], lo, hi);
    }
  }

  /** The scores that are set, in table order. */
  function Defined(s: seq<Option<real>>): (d: seq<real>)
    ensures |d| <= |s|
    ensures forall i :: 0 <= i < |s| && s[i].Some? ==> s[i].value in d
    ensures forall x :: x in d ==> Some(x) in s
    decreases |s|
  {
    if |s| == 0 then []
    else if s[0].Some? then [s[0].value] + Defined(s[1..])
    else Defined(s[1..])
  }

  /** At least one edge received a score from the join. */
  predicate AnyScored(s: seq<Option<real>>) {
    exists i :: 0 <= i < |s| && s[i].Some?
  }

  /** Every edge has a score. */
  predicate AllScored(s: seq<Option<real>>) {
    forall i :: 0 <= i < |s| ==> s[i].Some?
  }

  /** The fill value: the mean of the scores that are set.  It lies between
      the lowest and the highest set score. */
  function FillValue(s: seq<Option<real>>): (m: real)
    requires AnyScored(s)
    ensures exists i :: 0 <= i < |s| && s[i].Some? && s[i].value <= m
    ensures exists j :: 0 <= j < |s| && s[j].Some? && m <= s[j].value
  {
    var i :| 0 <= i < |s| && s[i].Some?;
    var d := Defined(s);
    assert s[i].value in d;
    var lo, hi := Min(d), Max(d);
    assert Some(lo) in s && Some(hi) in s;
    Mean(d)
  }

  /** Every set score lying in [lo, hi] puts the fill value there too. */
  lemma FillValueWithin(s: seq<Option<real>>, lo: real, hi: real)
    requires AnyScored(s)
    requires forall i :: 0 <= i < |s| && s[i].Some? ==> lo <= s[i].value <= hi
    ensures lo <= FillValue(s) <= hi
  {
  }

  /** Fills every unset score with the mean of the set ones.  Afterwards
      every edge has a score; edges that had one keep it unchanged; edges
      that had none all receive the same fill value. */
  function FillMissing(s: seq<Option<real>>): (r: seq<Option<real>>)
    requires AnyScored(s)
    ensures |r| == |s|
    ensures AllScored(r)
    ensures forall i :: 0 <= i < |s| && s[i].Some? ==> r[i] == s[i]
    ensures forall i :: 0 <= i < |s| && s[i].None? ==> r[i] == Some(FillValue(s))
  {
    FillWith(s, FillValue(s))
  }

  /** Replaces every unset score with m. */
  function FillWith(s: seq<Option<real>>, m: real): (r: seq<Option<real>>)
    ensures |r| == |s|
    ensures forall i :: 0 <= i < |s| ==> r[i] == Some(s[i].GetOr(m))
    decreases |s|
  {
    if |s| == 0 then [] else [Some(s[0].GetOr(m))] + FillWith(s[1..], m)
  }

  /** A column in which every edge is already scored is left as it is. */
  lemma FillCompleteIsIdentity(s: seq<Option<real>>)
    requires |s| > 0
    requires AllScored(s)
    ensures AnyScored(s)
    ensures FillMissing(s) == s
  {
    assert s[0].Some?;
  }

  /** Filling twice is the same as filling once. */
  lemma FillIdempotent(s: seq<Option<real>>)
    requires AnyScored(s)
    ensures AnyScored(FillMissing(s))
    ensures FillMissing(FillMissing(s)) == FillMissing(s)
  {
    FillCompleteIsIdentity(FillMissing(s));
  }

  /** Every set score lying in [lo, hi] puts the whole filled column there. */
  lemma FillWithin(s: seq<Option<real>>, lo: real, hi: real)
    requires AnyScored(s)
    requires forall i :: 0 <= i < |s| && s[i].Some? ==> lo <= s[i].value <= hi
    ensures forall i :: 0 <= i < |s| ==> lo <= FillMissing(s)[i].value <= hi
  {
    FillValueWithin(s, lo, hi);
  }

  /** The values of a fully scored column. */
  function Values(s: seq<Option<real>>): (v: seq<real>)
    requires AllScored(s)
    ensures |v| == |s|
    ensures forall i :: 0 <= i < |s| ==> s[i] == Some(v[i])
    decreases |s|
  {
    if |s| == 0 then [] else [s[0].value] + Values(s[1..])
  }

  /** Some edge of the join meets at least one cell. */
  predicate AnyHit(join: seq<seq<nat>>) {
    exists e :: 0 <= e < |join| && |join[e]| > 0
  }

  /** The joined, averaged and filled score of every edge.  An edge that
      meets some cell gets the mean score of those cells; every other edge
      gets the fill value. */
  function FilledScores(cellHeat: seq<real>, join: seq<seq<nat>>): (h: seq<real>)
    requires JoinValid(|cellHeat|, join)
    requires AnyHit(join)
    ensures |h| == |join|
    ensures AnyScored(EdgeScores(cellHeat, join))
    ensures forall e :: 0 <= e < |join| && |join[e]| > 0 ==>
              Some(h[e]) == EdgeScore(cellHeat, join[e])
    ensures forall e :: 0 <= e < |join| && |join[e]| == 0 ==>
              h[e] == FillValue(EdgeScores(cellHeat, join))
  {
    FilledScoresFacts(cellHeat, join);
    Values(FillMissing(EdgeScores(cellHeat, join)))
  }

  /** The facts `FilledScores` promises, entry by entry. */
  lemma FilledScoresFacts(cellHeat: seq<real>, join: seq<seq<nat>>)
    requires JoinValid(|cellHeat|, join)
    requires AnyHit(join)
    ensures AnyScored(EdgeScores(cellHeat, join))
    ensures forall e :: 0 <= e < |join| && |join[e]| > 0 ==>
              Some(Values(FillMissing(EdgeScores(cellHeat, join)))[e])
              == EdgeScore(cellHeat, join[e])
    ensures forall e :: 0 <= e < |join| && |join[e]| == 0 ==>
              Values(FillMissing(EdgeScores(cellHeat, join)))[e]
              == FillValue(EdgeScores(cellHeat, join))
  {
    var s := EdgeScores(cellHeat, join);
    var k :| 0 <= k < |join| && |join[k]| > 0;
    assert s[k].Some?;
    var r := FillMissing(s);
    var v := Values(r);
    forall e | 0 <= e < |join|
      ensures |join[e]| > 0 ==> Some(v[e]) == EdgeScore(cellHeat, join[e])
      ensures |join[e]| == 0 ==> v[e] == FillValue(s)
    {
      assert Some(v[e]) == r[e];
      assert s[e] == EdgeScore(cellHeat, join[e]);
    }
  }

  /** Every cell scoring within [lo, hi] puts every filled edge score there. */
  lemma FilledScoresWithin(cellHeat: seq<real>, join: seq<seq<nat>>, lo: real, hi: real)
    requires JoinValid(|cellHeat|, join)
    requires AnyHit(join)
    requires Within(cellHeat, lo, hi)
    ensures Within(FilledScores(cellHeat, join), lo, hi)
  {
    var s := EdgeScores(cellHeat, join);
    var h := FilledScores(cellHeat, join);
    EdgeScoresWithin(cellHeat, join, lo, hi);
    FillWithin(s, lo, hi);
    forall e | 0 <= e < |h| ensures lo <= h[e] <= hi {
      assert Some(h[e]) == FillMissing(s)[e];
    }
  }
}
