/** Cost attachment end to end.  The coolest-route script writes only the
    filled heat score onto each edge as `heat_cost`; the balanced-route
    script also normalises length and heat over the edge table, blends
    them under the configured factors, and writes the blend as
    `balanced_cost`.  The spatial join is an input: `join[e]` lists the
    grid cells that edge `ids[e]` intersects. */
module CostPipeline {
  import opened Wrappers
  import opened Stats
  import opened MinMax
  import opened HeatGrid
  import opened EdgeHeat
  import opened Blend
  import opened StreetGraph

  /** The edge table: graph edges, each listed once. */
  predicate EdgeTable(g: Graph, ids: seq<EdgeId>) {
    Listed(g, ids) && Distinct(ids)
  }

  /** What the heat attachment needs: a grid that can be normalised, one
      join entry per edge naming existing cells, and at least one edge that
      meets some cell (otherwise the fill value is undefined). */
  predicate JoinInput(cells: seq<Cell>, nEdges: nat, join: seq<seq<nat>>) {
    Scorable(cells) && |join| == nEdges && JoinValid(|cells|, join) && AnyHit(join)
  }

  /** The joined, averaged and filled heat score of every edge, computed
      from the grid's heat scores.  Every score lies in [0, 1]. */
  function FilledHeat(cells: seq<Cell>, join: seq<seq<nat>>): (h: seq<real>)
    requires JoinInput(cells, |join|, join)
    ensures |h| == |join|
    ensures Within(h, 0.0, 1.0)
  {
    var heat := HeatScores(cells);
    FilledScoresWithin(heat, join, 0.0, 1.0);
    FilledScores(heat, join)
  }

  /** Overlaying a one-attribute update is setting that attribute. */
  lemma OverlayOne(a: Attrs, k: string, x: real)
    ensures a + map[k := x] == a[k := x]
  {
  }

  /** Overlaying a two-attribute update is setting both attributes. */
  lemma OverlayTwo(a: Attrs, k1: string, x1: real, k2: string, x2: real)
    requires k1 != k2
    ensures a + map[k1 := x1, k2 := x2] == a[k1 := x1][k2 := x2]
  {
  }

  /** One `heat_cost` update per edge. */
  function HeatUpdates(h: seq<real>): (u: seq<Attrs>)
    ensures |u| == |h|
    ensures forall i :: 0 <= i < |h| ==> u[i] == map[HeatCostAttr := h[i]]
    decreases |h|
  {
    if |h| == 0 then [] else [map[HeatCostAttr := h[0]]] + HeatUpdates(h[1..])
  }

  /** One `heat_cost` and `balanced_cost` update per edge. */
  function CostUpdates(h: seq<real>, b: seq<real>): (u: seq<Attrs>)
    requires |b| == |h|
    ensures |u| == |h|
    ensures forall i :: 0 <= i < |h| ==>
              u[i] == map[HeatCostAttr := h[i], BalancedCostAttr := b[i]]
    decreases |h|
  {
    if |h| == 0 then []
    else [map[HeatCostAttr := h[0], BalancedCostAttr := b[0]]] + CostUpdates(h[1..], b[1..])
  }

  /** Coolest-route attachment: every listed edge gets `heat_cost` set to
      its filled heat score; nothing else about any edge changes. */
  function CoolAttach(g: Graph, ids: seq<EdgeId>, cells: seq<Cell>, join: seq<seq<nat>>): (r: Graph)
    requires EdgeTable(g, ids)
    requires JoinInput(cells, |ids|, join)
    ensures r.Keys == g.Keys
    ensures forall id :: id in g && id !in ids ==> r[id] == g[id]
    ensures forall i :: 0 <= i < |ids| ==>
              r[ids[i]] == g[ids[i]][HeatCostAttr := FilledHeat(cells, join)[i]]
  {
    var h := FilledHeat(cells, join);
    var u := HeatUpdates(h);
    var r := WriteBack(g, ids, u);
    assert forall i :: 0 <= i < |ids| ==> r[ids[i]] == g[ids[i]][HeatCostAttr := h[i]] by {
      forall i | 0 <= i < |ids| ensures r[ids[i]] == g[ids[i]][HeatCostAttr := h[i]] {
        OverlayOne(g[ids[i]], HeatCostAttr, h[i]);
      }
    }
    r
  }

  /** Every listed edge records a length. */
  predicate HasLength(g: Graph, ids: seq<EdgeId>) {
    Listed(g, ids) && forall i :: 0 <= i < |ids| ==> LengthAttr in g[ids[i]]
  }

  /** The `length` column of the edge table. */
  function Lengths(g: Graph, ids: seq<EdgeId>): (l: seq<real>)
    requires HasLength(g, ids)
    ensures |l| == |ids|
    ensures forall i :: 0 <= i < |ids| ==> l[i] == g[ids[i]][LengthAttr]
    decreases |ids|
  {
    if |ids| == 0 then [] else [g[ids[0]][LengthAttr]] + Lengths(g, ids[1..])
  }

  /** What the balanced attachment needs on top of the heat attachment:
      every edge has a length, and neither the lengths nor the filled heat
      scores are all equal (both are divided by their range). */
  predicate BalancedInput(g: Graph, ids: seq<EdgeId>, cells: seq<Cell>, join: seq<seq<nat>>) {
    && EdgeTable(g, ids)
    && HasLength(g, ids)
    && JoinInput(cells, |ids|, join)
    && NonDegenerate(Lengths(g, ids))
    && NonDegenerate(FilledHeat(cells, join))
  }

  /** Normalised length of every edge: in [0, 1], exactly 0 on the
      shortest edges and exactly 1 on the longest, and ordered as the
      lengths are. */
  function LengthNorm(g: Graph, ids: seq<EdgeId>): (n: seq<real>)
    requires HasLength(g, ids)
    requires NonDegenerate(Lengths(g, ids))
    ensures |n| == |ids|
    ensures Within(n, 0.0, 1.0)
    ensures forall i :: 0 <= i < |ids| ==>
              (n[i] == 0.0 <==> g[ids[i]][LengthAttr] == Min(Lengths(g, ids)))
    ensures forall i :: 0 <= i < |ids| ==>
              (n[i] == 1.0 <==> g[ids[i]][LengthAttr] == Max(Lengths(g, ids)))
    ensures forall i, j :: 0 <= i < |ids| && 0 <= j < |ids| ==>
              (g[ids[i]][LengthAttr] <= g[ids[j]][LengthAttr] <==> n[i] <= n[j])
  {
    Normalise(Lengths(g, ids))
  }

  /** Normalised filled heat score of every edge; `Normalise` states what
      it promises (in [0, 1], 0 on the coolest edges, 1 on the hottest,
      ordered as the heat scores). */
  function HeatNorm(cells: seq<Cell>, join: seq<seq<nat>>): (n: seq<real>)
    requires JoinInput(cells, |join|, join)
    requires NonDegenerate(FilledHeat(cells, join))
    ensures |n| == |join|
    ensures Within(n, 0.0, 1.0)
  {
    Normalise(FilledHeat(cells, join))
  }

  /** The `balanced_cost` column: the blend, under the factors f, of each
      edge's normalised length and normalised heat. */
  function BalancedCosts(g: Graph, ids: seq<EdgeId>, cells: seq<Cell>,
                         join: seq<seq<nat>>, f: Factors): (b: seq<real>)
    requires BalancedInput(g, ids, cells, join)
    ensures |b| == |ids|
    ensures forall i :: 0 <= i < |ids| ==>
              b[i] == Cost(f, LengthNorm(g, ids)[i], HeatNorm(cells, join)[i])
  {
    Costs(f, LengthNorm(g, ids), HeatNorm(cells, join))
  }

  /** Balanced-route attachment: every listed edge gets `heat_cost` set to
      its raw filled heat score (not the normalised one) and
      `balanced_cost` set to its blended cost; nothing else about any edge
      changes. */
  function BalancedAttach(g: Graph, ids: seq<EdgeId>, cells: seq<Cell>,
                          join: seq<seq<nat>>, f: Factors): (r: Graph)
    requires BalancedInput(g, ids, cells, join)
    ensures r.Keys == g.Keys
    ensures forall id :: id in g && id !in ids ==> r[id] == g[id]
    ensures forall i :: 0 <= i < |ids| ==>
              r[ids[i]] == g[ids[i]][HeatCostAttr := FilledHeat(cells, join)[i]]
                                   [BalancedCostAttr := BalancedCosts(g, ids, cells, join, f)[i]]
  {
    CostWrite(g, ids, FilledHeat(cells, join), BalancedCosts(g, ids, cells, join, f))
  }

  /** Writes `heat_cost` := h[i] and `balanced_cost` := b[i] onto every
      listed edge. */
  function CostWrite(g: Graph, ids: seq<EdgeId>, h: seq<real>, b: seq<real>): (r: Graph)
    requires EdgeTable(g, ids)
    requires |h| == |ids| && |b| == |ids|
    ensures r.Keys == g.Keys
    ensures forall id :: id in g && id !in ids ==> r[id] == g[id]
    ensures forall i :: 0 <= i < |ids| ==>
              r[ids[i]] == g[ids[i]][HeatCostAttr := h[i]][BalancedCostAttr := b[i]]
  {
    var u := CostUpdates(h, b);
    var r := WriteBack(g, ids, u);
    assert forall i :: 0 <= i < |ids| ==>
             r[ids[i]] == g[ids[i]][HeatCostAttr := h[i]][BalancedCostAttr := b[i]] by {
      forall i | 0 <= i < |ids|
        ensures r[ids[i]] == g[ids[i]][HeatCostAttr := h[i]][BalancedCostAttr := b[i]]
      {
        OverlayTwo(g[ids[i]], HeatCostAttr, h[i], BalancedCostAttr, b[i]);
      }
    }
    r
  }

  /** The heat cost written onto an edge that meets some cell is the mean
      heat of those cells; on an edge that meets none it is the fill value,
      the mean over the edges that were scored. */
  lemma CoolHeatCostSource(g: Graph, ids: seq<EdgeId>, cells: seq<Cell>,
                           join: seq<seq<nat>>, i: int)
    requires EdgeTable(g, ids)
    requires JoinInput(cells, |ids|, join)
    requires 0 <= i < |ids|
    ensures HeatCostAttr in CoolAttach(g, ids, cells, join)[ids[i]]
    ensures |join[i]| > 0 ==>
              Some(CoolAttach(g, ids, cells, join)[ids[i]][HeatCostAttr])
              == EdgeScore(HeatScores(cells), join[i])
    ensures |join[i]| == 0 ==>
              CoolAttach(g, ids, cells, join)[ids[i]][HeatCostAttr]
              == FillValue(EdgeScores(HeatScores(cells), join))
    ensures 0.0 <= CoolAttach(g, ids, cells, join)[ids[i]][HeatCostAttr] <= 1.0
  {
    FilledScoresFacts(HeatScores(cells), join);
  }

  /** Every attribute other than `heat_cost` keeps its value under the
      coolest-route attachment, and no attribute disappears. */
  lemma CoolKeepsOtherAttributes(g: Graph, ids: seq<EdgeId>, cells: seq<Cell>,
                                 join: seq<seq<nat>>, id: EdgeId)
    requires EdgeTable(g, ids)
    requires JoinInput(cells, |ids|, join)
    requires id in g
    ensures CoolAttach(g, ids, cells, join)[id].Keys >= g[id].Keys
    ensures forall a :: a in g[id] && a != HeatCostAttr ==>
              CoolAttach(g, ids, cells, join)[id][a] == g[id][a]
  {
    SetKeepsOthers(CoolAttach(g, ids, cells, join), g, ids, HeatCostAttr,
                   FilledHeat(cells, join), id);
  }

  /** Every attribute other than `heat_cost` and `balanced_cost` keeps its
      value under the balanced-route attachment, and no attribute
      disappears. */
  lemma BalancedKeepsOtherAttributes(g: Graph, ids: seq<EdgeId>, cells: seq<Cell>,
                                     join: seq<seq<nat>>, f: Factors, id: EdgeId)
    requires BalancedInput(g, ids, cells, join)
    requires id in g
    ensures BalancedAttach(g, ids, cells, join, f)[id].Keys >= g[id].Keys
    ensures forall a :: a in g[id] && a != HeatCostAttr && a != BalancedCostAttr ==>
              BalancedAttach(g, ids, cells, join, f)[id][a] == g[id][a]
  {
    SetTwoKeepsOthers(BalancedAttach(g, ids, cells, join, f), g, ids,
                      HeatCostAttr, FilledHeat(cells, join),
                      BalancedCostAttr, BalancedCosts(g, ids, cells, join, f), id);
  }

  /** Both scripts write the same `heat_cost`: the raw filled heat score,
      whatever the factors. */
  lemma HeatCostAgrees(g: Graph, ids: seq<EdgeId>, cells: seq<Cell>,
                       join: seq<seq<nat>>, f: Factors, i: int)
    requires BalancedInput(g, ids, cells, join)
    requires 0 <= i < |ids|
    ensures BalancedAttach(g, ids, cells, join, f)[ids[i]][HeatCostAttr]
            == CoolAttach(g, ids, cells, join)[ids[i]][HeatCostAttr]
  {
  }

  /** With the shipped factors (1, 0) the balanced cost of every edge is
      exactly its normalised length. */
  lemma DefaultBalancedIsLengthNorm(g: Graph, ids: seq<EdgeId>, cells: seq<Cell>,
                                    join: seq<seq<nat>>)
    requires BalancedInput(g, ids, cells, join)
    ensures BalancedCosts(g, ids, cells, join, Default) == LengthNorm(g, ids)
  {
    DefaultIsLength(LengthNorm(g, ids), HeatNorm(cells, join));
  }

  /** With the factors (0, 1) the balanced cost of every edge is exactly
      its normalised heat. */
  lemma HeatOnlyBalancedIsHeatNorm(g: Graph, ids: seq<EdgeId>, cells: seq<Cell>,
                                   join: seq<seq<nat>>)
    requires BalancedInput(g, ids, cells, join)
    ensures BalancedCosts(g, ids, cells, join, HeatOnly) == HeatNorm(cells, join)
  {
    HeatOnlyIsHeat(LengthNorm(g, ids), HeatNorm(cells, join));
  }

  /** Non-negative factors summing to 1 keep every balanced cost in [0, 1]. */
  lemma ConvexBalancedInUnit(g: Graph, ids: seq<EdgeId>, cells: seq<Cell>,
                             join: seq<seq<nat>>, f: Factors)
    requires BalancedInput(g, ids, cells, join)
    requires Convex(f)
    ensures Within(BalancedCosts(g, ids, cells, join, f), 0.0, 1.0)
  {
    ConvexCostsInUnit(f, LengthNorm(g, ids), HeatNorm(cells, join));
  }
}
