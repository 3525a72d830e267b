# Edge cost attachment for heat-aware walking routes

This project models, in Dafny, the part of the walking-route scripts that
the repository computes itself: turning a grid of green-coverage cells
into a per-edge heat cost on the street graph, and blending that cost
with edge length into a single `balanced_cost`.

The pipeline, as the scripts run it:

1. **Grid heat score** (`HeatGrid`). Each cell's `verde_pc` is min-max
   normalised over all cells (`MinMax.Normalise`). Its `heat_score` is
   one minus the normalised value, so less green means more heat.
2. **Per-edge aggregation** (`EdgeHeat.EdgeScore`). An edge gets the
   arithmetic mean (`Stats.Mean`) of the heat scores of the cells it
   intersects. An edge that intersects no cell is left unset.
3. **Gap filling** (`EdgeHeat.FillMissing`). Every unset edge gets the
   mean of the edge scores that were set.
4. **Normalisation and blending** (`CostPipeline.LengthNorm`,
   `CostPipeline.HeatNorm`, `Blend.Costs`). Edge `length` and the filled
   heat score are each min-max normalised over the edge table. They are
   blended as `distance_factor * length_norm + heat_factor * heat_norm`.
5. **Write-back** (`StreetGraph.WriteBack`). The coolest-route script
   writes `heat_cost` onto every edge (`CostPipeline.CoolAttach`). The
   balanced-route script writes `heat_cost` and `balanced_cost`
   (`CostPipeline.BalancedAttach`).

Modelling choices:

- The graph is a map from an edge address `(u, v, key)` to that edge's
  attribute bag (`map<string, real>`). The edge table is a sequence of
  edge addresses, each listed once.
- The spatial join is an input. `join[e]` lists the grid cells that edge
  `e` of the table intersects, one index per joined row. The geometry of
  the "intersects" predicate is not modelled.
- A score not yet filled is `Option<real>`. Floating point is modelled by
  `real`.
- The distance and heat factors are a `Blend.Factors` value passed in.
  `Blend.Default` is the shipped `(1, 0)`.
- The scripts divide by `max - min` without a guard. A zero range
  therefore appears as a precondition (`MinMax.NonDegenerate`), not as an
  error path. The same holds for the fill: it needs at least one edge
  that meets some cell (`EdgeHeat.AnyHit`). Otherwise the fill mean is
  NaN and nothing gets filled.
- The three scripts compute the grid heat score the same way. It is
  defined once, in `HeatGrid.HeatScores`.

## Model

| member | source | states |
|---|---|---|
| Stats.Min | src/balanced_route.py:25 | the minimum is an entry of the column and no entry is smaller |
| Stats.Max | src/balanced_route.py:26 | the maximum is an entry of the column and no entry is larger |
| Stats.Mean | src/balanced_route.py:46-50 | the mean of a non-empty column lies between its smallest and largest entries |
| Stats.MeanWithin | src/cool_route.py:52-57 | a column bounded entry-wise by [lo, hi] has its mean in [lo, hi] |
| Stats.SumPermutation | src/balanced_route.py:46-50 | the total of a column does not depend on the order of its entries |
| Stats.MeanPermutation | src/cool_route.py:52-57 | the mean of a column does not depend on the order of its entries |
| Stats.ScaleExtremes | src/load_grid.py:28-29 | multiplying every entry by c > 0 multiplies the minimum and the maximum by c |
| MinMax.Normalise | src/load_grid.py:28-31 | given a non-zero range, every normalised value is in [0, 1]; exactly the minimal entries map to 0 and exactly the maximal ones to 1; order is preserved and reflected |
| MinMax.NormaliseRoundTrip | src/load_grid.py:31 | the column is recovered from its normalised form together with its minimum and maximum |
| MinMax.NormaliseScaleInvariant | src/load_grid.py:22-31 | multiplying every entry by c > 0 leaves the normalised column unchanged |
| HeatGrid.HeatScores | src/balanced_route.py:25-30 | every cell's heat is in [0, 1]; exactly the greenest cells get 0 and exactly the least green get 1; a cell is at least as hot as another exactly when it is at most as green |
| HeatGrid.HeatDeterminesGreen | src/cool_route.py:22-27 | heat is one minus the normalised green value: each cell's `verde_pc` sits at position 1 - heat between the grid's least and most green values |
| HeatGrid.HeatScaleInvariant | src/load_grid.py:22-34 | recording `verde_pc` on a 0-100 scale, a 0-1 scale or any positive multiple gives the same heat scores |
| HeatGrid.HeatMatchesDirectFormula | src/load_grid.py:22-25 | the normalised heat equals the commented direct formulas `1 - verde_pc` and `1 - verde_pc / 100` when the grid's least green cell has 0 and its greenest has 1 (or 100) |
| EdgeHeat.EdgeScore | src/balanced_route.py:43-50 | an edge's score is unset exactly when it meets no cell; otherwise it lies between the lowest and highest heat of the cells it meets |
| EdgeHeat.EdgeScoreOrderFree | src/balanced_route.py:43-50 | an edge's score does not depend on the order in which the join lists the cells it meets |
| EdgeHeat.EdgeScoreWithin | src/cool_route.py:51-57 | when every intersected cell scores within [lo, hi], so does the edge |
| EdgeHeat.EdgeScoreSingle | src/cool_route.py:52-56 | an edge meeting a single cell takes that cell's score |
| EdgeHeat.EdgeScores | src/balanced_route.py:46-52 | the grouped-and-merged column has one entry per edge of the table, in table order, each that edge's own score |
| EdgeHeat.EdgeScoresWithin | src/balanced_route.py:46-50 | when every cell scores within [lo, hi], every set edge score does too |
| EdgeHeat.FillValue | src/cool_route.py:63 | the fill value lies between the lowest and the highest set edge score |
| EdgeHeat.FillMissing | src/balanced_route.py:54-55 | afterwards every edge has a score; scored edges are unchanged; every unscored edge gets the fill value |
| EdgeHeat.FillWithin | src/cool_route.py:63-64 | when every set score is within [lo, hi], the whole filled column is too |
| EdgeHeat.FillIdempotent | src/cool_route.py:62-64 | filling an already filled column changes nothing |
| EdgeHeat.FillCompleteIsIdentity | src/balanced_route.py:54-55 | a column with every edge scored is left as it is |
| EdgeHeat.FilledScores | src/cool_route.py:52-64 | an edge meeting some cell gets the mean of those cells; every other edge gets the mean of the scored edges |
| EdgeHeat.FilledScoresWithin | src/cool_route.py:63-64 | cells scoring within [lo, hi] put every filled edge score within [lo, hi] |
| Blend.Cost | src/balanced_route.py:66-69 | one edge's blend; under the shipped factors (1, 0) it is the normalised length, under (0, 1) the normalised heat |
| Blend.Costs | src/balanced_route.py:66-69 | the blended column has one entry per edge, each the blend of that edge's own normalised length and heat |
| Blend.ConvexCostBetween | src/balanced_route.py:66-69 | with non-negative factors summing to 1, an edge's blend lies between its normalised length and normalised heat |
| Blend.DefaultIsLength | src/balanced_route.py:9-10 | the shipped factors (1, 0) give exactly the normalised length column |
| Blend.HeatOnlyIsHeat | src/balanced_route.py:66-69 | the factors (0, 1) give exactly the normalised heat column |
| Blend.ConvexCostsInUnit | src/balanced_route.py:66-69 | convex factors over columns within [0, 1] give costs within [0, 1] |
| StreetGraph.WriteBack | src/balanced_route.py:72-75 | the graph keeps its edges; unlisted edges are untouched; when the table lists each edge once, each listed edge gets its old attributes overlaid by its own row's update |
| CostPipeline.CostWrite | src/balanced_route.py:72-75 | every listed edge gets `heat_cost` and `balanced_cost` set to its own row's values, all its other attributes kept; unlisted edges are untouched |
| StreetGraph.SetKeepsOthers | src/cool_route.py:70-74 | setting one attribute per edge keeps every other attribute and its value |
| StreetGraph.SetTwoKeepsOthers | src/balanced_route.py:72-75 | setting two attributes per edge keeps every other attribute and its value |
| CostPipeline.FilledHeat | src/balanced_route.py:43-55 | every joined, averaged and filled edge heat score lies in [0, 1] |
| CostPipeline.CoolAttach | src/cool_route.py:69-74 | every listed edge gets `heat_cost` equal to its filled heat score; other edges are untouched |
| CostPipeline.CoolHeatCostSource | src/cool_route.py:51-64 | the written `heat_cost` is in [0, 1]; on an edge meeting cells it is their mean heat, otherwise it is the fill value |
| CostPipeline.CoolKeepsOtherAttributes | src/cool_route.py:70-74 | apart from `heat_cost`, no attribute of any edge changes or disappears |
| CostPipeline.LengthNorm | src/balanced_route.py:58-59 | `length_norm` is in [0, 1]; exactly the shortest edges get 0 and the longest get 1; length order is preserved and reflected |
| CostPipeline.HeatNorm | src/balanced_route.py:61-62 | `heat_norm` is in [0, 1] for every edge |
| CostPipeline.BalancedCosts | src/balanced_route.py:66-69 | `balanced_cost` has one entry per edge, the blend under the factors of that edge's `length_norm` and `heat_norm` |
| CostPipeline.BalancedAttach | src/balanced_route.py:71-75 | every listed edge gets `heat_cost` equal to the raw filled heat score, not the normalised one, and `balanced_cost` equal to its blended cost; other edges are untouched |
| CostPipeline.BalancedKeepsOtherAttributes | src/balanced_route.py:72-75 | apart from `heat_cost` and `balanced_cost`, no attribute of any edge changes or disappears |
| CostPipeline.HeatCostAgrees | src/balanced_route.py:74 | the balanced-route script writes the same `heat_cost` as the coolest-route script, whatever the factors |
| CostPipeline.DefaultBalancedIsLengthNorm | src/balanced_route.py:58-69 | with the shipped factors (1, 0), `balanced_cost` is exactly `length_norm` on every edge |
| CostPipeline.HeatOnlyBalancedIsHeatNorm | src/balanced_route.py:61-69 | with the factors (0, 1), `balanced_cost` is exactly `heat_norm` on every edge |
| CostPipeline.ConvexBalancedInUnit | src/balanced_route.py:58-69 | non-negative factors summing to 1 keep every `balanced_cost` in [0, 1] |

## Left out

- Shortest-path search and path-weight statistics (`nx.shortest_path`, `nx.path_weight`). These are library calls, and the repository has no routing algorithm of its own to model.
- `short_route.py`. It only loads the network, geocodes, snaps to nodes, routes and plots.
- Network download, GeoJSON reading, geocoding and nearest-node snapping. These are I/O and foreign calls.
- Coordinate reference system alignment and the geometric "intersects" test of the spatial join. These belong to the geometry library; the join result is an input.
- Printing and plotting.
- IEEE floating point and NaN. `real` is used throughout. The two NaN outcomes (a zero range, no scored edge) are preconditions.
- The data-frame merge on `(u, v, key)`. Each edge's score is kept at that edge's position in the table, which is what the left merge does for a table of distinct edges.
- The model does not require the edge table to list every edge of the graph. In the scripts it does, since the table is built from the graph.
- CostPipeline.HeatNorm: its own contract states only the [0, 1] bound. The extremes and the order it keeps are stated once, by `MinMax.Normalise`, which it applies to the filled heat column.
