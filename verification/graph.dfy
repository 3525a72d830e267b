/** The street network as the routing library holds it: a directed
    multigraph whose edges are addressed by (u, v, key) and carry a bag of
    named numeric attributes.  Only the edge attributes matter to cost
    attachment, so the graph is the map from edge address to that bag. */
module StreetGraph {

  /** Address of one edge: source node, target node, and the key that
      tells parallel edges between the same pair apart. */
  datatype EdgeId = EdgeId(u: int, v: int, key: nat)

  /** Named numeric attributes of one edge. */
  type Attrs = map<string, real>

  type Graph = map<EdgeId, Attrs>

  const LengthAttr: string := "length"
  const HeatCostAttr: string := "heat_cost"
  const BalancedCostAttr: string := "balanced_cost"

  /** No edge address occurs twice in the table. */
  predicate Distinct(ids: seq<EdgeId>) {
    forall i, j :: 0 <= i < j < |ids| ==> ids[i] != ids[j]
  }

  /** Every edge address of the table is an edge of the graph. */
  predicate Listed(g: Graph, ids: seq<EdgeId>) {
    forall i :: 0 <= i < |ids| ==> ids[i] in g
  }

  /** Writes the attributes in updates[i] onto edge ids[i], row by row in
      table order, overwriting attributes of the same name.  The graph keeps
      its edges; edges outside the table keep all their attributes; and,
      when the table lists each edge once, every listed edge ends up with
      its old attributes overlaid by exactly its own row's update. */
  function WriteBack(g: Graph, ids: seq<EdgeId>, updates: seq<Attrs>): (r: Graph)
    requires |updates| == |ids|
    requires Listed(g, ids)
    ensures r.Keys == g.Keys
    ensures forall id :: id in g && id !in ids ==> r[id] == g[id]
    ensures Distinct(ids) ==>
              forall i :: 0 <= i < |ids| ==> r[ids[i]] == g[ids[i]] + updates[i]
    decreases |ids|
  {
    if |ids| == 0 then g
    else
      var id := ids[0];
      var g' := g[id := g[id] + updates[0]];
      var rest := ids[1..];
      assert Listed(g', rest) by {
        forall k | 0 <= k < |rest| ensures rest[k] in g' {
          assert rest[k] == ids[k + 1];
        }
      }
      var r := WriteBack(g', rest, updates[1..]);
      assert forall x :: x in g && x !in ids ==> x !in rest && x != id;
      assert Distinct(ids) ==> Distinct(rest) && id !in rest by {
        if Distinct(ids) {
          forall k | 0 <= k < |rest| ensures rest[k] != id {
            assert rest[k] == ids[k + 1];
          }
        }
      }
      r
  }

  /** If r is g with attribute k of each listed edge set to vals[i], then
      every edge keeps all its attributes, and all their values except k. */
  lemma SetKeepsOthers(r: Graph, g: Graph, ids: seq<EdgeId>, k: string,
                       vals: seq<real>, id: EdgeId)
    requires |vals| == |ids|
    requires Listed(g, ids)
    requires r.Keys == g.Keys
    requires forall x :: x in g && x !in ids ==> r[x] == g[x]
    requires forall i :: 0 <= i < |ids| ==> r[ids[i]] == g[ids[i]][k := vals[i]]
    requires id in g
    ensures r[id].Keys >= g[id].Keys
    ensures forall a :: a in g[id] && a != k ==> r[id][a] == g[id][a]
  {
    if id in ids {
      var i :| 0 <= i < |ids| && ids[i] == id;
      assert r[id] == g[id][k := vals[i]];
    }
  }

  /** As `SetKeepsOthers`, for two attributes k1 and k2 set together. */
  lemma SetTwoKeepsOthers(r: Graph, g: Graph, ids: seq<EdgeId>, k1: string, v1: seq<real>,
                          k2: string, v2: seq<real>, id: EdgeId)
    requires |v1| == |ids| && |v2| == |ids|
    requires Listed(g, ids)
    requires r.Keys == g.Keys
    requires forall x :: x in g && x !in ids ==> r[x] == g[x]
    requires forall i :: 0 <= i < |ids| ==> r[ids[i]] == g[ids[i]][k1 := v1[i]][k2 := v2[i]]
    requires id in g
    ensures r[id].Keys >= g[id].Keys
    ensures forall a :: a in g[id] && a != k1 && a != k2 ==> r[id][a] == g[id][a]
  {
    if id in ids {
      var i :| 0 <= i < |ids| && ids[i] == id;
      assert r[id] == g[id][k1 := v1[i]][k2 := v2[i]];
    }
  }
}
