/**
  The whole pipeline: the join and split trees of a mesh, their condensations onto the
  vertices significant in either, and the contour tree pruned out of the two.
 */
module ContourTrees {
  import opened Wrappers
  import opened Graphs
  import opened Meshes
  import opened Orders
  import opened Condense
  import opened Trees
  import opened Sweeps
  import opened Prunes

  /** `Before` is a strict order. */
  lemma BeforeTrans(vals: seq<int>, a: int, b: int, c: int)
    requires 0 <= a < |vals| && 0 <= b < |vals| && 0 <= c < |vals|
    requires Before(vals, a, b) && Before(vals, b, c)
    ensures Before(vals, a, c)
  {
  }

  /** Along a path of one or more edges of an ordered graph, the last vertex is strictly beyond the first. */
  lemma {:induction false} PathOrdered(g: Graph, vals: seq<int>, down: bool, s: seq<Vertex>)
    requires Ordered(g, vals, down) && IsPath(g, s) && |s| >= 2
    ensures 0 <= s[0] < |vals| && 0 <= s[|s| - 1] < |vals|
    ensures if down then Before(vals, s[|s| - 1], s[0]) else Before(vals, s[0], s[|s| - 1])
    decreases |s|
  {
    assert Edge(g, s[0], s[1]);
    if |s| > 2 {
      SubPath(g, s, 1, |s|);
      PathOrdered(g, vals, down, s[1..]);
      assert s[1..][|s[1..]| - 1] == s[|s| - 1];
      if down {
        BeforeTrans(vals, s[|s| - 1], s[1], s[0]);
      } else {
        BeforeTrans(vals, s[0], s[1], s[|s| - 1]);
      }
    }
  }

  /** In an ordered graph, a vertex reaching another vertex lies strictly on the right side of it. */
  lemma ReachOrdered(g: Graph, vals: seq<int>, down: bool, x: Vertex, y: Vertex)
    requires Ordered(g, vals, down) && Reach(g, x, y) && x != y
    ensures 0 <= x < |vals| && 0 <= y < |vals| && if down then Before(vals, y, x) else Before(vals, x, y)
  {
    var s :| IsPath(g, s) && s[0] == x && s[|s| - 1] == y;
    PathOrdered(g, vals, down, s);
  }

  /** Condensing an ordered graph keeps it ordered: each condensed edge stands for a path of one or more edges. */
  lemma CondensedOrdered(g: Graph, sig: set<Vertex>, c: Graph, vals: seq<int>, down: bool)
    requires Ordered(g, vals, down) && forall a, b :: Edge(c, a, b) ==> SigStep(g, sig, a, b)
    ensures Ordered(c, vals, down)
  {
    forall a, b | Edge(c, a, b)
      ensures 0 <= a < |vals| && 0 <= b < |vals| && if down then Before(vals, b, a) else Before(vals, a, b)
    {
      assert SigStep(g, sig, a, b);
      var s :| IsPath(g, s) && |s| >= 2 && s[0] == a && s[|s| - 1] == b && InteriorOutside(s, sig);
      PathOrdered(g, vals, down, s);
    }
  }

  /**
    A contour tree built from a join tree that runs down in value and a split tree that
    runs up runs down in value: every arc goes from a higher vertex to a lower one.
   */
  lemma FollowsOrdered(c: Graph, jg: Graph, sg: Graph, vals: seq<int>)
    requires Follows(c, jg, sg) && Ordered(jg, vals, true) && Ordered(sg, vals, false)
    ensures Ordered(c, vals, true)
  {
    forall x, y | Edge(c, x, y) ensures 0 <= x < |vals| && 0 <= y < |vals| && Before(vals, y, x) {
      if Reach(jg, x, y) {
        ReachOrdered(jg, vals, true, x, y);
      } else {
        ReachOrdered(sg, vals, false, y, x);
      }
    }
  }

  /** Every neighbour of `v` sorts before it (`up`: after it): a local minimum of the field when `up` holds, a local maximum otherwise. */
  ghost predicate Extremum(adj: seq<set<Vertex>>, vals: seq<int>, v: Vertex, up: bool)
    requires 0 <= v < |adj|
  {
    forall w :: w in adj[v] ==> 0 <= w < |vals| && 0 <= v < |vals| && if up then Before(vals, v, w) else Before(vals, w, v)
  }

  /**
    A vertex whose neighbours all sort below it (a local maximum) is a root of the join
    tree, and one whose neighbours all sort above it (a local minimum) is a root of the
    split tree.
   */
  lemma ExtremumIsRoot(adj: seq<set<Vertex>>, vals: seq<int>, isJoin: bool, g: Graph, v: Vertex)
    requires Mesh(adj) && |adj| == |vals| && SweepTree(adj, vals, SweepOrder(vals, isJoin), g) && 0 <= v < |vals|
    requires Extremum(adj, vals, v, !isJoin)
    ensures v in g && g[v].parents == {}
  {
    var order := SweepOrder(vals, isJoin);
    SweepOrderEnumerates(vals, isJoin);
    assert v in order;
    var k :| 0 <= k < |order| && order[k] == v;
    forall w | w in adj[v] ensures w !in Processed(order, k) {
      forall i | 0 <= i < k ensures order[..k][i] != w {
        assert if isJoin then Before(vals, v, order[i]) else Before(vals, order[i], v);
      }
    }
    SweepRoot(adj, vals, order, g, k);
  }

  /**
    `compute_contour_tree`: sweeps the join tree `jg` (by descending value) and the split
    tree `sg` (by ascending value), condenses both onto the vertices significant in either
    (`jc`, `sc`), and prunes the two condensations into the contour tree. Its nodes are
    exactly those significant vertices, with their values, and include every local maximum
    and minimum; every arc follows a downward path of `jc` or an upward path of `sc`, and
    runs from a higher vertex to a lower one.
   */
  method ComputeContourTree(adj: seq<set<Vertex>>, vals: seq<int>)
    returns (ct: Tree, r: Outcome, ghost jg: Graph, ghost sg: Graph, ghost jc: Graph, ghost sc: Graph)
    requires Mesh(adj) && |adj| == |vals|
    ensures fresh(ct) && ct.Valid()
    ensures Wf(jg) && SweepTree(adj, vals, SweepOrder(vals, true), jg)
    ensures Wf(sg) && SweepTree(adj, vals, SweepOrder(vals, false), sg)
    ensures Condensation(jg, Significants(jg) + Significants(sg), jc)
    ensures Condensation(sg, Significants(jg) + Significants(sg), sc)
    ensures ct.nodes.Keys == Significants(jg) + Significants(sg)
    ensures Built(ct.nodes, jc, sc)
    ensures forall x :: x in ct.nodes ==> 0 <= x < |vals| && ct.nodes[x].value == vals[x]
    ensures forall x :: 0 <= x < |vals| && (Extremum(adj, vals, x, true) || Extremum(adj, vals, x, false)) ==> x in ct.nodes
    ensures forall x, y :: Edge(ct.nodes, x, y) ==> 0 <= x < |vals| && 0 <= y < |vals| && Before(vals, y, x)
  {
    var jt, hj := SweepAlgorithm(adj, vals, true);
    var st, hs := SweepAlgorithm(adj, vals, false);
    jg, sg := jt.nodes, st.nodes;
    SweepTreeOrdered(adj, vals, true, jt.nodes);
    SweepTreeOrdered(adj, vals, false, st.nodes);
    var jsigs, jroots := jt.ComputeSignificants();
    var ssigs, sroots := st.ComputeSignificants();
    var merged := jsigs + ssigs;
    assert merged == Significants(jg) + Significants(sg) && jroots == Roots(jg) && sroots == Roots(sg) by {
      forall v ensures (v in merged <==> v in Significants(jg) + Significants(sg)) && (v in jroots <==> v in Roots(jg)) && (v in sroots <==> v in Roots(sg)) {
      }
    }
    assert jt.nodes.Keys == st.nodes.Keys by {
      forall x ensures x in jt.nodes <==> x in st.nodes {
        assert x in jt.nodes <==> 0 <= x < |vals|;
      }
    }
    var jst := jt.GenSigtree(merged, jroots, hj);
    var sst := st.GenSigtree(merged, sroots, hs);
    jc, sc := jst.nodes, sst.nodes;
    CondensedOrdered(jt.nodes, merged, jst.nodes, vals, true);
    CondensedOrdered(st.nodes, merged, sst.nodes, vals, false);
    ExtremaKept(adj, vals, jt.nodes, st.nodes, merged);
    ct, r := PruneAlgorithm(jst, sst, hj, hs);
    FollowsOrdered(ct.nodes, jc, sc, vals);
  }

  /** Local maxima are roots of the join tree and local minima roots of the split tree, so both are significant. */
  lemma ExtremaKept(adj: seq<set<Vertex>>, vals: seq<int>, jg: Graph, sg: Graph, merged: set<Vertex>)
    requires Mesh(adj) && |adj| == |vals|
    requires SweepTree(adj, vals, SweepOrder(vals, true), jg) && SweepTree(adj, vals, SweepOrder(vals, false), sg)
    requires forall v :: v in jg && Significant(jg[v]) ==> v in merged
    requires forall v :: v in sg && Significant(sg[v]) ==> v in merged
    ensures forall x :: 0 <= x < |vals| && (Extremum(adj, vals, x, true) || Extremum(adj, vals, x, false)) ==> x in merged
  {
    forall x | 0 <= x < |vals| && (Extremum(adj, vals, x, true) || Extremum(adj, vals, x, false)) ensures x in merged {
      if Extremum(adj, vals, x, false) {
        ExtremumIsRoot(adj, vals, true, jg, x);
      } else {
        ExtremumIsRoot(adj, vals, false, sg, x);
      }
    }
  }
}
