/**
  The pruning that merges the (condensed) join tree and split tree into the contour tree.
  A queue holds the contour-tree leaves: vertices that are a root of one merge tree and
  have a single parent in the other. Each leaf taken from the queue emits its contour
  edge, read from its only child in the tree it is a root of, and is spliced out of both
  merge trees; the child, if it has become a leaf, joins the queue.
 */
module Prunes {
  import opened Wrappers
  import opened Graphs
  import opened Trees

  /**
    `v` is a contour-tree leaf of the join tree `j` and the split tree `s`: a root of one
    with exactly one parent in the other (the degree of a vertex is its number of parents).
   */
  predicate IsContourTreeLeaf(j: Graph, s: Graph, v: Vertex)
    requires v in j && v in s
  {
    (|j[v].parents| == 0 && |s[v].parents| == 1) || (|s[v].parents| == 0 && |j[v].parents| == 1)
  }

  /** Every edge of `g` follows a path of `g0`. */
  ghost predicate Within(g: Graph, g0: Graph)
  {
    forall x, y :: Edge(g, x, y) ==> Reach(g0, x, y)
  }

  /**
    Every edge `x -> y` of the contour tree `c` joins two distinct vertices and follows a
    downward path of the join tree `jg` or an upward path of the split tree `sg`.
   */
  ghost predicate Follows(c: Graph, jg: Graph, sg: Graph)
  {
    forall x, y :: Edge(c, x, y) ==> x != y && (Reach(jg, x, y) || Reach(sg, y, x))
  }

  lemma WithinSelf(g: Graph)
    ensures Within(g, g)
  {
    forall x, y | Edge(g, x, y) ensures Reach(g, x, y) {
      EdgeReach(g, x, y);
    }
  }

  /** Splicing a vertex out keeps every edge on a path of the original tree. */
  lemma ReducedWithin(g: Graph, v: Vertex, g0: Graph)
    requires Wf(g) && v in g && !SelfLoop(g, v) && Within(g, g0)
    ensures Within(Reduced(g, v), g0)
  {
    forall x, y | Edge(Reduced(g, v), x, y) ensures Reach(g0, x, y) {
      ReducedEdges(g, v, x, y);
      if !Edge(g, x, y) {
        assert Edge(g, x, v) && Edge(g, v, y);
        ReachTrans(g0, x, v, y);
      }
    }
  }

  /** Adding an edge that follows the merge trees keeps the contour tree following them. */
  lemma ConnectFollows(c: Graph, x: Vertex, y: Vertex, jg: Graph, sg: Graph)
    requires x in c && y in c && Follows(c, jg, sg)
    requires x != y && (Reach(jg, x, y) || Reach(sg, y, x))
    ensures Follows(Connect(c, x, y), jg, sg)
  {
    forall a, b | Edge(Connect(c, x, y), a, b) ensures a != b && (Reach(jg, a, b) || Reach(sg, b, a)) {
      ConnectEdges(c, x, y, a, b);
    }
  }

  /** `Connect` keeps every edge and adds the new one. */
  lemma ConnectGrows(c: Graph, x: Vertex, y: Vertex)
    requires x in c && y in c
    ensures Edge(Connect(c, x, y), x, y) && forall a, b :: Edge(c, a, b) ==> Edge(Connect(c, x, y), a, b)
  {
    forall a, b | Edge(c, a, b) ensures Edge(Connect(c, x, y), a, b) {
      ConnectEdges(c, x, y, a, b);
    }
    ConnectEdges(c, x, y, x, y);
  }

  /**
    The initial queue: every vertex of the join tree that is a contour-tree leaf, each
    once. Fails when a vertex of the join tree has no node in the split tree.
   */
  method Leaves(jt: Tree, st: Tree) returns (r: Outcome, leaves: seq<Vertex>)
    ensures r.Pass? <==> jt.nodes.Keys <= st.nodes.Keys
    ensures r.Fail? ==> r.error == AbsentVertex
    ensures r.Pass? ==> forall v :: v in leaves <==> v in jt.nodes && IsContourTreeLeaf(jt.nodes, st.nodes, v)
    ensures forall i, j :: 0 <= i < j < |leaves| ==> leaves[i] != leaves[j]
  {
    leaves := [];
    var todo := jt.nodes.Keys;
    while todo != {}
      invariant todo <= jt.nodes.Keys
      invariant forall v :: v in jt.nodes && v !in todo ==> v in st.nodes
      invariant forall v :: v in leaves <==> v in jt.nodes && v !in todo && v in st.nodes && IsContourTreeLeaf(jt.nodes, st.nodes, v)
      invariant forall i, j :: 0 <= i < j < |leaves| ==> leaves[i] != leaves[j]
      decreases |todo|
    {
      NonEmpty(todo);
      var v :| v in todo;
      if v !in st.nodes {
        return Fail(AbsentVertex), leaves;
      }
      if IsContourTreeLeaf(jt.nodes, st.nodes, v) {
        leaves := leaves + [v];
      }
      todo := todo - {v};
    }
    assert forall v :: v in jt.nodes.Keys ==> v in st.nodes.Keys;
    return Pass, leaves;
  }

  /**
    The state of the pruning between two leaves: the contour tree `ct` holds the vertices
    of the original join tree `jg` with their values and follows the original trees; the
    merge trees are the originals with the vertices of `removed` spliced out, and every
    removed vertex has its contour edge, to or from `partner`.
   */
  ghost predicate Pruning(jt: Tree, st: Tree, ct: Tree, hj: map<Vertex, nat>, hs: map<Vertex, nat>, jg: Graph, sg: Graph,
                          removed: set<Vertex>, partner: map<Vertex, Vertex>)
    reads jt, st, ct
  {
    && ct != jt && ct != st && jt != st && ct.Valid() && jt.Valid() && st.Valid()
    && PruneState(jt.nodes, st.nodes, ct.nodes, hj, hs, jg, sg, removed, partner)
  }

  /** `Pruning` on the graphs of the three trees. */
  ghost predicate PruneState(j: Graph, s: Graph, c: Graph, hj: map<Vertex, nat>, hs: map<Vertex, nat>, jg: Graph, sg: Graph,
                             removed: set<Vertex>, partner: map<Vertex, Vertex>)
  {
    && Descends(j, hj) && Descends(s, hs)
    && Built(c, jg, sg)
    && Within(j, jg) && Within(s, sg)
    && removed <= jg.Keys && removed <= sg.Keys
    && j.Keys == jg.Keys - removed && s.Keys == sg.Keys - removed
    && forall v :: v in removed ==> v in partner && (Edge(c, v, partner[v]) || Edge(c, partner[v], v))
  }

  /**
    Splicing `leaf` out of both trees after its contour edge, to or from `u`, has been
    added keeps the pruning state, with `leaf` now removed.
   */
  lemma SpliceKeeps(j: Graph, s: Graph, c: Graph, j': Graph, s': Graph, c': Graph, hj: map<Vertex, nat>, hs: map<Vertex, nat>,
                    jg: Graph, sg: Graph, removed: set<Vertex>, partner: map<Vertex, Vertex>, leaf: Vertex, u: Vertex)
    requires PruneState(j, s, c, hj, hs, jg, sg, removed, partner) && leaf in j && leaf in s
    requires j' == Reduced(j, leaf) && s' == Reduced(s, leaf)
    requires Descends(j', hj) && Descends(s', hs) && Within(j', jg) && Within(s', sg)
    requires Built(c', jg, sg) && (Edge(c', leaf, u) || Edge(c', u, leaf))
    requires forall x, y :: Edge(c, x, y) ==> Edge(c', x, y)
    ensures PruneState(j', s', c', hj, hs, jg, sg, removed + {leaf}, partner[leaf := u])
    ensures j'.Keys < j.Keys
  {
    assert leaf in j.Keys && leaf !in j'.Keys;
  }

  /** The contour tree `c` has the vertices of the join tree `jg` with their values, and follows both merge trees. */
  ghost predicate Built(c: Graph, jg: Graph, sg: Graph)
  {
    && c.Keys == jg.Keys && (forall v :: v in c ==> c[v].value == jg[v].value)
    && Follows(c, jg, sg)
  }

  /**
    `prune_algorithm`: the contour tree from the join tree `jt` and the split tree `st`,
    which it consumes. The contour tree holds every vertex of the join tree with its value;
    each of its edges joins two distinct vertices and follows a downward path of the join
    tree or an upward path of the split tree. On success every leaf spliced out of the join
    tree has left the split tree too, and has its contour edge.
   */
  method PruneAlgorithm(jt: Tree, st: Tree, ghost hj: map<Vertex, nat>, ghost hs: map<Vertex, nat>) returns (ct: Tree, r: Outcome)
    requires jt != st && jt.Valid() && st.Valid() && Descends(jt.nodes, hj) && Descends(st.nodes, hs)
    modifies jt, st
    ensures fresh(ct) && ct.Valid() && jt.Valid() && st.Valid()
    ensures Built(ct.nodes, old(jt.nodes), old(st.nodes))
    ensures r.Pass? ==> jt.nodes.Keys <= old(jt.nodes).Keys && st.nodes.Keys <= old(st.nodes).Keys
    ensures r.Pass? ==> forall v :: v in old(jt.nodes) && v !in jt.nodes ==>
      v in old(st.nodes) && v !in st.nodes && exists u :: Edge(ct.nodes, v, u) || Edge(ct.nodes, u, v)
  {
    ghost var jg, sg := jt.nodes, st.nodes;
    ct := NodesOnly(jt.nodes, jt.nodes.Keys);
    var leaves;
    r, leaves := Leaves(jt, st);
    if r.Fail? {
      return;
    }
    ghost var removed: set<Vertex> := {};
    ghost var partner: map<Vertex, Vertex> := map[];
    WithinSelf(jg);
    WithinSelf(sg);
    while leaves != []
      invariant fresh(ct) && r.Pass? && Pruning(jt, st, ct, hj, hs, jg, sg, removed, partner)
      decreases jt.nodes.Keys, |leaves|
    {
      var leaf := leaves[0];
      var next;
      r, next, removed, partner := PruneStep(jt, st, ct, leaf, hj, hs, jg, sg, removed, partner);
      if r.Fail? {
        return;
      }
      leaves := leaves[1..] + next;
    }
    forall v | v in jg && v !in jt.nodes
      ensures v in sg && v !in st.nodes && exists u :: Edge(ct.nodes, v, u) || Edge(ct.nodes, u, v)
    {
      assert Edge(ct.nodes, v, partner[v]) || Edge(ct.nodes, partner[v], v);
    }
  }

  /**
    One leaf taken from the queue. Fails when the leaf or its child has no node in a tree
    that is asked about it, when the tree the leaf is a root of gives it several children,
    or when splicing it out meets several parents. A leaf with no child there is dropped;
    otherwise its contour edge is added, it is spliced out of both trees, and its child is
    returned for the queue when it has become a leaf.
   */
  method PruneStep(jt: Tree, st: Tree, ct: Tree, leaf: Vertex, ghost hj: map<Vertex, nat>, ghost hs: map<Vertex, nat>,
                   ghost jg: Graph, ghost sg: Graph, ghost removed: set<Vertex>, ghost partner: map<Vertex, Vertex>)
    returns (r: Outcome, next: seq<Vertex>, ghost removed': set<Vertex>, ghost partner': map<Vertex, Vertex>)
    requires Pruning(jt, st, ct, hj, hs, jg, sg, removed, partner)
    modifies jt, st, ct
    ensures ct.Valid() && jt.Valid() && st.Valid() && Built(ct.nodes, jg, sg)
    ensures r.Pass? ==> Pruning(jt, st, ct, hj, hs, jg, sg, removed', partner')
    ensures r.Pass? ==> jt.nodes.Keys < old(jt.nodes.Keys) || (jt.nodes.Keys == old(jt.nodes.Keys) && next == [])
    ensures leaf !in old(jt.nodes) ==> r == Fail(AbsentVertex) && Untouched(old(jt.nodes), old(st.nodes), old(ct.nodes), jt.nodes, st.nodes, ct.nodes)
    ensures leaf in old(jt.nodes) && |old(jt.nodes)[leaf].parents| == 0 ==>
              UpperDone(old(jt.nodes), old(st.nodes), old(ct.nodes), jt.nodes, st.nodes, ct.nodes, leaf, r, next)
    ensures leaf in old(jt.nodes) && |old(jt.nodes)[leaf].parents| != 0 ==>
              LowerDone(old(jt.nodes), old(st.nodes), old(ct.nodes), jt.nodes, st.nodes, ct.nodes, leaf, r, next)
  {
    if leaf !in jt.nodes {
      return Fail(AbsentVertex), [], removed, partner;
    }
    if jt.Degree(leaf) == 0 {
      r, next, removed', partner' := UpperStep(jt, st, ct, leaf, hj, hs, jg, sg, removed, partner);
    } else {
      r, next, removed', partner' := LowerStep(jt, st, ct, leaf, hj, hs, jg, sg, removed, partner);
    }
  }

  /** An upper leaf: its contour edge runs from it down to its only join-tree child. */
  method UpperStep(jt: Tree, st: Tree, ct: Tree, leaf: Vertex, ghost hj: map<Vertex, nat>, ghost hs: map<Vertex, nat>,
                   ghost jg: Graph, ghost sg: Graph, ghost removed: set<Vertex>, ghost partner: map<Vertex, Vertex>)
    returns (r: Outcome, next: seq<Vertex>, ghost removed': set<Vertex>, ghost partner': map<Vertex, Vertex>)
    requires Pruning(jt, st, ct, hj, hs, jg, sg, removed, partner) && leaf in jt.nodes
    modifies jt, st, ct
    ensures ct.Valid() && jt.Valid() && st.Valid() && Built(ct.nodes, jg, sg)
    ensures r.Pass? ==> Pruning(jt, st, ct, hj, hs, jg, sg, removed', partner')
    ensures r.Pass? ==> jt.nodes.Keys < old(jt.nodes.Keys) || (jt.nodes.Keys == old(jt.nodes.Keys) && next == [])
    ensures UpperDone(old(jt.nodes), old(st.nodes), old(ct.nodes), jt.nodes, st.nodes, ct.nodes, leaf, r, next)
  {
    removed', partner', next := removed, partner, [];
    ghost var j0, s0, c0 := jt.nodes, st.nodes, ct.nodes;
    var cs := jt.GetChildren(leaf);
    if |cs| > 1 {
      return Fail(MultipleChildren), next, removed', partner';
    }
    if |cs| == 0 {
      return Pass, next, removed', partner';
    }
    NonEmpty(cs);
    var y :| y in cs;
    assert Edge(jt.nodes, leaf, y);
    DescendsEdge(jt.nodes, hj, leaf, y);
    assert y == Only(cs);
    ConnectFollows(ct.nodes, leaf, y, jg, sg);
    var _ := ct.ConnectNodes(leaf, y);
    ConnectGrows(c0, leaf, y);
    r := ReduceBoth(jt, st, leaf, hj, hs, jg, sg);
    if r.Fail? {
      return;
    }
    if y !in st.nodes {
      return Fail(AbsentVertex), next, removed', partner';
    }
    SpliceKeeps(j0, s0, c0, jt.nodes, st.nodes, ct.nodes, hj, hs, jg, sg, removed, partner, leaf, y);
    removed', partner' := removed + {leaf}, partner[leaf := y];
    if IsContourTreeLeaf(jt.nodes, st.nodes, y) {
      next := [y];
    }
  }

  /** A lower leaf: its contour edge runs down to it from its only split-tree child. */
  method LowerStep(jt: Tree, st: Tree, ct: Tree, leaf: Vertex, ghost hj: map<Vertex, nat>, ghost hs: map<Vertex, nat>,
                   ghost jg: Graph, ghost sg: Graph, ghost removed: set<Vertex>, ghost partner: map<Vertex, Vertex>)
    returns (r: Outcome, next: seq<Vertex>, ghost removed': set<Vertex>, ghost partner': map<Vertex, Vertex>)
    requires Pruning(jt, st, ct, hj, hs, jg, sg, removed, partner) && leaf in jt.nodes
    modifies jt, st, ct
    ensures ct.Valid() && jt.Valid() && st.Valid() && Built(ct.nodes, jg, sg)
    ensures r.Pass? ==> Pruning(jt, st, ct, hj, hs, jg, sg, removed', partner')
    ensures r.Pass? ==> jt.nodes.Keys < old(jt.nodes.Keys) || (jt.nodes.Keys == old(jt.nodes.Keys) && next == [])
    ensures LowerDone(old(jt.nodes), old(st.nodes), old(ct.nodes), jt.nodes, st.nodes, ct.nodes, leaf, r, next)
  {
    removed', partner', next := removed, partner, [];
    ghost var j0, s0, c0 := jt.nodes, st.nodes, ct.nodes;
    if leaf !in st.nodes {
      return Fail(AbsentVertex), next, removed', partner';
    }
    var cs := st.GetChildren(leaf);
    if |cs| > 1 {
      return Fail(MultipleChildren), next, removed', partner';
    }
    if |cs| == 0 {
      return Pass, next, removed', partner';
    }
    NonEmpty(cs);
    var z :| z in cs;
    assert Edge(st.nodes, leaf, z);
    DescendsEdge(st.nodes, hs, leaf, z);
    assert z == Only(cs);
    if z in ct.nodes {
      ConnectFollows(ct.nodes, z, leaf, jg, sg);
    }
    r := ct.ConnectNodes(z, leaf);
    if r.Fail? {
      return;
    }
    ConnectGrows(c0, z, leaf);
    r := ReduceBoth(jt, st, leaf, hj, hs, jg, sg);
    if r.Fail? {
      return;
    }
    if z !in jt.nodes {
      return Fail(AbsentVertex), next, removed', partner';
    }
    SpliceKeeps(j0, s0, c0, jt.nodes, st.nodes, ct.nodes, hj, hs, jg, sg, removed, partner, leaf, z);
    removed', partner' := removed + {leaf}, partner[leaf := z];
    if IsContourTreeLeaf(jt.nodes, st.nodes, z) {
      next := [z];
    }
  }

  /**
    What `reduce_vert(leaf)` on the join tree `j` and then on the split tree `s` reports:
    several parents in either tree fail, and so does a leaf the split tree lacks; the
    split tree is asked only after the join tree succeeded.
   */
  ghost function ReduceOutcome(j: Graph, s: Graph, leaf: Vertex): Outcome
    requires leaf in j
  {
    if |j[leaf].parents| > 1 then Fail(MultipleParents)
    else if leaf !in s then Fail(AbsentVertex)
    else if |s[leaf].parents| > 1 then Fail(MultipleParents)
    else Pass
  }

  /**
    `j1` and `s1` are what the two splices leave of `j0` and `s0`: the join tree loses
    `leaf` unless it has several parents there, and the split tree loses it exactly when
    both splices succeed.
   */
  ghost predicate ReducedBoth(j0: Graph, s0: Graph, j1: Graph, s1: Graph, leaf: Vertex)
    requires leaf in j0
  {
    && j1 == (if |j0[leaf].parents| > 1 then j0 else Reduced(j0, leaf))
    && s1 == (if ReduceOutcome(j0, s0, leaf).Pass? then Reduced(s0, leaf) else s0)
  }

  /** None of the three trees changed. */
  ghost predicate Untouched(j0: Graph, s0: Graph, c0: Graph, j1: Graph, s1: Graph, c1: Graph)
  {
    j1 == j0 && s1 == s0 && c1 == c0
  }

  /**
    The effect of pruning an upper leaf from join tree `j0`, split tree `s0` and contour
    tree `c0`, leaving `j1`, `s1`, `c1`, outcome `r` and the queue additions `next`.
    Several join-tree children fail and no child drops the leaf, both with nothing
    changed. Otherwise the arc from the leaf to its child `y` is added, the leaf is
    spliced out of both trees, the step fails when a splice fails or the split tree lacks
    `y`, and on success `y` is queued exactly when it has become a contour-tree leaf.
   */
  ghost predicate UpperDone(j0: Graph, s0: Graph, c0: Graph, j1: Graph, s1: Graph, c1: Graph,
                            leaf: Vertex, r: Outcome, next: seq<Vertex>)
    requires leaf in j0
  {
    var cs := j0[leaf].children;
    if |cs| > 1 then r == Fail(MultipleChildren) && Untouched(j0, s0, c0, j1, s1, c1)
    else if |cs| == 0 then r == Pass && next == [] && Untouched(j0, s0, c0, j1, s1, c1)
    else
      var y := Only(cs);
      && leaf in c0 && y in c0 && c1 == Connect(c0, leaf, y)
      && ReducedBoth(j0, s0, j1, s1, leaf)
      && r == (if ReduceOutcome(j0, s0, leaf).Fail? then ReduceOutcome(j0, s0, leaf)
               else if y !in s1 then Fail(AbsentVertex) else Pass)
      && (r.Pass? ==> y in j1 && next == if IsContourTreeLeaf(j1, s1, y) then [y] else [])
  }

  /**
    The effect of pruning a lower leaf. A leaf the split tree lacks and several split-tree
    children fail, and no child drops the leaf, all with nothing changed. Otherwise the
    arc from its child `z` down to the leaf is added (failing, with nothing changed, when
    the contour tree lacks an endpoint), the leaf is spliced out of both trees, the step
    fails when a splice fails or the join tree lacks `z`, and on success `z` is queued
    exactly when it has become a contour-tree leaf.
   */
  ghost predicate LowerDone(j0: Graph, s0: Graph, c0: Graph, j1: Graph, s1: Graph, c1: Graph,
                            leaf: Vertex, r: Outcome, next: seq<Vertex>)
    requires leaf in j0
  {
    if leaf !in s0 then r == Fail(AbsentVertex) && Untouched(j0, s0, c0, j1, s1, c1)
    else
      var cs := s0[leaf].children;
      if |cs| > 1 then r == Fail(MultipleChildren) && Untouched(j0, s0, c0, j1, s1, c1)
      else if |cs| == 0 then r == Pass && next == [] && Untouched(j0, s0, c0, j1, s1, c1)
      else
        var z := Only(cs);
        if z !in c0 || leaf !in c0 then r == Fail(MissingEndpoint) && Untouched(j0, s0, c0, j1, s1, c1)
        else
          && c1 == Connect(c0, z, leaf)
          && ReducedBoth(j0, s0, j1, s1, leaf)
          && r == (if ReduceOutcome(j0, s0, leaf).Fail? then ReduceOutcome(j0, s0, leaf)
                   else if z !in j1 then Fail(AbsentVertex) else Pass)
          && (r.Pass? ==> z in s1 && next == if IsContourTreeLeaf(j1, s1, z) then [z] else [])
  }

  /**
    `reduce_vert(leaf)` on the join tree and then on the split tree: on success both trees
    have `leaf` spliced out and still follow the originals.
   */
  method ReduceBoth(jt: Tree, st: Tree, leaf: Vertex, ghost hj: map<Vertex, nat>, ghost hs: map<Vertex, nat>, ghost jg: Graph, ghost sg: Graph)
    returns (r: Outcome)
    requires jt != st && jt.Valid() && st.Valid() && Descends(jt.nodes, hj) && Descends(st.nodes, hs)
    requires Within(jt.nodes, jg) && Within(st.nodes, sg) && leaf in jt.nodes
    modifies jt, st
    ensures jt.Valid() && st.Valid()
    ensures r == ReduceOutcome(old(jt.nodes), old(st.nodes), leaf)
    ensures ReducedBoth(old(jt.nodes), old(st.nodes), jt.nodes, st.nodes, leaf)
    ensures r.Pass? ==> Descends(jt.nodes, hj) && Descends(st.nodes, hs) && Within(jt.nodes, jg) && Within(st.nodes, sg)
  {
    ghost var j0, s0 := jt.nodes, st.nodes;
    DescendsNoSelfLoop(jt.nodes, hj, leaf);
    r := jt.ReduceVert(leaf);
    if r.Fail? {
      return;
    }
    ReducedWf(j0, leaf);
    ReducedWithin(j0, leaf, jg);
    if leaf in st.nodes {
      DescendsNoSelfLoop(st.nodes, hs, leaf);
      ReducedWf(s0, leaf);
      ReducedWithin(s0, leaf, sg);
    }
    r := st.ReduceVert(leaf);
  }
}
