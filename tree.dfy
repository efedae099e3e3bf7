/**
  The mutable tree the pipeline builds: one node per vertex, each holding its value and its
  parent and child sets. The class keeps the graph as a map that its methods reassign; its
  meaning is the `Graph` value of module `Graphs`.
 */
module Trees {
  import opened Wrappers
  import opened Graphs
  import opened Condense

  /** The elements of a set in some order, each once (the order a spread of a JS `Set` yields). */
  method Elements(s: set<Vertex>) returns (t: seq<Vertex>)
    ensures forall x :: x in t <==> x in s
    ensures |t| == |s|
  {
    t := [];
    var rest := s;
    while rest != {}
      invariant forall x :: x in s <==> x in t || x in rest
      invariant forall x :: x in t ==> x !in rest
      invariant |t| + |rest| == |s|
      decreases |rest|
    {
      NonEmpty(rest);
      var x :| x in rest;
      t := t + [x];
      rest := rest - {x};
    }
  }

  /** The first pass of `ReduceVert`: every vertex of `cs` has `v` replaced by `ps` among its parents. */
  method SwapParent(g: Graph, v: Vertex, cs: set<Vertex>, ps: set<Vertex>) returns (r: Graph)
    requires cs <= g.Keys
    ensures r.Keys == g.Keys
    ensures forall u :: u in g ==> r[u] == (if u in cs then g[u].(parents := g[u].parents - {v} + ps) else g[u])
  {
    r := g;
    var todo := cs;
    while todo != {}
      invariant todo <= cs && r.Keys == g.Keys
      invariant forall u :: u in g ==>
        r[u] == (if u in cs && u !in todo then g[u].(parents := g[u].parents - {v} + ps) else g[u])
      decreases |todo|
    {
      NonEmpty(todo);
      var c :| c in todo;
      var cn := r[c];
      r := r[c := cn.(parents := cn.parents - {v} + ps)];
      todo := todo - {c};
    }
  }

  /** The second pass of `ReduceVert`: every vertex of `ps` has `v` replaced by `cs` among its children. */
  method SwapChild(g: Graph, v: Vertex, ps: set<Vertex>, cs: set<Vertex>) returns (r: Graph)
    requires ps <= g.Keys
    ensures r.Keys == g.Keys
    ensures forall u :: u in g ==> r[u] == (if u in ps then g[u].(children := g[u].children - {v} + cs) else g[u])
  {
    r := g;
    var todo := ps;
    while todo != {}
      invariant todo <= ps && r.Keys == g.Keys
      invariant forall u :: u in g ==>
        r[u] == (if u in ps && u !in todo then g[u].(children := g[u].children - {v} + cs) else g[u])
      decreases |todo|
    {
      NonEmpty(todo);
      var p :| p in todo;
      var pn := r[p];
      r := r[p := pn.(children := pn.children - {v} + cs)];
      todo := todo - {p};
    }
  }

  /** The two passes of `ReduceVert` followed by the removal of `v` build `Reduced`. */
  lemma SplicedIsReduced(n0: Graph, n1: Graph, n2: Graph, v: Vertex)
    requires v in n0 && n1.Keys == n0.Keys && n2.Keys == n0.Keys
    requires forall u :: u in n0 ==>
      n1[u] == (if u in n0[v].children then n0[u].(parents := n0[u].parents - {v} + n0[v].parents) else n0[u])
    requires forall u :: u in n0 ==>
      n2[u] == (if u in n0[v].parents then n1[u].(children := n1[u].children - {v} + n0[v].children) else n1[u])
    ensures n2 - {v} == Reduced(n0, v)
  {
    var red := Reduced(n0, v);
    var n := n0[v];
    forall u | u in n2 - {v} ensures (n2 - {v})[u] == red[u] {
      var m := n1[u];
      assert m.value == n0[u].value && m.children == n0[u].children;
      assert m.parents == if u in n.children then n0[u].parents - {v} + n.parents else n0[u].parents;
    }
  }

  ghost function Pow(b: nat, e: nat): (r: nat)
    ensures b >= 1 ==> r >= 1
  {
    if e == 0 then 1 else b * Pow(b, e - 1)
  }

  lemma {:induction false} PowMono(b: nat, e1: nat, e2: nat)
    requires b >= 1 && e1 <= e2
    ensures Pow(b, e1) <= Pow(b, e2)
    decreases e2
  {
    if e1 < e2 {
      PowMono(b, e1, e2 - 1);
      assert Pow(b, e2) == b * Pow(b, e2 - 1) >= Pow(b, e2 - 1);
    }
  }

  /**
    The termination measure of the walk in `WalkToNextSig`: each pending vertex weighs `b`
    to the power of its height. With `b` above every out-degree, replacing a vertex by its
    children lowers the total.
   */
  ghost function Weight(h: map<Vertex, nat>, b: nat, s: seq<Vertex>): nat
    requires forall i :: 0 <= i < |s| ==> s[i] in h
  {
    if s == [] then 0 else Weight(h, b, s[..|s| - 1]) + Pow(b, h[s[|s| - 1]])
  }

  lemma {:induction false} WeightAppend(h: map<Vertex, nat>, b: nat, s: seq<Vertex>, t: seq<Vertex>)
    requires forall i :: 0 <= i < |s| ==> s[i] in h
    requires forall i :: 0 <= i < |t| ==> t[i] in h
    ensures forall i :: 0 <= i < |s + t| ==> (s + t)[i] in h
    ensures Weight(h, b, s + t) == Weight(h, b, s) + Weight(h, b, t)
    decreases |t|
  {
    assert forall i :: 0 <= i < |s + t| ==> (s + t)[i] in h by {
      forall i | 0 <= i < |s + t| ensures (s + t)[i] in h {
        if i >= |s| {
          assert (s + t)[i] == t[i - |s|];
        }
      }
    }
    if t != [] {
      assert (s + t)[..|s + t| - 1] == s + t[..|t| - 1];
      WeightAppend(h, b, s, t[..|t| - 1]);
    } else {
      assert s + t == s;
    }
  }

  lemma {:induction false} WeightBound(h: map<Vertex, nat>, b: nat, t: seq<Vertex>, m: nat)
    requires b >= 1
    requires forall i :: 0 <= i < |t| ==> t[i] in h && h[t[i]] <= m
    ensures Weight(h, b, t) <= |t| * Pow(b, m)
    decreases |t|
  {
    if t != [] {
      var last := t[|t| - 1];
      WeightBound(h, b, t[..|t| - 1], m);
      PowMono(b, h[last], m);
      assert Weight(h, b, t) == Weight(h, b, t[..|t| - 1]) + Pow(b, h[last]);
      assert (|t| - 1) * Pow(b, m) + Pow(b, m) == |t| * Pow(b, m);
    }
  }

  lemma MulBelow(k: nat, b: nat, p: nat)
    requires k < b && p >= 1
    ensures k * p < b * p
  {
  }

  /** Replacing the vertex `x` by fewer than `b` vertices of smaller height lowers the weight. */
  lemma WeightDrops(h: map<Vertex, nat>, b: nat, rest: seq<Vertex>, x: Vertex, more: seq<Vertex>)
    requires x in h && |more| < b
    requires forall i :: 0 <= i < |rest| ==> rest[i] in h
    requires forall i :: 0 <= i < |more| ==> more[i] in h && h[more[i]] < h[x]
    ensures forall i :: 0 <= i < |rest + more| ==> (rest + more)[i] in h
    ensures forall i :: 0 <= i < |rest + [x]| ==> (rest + [x])[i] in h
    ensures Weight(h, b, rest + more) < Weight(h, b, rest + [x])
  {
    WeightAppend(h, b, rest, more);
    WeightAppend(h, b, rest, [x]);
    assert Weight(h, b, [x]) == Pow(b, h[x]) by {
      assert [x][..0] == [];
    }
    if more != [] {
      var hx := h[x];
      assert h[more[0]] < hx;
      WeightBound(h, b, more, hx - 1);
      MulBelow(|more|, b, Pow(b, hx - 1));
    }
  }

  class Tree {
    var nodes: Graph

    ghost predicate Valid()
      reads this
    {
      Wf(nodes)
    }

    constructor ()
      ensures Valid() && nodes == map[]
    {
      nodes := map[];
    }

    /** Adds a childless, parentless node for `v` unless `v` already has one; says whether it did. */
    method AddNode(v: Vertex, value: int) returns (created: bool)
      requires Valid()
      modifies this
      ensures Valid()
      ensures created <==> v !in old(nodes)
      ensures created ==> nodes == old(nodes)[v := Node(value, {}, {})]
      ensures !created ==> nodes == old(nodes)
    {
      if v in nodes {
        return false;
      }
      nodes := nodes[v := Node(value, {}, {})];
      return true;
    }

    /** Adds the edge `p -> c`; fails, changing nothing, when either end has no node. */
    method ConnectNodes(p: Vertex, c: Vertex) returns (r: Outcome)
      requires Valid()
      modifies this
      ensures Valid()
      ensures r.Fail? <==> p !in old(nodes) || c !in old(nodes)
      ensures r.Fail? ==> r.error == MissingEndpoint && nodes == old(nodes)
      ensures r.Pass? ==> nodes == Connect(old(nodes), p, c)
    {
      if p !in nodes || c !in nodes {
        return Fail(MissingEndpoint);
      }
      ghost var g0 := nodes;
      var cn := nodes[c];
      nodes := nodes[c := cn.(parents := cn.parents + {p})];
      var pn := nodes[p];
      nodes := nodes[p := pn.(children := pn.children + {c})];
      assert nodes == Connect(g0, p, c);
      return Pass;
    }

    /** The number of parents of `v`; zero exactly when no node lists `v` as a child. */
    function Degree(v: Vertex): (d: nat)
      reads this
      requires v in nodes
      ensures Valid() ==> (d == 0 <==> forall p :: p in nodes ==> v !in nodes[p].children)
    {
      ParentsAreIncoming(nodes, v);
      |nodes[v].parents|
    }

    /** `v` is a root: it has no parent, so no edge enters it. */
    function IsRoot(v: Vertex): (b: bool)
      reads this
      requires v in nodes
      ensures Valid() ==> (b <==> forall p :: p in nodes ==> !Edge(nodes, p, v))
    {
      Degree(v) == 0
    }

    /** The children of `v`: exactly the vertices whose parent set holds `v`. */
    function GetChildren(v: Vertex): (cs: set<Vertex>)
      reads this
      requires v in nodes
      ensures Valid() ==> cs <= nodes.Keys && forall c :: c in nodes ==> (c in cs <==> v in nodes[c].parents)
    {
      nodes[v].children
    }

    /**
      Classifies every vertex: the significant ones (root, leaf, merge or split) and, among
      them, the roots.
     */
    method ComputeSignificants() returns (sig: set<Vertex>, roots: set<Vertex>)
      ensures forall v :: v in sig <==> v in nodes && Significant(nodes[v])
      ensures forall v :: v in roots <==> v in nodes && |nodes[v].parents| == 0
      ensures roots <= sig <= nodes.Keys
    {
      sig, roots := {}, {};
      var todo := nodes.Keys;
      while todo != {}
        invariant todo <= nodes.Keys
        invariant forall v :: v in sig <==> v in nodes && v !in todo && Significant(nodes[v])
        invariant forall v :: v in roots <==> v in nodes && v !in todo && |nodes[v].parents| == 0
        decreases |todo|
      {
        NonEmpty(todo);
        var v :| v in todo;
        var n := nodes[v];
        if |n.parents| == 0 {
          sig, roots := sig + {v}, roots + {v};
        } else if |n.children| == 0 {
          sig := sig + {v};
        } else if |n.parents| > 1 {
          sig := sig + {v};
        } else if |n.children| > 1 {
          sig := sig + {v};
        }
        todo := todo - {v};
      }
    }

    /**
      Splices `v` out: its children take its parents in its place, its parents take its
      children in its place, and its node goes. Fails when `v` has no node, or has more
      than one parent, changing nothing.
     */
    method ReduceVert(v: Vertex) returns (r: Outcome)
      requires Valid() && (v in nodes ==> !SelfLoop(nodes, v))
      modifies this
      ensures Valid()
      ensures v !in old(nodes) ==> r == Fail(AbsentVertex)
      ensures v in old(nodes) && |old(nodes)[v].parents| > 1 ==> r == Fail(MultipleParents)
      ensures r.Fail? ==> nodes == old(nodes)
      ensures r.Pass? <==> v in old(nodes) && |old(nodes)[v].parents| <= 1
      ensures r.Pass? ==> nodes == Reduced(old(nodes), v)
    {
      if v !in nodes {
        return Fail(AbsentVertex);
      }
      var n := nodes[v];
      if |n.parents| > 1 {
        return Fail(MultipleParents);
      }
      var g1 := SwapParent(nodes, v, n.children, n.parents);
      var g := SwapChild(g1, v, n.parents, n.children);
      SplicedIsReduced(nodes, g1, g, v);
      ReducedWf(nodes, v);
      nodes := g - {v};
      return Pass;
    }
  
    /**
      The significant vertices that `u` leads to: a depth-first walk down from the children
      of `u` that stops at every vertex of `sig` and reports it. The walk keeps no visited
      set; it ends because heights drop along every edge.
     */
    method WalkToNextSig(u: Vertex, sig: set<Vertex>, ghost h: map<Vertex, nat>) returns (next: seq<Vertex>)
      requires Valid() && u in nodes && Descends(nodes, h)
      ensures forall w :: w in next <==> w in NextSigs(nodes, sig, u)
      ensures forall w :: w in next ==> w in sig
    {
      var stack := Elements(nodes[u].children);
      next := [];
      ghost var b := |nodes| + 1;
      WalkStart(nodes, sig, u, stack);
      while stack != []
        invariant WalkInv(nodes, sig, u, stack, next)
        invariant forall i :: 0 <= i < |stack| ==> stack[i] in h
        decreases Weight(h, b, stack)
      {
        ghost var stack0 := stack;
        var x := stack[|stack| - 1];
        stack := stack[..|stack| - 1];
        assert stack0 == stack + [x];
        if x in sig {
          WalkReport(nodes, sig, u, stack, x, next);
          WeightDrops(h, b, stack, x, []);
          assert stack + [] == stack;
          next := next + [x];
        } else {
          assert x in nodes;
          var more := Elements(nodes[x].children);
          SubsetCard(nodes[x].children, nodes.Keys);
          WalkDescend(nodes, sig, u, stack, x, more, next);
          forall i | 0 <= i < |more| ensures more[i] in h && h[more[i]] < h[x] {
            assert more[i] in more;
            assert more[i] in nodes[x].children;
            DescendsEdge(nodes, h, x, more[i]);
          }
          WeightDrops(h, b, stack, x, more);
          stack := stack + more;
        }
      }
      WalkDone(nodes, sig, u, next);
    }

    /** Connects `u` to each vertex of `next` in turn (the edge-adding half of the loop in `GenSigtree`). */
    method ConnectFrom(u: Vertex, next: seq<Vertex>)
      requires Valid() && u in nodes && forall w :: w in next ==> w in nodes
      modifies this
      ensures Valid() && nodes.Keys == old(nodes).Keys
      ensures forall v :: v in nodes ==> nodes[v].value == old(nodes)[v].value
      ensures forall a, b :: Edge(nodes, a, b) <==> Edge(old(nodes), a, b) || (a == u && b in next)
    {
      var i := 0;
      while i < |next|
        invariant 0 <= i <= |next| && Valid() && nodes.Keys == old(nodes).Keys
        invariant forall v :: v in nodes ==> nodes[v].value == old(nodes)[v].value
        invariant forall a, b :: Edge(nodes, a, b) <==> Edge(old(nodes), a, b) || (a == u && b in next[..i])
      {
        ghost var g0 := nodes;
        var _ := ConnectNodes(u, next[i]);
        forall a, b ensures Edge(nodes, a, b) <==> Edge(g0, a, b) || (a == u && b == next[i]) {
          ConnectEdges(g0, u, next[i], a, b);
        }
        assert next[..i + 1] == next[..i] + [next[i]];
        i := i + 1;
      }
      assert next[..|next|] == next;
    }

    /**
      The condensed tree: a node for every vertex of `sig`, with its value, and an edge from
      each significant vertex reached from `roots` to every significant vertex it leads to.
     */
    method GenSigtree(sig: set<Vertex>, roots: set<Vertex>, ghost h: map<Vertex, nat>) returns (t: Tree)
      requires Valid() && roots <= sig <= nodes.Keys && Descends(nodes, h)
      ensures fresh(t) && t.Valid()
      ensures t.nodes.Keys == sig && forall v :: v in sig ==> t.nodes[v].value == nodes[v].value
      ensures forall a, b :: Edge(t.nodes, a, b) <==> Reached(nodes, sig, roots, a) && b in NextSigs(nodes, sig, a)
      ensures Descends(t.nodes, h)
    {
      t := NodesOnly(nodes, sig);
      var stack := Elements(roots);
      var marked: set<Vertex> := {};
      SigStart(nodes, sig, roots, stack, t.nodes);
      while stack != []
        invariant t != this && t.Valid() && t.nodes.Keys == sig
        invariant forall v :: v in sig ==> t.nodes[v].value == nodes[v].value
        invariant SigInv(nodes, sig, roots, marked, stack, t.nodes)
        invariant forall x :: x in stack ==> x in sig
        decreases sig - marked, |stack|
      {
        ghost var stack0 := stack;
        var u := stack[|stack| - 1];
        stack := stack[..|stack| - 1];
        if u !in marked {
          ghost var c0 := t.nodes;
          var next := WalkToNextSig(u, sig, h);
          t.ConnectFrom(u, next);
          SigVisit(nodes, sig, roots, marked, stack0, next, c0, t.nodes);
          assert u in sig - marked && u !in sig - (marked + {u});
          marked := marked + {u};
          stack := stack + next;
        } else {
          SigSkip(nodes, sig, roots, marked, stack0, t.nodes);
        }
      }
      SigDone(nodes, sig, roots, marked, t.nodes);
      CondensationDescends(nodes, sig, h, t.nodes);
    }
  }

  /** A new tree with a parentless, childless node for each vertex of `sig`, carrying its value in `g`. */
  method NodesOnly(g: Graph, sig: set<Vertex>) returns (t: Tree)
    requires sig <= g.Keys
    ensures fresh(t) && t.Valid() && t.nodes.Keys == sig
    ensures forall v :: v in sig ==> t.nodes[v] == Node(g[v].value, {}, {})
  {
    t := new Tree();
    var todo := sig;
    while todo != {}
      invariant todo <= sig && t.Valid() && t.nodes.Keys == sig - todo
      invariant forall v :: v in t.nodes ==> t.nodes[v] == Node(g[v].value, {}, {})
      decreases |todo|
    {
      NonEmpty(todo);
      var v :| v in todo;
      var _ := t.AddNode(v, g[v].value);
      todo := todo - {v};
    }
  }
}
