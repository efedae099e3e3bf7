/**
  The directed graph a `Tree` holds, as a value: every vertex owns one node with its scalar
  value, its set of parents and its set of children. Vertex handles stand in for the
  node objects the script links together.
 */
module Graphs {

  type Vertex = int

  /** A non-empty set has an element (stated once, so that choices from sets need no repeated argument). */
  lemma NonEmpty(s: set<Vertex>)
    requires s != {}
    ensures exists x :: x in s
  {
    if forall y :: y !in s {
      assert false;
    }
  }

  /** The one element of a singleton set. */
  ghost function Only(s: set<Vertex>): (y: Vertex)
    requires |s| == 1
    ensures s == {y}
  {
    NonEmpty(s);
    var y :| y in s;
    assert |s - {y}| == 0;
    y
  }

  datatype Node = Node(value: int, parents: set<Vertex>, children: set<Vertex>)

  type Graph = map<Vertex, Node>

  /** Every parent and child a node names has a node of its own. */
  ghost predicate Closed(g: Graph)
  {
    forall v :: v in g ==> g[v].parents <= g.Keys && g[v].children <= g.Keys
  }

  /** Parent and child sets mirror each other: `c` is a child of `p` exactly when `p` is a parent of `c`. */
  ghost predicate Mirrored(g: Graph)
  {
    forall p, c :: p in g && c in g ==> (c in g[p].children <==> p in g[c].parents)
  }

  ghost predicate Wf(g: Graph)
  {
    Closed(g) && Mirrored(g)
  }

  /** In a well-formed graph a vertex has a parent exactly when some node lists it as a child. */
  lemma ParentsAreIncoming(g: Graph, v: Vertex)
    requires v in g
    ensures Wf(g) ==> (g[v].parents == {} <==> forall p :: p in g ==> v !in g[p].children)
  {
    if Wf(g) && g[v].parents != {} {
      NonEmpty(g[v].parents);
    }
  }

  /** The edge `p -> c` is present. */
  ghost predicate Edge(g: Graph, p: Vertex, c: Vertex)
  {
    p in g && c in g[p].children
  }

  /**
    The graph after adding the edge `p -> c`: `p` joins the parents of `c` and `c` joins the
    children of `p`; sets do not repeat, so an edge already present changes nothing.
   */
  function Connect(g: Graph, p: Vertex, c: Vertex): (r: Graph)
    requires p in g && c in g
    ensures r.Keys == g.Keys
    ensures forall v :: v in r ==> r[v].value == g[v].value
    ensures forall v :: v in r ==> r[v].parents == if v == c then g[v].parents + {p} else g[v].parents
    ensures forall v :: v in r ==> r[v].children == if v == p then g[v].children + {c} else g[v].children
    ensures Wf(g) ==> Wf(r)
  {
    var g1 := g[c := g[c].(parents := g[c].parents + {p})];
    g1[p := g1[p].(children := g1[p].children + {c})]
  }

  /** Connecting the same pair twice is the same as connecting it once. */
  lemma ConnectIdempotent(g: Graph, p: Vertex, c: Vertex)
    requires p in g && c in g
    ensures Connect(Connect(g, p, c), p, c) == Connect(g, p, c)
  {
    var once := Connect(g, p, c);
    var twice := Connect(once, p, c);
    forall v | v in twice ensures twice[v] == once[v] {
    }
  }

  /** An edge is present after `Connect` exactly when it was present before or it is the new one. */
  lemma ConnectEdges(g: Graph, p: Vertex, c: Vertex, x: Vertex, y: Vertex)
    requires p in g && c in g
    ensures Edge(Connect(g, p, c), x, y) <==> Edge(g, x, y) || (x == p && y == c)
  {
  }

  /**
    The graph after splicing `v` out: `v` is gone, each child of `v` has `v` replaced by the
    parents of `v`, each parent of `v` has `v` replaced by the children of `v`, and every
    other node is untouched.
   */
  function Reduced(g: Graph, v: Vertex): Graph
    requires v in g
  {
    var n := g[v];
    map u | u in g && u != v ::
      Node(g[u].value,
           if u in n.children then g[u].parents - {v} + n.parents else g[u].parents,
           if u in n.parents then g[u].children - {v} + n.children else g[u].children)
  }

  /** A vertex that is its own child. */
  ghost predicate SelfLoop(g: Graph, v: Vertex)
    requires v in g
  {
    v in g[v].children || v in g[v].parents
  }

  /**
    A vertex is significant when it is a root (no parent), a leaf (no child), a merge
    (several parents) or a split (several children).
   */
  predicate Significant(n: Node)
  {
    |n.parents| == 0 || |n.children| == 0 || |n.parents| > 1 || |n.children| > 1
  }

  /** The significant vertices of `g`. */
  ghost function Significants(g: Graph): set<Vertex>
  {
    set v | v in g && Significant(g[v])
  }

  /** The roots of `g`: the vertices without a parent. */
  ghost function Roots(g: Graph): set<Vertex>
  {
    set v | v in g && |g[v].parents| == 0
  }

  /** A significant node is a root, a leaf or a branching point; any other node has exactly one parent and one child. */
  lemma {:induction false} NotSignificantIsChainLink(n: Node)
    requires !Significant(n)
    ensures exists p, c :: n.parents == {p} && n.children == {c}
  {
    NonEmpty(n.parents);
    NonEmpty(n.children);
    var p :| p in n.parents;
    var c :| c in n.children;
    assert |n.parents - {p}| == 0 && |n.children - {c}| == 0;
    assert n.parents == {p} && n.children == {c};
  }

  /**
    A strictly decreasing height along every edge: the witness that the graph has no
    cycle. A sweep tree has one (the number of vertices swept after a vertex).
   */
  ghost predicate Descends(g: Graph, h: map<Vertex, nat>)
  {
    && g.Keys <= h.Keys
    && forall p, c :: p in g && c in g[p].children ==> c in h && h[c] < h[p]
  }

  lemma DescendsEdge(g: Graph, h: map<Vertex, nat>, p: Vertex, c: Vertex)
    requires Descends(g, h) && p in g && c in g[p].children
    ensures p in h && c in h && h[c] < h[p]
  {
  }

  /** A graph with a descending height has no self-loop. */
  lemma DescendsNoSelfLoop(g: Graph, h: map<Vertex, nat>, v: Vertex)
    requires Wf(g) && Descends(g, h) && v in g
    ensures !SelfLoop(g, v)
  {
  }

  /**
    Splicing out a vertex that is not its own child keeps the parent and child sets
    mirrored and closed, and keeps any descending height descending.
   */
  lemma ReducedWf(g: Graph, v: Vertex)
    requires Wf(g) && v in g && !SelfLoop(g, v)
    ensures Wf(Reduced(g, v))
    ensures Reduced(g, v).Keys == g.Keys - {v}
    ensures forall h :: Descends(g, h) ==> Descends(Reduced(g, v), h)
  {
    var r := Reduced(g, v);
    var n := g[v];
    assert r.Keys == g.Keys - {v};
    forall h | Descends(g, h) ensures Descends(r, h) {
      forall p, c | p in r && c in r[p].children ensures c in h && h[c] < h[p] {
        if p in n.parents && c in n.children {
          assert v in g[p].children;
        }
      }
    }
  }

  /**
    The edges after splicing `v` out are the old edges that avoid `v`, plus an edge from
    every parent of `v` to every child of `v` (so `a -> b -> c` becomes `a -> c`).
   */
  lemma ReducedEdges(g: Graph, v: Vertex, x: Vertex, y: Vertex)
    requires Wf(g) && v in g && !SelfLoop(g, v)
    ensures Edge(Reduced(g, v), x, y) <==>
      x != v && y != v && (Edge(g, x, y) || (x in g[v].parents && y in g[v].children))
  {
  }

  /** A walk along child edges. */
  ghost predicate IsPath(g: Graph, s: seq<Vertex>)
  {
    |s| >= 1 && forall i :: 0 <= i < |s| - 1 ==> Edge(g, s[i], s[i + 1])
  }

  /** `y` is reachable from `x` by following zero or more child edges. */
  ghost predicate Reach(g: Graph, x: Vertex, y: Vertex)
  {
    exists s :: IsPath(g, s) && s[0] == x && s[|s| - 1] == y
  }

  lemma ReachStep(g: Graph, x: Vertex, y: Vertex, z: Vertex)
    requires Reach(g, x, y) && Edge(g, y, z)
    ensures Reach(g, x, z)
  {
    var s :| IsPath(g, s) && s[0] == x && s[|s| - 1] == y;
    var s' := s + [z];
    assert IsPath(g, s') by {
      forall i | 0 <= i < |s'| - 1 ensures Edge(g, s'[i], s'[i + 1]) {
        if i < |s| - 1 {
          assert s'[i] == s[i] && s'[i + 1] == s[i + 1];
        }
      }
    }
  }

  lemma ReachRefl(g: Graph, x: Vertex)
    ensures Reach(g, x, x)
  {
    assert IsPath(g, [x]);
  }

  /** A path of the spliced graph between two surviving vertices is a reach in the original. */
  lemma {:induction false} ReducedPathReaches(g: Graph, v: Vertex, s: seq<Vertex>)
    requires Wf(g) && v in g && !SelfLoop(g, v) && IsPath(Reduced(g, v), s)
    ensures Reach(g, s[0], s[|s| - 1])
    decreases |s|
  {
    if |s| == 1 {
      ReachRefl(g, s[0]);
    } else {
      var s' := s[..|s| - 1];
      assert IsPath(Reduced(g, v), s') by {
        forall i | 0 <= i < |s'| - 1 ensures Edge(Reduced(g, v), s'[i], s'[i + 1]) {
          assert s'[i] == s[i] && s'[i + 1] == s[i + 1];
        }
      }
      ReducedPathReaches(g, v, s');
      var a, b := s[|s| - 2], s[|s| - 1];
      assert Edge(Reduced(g, v), a, b);
      ReducedEdges(g, v, a, b);
      if Edge(g, a, b) {
        ReachStep(g, s[0], a, b);
      } else {
        assert v in g[a].children;
        ReachStep(g, s[0], a, v);
        ReachStep(g, s[0], v, b);
      }
    }
  }

  /** A path of the original graph between two vertices other than `v` is a reach once `v` is spliced out. */
  lemma {:induction false} PathReachesReduced(g: Graph, v: Vertex, s: seq<Vertex>)
    requires Wf(g) && v in g && !SelfLoop(g, v) && IsPath(g, s)
    requires s[0] != v && s[|s| - 1] != v
    ensures Reach(Reduced(g, v), s[0], s[|s| - 1])
    decreases |s|
  {
    var r := Reduced(g, v);
    if |s| == 1 {
      ReachRefl(r, s[0]);
    } else {
      var a, b := s[|s| - 2], s[|s| - 1];
      if a != v {
        var s' := s[..|s| - 1];
        assert IsPath(g, s') by {
          forall i | 0 <= i < |s'| - 1 ensures Edge(g, s'[i], s'[i + 1]) {
            assert s'[i] == s[i] && s'[i + 1] == s[i + 1];
          }
        }
        PathReachesReduced(g, v, s');
        ReducedEdges(g, v, a, b);
        ReachStep(r, s[0], a, b);
      } else {
        assert |s| >= 3;
        var s' := s[..|s| - 2];
        assert IsPath(g, s') by {
          forall i | 0 <= i < |s'| - 1 ensures Edge(g, s'[i], s'[i + 1]) {
            assert s'[i] == s[i] && s'[i + 1] == s[i + 1];
          }
        }
        var c := s[|s| - 3];
        assert Edge(g, c, v);
        assert c != v;
        PathReachesReduced(g, v, s');
        assert c in g[v].parents && b in g[v].children;
        ReducedEdges(g, v, c, b);
        ReachStep(r, s[0], c, b);
      }
    }
  }

  /** Splicing a vertex out keeps reachability between every two other vertices. */
  lemma ReducedKeepsReach(g: Graph, v: Vertex, x: Vertex, y: Vertex)
    requires Wf(g) && v in g && !SelfLoop(g, v) && x != v && y != v
    ensures Reach(Reduced(g, v), x, y) <==> Reach(g, x, y)
  {
    if Reach(Reduced(g, v), x, y) {
      var s :| IsPath(Reduced(g, v), s) && s[0] == x && s[|s| - 1] == y;
      ReducedPathReaches(g, v, s);
    }
    if Reach(g, x, y) {
      var s :| IsPath(g, s) && s[0] == x && s[|s| - 1] == y;
      PathReachesReduced(g, v, s);
    }
  }

  /** A stretch of a path is a path. */
  lemma SubPath(g: Graph, s: seq<Vertex>, i: int, j: int)
    requires IsPath(g, s) && 0 <= i < j <= |s|
    ensures IsPath(g, s[i..j])
  {
    var t := s[i..j];
    forall k | 0 <= k < |t| - 1 ensures Edge(g, t[k], t[k + 1]) {
      assert t[k] == s[i + k] && t[k + 1] == s[i + k + 1];
    }
  }

  /** Two paths meeting end to start join into one path. */
  lemma JoinPaths(g: Graph, s: seq<Vertex>, t: seq<Vertex>)
    requires IsPath(g, s) && IsPath(g, t) && s[|s| - 1] == t[0]
    ensures IsPath(g, s + t[1..])
  {
    var u := s + t[1..];
    forall k | 0 <= k < |u| - 1 ensures Edge(g, u[k], u[k + 1]) {
      if k < |s| - 1 {
        assert u[k] == s[k] && u[k + 1] == s[k + 1];
      } else {
        assert u[k] == t[k - |s| + 1] && u[k + 1] == t[k - |s| + 2];
      }
    }
  }

  /** Reachability composes. */
  lemma ReachTrans(g: Graph, x: Vertex, y: Vertex, z: Vertex)
    requires Reach(g, x, y) && Reach(g, y, z)
    ensures Reach(g, x, z)
  {
    var s :| IsPath(g, s) && s[0] == x && s[|s| - 1] == y;
    var t :| IsPath(g, t) && t[0] == y && t[|t| - 1] == z;
    JoinPaths(g, s, t);
    if |t| == 1 {
      assert s + t[1..] == s;
    }
  }

  /** An edge is a path of one step. */
  lemma EdgeReach(g: Graph, x: Vertex, y: Vertex)
    requires Edge(g, x, y)
    ensures Reach(g, x, y)
  {
    assert IsPath(g, [x, y]);
  }

  /** Along any path of a graph with a descending height, the height strictly drops at every step. */
  lemma {:induction false} PathDescends(g: Graph, h: map<Vertex, nat>, s: seq<Vertex>)
    requires Descends(g, h) && IsPath(g, s) && |s| >= 2
    ensures s[0] in h && s[|s| - 1] in h && h[s[|s| - 1]] + |s| - 1 <= h[s[0]]
    decreases |s|
  {
    if |s| > 2 {
      SubPath(g, s, 1, |s|);
      PathDescends(g, h, s[1..]);
      assert Edge(g, s[0], s[1]);
    } else {
      assert Edge(g, s[0], s[1]);
    }
  }

  /** A graph with a descending height has no cycle: no vertex reaches itself along one or more edges. */
  lemma DescendsAcyclic(g: Graph, h: map<Vertex, nat>, s: seq<Vertex>)
    requires Descends(g, h) && IsPath(g, s) && |s| >= 2
    ensures s[0] != s[|s| - 1]
  {
    PathDescends(g, h, s);
  }
}
