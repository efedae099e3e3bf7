/**
  Connectivity in a mesh, restricted to the vertices a sweep has processed so far. The
  mesh is given as an adjacency list: `adj[x]` holds the neighbours of vertex `x`.
 */
module Meshes {
  import opened Graphs

  /** A mesh adjacency: neighbours are vertex indices, adjacency is symmetric, and no vertex neighbours itself. */
  ghost predicate Mesh(adj: seq<set<Vertex>>)
  {
    forall x, y :: 0 <= x < |adj| && y in adj[x] ==> 0 <= y < |adj| && x in adj[y] && x != y
  }

  /** `s` is a walk along mesh edges that stays inside `P`. */
  ghost predicate Walk(adj: seq<set<Vertex>>, P: set<Vertex>, s: seq<Vertex>)
  {
    && |s| >= 1
    && (forall i :: 0 <= i < |s| ==> s[i] in P && 0 <= s[i] < |adj|)
    && (forall i :: 0 <= i < |s| - 1 ==> s[i + 1] in adj[s[i]])
  }

  /** `x` and `y` lie in the same connected component of the mesh restricted to `P`. */
  ghost predicate Conn(adj: seq<set<Vertex>>, P: set<Vertex>, x: Vertex, y: Vertex)
  {
    exists s {:trigger Walk(adj, P, s)} :: Walk(adj, P, s) && s[0] == x && s[|s| - 1] == y
  }

  /** Inside `P`, `x` is connected to some neighbour of `v`. */
  ghost predicate Near(adj: seq<set<Vertex>>, P: set<Vertex>, v: Vertex, x: Vertex)
    requires 0 <= v < |adj|
  {
    exists w {:trigger Conn(adj, P, x, w)} :: w in adj[v] && w in P && Conn(adj, P, x, w)
  }

  lemma ConnEnds(adj: seq<set<Vertex>>, P: set<Vertex>, x: Vertex, y: Vertex)
    requires Conn(adj, P, x, y)
    ensures x in P && y in P && 0 <= x < |adj| && 0 <= y < |adj|
  {
    var s :| Walk(adj, P, s) && s[0] == x && s[|s| - 1] == y;
  }

  lemma ConnRefl(adj: seq<set<Vertex>>, P: set<Vertex>, x: Vertex)
    requires x in P && 0 <= x < |adj|
    ensures Conn(adj, P, x, x)
  {
    assert Walk(adj, P, [x]);
  }

  lemma ConnAdj(adj: seq<set<Vertex>>, P: set<Vertex>, x: Vertex, y: Vertex)
    requires x in P && y in P && 0 <= x < |adj| && 0 <= y < |adj| && y in adj[x]
    ensures Conn(adj, P, x, y)
  {
    assert Walk(adj, P, [x, y]);
  }

  lemma ConnTrans(adj: seq<set<Vertex>>, P: set<Vertex>, x: Vertex, y: Vertex, z: Vertex)
    requires Conn(adj, P, x, y) && Conn(adj, P, y, z)
    ensures Conn(adj, P, x, z)
  {
    var s :| Walk(adj, P, s) && s[0] == x && s[|s| - 1] == y;
    var t :| Walk(adj, P, t) && t[0] == y && t[|t| - 1] == z;
    var u := s + t[1..];
    forall i | 0 <= i < |u| - 1 ensures u[i + 1] in adj[u[i]] {
      if i < |s| - 1 {
        assert u[i] == s[i] && u[i + 1] == s[i + 1];
      } else {
        assert u[i] == t[i - |s| + 1] && u[i + 1] == t[i - |s| + 2];
      }
    }
    assert Walk(adj, P, u);
  }

  lemma ConnSym(adj: seq<set<Vertex>>, P: set<Vertex>, x: Vertex, y: Vertex)
    requires Mesh(adj) && Conn(adj, P, x, y)
    ensures Conn(adj, P, y, x)
  {
    var s :| Walk(adj, P, s) && s[0] == x && s[|s| - 1] == y;
    var r := seq(|s|, i requires 0 <= i < |s| => s[|s| - 1 - i]);
    forall i | 0 <= i < |r| - 1 ensures r[i + 1] in adj[r[i]] {
      assert s[|s| - 1 - i] in adj[s[|s| - 2 - i]];
    }
    assert Walk(adj, P, r);
  }

  lemma ConnMono(adj: seq<set<Vertex>>, P: set<Vertex>, Q: set<Vertex>, x: Vertex, y: Vertex)
    requires P <= Q && Conn(adj, P, x, y)
    ensures Conn(adj, Q, x, y)
  {
    var s :| Walk(adj, P, s) && s[0] == x && s[|s| - 1] == y;
    assert Walk(adj, Q, s);
  }

  /**
    A walk that starts inside `P` and may also use the new vertex `v` either stays inside
    `P`, or its start is connected inside `P` to a neighbour of `v`.
   */
  lemma {:induction false} WalkSplit(adj: seq<set<Vertex>>, P: set<Vertex>, v: Vertex, s: seq<Vertex>)
    requires Mesh(adj) && 0 <= v < |adj| && Walk(adj, P + {v}, s) && s[0] in P
    ensures Walk(adj, P, s) || Near(adj, P, v, s[0])
  {
    if |s| > 1 {
      var s' := s[..|s| - 1];
      assert Walk(adj, P + {v}, s') by {
        forall i | 0 <= i < |s'| - 1 ensures s'[i + 1] in adj[s'[i]] {
          assert s'[i] == s[i] && s'[i + 1] == s[i + 1];
        }
      }
      WalkSplit(adj, P, v, s');
      if Walk(adj, P, s') {
        var x := s[|s| - 1];
        if x !in P {
          var w := s[|s| - 2];
          assert x == v && v in adj[w];
          assert w in adj[v];
          assert Conn(adj, P, s[0], w) by {
            assert s'[0] == s[0] && s'[|s'| - 1] == w;
          }
        } else {
          assert forall i :: 0 <= i < |s| - 1 ==> s[i] == s'[i];
        }
      }
    }
  }

  /**
    Adding `v` to `P` joins exactly the components of `P` that touch a neighbour of `v`:
    two vertices of `P` are connected through `P + {v}` iff they were already connected, or
    both are connected to neighbours of `v`.
   */
  lemma ConnSplit(adj: seq<set<Vertex>>, P: set<Vertex>, v: Vertex, x: Vertex, y: Vertex)
    requires Mesh(adj) && 0 <= v < |adj| && v !in P && x in P && y in P
    ensures Conn(adj, P + {v}, x, y) <==> Conn(adj, P, x, y) || (Near(adj, P, v, x) && Near(adj, P, v, y))
  {
    if Conn(adj, P + {v}, x, y) {
      var s :| Walk(adj, P + {v}, s) && s[0] == x && s[|s| - 1] == y;
      WalkSplit(adj, P, v, s);
      if !Walk(adj, P, s) {
        var i :| 0 <= i < |s| && s[i] !in P;
        var r := seq(|s|, j requires 0 <= j < |s| => s[|s| - 1 - j]);
        forall j | 0 <= j < |r| - 1 ensures r[j + 1] in adj[r[j]] {
          assert s[|s| - 1 - j] in adj[s[|s| - 2 - j]];
        }
        assert Walk(adj, P + {v}, r);
        WalkSplit(adj, P, v, r);
        assert r[|s| - 1 - i] !in P;
      }
    }
    if Conn(adj, P, x, y) {
      ConnMono(adj, P, P + {v}, x, y);
    }
    if Near(adj, P, v, x) && Near(adj, P, v, y) {
      NearReachesNew(adj, P, v, x);
      NearReachesNew(adj, P, v, y);
      ConnSym(adj, P + {v}, y, v);
      ConnTrans(adj, P + {v}, x, v, y);
    }
  }

  /** A vertex of `P` is connected to the new vertex `v` through `P + {v}` iff it is near `v` in `P`. */
  lemma NearReachesNew(adj: seq<set<Vertex>>, P: set<Vertex>, v: Vertex, x: Vertex)
    requires Mesh(adj) && 0 <= v < |adj| && v !in P && x in P
    ensures Conn(adj, P + {v}, x, v) <==> Near(adj, P, v, x)
  {
    if Near(adj, P, v, x) {
      var w :| w in adj[v] && w in P && Conn(adj, P, x, w);
      ConnMono(adj, P, P + {v}, x, w);
      ConnAdj(adj, P + {v}, w, v);
      ConnTrans(adj, P + {v}, x, w, v);
    }
    if Conn(adj, P + {v}, x, v) {
      var s :| Walk(adj, P + {v}, s) && s[0] == x && s[|s| - 1] == v;
      WalkSplit(adj, P, v, s);
    }
  }

  /** The vertices the sweep has processed before step `k`. */
  ghost function Processed(order: seq<Vertex>, k: nat): set<Vertex>
    requires k <= |order|
  {
    set x | x in order[..k]
  }

  lemma ProcessedNext(order: seq<Vertex>, k: nat)
    requires k < |order|
    ensures Processed(order, k + 1) == Processed(order, k) + {order[k]}
  {
    assert order[..k + 1] == order[..k] + [order[k]];
  }

  /**
    `order[j]` is the boundary of the component of `w` before step `k`: the vertex of that
    component that the sweep processed last.
   */
  ghost predicate IsLastAt(adj: seq<set<Vertex>>, order: seq<Vertex>, k: nat, w: Vertex, j: int)
    requires k <= |order|
  {
    && 0 <= j < k
    && Conn(adj, Processed(order, k), w, order[j])
    && forall j' {:trigger Conn(adj, Processed(order, k), w, order[j'])} :: j < j' < k ==> !Conn(adj, Processed(order, k), w, order[j'])
  }

  /** A component has a single boundary. */
  lemma LastUnique(adj: seq<set<Vertex>>, order: seq<Vertex>, k: nat, w: Vertex, j1: int, j2: int)
    requires k <= |order| && IsLastAt(adj, order, k, w, j1) && IsLastAt(adj, order, k, w, j2)
    ensures j1 == j2
  {
  }

  /** Every processed vertex has a boundary. */
  lemma LastExists(adj: seq<set<Vertex>>, order: seq<Vertex>, k: nat, w: Vertex)
    requires k <= |order| && w in Processed(order, k) && 0 <= w < |adj|
    ensures exists j :: IsLastAt(adj, order, k, w, j)
  {
    var i :| 0 <= i < k && order[i] == w;
    ConnRefl(adj, Processed(order, k), w);
    LastAbove(adj, order, k, w, i);
  }

  lemma {:induction false} LastAbove(adj: seq<set<Vertex>>, order: seq<Vertex>, k: nat, w: Vertex, j: int)
    requires k <= |order| && 0 <= j < k && Conn(adj, Processed(order, k), w, order[j])
    ensures exists j2 :: IsLastAt(adj, order, k, w, j2)
    decreases k - j
  {
    if exists j' :: j < j' < k && Conn(adj, Processed(order, k), w, order[j']) {
      var j' :| j < j' < k && Conn(adj, Processed(order, k), w, order[j']);
      LastAbove(adj, order, k, w, j');
    } else {
      assert IsLastAt(adj, order, k, w, j);
    }
  }

  /** Two processed vertices share their boundary iff they lie in the same component. */
  lemma SameLastIffConnected(adj: seq<set<Vertex>>, order: seq<Vertex>, k: nat, w1: Vertex, w2: Vertex, j1: int, j2: int)
    requires Mesh(adj) && k <= |order|
    requires IsLastAt(adj, order, k, w1, j1) && IsLastAt(adj, order, k, w2, j2)
    ensures j1 == j2 <==> Conn(adj, Processed(order, k), w1, w2)
  {
    var P := Processed(order, k);
    if j1 == j2 {
      ConnSym(adj, P, w2, order[j2]);
      ConnTrans(adj, P, w1, order[j1], w2);
    }
    if Conn(adj, P, w1, w2) {
      ConnTrans(adj, P, w1, w2, order[j2]);
      ConnSym(adj, P, w1, w2);
      ConnTrans(adj, P, w2, w1, order[j1]);
    }
  }

  /** The connected component of `x` in the mesh restricted to `P`. */
  ghost function Component(adj: seq<set<Vertex>>, P: set<Vertex>, x: Vertex): set<Vertex>
  {
    set y | y in P && Conn(adj, P, x, y)
  }

  /** The distinct components, among the vertices processed before step `k`, that hold a neighbour of `order[k]`. */
  ghost function NeighbourComponents(adj: seq<set<Vertex>>, order: seq<Vertex>, k: nat): set<set<Vertex>>
    requires k < |order| && 0 <= order[k] < |adj|
  {
    set w | w in adj[order[k]] && w in Processed(order, k) :: Component(adj, Processed(order, k), w)
  }

  /** Connected vertices have the same component. */
  lemma SameComponent(adj: seq<set<Vertex>>, P: set<Vertex>, x: Vertex, y: Vertex)
    requires Mesh(adj) && Conn(adj, P, x, y)
    ensures Component(adj, P, x) == Component(adj, P, y)
  {
    forall z | z in Component(adj, P, x) ensures z in Component(adj, P, y) {
      ConnSym(adj, P, x, y);
      ConnTrans(adj, P, y, x, z);
    }
    forall z | z in Component(adj, P, y) ensures z in Component(adj, P, x) {
      ConnTrans(adj, P, x, y, z);
    }
  }

  /** Vertices in distinct components give as many components as there are vertices. */
  lemma {:induction false} ComponentsCount(adj: seq<set<Vertex>>, P: set<Vertex>, ps: set<Vertex>)
    requires forall p1, p2 :: p1 in ps && p2 in ps && Component(adj, P, p1) == Component(adj, P, p2) ==> p1 == p2
    ensures |set p | p in ps :: Component(adj, P, p)| == |ps|
    decreases ps
  {
    if ps == {} {
      assert (set q | q in ps :: Component(adj, P, q)) == {};
    } else {
      NonEmpty(ps);
      var p :| p in ps;
      var rest := ps - {p};
      ComponentsCount(adj, P, rest);
      var cs, cr := set q | q in ps :: Component(adj, P, q), set q | q in rest :: Component(adj, P, q);
      forall c | c in cs ensures c in cr + {Component(adj, P, p)} {
        var q :| q in ps && c == Component(adj, P, q);
        if q != p {
          assert q in rest;
        }
      }
      forall q | q in rest ensures Component(adj, P, q) != Component(adj, P, p) {
      }
      assert cs == cr + {Component(adj, P, p)};
      assert |cs| == |cr| + 1;
      assert |ps| == |rest| + 1;
    }
  }
}
