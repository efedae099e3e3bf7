/**
  The sweep that builds a merge tree (join tree or split tree) from a mesh and a scalar
  value per vertex. Vertices are visited in sweep order; a union-find tracks the connected
  components of the processed part of the mesh, and a boundary map names, for each
  component, the vertex of it processed last. Each new vertex becomes a child of the
  boundaries of the components of its processed neighbours, and then the boundary of the
  merged component.
 */
module Sweeps {
  import opened Wrappers
  import opened Graphs
  import opened Meshes
  import opened Orders
  import opened DisjointSets
  import opened Trees

  /** `R` names the representative of every label the union-find knows. */
  ghost predicate IsRoots(parent: map<Label, Label>, rank: map<Label, nat>, R: map<Label, Label>)
  {
    && RankedForest(parent, rank) && R.Keys == parent.Keys
    && forall x {:trigger Root(parent, rank, x)} :: x in parent ==> R[x] == Root(parent, rank, x)
  }

  lemma RootsExist(parent: map<Label, Label>, rank: map<Label, nat>) returns (R: map<Label, Label>)
    requires RankedForest(parent, rank)
    ensures IsRoots(parent, rank, R)
  {
    R := map x | x in parent :: Root(parent, rank, x);
  }

  /** `make_set` adds a label that is its own representative and changes no other. */
  lemma MakeSetRoots(p0: map<Label, Label>, r0: map<Label, nat>, p1: map<Label, Label>, r1: map<Label, nat>, R: map<Label, Label>, v: Label)
    returns (R1: map<Label, Label>)
    requires IsRoots(p0, r0, R) && RankedForest(p1, r1) && v !in p0 && p1.Keys == p0.Keys + {v}
    requires Root(p1, r1, v) == v
    requires forall x {:trigger Root(p1, r1, x)} :: x in p0 ==> Root(p1, r1, x) == Root(p0, r0, x)
    ensures R1 == R[v := v] && IsRoots(p1, r1, R1)
  {
    R1 := R[v := v];
    forall x | x in p1 ensures R1[x] == Root(p1, r1, x) {
      if x != v {
        assert R[x] == Root(p0, r0, x);
      }
    }
  }

  /** `find` compresses paths but keeps every representative. */
  lemma FindRoots(p0: map<Label, Label>, r0: map<Label, nat>, p1: map<Label, Label>, r1: map<Label, nat>, R: map<Label, Label>)
    requires IsRoots(p0, r0, R) && RankedForest(p1, r1) && SameComponents(p0, r0, p1, r1)
    ensures IsRoots(p1, r1, R)
  {
    forall x | x in p1 ensures R[x] == Root(p1, r1, x) {
      assert R[x] == Root(p0, r0, x);
    }
  }

  /** `union(a, b)` gives the components of `a` and `b` one representative, one of their two old ones. */
  lemma UnionRoots(p1: map<Label, Label>, r1: map<Label, nat>, p2: map<Label, Label>, r2: map<Label, nat>, R1: map<Label, Label>, a: Label, b: Label)
    returns (R2: map<Label, Label>)
    requires IsRoots(p1, r1, R1) && RankedForest(p2, r2) && p2.Keys == p1.Keys && a in p1 && b in p1
    requires Root(p2, r2, a) == Root(p2, r2, b)
    requires Root(p2, r2, a) == Root(p1, r1, a) || Root(p2, r2, a) == Root(p1, r1, b)
    requires forall z {:trigger Root(p2, r2, z)} :: z in p2 ==>
      Root(p2, r2, z) == (var r := Root(p1, r1, z);
                          if r == Root(p1, r1, a) || r == Root(p1, r1, b) then Root(p2, r2, a) else r)
    ensures IsRoots(p2, r2, R2) && R2.Keys == R1.Keys
    ensures R2[a] == R2[b] && (R2[a] == R1[a] || R2[a] == R1[b])
    ensures forall z {:trigger R2[z]} :: z in R2 ==> R2[z] == if R1[z] == R1[a] || R1[z] == R1[b] then R2[a] else R1[z]
  {
    R2 := RootsExist(p2, r2);
    assert R1[a] == Root(p1, r1, a) && R1[b] == Root(p1, r1, b);
    assert R2[a] == Root(p2, r2, a) && R2[b] == Root(p2, r2, b);
    forall z | z in R2 ensures R2[z] == if R1[z] == R1[a] || R1[z] == R1[b] then R2[a] else R1[z] {
      assert R2[z] == Root(p2, r2, z) && R1[z] == Root(p1, r1, z);
    }
  }

  /** Two processed vertices share a representative exactly when they are connected in the processed mesh. */
  ghost predicate RootsTrackConn(adj: seq<set<Vertex>>, P: set<Vertex>, R: map<Label, Label>)
  {
    && R.Keys == P
    && forall x, y {:trigger Conn(adj, P, x, y)} :: x in P && y in P ==> (R[x] == R[y] <==> Conn(adj, P, x, y))
  }

  /**
    The boundary map sends the representative of each processed vertex to the last
    processed vertex of its component; `pos` gives each processed vertex its step.
   */
  ghost predicate BoundariesLast(adj: seq<set<Vertex>>, order: seq<Vertex>, k: nat, R: map<Label, Label>, bd: map<Label, Vertex>, pos: map<Vertex, nat>)
    requires k <= |order|
  {
    forall x {:trigger bd[R[x]]} :: x in R ==> R[x] in bd && bd[R[x]] in pos && IsLastAt(adj, order, k, x, pos[bd[R[x]]])
  }

  /** The boundary of the component of `x`. */
  lemma BoundaryOf(adj: seq<set<Vertex>>, order: seq<Vertex>, k: nat, R: map<Label, Label>, bd: map<Label, Vertex>, pos: map<Vertex, nat>, x: Vertex)
    requires k <= |order| && BoundariesLast(adj, order, k, R, bd, pos) && x in R
    ensures R[x] in bd && bd[R[x]] in pos && IsLastAt(adj, order, k, x, pos[bd[R[x]]])
  {
  }

  /**
    `p` is a parent the sweep gives `order[k]`: the boundary, before step `k`, of the
    component of one of its processed neighbours.
   */
  ghost predicate BoundaryParent(adj: seq<set<Vertex>>, order: seq<Vertex>, k: nat, p: Vertex)
    requires k < |order| && 0 <= order[k] < |adj|
  {
    exists w, j :: w in adj[order[k]] && w in Processed(order, k) && IsLastAt(adj, order, k, w, j) && order[j] == p
  }

  /** Every parent was processed before its child. */
  ghost predicate ParentsEarlier(g: Graph, pos: map<Vertex, nat>)
  {
    forall c, p {:trigger p in g[c].parents} :: c in g && p in g[c].parents ==> p in pos && c in pos && pos[p] < pos[c]
  }

  /** The representatives of the vertices of `ns` that `R` knows: the components they lie in. */
  ghost function RootsOf(R: map<Label, Label>, ns: set<Vertex>): set<Label>
  {
    set w | w in ns && w in R :: R[w]
  }

  /** The boundaries the map `bd` gives the components `cs`. */
  function Boundaries(bd: map<Label, Vertex>, cs: set<Label>): set<Vertex>
  {
    set c | c in cs && c in bd :: bd[c]
  }

  /** A processed vertex's representative lies among the new vertex's neighbour components exactly when it is near the new vertex. */
  lemma MergedIffNear(adj: seq<set<Vertex>>, P: set<Vertex>, v: Vertex, RA: map<Label, Label>, comps: set<Label>, x: Vertex)
    requires 0 <= v < |adj| && RootsTrackConn(adj, P, RA) && x in P
    requires comps == RootsOf(RA, adj[v])
    ensures RA[x] in comps <==> Near(adj, P, v, x)
  {
    if RA[x] in comps {
      var w :| w in adj[v] && w in RA && RA[x] == RA[w];
      assert Conn(adj, P, x, w);
    }
    if Near(adj, P, v, x) {
      var w :| w in adj[v] && w in P && Conn(adj, P, x, w);
      assert RA[w] in comps;
    }
  }

  /**
    One sweep step keeps the representatives in step with connectivity: adding `v` merges
    exactly the components of its processed neighbours, together with `v`, under `m`.
   */
  lemma StepConn(adj: seq<set<Vertex>>, P: set<Vertex>, v: Vertex, RA: map<Label, Label>, RC: map<Label, Label>, comps: set<Label>, m: Label)
    requires Mesh(adj) && 0 <= v < |adj| && v !in P && forall x :: x in P ==> 0 <= x < |adj|
    requires RootsTrackConn(adj, P, RA) && forall x :: x in P ==> RA[x] in P
    requires comps == RootsOf(RA, adj[v])
    requires RC.Keys == P + {v} && RC[v] == m && (m in comps || m == v)
    requires forall z :: z in P ==> RC[z] == if RA[z] in comps then m else RA[z]
    ensures RootsTrackConn(adj, P + {v}, RC)
  {
    var Q := P + {v};
    forall x, y | x in Q && y in Q ensures RC[x] == RC[y] <==> Conn(adj, Q, x, y) {
      if x == v && y == v {
        ConnRefl(adj, Q, v);
      } else if x == v {
        StepConnNew(adj, P, v, RA, RC, comps, m, y);
        if Conn(adj, Q, y, v) {
          ConnSym(adj, Q, y, v);
        }
        if Conn(adj, Q, v, y) {
          ConnSym(adj, Q, v, y);
        }
      } else if y == v {
        StepConnNew(adj, P, v, RA, RC, comps, m, x);
      } else {
        MergedIffNear(adj, P, v, RA, comps, x);
        MergedIffNear(adj, P, v, RA, comps, y);
        ConnSplit(adj, P, v, x, y);
        if Conn(adj, P, x, y) && Near(adj, P, v, x) {
          var w :| w in adj[v] && w in P && Conn(adj, P, x, w);
          ConnSym(adj, P, x, y);
          ConnTrans(adj, P, y, x, w);
        }
        if Conn(adj, P, x, y) && Near(adj, P, v, y) {
          var w :| w in adj[v] && w in P && Conn(adj, P, y, w);
          ConnTrans(adj, P, x, y, w);
        }
      }
    }
  }

  /** The new vertex shares its representative with a processed vertex iff they are now connected. */
  lemma StepConnNew(adj: seq<set<Vertex>>, P: set<Vertex>, v: Vertex, RA: map<Label, Label>, RC: map<Label, Label>, comps: set<Label>, m: Label, y: Vertex)
    requires Mesh(adj) && 0 <= v < |adj| && v !in P && y in P
    requires RootsTrackConn(adj, P, RA) && forall x :: x in P ==> RA[x] in P
    requires comps == RootsOf(RA, adj[v])
    requires RC.Keys == P + {v} && RC[v] == m && (m in comps || m == v)
    requires forall z :: z in P ==> RC[z] == if RA[z] in comps then m else RA[z]
    ensures RC[y] == RC[v] <==> Conn(adj, P + {v}, y, v)
  {
    MergedIffNear(adj, P, v, RA, comps, y);
    NearReachesNew(adj, P, v, y);
  }

  /**
    The sweep's bookkeeping after its first `k` steps: representatives track connectivity
    of the processed mesh, and the boundary map names each component's last processed vertex.
   */
  ghost predicate Tracked(adj: seq<set<Vertex>>, order: seq<Vertex>, k: nat, R: map<Label, Label>, bd: map<Label, Vertex>, pos: map<Vertex, nat>)
    requires k <= |order|
  {
    && (forall x :: x in Processed(order, k) ==> 0 <= x < |adj|)
    && pos.Keys == Processed(order, k) && (forall x :: x in pos ==> pos[x] < k && order[pos[x]] == x)
    && RootsTrackConn(adj, Processed(order, k), R) && (forall x :: x in R ==> R[x] in Processed(order, k))
    && BoundariesLast(adj, order, k, R, bd, pos)
  }

  /** The bookkeeping is in place and `order[k]` is a vertex not yet processed. */
  ghost predicate Ready(adj: seq<set<Vertex>>, order: seq<Vertex>, k: nat, R: map<Label, Label>, bd: map<Label, Vertex>, pos: map<Vertex, nat>)
  {
    && Mesh(adj) && k < |order| && 0 <= order[k] < |adj| && order[k] !in Processed(order, k)
    && Tracked(adj, order, k, R, bd, pos)
  }

  /**
    Step `k` merged the components `comps` of the processed neighbours of `order[k]`,
    together with `order[k]`, under the representative `m`; `RC` is the representative map after it.
   */
  ghost predicate Merged(adj: seq<set<Vertex>>, order: seq<Vertex>, k: nat, RA: map<Label, Label>, RC: map<Label, Label>, comps: set<Label>, m: Label)
  {
    && k < |order| && 0 <= order[k] < |adj| && RA.Keys == Processed(order, k)
    && comps == RootsOf(RA, adj[order[k]])
    && RC.Keys == Processed(order, k) + {order[k]} && RC[order[k]] == m && (m in comps || m == order[k])
    && forall z :: z in Processed(order, k) ==> RC[z] == if RA[z] in comps then m else RA[z]
  }

  /**
    One sweep step keeps the boundaries right: every vertex of the merged component now has
    `order[k]` as its boundary, and every other component keeps its boundary.
   */
  lemma StepLast(adj: seq<set<Vertex>>, order: seq<Vertex>, k: nat, RA: map<Label, Label>, RC: map<Label, Label>, comps: set<Label>, m: Label,
                 bd: map<Label, Vertex>, pos: map<Vertex, nat>)
    requires Ready(adj, order, k, RA, bd, pos) && Merged(adj, order, k, RA, RC, comps, m)
    ensures BoundariesLast(adj, order, k + 1, RC, bd[order[k] := order[k]][m := order[k]], pos[order[k] := k])
  {
    var bd', pos' := bd[order[k] := order[k]][m := order[k]], pos[order[k] := k];
    forall x | x in RC ensures RC[x] in bd' && bd'[RC[x]] in pos' && IsLastAt(adj, order, k + 1, x, pos'[bd'[RC[x]]]) {
      StepLastAt(adj, order, k, RA, RC, comps, m, bd, pos, x);
    }
  }

  /** The boundary of one vertex after step `k`. */
  lemma StepLastAt(adj: seq<set<Vertex>>, order: seq<Vertex>, k: nat, RA: map<Label, Label>, RC: map<Label, Label>, comps: set<Label>, m: Label,
                   bd: map<Label, Vertex>, pos: map<Vertex, nat>, x: Vertex)
    requires Ready(adj, order, k, RA, bd, pos) && Merged(adj, order, k, RA, RC, comps, m) && x in RC
    ensures var bd', pos' := bd[order[k] := order[k]][m := order[k]], pos[order[k] := k];
      RC[x] in bd' && bd'[RC[x]] in pos' && IsLastAt(adj, order, k + 1, x, pos'[bd'[RC[x]]])
  {
    var P, v := Processed(order, k), order[k];
    var bd', pos' := bd[v := v][m := v], pos[v := k];
    if x == v {
      StepLastMerged(adj, order, k, x);
    } else {
      MergedIffNear(adj, P, v, RA, comps, x);
      if RA[x] in comps {
        StepLastMerged(adj, order, k, x);
      } else {
        BoundaryOf(adj, order, k, RA, bd, pos, x);
        var b := bd[RA[x]];
        assert RC[x] == RA[x] && RA[x] != m && RA[x] != v;
        assert bd'[RC[x]] == b && b in pos && b != v;
        StepLastKept(adj, order, k, x, pos[b]);
      }
    }
  }

  /** After step `k`, the new vertex is the boundary of everything connected to it. */
  lemma StepLastMerged(adj: seq<set<Vertex>>, order: seq<Vertex>, k: nat, x: Vertex)
    requires Mesh(adj) && k < |order| && 0 <= order[k] < |adj| && order[k] !in Processed(order, k)
    requires x == order[k] || (x in Processed(order, k) && Near(adj, Processed(order, k), order[k], x))
    ensures IsLastAt(adj, order, k + 1, x, k)
  {
    var P, v := Processed(order, k), order[k];
    ProcessedNext(order, k);
    if x == v {
      ConnRefl(adj, P + {v}, v);
    } else {
      NearReachesNew(adj, P, v, x);
    }
  }

  /** A component that step `k` does not touch keeps its boundary. */
  lemma StepLastKept(adj: seq<set<Vertex>>, order: seq<Vertex>, k: nat, x: Vertex, j: int)
    requires Mesh(adj) && k < |order| && 0 <= order[k] < |adj| && order[k] !in Processed(order, k)
    requires x in Processed(order, k) && !Near(adj, Processed(order, k), order[k], x)
    requires IsLastAt(adj, order, k, x, j)
    ensures IsLastAt(adj, order, k + 1, x, j)
  {
    var P, v := Processed(order, k), order[k];
    var Q := P + {v};
    ProcessedNext(order, k);
    NearReachesNew(adj, P, v, x);
    ConnMono(adj, P, Q, x, order[j]);
    forall j' | j < j' < k + 1 ensures !Conn(adj, Q, x, order[j']) {
      if j' < k {
        assert order[j'] in P;
        ConnSplit(adj, P, v, x, order[j']);
      }
    }
  }

  /** The parents a step gives its vertex, the boundaries of its neighbour components, are its `BoundaryParent`s. */
  lemma StepParents(adj: seq<set<Vertex>>, order: seq<Vertex>, k: nat, RA: map<Label, Label>, comps: set<Label>,
                    bd: map<Label, Vertex>, pos: map<Vertex, nat>, ps: set<Vertex>)
    requires Ready(adj, order, k, RA, bd, pos)
    requires comps == RootsOf(RA, adj[order[k]])
    requires ps == Boundaries(bd, comps)
    ensures forall p :: p in ps <==> BoundaryParent(adj, order, k, p)
  {
    forall p ensures p in ps <==> BoundaryParent(adj, order, k, p) {
      if p in ps {
        StepParentSound(adj, order, k, RA, comps, bd, pos, ps, p);
      }
      if BoundaryParent(adj, order, k, p) {
        StepParentComplete(adj, order, k, RA, comps, bd, pos, ps, p);
      }
    }
  }

  lemma StepParentSound(adj: seq<set<Vertex>>, order: seq<Vertex>, k: nat, RA: map<Label, Label>, comps: set<Label>,
                        bd: map<Label, Vertex>, pos: map<Vertex, nat>, ps: set<Vertex>, p: Vertex)
    requires Ready(adj, order, k, RA, bd, pos)
    requires comps == RootsOf(RA, adj[order[k]])
    requires ps == Boundaries(bd, comps) && p in ps
    ensures BoundaryParent(adj, order, k, p)
  {
    var c :| c in comps && c in bd && bd[c] == p;
    var w :| w in adj[order[k]] && w in RA && c == RA[w];
    BoundaryOf(adj, order, k, RA, bd, pos, w);
  }

  lemma StepParentComplete(adj: seq<set<Vertex>>, order: seq<Vertex>, k: nat, RA: map<Label, Label>, comps: set<Label>,
                           bd: map<Label, Vertex>, pos: map<Vertex, nat>, ps: set<Vertex>, p: Vertex)
    requires Ready(adj, order, k, RA, bd, pos)
    requires comps == RootsOf(RA, adj[order[k]])
    requires ps == Boundaries(bd, comps) && BoundaryParent(adj, order, k, p)
    ensures p in ps
  {
    var w, j :| w in adj[order[k]] && w in Processed(order, k) && IsLastAt(adj, order, k, w, j) && order[j] == p;
    var c := RA[w];
    assert c in comps;
    BoundaryOf(adj, order, k, RA, bd, pos, w);
    assert IsLastAt(adj, order, k, w, pos[bd[c]]);
    LastUnique(adj, order, k, w, j, pos[bd[c]]);
    assert p == bd[c];
  }

  /** Parents processed before their children give the tree a height that drops along every edge. */
  lemma EarlierDescends(g: Graph, pos: map<Vertex, nat>, n: nat, h: map<Vertex, nat>)
    requires Wf(g) && ParentsEarlier(g, pos) && g.Keys <= pos.Keys
    requires forall x :: x in pos ==> pos[x] < n
    requires h.Keys == pos.Keys && forall x :: x in h ==> h[x] == n - 1 - pos[x]
    ensures Descends(g, h)
  {
    forall p, c | p in g && c in g[p].children ensures c in h && h[c] < h[p] {
      assert p in g[c].parents;
    }
  }

  /** The vertex of step `k` has not been processed before. */
  lemma NotYetProcessed(order: seq<Vertex>, n: nat, k: nat)
    requires Enumerates(order, n) && k < n
    ensures order[k] !in Processed(order, k)
  {
    forall i | 0 <= i < k ensures order[..k][i] != order[k] {
    }
  }

  /**
    The representatives of the already-processed neighbours: `find` on each neighbour,
    keeping the answers for labels the union-find knows. Path compression changes no
    representative, so `R` still names them all.
   */
  method Gather(ds: DisjointSet, ns: set<Vertex>, ghost R: map<Label, Label>) returns (comps: set<Label>)
    requires ds.Valid() && IsRoots(ds.parent, ds.rank, R)
    modifies ds
    ensures ds.Valid() && IsRoots(ds.parent, ds.rank, R)
    ensures comps == RootsOf(R, ns)
  {
    comps := {};
    var todo := ns;
    ghost var done: set<Vertex> := {};
    while todo != {}
      invariant todo <= ns && done == ns - todo
      invariant ds.Valid() && IsRoots(ds.parent, ds.rank, R)
      invariant comps == RootsOf(R, done)
      decreases |todo|
    {
      NonEmpty(todo);
      var w :| w in todo;
      var found := FindRoot(ds, w, R);
      RootsOfAdd(R, done, w);
      if found.Some? {
        comps := comps + {found.value};
      }
      assert comps == RootsOf(R, done + {w});
      MoveOne(ns, todo, done, w);
      todo := todo - {w};
      done := done + {w};
    }
    assert done == ns;
  }

  /** `find(w)`: the representative `R` names, or nothing for a label the union-find does not know. */
  method FindRoot(ds: DisjointSet, w: Label, ghost R: map<Label, Label>) returns (found: Option<Label>)
    requires ds.Valid() && IsRoots(ds.parent, ds.rank, R)
    modifies ds
    ensures ds.Valid() && IsRoots(ds.parent, ds.rank, R)
    ensures found == if w in R then Some(R[w]) else None
  {
    ghost var p0, r0 := ds.parent, ds.rank;
    found := ds.Find(w);
    FindRoots(p0, r0, ds.parent, ds.rank, R);
  }

  lemma RootsOfAdd(R: map<Label, Label>, ns: set<Vertex>, w: Vertex)
    ensures RootsOf(R, ns + {w}) == RootsOf(R, ns) + if w in R then {R[w]} else {}
  {
  }

  /**
    Hangs the new vertex `v` under the boundary of each component in `comps` and merges
    those components with `v` in the union-find: afterwards `R` names the representatives.
    The tree and the union-find share no state, so the per-component steps are done as
    one pass over the tree followed by one pass over the union-find.
   */
  method Join(ds: DisjointSet, t: Tree, bd: map<Label, Vertex>, v: Vertex, value: int, comps: set<Label>, ghost R0: map<Label, Label>)
    returns (ghost R: map<Label, Label>)
    requires ds.Valid() && t.Valid() && IsRoots(ds.parent, ds.rank, R0)
    requires v in R0 && R0[v] == v && v !in comps && comps != {}
    requires forall c :: c in comps ==> c in R0 && R0[c] == c && c in bd && bd[c] in t.nodes
    requires v !in t.nodes
    modifies ds, t
    ensures Absorbed(ds, R0, R, v, comps)
    ensures Hung(t, old(t.nodes), bd, v, value, comps)
  {
    HangAll(t, bd, v, value, comps);
    R := AbsorbAll(ds, v, comps, R0);
  }

  /** `add_node(v)` and `connect_nodes(boundary(c), v)` for every component `c`. */
  method HangAll(t: Tree, bd: map<Label, Vertex>, v: Vertex, value: int, comps: set<Label>)
    requires t.Valid() && v !in t.nodes
    requires forall c :: c in comps ==> c in bd && bd[c] in t.nodes
    modifies t
    ensures Hung(t, old(t.nodes), bd, v, value, comps)
  {
    ghost var g0 := t.nodes;
    var todo := comps;
    ghost var done: set<Label> := {};
    while todo != {}
      invariant todo <= comps && done == comps - todo
      invariant Hung(t, g0, bd, v, value, done)
      decreases |todo|
    {
      NonEmpty(todo);
      var c :| c in todo;
      HangOne(t, g0, bd, v, value, done, c);
      MoveOne(comps, todo, done, c);
      todo := todo - {c};
      done := done + {c};
    }
  }

  /** `union(c, v)` for every component `c`. */
  method AbsorbAll(ds: DisjointSet, v: Vertex, comps: set<Label>, ghost R0: map<Label, Label>) returns (ghost R: map<Label, Label>)
    requires ds.Valid() && IsRoots(ds.parent, ds.rank, R0)
    requires v in R0 && R0[v] == v && v !in comps
    requires forall c :: c in comps ==> c in R0 && R0[c] == c
    modifies ds
    ensures Absorbed(ds, R0, R, v, comps)
  {
    R := R0;
    var todo := comps;
    ghost var done: set<Label> := {};
    while todo != {}
      invariant todo <= comps && done == comps - todo
      invariant Absorbed(ds, R0, R, v, done)
      decreases |todo|
    {
      NonEmpty(todo);
      var c :| c in todo;
      R := Absorb(ds, c, v, R0, R, done);
      MoveOne(comps, todo, done, c);
      todo := todo - {c};
      done := done + {c};
    }
  }

  /**
    The union-find after merging `v` with the components `done`: `R` names the
    representatives, and the labels that were in `done` or with `v` now share `v`'s.
   */
  ghost predicate Absorbed(ds: DisjointSet, R0: map<Label, Label>, R: map<Label, Label>, v: Label, done: set<Label>)
    reads ds
  {
    && ds.Valid() && IsRoots(ds.parent, ds.rank, R) && v in R
    && MergedRoots(R0, R, done, v, R[v])
  }

  /**
    `R` is `R0` after merging the components `cs` with `v`'s under the representative `m`,
    one of theirs.
   */
  ghost predicate MergedRoots(R0: map<Label, Label>, R: map<Label, Label>, cs: set<Label>, v: Label, m: Label)
  {
    && R.Keys == R0.Keys && v in R && R[v] == m && m in cs + {v}
    && forall z :: z in R ==> R[z] == if R0[z] in cs + {v} then m else R0[z]
  }

  /**
    The tree after hanging `v` under the boundaries of the components `done`: the old
    tree `g0` unchanged, plus `v` (once `done` is not empty) with those boundaries as parents.
   */
  ghost predicate Hung(t: Tree, g0: Graph, bd: map<Label, Vertex>, v: Vertex, value: int, done: set<Label>)
    reads t
  {
    && t.Valid() && t.nodes.Keys == g0.Keys + (if done == {} then {} else {v})
    && (forall x :: x in g0 ==> t.nodes[x].value == g0[x].value && t.nodes[x].parents == g0[x].parents)
    && (done != {} ==> t.nodes[v].value == value && t.nodes[v].parents == Boundaries(bd, done))
  }

  /** `add_node(v)` and `connect_nodes(boundary(c), v)` inside the join loop. */
  method HangOne(t: Tree, ghost g0: Graph, bd: map<Label, Vertex>, v: Vertex, value: int, ghost done: set<Label>, c: Label)
    requires Hung(t, g0, bd, v, value, done) && v !in g0 && c in bd && bd[c] in g0
    modifies t
    ensures Hung(t, g0, bd, v, value, done + {c})
  {
    Hang(t, bd[c], v, value);
    BoundariesAdd(bd, done, c);
  }

  /** `union(c, v)` inside the join loop: the component `c` joins those already merged with `v`. */
  method Absorb(ds: DisjointSet, c: Label, v: Label, ghost R0: map<Label, Label>, ghost R: map<Label, Label>, ghost done: set<Label>)
    returns (ghost R': map<Label, Label>)
    requires Absorbed(ds, R0, R, v, done) && c in R0 && R0[c] == c && c !in done + {v}
    modifies ds
    ensures Absorbed(ds, R0, R', v, done + {c})
  {
    ghost var p1, r1 := ds.parent, ds.rank;
    ds.Union(c, v);
    R' := UnionRoots(p1, r1, ds.parent, ds.rank, R, c, v);
    JoinStep(R0, R, R', v, c, done);
  }

  lemma MoveOne(all: set<Label>, todo: set<Label>, done: set<Label>, c: Label)
    requires todo <= all && done == all - todo && c in todo
    ensures todo - {c} <= all && done + {c} == all - (todo - {c}) && c !in done
  {
  }

  lemma BoundariesAdd(bd: map<Label, Vertex>, cs: set<Label>, c: Label)
    requires c in bd
    ensures Boundaries(bd, cs + {c}) == Boundaries(bd, cs) + {bd[c]}
  {
  }

  /**
    One union of the join loop, on the representative maps before the loop (`R0`), before
    the union (`R1`) and after it (`R2`): the component `c` joins those already merged with `v`.
   */
  lemma JoinStep(R0: map<Label, Label>, R1: map<Label, Label>, R2: map<Label, Label>, v: Label, c: Label, done: set<Label>)
    requires R1.Keys == R0.Keys && R2.Keys == R0.Keys && v in R0 && c in R0
    requires R0[c] == c && c !in done + {v}
    requires R1[v] in done + {v}
    requires forall z :: z in R1 ==> R1[z] == if R0[z] in done + {v} then R1[v] else R0[z]
    requires R2[c] == R2[v] && (R2[c] == R1[c] || R2[c] == R1[v])
    requires forall z :: z in R2 ==> R2[z] == if R1[z] == R1[c] || R1[z] == R1[v] then R2[c] else R1[z]
    ensures R2[v] in done + {c} + {v}
    ensures forall z :: z in R2 ==> R2[z] == if R0[z] in done + {c} + {v} then R2[v] else R0[z]
  {
    assert R1[c] == c;
    forall z | z in R2 ensures R2[z] == if R0[z] in done + {c} + {v} then R2[v] else R0[z] {
      assert R1[z] == if R0[z] in done + {v} then R1[v] else R0[z];
    }
  }

  /** Adds `v` to the tree unless it is there, and makes it a child of `p`. */
  method Hang(t: Tree, p: Vertex, v: Vertex, value: int)
    requires t.Valid() && p in t.nodes && p != v
    modifies t
    ensures t.Valid() && t.nodes.Keys == old(t.nodes).Keys + {v}
    ensures t.nodes[v].value == if v in old(t.nodes) then old(t.nodes)[v].value else value
    ensures t.nodes[v].parents == (if v in old(t.nodes) then old(t.nodes)[v].parents else {}) + {p}
    ensures forall x :: x in old(t.nodes) && x != v ==> t.nodes[x].value == old(t.nodes)[x].value && t.nodes[x].parents == old(t.nodes)[x].parents
  {
    var _ := t.AddNode(v, value);
    var r := t.ConnectNodes(p, v);
    assert r.Pass?;
  }

  /** The labels `R` gives as representatives are their own representatives. */
  lemma CompsAreRoots(parent: map<Label, Label>, rank: map<Label, nat>, R: map<Label, Label>, ns: set<Vertex>)
    requires IsRoots(parent, rank, R)
    ensures forall c :: c in RootsOf(R, ns) ==> c in R && R[c] == c
  {
    forall c | c in RootsOf(R, ns) ensures c in R && R[c] == c {
      var w :| w in ns && w in R && R[w] == c;
      assert R[w] == Root(parent, rank, w);
      assert R[c] == Root(parent, rank, c);
    }
  }

  lemma RootsOfSkip(R: map<Label, Label>, v: Label, ns: set<Vertex>)
    requires v !in ns
    ensures RootsOf(R[v := v], ns) == RootsOf(R, ns)
  {
  }

  lemma BoundariesSkip(bd: map<Label, Vertex>, v: Label, cs: set<Label>)
    requires v !in cs
    ensures Boundaries(bd[v := v], cs) == Boundaries(bd, cs)
  {
  }

  /** Each neighbour component is a processed label with a processed boundary. */
  lemma JoinReady(adj: seq<set<Vertex>>, order: seq<Vertex>, k: nat, R: map<Label, Label>, bd: map<Label, Vertex>, pos: map<Vertex, nat>, comps: set<Label>)
    requires Ready(adj, order, k, R, bd, pos) && comps == RootsOf(R, adj[order[k]])
    ensures forall c :: c in comps ==> c in Processed(order, k) && c in bd && bd[c] in Processed(order, k)
  {
    forall c | c in comps ensures c in Processed(order, k) && c in bd && bd[c] in Processed(order, k) {
      var w :| w in adj[order[k]] && w in R && R[w] == c;
      BoundaryOf(adj, order, k, R, bd, pos, w);
    }
  }

  /** A vertex with no processed neighbour starts a component of its own. */
  lemma LoneMerged(adj: seq<set<Vertex>>, order: seq<Vertex>, k: nat, RA: map<Label, Label>)
    requires k < |order| && 0 <= order[k] < |adj| && order[k] !in Processed(order, k)
    requires RA.Keys == Processed(order, k) && RootsOf(RA, adj[order[k]]) == {}
    ensures Merged(adj, order, k, RA, RA[order[k] := order[k]], {}, order[k])
  {
  }

  /** The merges of the join loop, seen from the representative map before step `k`. */
  lemma JoinMerged(adj: seq<set<Vertex>>, order: seq<Vertex>, k: nat, RA: map<Label, Label>, R1: map<Label, Label>, RC: map<Label, Label>,
                   comps: set<Label>, m: Label)
    requires k < |order| && 0 <= order[k] < |adj| && order[k] !in Processed(order, k)
    requires RA.Keys == Processed(order, k) && (forall x :: x in RA ==> RA[x] in Processed(order, k))
    requires comps == RootsOf(RA, adj[order[k]])
    requires R1 == RA[order[k] := order[k]] && RC.Keys == R1.Keys && order[k] in RC && m == RC[order[k]] && m in comps + {order[k]}
    requires forall z :: z in RC ==> RC[z] == if R1[z] in comps + {order[k]} then m else R1[z]
    ensures Merged(adj, order, k, RA, RC, comps, m)
  {
    forall z | z in Processed(order, k) ensures RC[z] == if RA[z] in comps then m else RA[z] {
      assert R1[z] == RA[z] && RA[z] != order[k];
    }
  }

  /** One step keeps the bookkeeping. */
  lemma StepTracked(adj: seq<set<Vertex>>, order: seq<Vertex>, k: nat, RA: map<Label, Label>, RC: map<Label, Label>, comps: set<Label>, m: Label,
                    bd: map<Label, Vertex>, pos: map<Vertex, nat>)
    requires Ready(adj, order, k, RA, bd, pos) && Merged(adj, order, k, RA, RC, comps, m)
    ensures Tracked(adj, order, k + 1, RC, bd[order[k] := order[k]][m := order[k]], pos[order[k] := k])
  {
    StepPos(adj, order, k, pos, k + 1, pos[order[k] := k]);
    StepRoots(adj, order, k, RA, RC, comps, m, bd, pos);
    StepLast(adj, order, k, RA, RC, comps, m, bd, pos);
  }

  /** Step `k` records its own position. */
  lemma StepPos(adj: seq<set<Vertex>>, order: seq<Vertex>, k: nat, pos: map<Vertex, nat>, k': nat, pos': map<Vertex, nat>)
    requires k < |order| && 0 <= order[k] < |adj| && (forall x :: x in Processed(order, k) ==> 0 <= x < |adj|)
    requires pos.Keys == Processed(order, k) && (forall x :: x in pos ==> pos[x] < k && order[pos[x]] == x)
    requires k' == k + 1 && pos' == pos[order[k] := k]
    ensures forall x :: x in Processed(order, k') ==> 0 <= x < |adj|
    ensures pos'.Keys == Processed(order, k') && forall x :: x in pos' ==> pos'[x] < k' && order[pos'[x]] == x
  {
    ProcessedNext(order, k);
  }

  /** After step `k` the representatives still track connectivity. */
  lemma StepRoots(adj: seq<set<Vertex>>, order: seq<Vertex>, k: nat, RA: map<Label, Label>, RC: map<Label, Label>, comps: set<Label>, m: Label,
                  bd: map<Label, Vertex>, pos: map<Vertex, nat>)
    requires Ready(adj, order, k, RA, bd, pos) && Merged(adj, order, k, RA, RC, comps, m)
    ensures RootsTrackConn(adj, Processed(order, k + 1), RC) && forall x :: x in RC ==> RC[x] in Processed(order, k + 1)
  {
    var v, P := order[k], Processed(order, k);
    ProcessedNext(order, k);
    StepConn(adj, P, v, RA, RC, comps, m);
    forall x | x in RC ensures RC[x] in P + {v} {
      if x != v {
        assert RC[x] == if RA[x] in comps then m else RA[x];
      }
    }
  }

  /** `g1` is `g0` with the new vertex `v` added, holding `value` and the parents `ps`. */
  ghost predicate Extended(g0: Graph, g1: Graph, v: Vertex, value: int, ps: set<Vertex>)
  {
    && g1.Keys == g0.Keys + {v}
    && (forall x :: x in g0 ==> g1[x].value == g0[x].value && g1[x].parents == g0[x].parents)
    && g1[v].value == value && g1[v].parents == ps
  }

  /** Every vertex the sweep has processed has exactly the parents the sweep gives it. */
  ghost predicate SweptParents(adj: seq<set<Vertex>>, order: seq<Vertex>, g: Graph, pos: map<Vertex, nat>)
  {
    forall x, p :: x in pos && x in g && pos[x] < |order| && 0 <= order[pos[x]] < |adj| ==>
      (p in g[x].parents <==> BoundaryParent(adj, order, pos[x], p))
  }

  /** Step `k` adds `order[k]` to the tree, after its parents and with the parents the sweep gives it. */
  lemma StepTree(adj: seq<set<Vertex>>, order: seq<Vertex>, k: nat, RA: map<Label, Label>, comps: set<Label>,
                 bd: map<Label, Vertex>, pos: map<Vertex, nat>, g0: Graph, g1: Graph, value: int)
    requires Ready(adj, order, k, RA, bd, pos) && comps == RootsOf(RA, adj[order[k]])
    requires g0.Keys == Processed(order, k) && ParentsEarlier(g0, pos) && SweptParents(adj, order, g0, pos)
    requires Extended(g0, g1, order[k], value, Boundaries(bd, comps))
    ensures ParentsEarlier(g1, pos[order[k] := k]) && SweptParents(adj, order, g1, pos[order[k] := k])
  {
    var v, pos' := order[k], pos[order[k] := k];
    StepParents(adj, order, k, RA, comps, bd, pos, g1[v].parents);
    forall c, p | c in g1 && p in g1[c].parents ensures p in pos' && c in pos' && pos'[p] < pos'[c] {
      if c == v {
        var cc :| cc in comps && cc in bd && bd[cc] == p;
        var w :| w in adj[v] && w in RA && RA[w] == cc;
        assert p in pos;
      } else {
        assert p in g0[c].parents;
      }
    }
    forall x, p | x in pos' && x in g1 && pos'[x] < |order| && 0 <= order[pos'[x]] < |adj|
      ensures p in g1[x].parents <==> BoundaryParent(adj, order, pos'[x], p)
    {
      if x != v {
        assert g1[x].parents == g0[x].parents;
      }
    }
  }

  /**
    What the sweep has built after its first `k` steps, on the union-find's `parent` and
    `rank` maps and the tree's graph `g`: the union-find's components are those of the
    processed part of the mesh, the boundary map names each component's last vertex, and
    every processed vertex is in the tree, with its value, after its parents, and with the
    parents the sweep gives it.
   */
  ghost predicate SweptState(adj: seq<set<Vertex>>, vals: seq<int>, order: seq<Vertex>, k: nat, parent: map<Label, Label>, rank: map<Label, nat>,
                             g: Graph, bd: map<Label, Vertex>, R: map<Label, Label>, pos: map<Vertex, nat>)
  {
    && Mesh(adj) && |adj| == |vals| && k <= |order|
    && IsRoots(parent, rank, R) && R.Keys == Processed(order, k)
    && Tracked(adj, order, k, R, bd, pos)
    && Wf(g) && g.Keys == Processed(order, k)
    && (forall x :: x in g ==> g[x].value == vals[x])
    && ParentsEarlier(g, pos) && SweptParents(adj, order, g, pos)
  }

  /** The components of the new vertex's neighbours are roots with boundaries in the tree. */
  lemma StepReady(adj: seq<set<Vertex>>, vals: seq<int>, order: seq<Vertex>, k: nat, p0: map<Label, Label>, r0: map<Label, nat>, g0: Graph,
                  bd: map<Label, Vertex>, R: map<Label, Label>, pos: map<Vertex, nat>,
                  p1: map<Label, Label>, r1: map<Label, nat>, R1: map<Label, Label>, comps: set<Label>)
    requires SweptState(adj, vals, order, k, p0, r0, g0, bd, R, pos)
    requires k < |order| && 0 <= order[k] < |adj| && order[k] !in Processed(order, k)
    requires IsRoots(p1, r1, R1) && R1 == R[order[k] := order[k]] && comps == RootsOf(R1, adj[order[k]])
    ensures order[k] !in comps && order[k] !in g0
    ensures forall c :: c in comps ==> c in R1 && R1[c] == c && c in bd[order[k] := order[k]] && bd[order[k] := order[k]][c] in g0
    ensures Boundaries(bd[order[k] := order[k]], comps) == Boundaries(bd, comps)
  {
    var v := order[k];
    assert Ready(adj, order, k, R, bd, pos);
    RootsOfSkip(R, v, adj[v]);
    JoinReady(adj, order, k, R, bd, pos, comps);
    CompsAreRoots(p1, r1, R1, adj[v]);
    BoundariesSkip(bd, v, comps);
  }

  /** One step of the sweep, on the union-find's maps and the tree's graph. */
  lemma StepSwept(adj: seq<set<Vertex>>, vals: seq<int>, order: seq<Vertex>, k: nat, p0: map<Label, Label>, r0: map<Label, nat>, g0: Graph,
                  bd: map<Label, Vertex>, R: map<Label, Label>, pos: map<Vertex, nat>,
                  p2: map<Label, Label>, r2: map<Label, nat>, g1: Graph, R1: map<Label, Label>, R': map<Label, Label>, comps: set<Label>, m: Label,
                  bd': map<Label, Vertex>, pos': map<Vertex, nat>)
    requires SweptState(adj, vals, order, k, p0, r0, g0, bd, R, pos)
    requires k < |order| && 0 <= order[k] < |adj| && order[k] !in Processed(order, k)
    requires R1 == R[order[k] := order[k]] && comps == RootsOf(R1, adj[order[k]])
    requires IsRoots(p2, r2, R') && MergedRoots(R1, R', comps, order[k], m)
    requires Wf(g1) && Extended(g0, g1, order[k], vals[order[k]], Boundaries(bd, comps))
    requires bd' == bd[order[k] := order[k]][m := order[k]] && pos' == pos[order[k] := k]
    ensures SweptState(adj, vals, order, k + 1, p2, r2, g1, bd', R', pos')
  {
    var v := order[k];
    assert Ready(adj, order, k, R, bd, pos);
    RootsOfSkip(R, v, adj[v]);
    JoinMerged(adj, order, k, R, R1, R', comps, m);
    StepTracked(adj, order, k, R, R', comps, m, bd, pos);
    StepTree(adj, order, k, R, comps, bd, pos, g0, g1, vals[v]);
    StepValues(vals, order, k, k + 1, g0, g1, Boundaries(bd, comps));
  }

  /** Step `k` adds `order[k]` with its own value. */
  lemma StepValues(vals: seq<int>, order: seq<Vertex>, k: nat, k': nat, g0: Graph, g1: Graph, ps: set<Vertex>)
    requires k < |order| && k' == k + 1 && 0 <= order[k] < |vals|
    requires g0.Keys == Processed(order, k) && (forall x :: x in Processed(order, k) ==> 0 <= x < |vals|)
    requires (forall x :: x in g0 ==> g0[x].value == vals[x]) && Extended(g0, g1, order[k], vals[order[k]], ps)
    ensures g1.Keys == Processed(order, k') && forall x :: x in g1 ==> g1[x].value == vals[x]
  {
    ProcessedNext(order, k);
  }

  /** The sweep's state, read from the union-find and the tree. */
  ghost predicate Swept(adj: seq<set<Vertex>>, vals: seq<int>, order: seq<Vertex>, k: nat, ds: DisjointSet, t: Tree,
                        bd: map<Label, Vertex>, R: map<Label, Label>, pos: map<Vertex, nat>)
    reads ds, t
  {
    && ds.Valid() && t.Valid()
    && SweptState(adj, vals, order, k, ds.parent, ds.rank, t.nodes, bd, R, pos)
  }

  /**
    One step of the sweep on the vertex `order[k]`: make it a set of its own, find the
    components of its processed neighbours, hang it under their boundaries and merge them
    with it, and make it the boundary of the merged component.
   */
  method SweepStep(adj: seq<set<Vertex>>, vals: seq<int>, order: seq<Vertex>, k: nat, ds: DisjointSet, t: Tree,
                   bd: map<Label, Vertex>, ghost R: map<Label, Label>, ghost pos: map<Vertex, nat>)
    returns (bd': map<Label, Vertex>, ghost R': map<Label, Label>, ghost pos': map<Vertex, nat>)
    requires Swept(adj, vals, order, k, ds, t, bd, R, pos) && k < |order| && 0 <= order[k] < |adj| && order[k] !in Processed(order, k)
    modifies ds, t
    ensures Swept(adj, vals, order, k + 1, ds, t, bd', R', pos')
  {
    var v := order[k];
    ghost var g0, p0, r0 := t.nodes, ds.parent, ds.rank;
    var comps, R1 := Arrive(ds, v, adj[v], R);
    StepReady(adj, vals, order, k, p0, r0, g0, bd, R, pos, ds.parent, ds.rank, R1, comps);
    var m;
    m, R' := Merge(ds, t, bd[v := v], v, vals[v], comps, R1);
    bd' := bd[v := v][m := v];
    pos' := pos[v := k];
    StepSwept(adj, vals, order, k, p0, r0, g0, bd, R, pos, ds.parent, ds.rank, t.nodes, R1, R', comps, m, bd', pos');
  }

  /** `make_set(v)` for the vertex being swept, then the components of its processed neighbours. */
  method Arrive(ds: DisjointSet, v: Vertex, ns: set<Vertex>, ghost R: map<Label, Label>) returns (comps: set<Label>, ghost R1: map<Label, Label>)
    requires ds.Valid() && IsRoots(ds.parent, ds.rank, R) && v !in R
    modifies ds
    ensures ds.Valid() && IsRoots(ds.parent, ds.rank, R1)
    ensures R1 == R[v := v] && comps == RootsOf(R1, ns)
  {
    ghost var p0, r0 := ds.parent, ds.rank;
    ds.MakeSet(v);
    R1 := MakeSetRoots(p0, r0, ds.parent, ds.rank, R, v);
    comps := Gather(ds, ns, R1);
  }

  /**
   * Adds the swept vertex to the tree and merges it with the components `comps` of its
   * processed neighbours; `m` is the root of the merged component.
   */
  method Merge(ds: DisjointSet, t: Tree, bd: map<Label, Vertex>, v: Vertex, value: int, comps: set<Label>, ghost R1: map<Label, Label>)
    returns (m: Label, ghost R': map<Label, Label>)
    requires ds.Valid() && t.Valid() && IsRoots(ds.parent, ds.rank, R1)
    requires v in R1 && R1[v] == v && v !in comps && v !in t.nodes
    requires forall c :: c in comps ==> c in R1 && R1[c] == c && c in bd && bd[c] in t.nodes
    modifies ds, t
    ensures ds.Valid() && t.Valid() && IsRoots(ds.parent, ds.rank, R') && MergedRoots(R1, R', comps, v, m)
    ensures Extended(old(t.nodes), t.nodes, v, value, Boundaries(bd, comps))
  {
    if comps == {} {
      var _ := t.AddNode(v, value);
      R', m := R1, v;
      assert Boundaries(bd, comps) == {};
      LoneRoots(R1, v);
    } else {
      R' := Join(ds, t, bd, v, value, comps, R1);
      var merged := FindRoot(ds, v, R');
      m := merged.value;
    }
  }

  lemma LoneRoots(R: map<Label, Label>, v: Label)
    requires v in R && R[v] == v
    ensures MergedRoots(R, R, {}, v, v)
  {
  }

  /**
    `g` is the merge tree of sweeping `order`: it holds every vertex with its value, and
    the parents of the vertex swept at step `k` are the boundaries, before that step, of
    the components of its processed neighbours.
   */
  ghost predicate SweepTree(adj: seq<set<Vertex>>, vals: seq<int>, order: seq<Vertex>, g: Graph)
    requires |order| == |vals| <= |adj| && forall i :: 0 <= i < |order| ==> 0 <= order[i] < |vals|
  {
    && (forall x :: x in g <==> 0 <= x < |vals|)
    && (forall x :: x in g ==> g[x].value == vals[x])
    && forall k, p :: 0 <= k < |vals| ==> (p in g[order[k]].parents <==> BoundaryParent(adj, order, k, p))
  }

  /**
    A parent the sweep gives `order[k]` was processed before it and lies in the component
    of one of its processed neighbours, the neighbour whose boundary it is.
   */
  lemma BoundaryParentNear(adj: seq<set<Vertex>>, order: seq<Vertex>, k: nat, p: Vertex) returns (w: Vertex, j: int)
    requires k < |order| && 0 <= order[k] < |adj| && BoundaryParent(adj, order, k, p)
    ensures w in adj[order[k]] && w in Processed(order, k) && IsLastAt(adj, order, k, w, j) && order[j] == p
    ensures p in Processed(order, k) && Conn(adj, Processed(order, k), w, p)
  {
    w, j :| w in adj[order[k]] && w in Processed(order, k) && IsLastAt(adj, order, k, w, j) && order[j] == p;
    assert order[..k][j] == p;
  }

  /**
    The degree of the vertex swept at step `k` is the number of distinct components of its
    processed neighbours: one parent edge per component merged at that step.
   */
  lemma SweepDegree(adj: seq<set<Vertex>>, vals: seq<int>, order: seq<Vertex>, g: Graph, k: nat)
    requires Mesh(adj) && |order| == |vals| <= |adj| && forall i :: 0 <= i < |order| ==> 0 <= order[i] < |vals|
    requires SweepTree(adj, vals, order, g) && k < |vals|
    ensures |g[order[k]].parents| == |NeighbourComponents(adj, order, k)|
  {
    var v, P, ps := order[k], Processed(order, k), g[order[k]].parents;
    var image := set p | p in ps :: Component(adj, P, p);
    forall c | c in NeighbourComponents(adj, order, k) ensures c in image {
      var w :| w in adj[v] && w in P && c == Component(adj, P, w);
      LastExists(adj, order, k, w);
      var j :| IsLastAt(adj, order, k, w, j);
      assert BoundaryParent(adj, order, k, order[j]);
      SameComponent(adj, P, w, order[j]);
    }
    forall c | c in image ensures c in NeighbourComponents(adj, order, k) {
      var p :| p in ps && c == Component(adj, P, p);
      var w, j := BoundaryParentNear(adj, order, k, p);
      SameComponent(adj, P, w, p);
    }
    forall p1, p2 | p1 in ps && p2 in ps && Component(adj, P, p1) == Component(adj, P, p2) ensures p1 == p2 {
      var w1, j1 := BoundaryParentNear(adj, order, k, p1);
      var w2, j2 := BoundaryParentNear(adj, order, k, p2);
      ConnEnds(adj, P, w1, p1);
      ConnRefl(adj, P, p1);
      assert p1 in Component(adj, P, p2);
      ConnSym(adj, P, w2, p2);
      ConnSym(adj, P, p2, p1);
      ConnTrans(adj, P, w1, p1, p2);
      ConnTrans(adj, P, w1, p2, w2);
      SameLastIffConnected(adj, order, k, w1, w2, j1, j2);
    }
    ComponentsCount(adj, P, ps);
    assert image == NeighbourComponents(adj, order, k);
  }

  /**
    `sweep_algorithm`: sorts the vertices into sweep order and sweeps them, returning the
    merge tree, a join tree when `isJoin` holds and a split tree otherwise.
   */
  method SweepAlgorithm(adj: seq<set<Vertex>>, vals: seq<int>, isJoin: bool) returns (t: Tree, ghost h: map<Vertex, nat>)
    requires Mesh(adj) && |adj| == |vals|
    ensures fresh(t) && t.Valid()
    ensures SweepTree(adj, vals, SweepOrder(vals, isJoin), t.nodes) && Descends(t.nodes, h)
    ensures forall k :: 0 <= k < |vals| ==>
      |t.nodes[SweepOrder(vals, isJoin)[k]].parents| == |NeighbourComponents(adj, SweepOrder(vals, isJoin), k)|
  {
    var order := SweepOrder(vals, isJoin);
    SweepOrderEnumerates(vals, isJoin);
    t, h := Sweep(adj, vals, order);
    forall k | 0 <= k < |vals| ensures |t.nodes[order[k]].parents| == |NeighbourComponents(adj, order, k)| {
      SweepDegree(adj, vals, order, t.nodes, k);
    }
  }

  /**
    The sweep loop of `sweep_algorithm`, over any order that visits each vertex once. Every
    vertex is a node with its value; the parents of the vertex swept at step `k` are the
    boundaries, before that step, of the components of its processed neighbours; and a
    height `h` drops along every edge, so the tree has no cycle.
   */
  method Sweep(adj: seq<set<Vertex>>, vals: seq<int>, order: seq<Vertex>) returns (t: Tree, ghost h: map<Vertex, nat>)
    requires Mesh(adj) && |adj| == |vals| && Enumerates(order, |vals|)
    ensures fresh(t) && t.Valid()
    ensures SweepTree(adj, vals, order, t.nodes) && Descends(t.nodes, h)
  {
    t := new Tree();
    var ds := new DisjointSet();
    SweepStart(adj, vals, order);
    var bd, R, pos := SweepAll(adj, vals, order, ds, t);
    h := SweepDone(adj, vals, order, ds.parent, ds.rank, t.nodes, bd, R, pos);
  }

  /** The loop of `sweep_algorithm`: one step per vertex, in order. */
  method SweepAll(adj: seq<set<Vertex>>, vals: seq<int>, order: seq<Vertex>, ds: DisjointSet, t: Tree)
    returns (bd: map<Label, Vertex>, ghost R: map<Label, Label>, ghost pos: map<Vertex, nat>)
    requires Enumerates(order, |vals|) && Swept(adj, vals, order, 0, ds, t, map[], map[], map[])
    modifies ds, t
    ensures Swept(adj, vals, order, |order|, ds, t, bd, R, pos)
  {
    bd, R, pos := map[], map[], map[];
    var k := 0;
    while k < |order|
      invariant k <= |order| && Swept(adj, vals, order, k, ds, t, bd, R, pos)
    {
      NotYetProcessed(order, |vals|, k);
      bd, R, pos := SweepStep(adj, vals, order, k, ds, t, bd, R, pos);
      k := k + 1;
    }
  }

  /** After the last step the tree is the merge tree of the sweep, and it has a height. */
  lemma SweepDone(adj: seq<set<Vertex>>, vals: seq<int>, order: seq<Vertex>, parent: map<Label, Label>, rank: map<Label, nat>,
                  g: Graph, bd: map<Label, Vertex>, R: map<Label, Label>, pos: map<Vertex, nat>) returns (h: map<Vertex, nat>)
    requires Enumerates(order, |vals|) && SweptState(adj, vals, order, |order|, parent, rank, g, bd, R, pos)
    ensures SweepTree(adj, vals, order, g) && Descends(g, h)
  {
    h := Heights(g, pos, |order|);
    SweepEnd(adj, vals, order, g, pos);
  }

  /** Before the first step nothing is processed, and the empty union-find and tree fit that. */
  lemma SweepStart(adj: seq<set<Vertex>>, vals: seq<int>, order: seq<Vertex>)
    requires Mesh(adj) && |adj| == |vals|
    ensures SweptState(adj, vals, order, 0, map[], map[], map[], map[], map[], map[])
  {
    assert Processed(order, 0) == {};
  }

  /** After the last step every vertex is in the tree, with the parents the sweep gives it. */
  lemma SweepEnd(adj: seq<set<Vertex>>, vals: seq<int>, order: seq<Vertex>, g: Graph, pos: map<Vertex, nat>)
    requires Mesh(adj) && |adj| == |vals| && Enumerates(order, |vals|)
    requires g.Keys == Processed(order, |vals|)
    requires pos.Keys == g.Keys && forall x :: x in pos ==> pos[x] < |vals| && order[pos[x]] == x
    requires (forall x :: x in g ==> g[x].value == vals[x]) && SweptParents(adj, order, g, pos)
    ensures SweepTree(adj, vals, order, g)
  {
    assert order[..|vals|] == order;
    forall k, p | 0 <= k < |vals|
      ensures p in g[order[k]].parents <==> BoundaryParent(adj, order, k, p)
    {
      var x := order[k];
      assert x in pos && order[pos[x]] == order[k];
      assert pos[x] == k;
    }
  }

  /** The height of a vertex is the number of steps left after it; parents come earlier, so it drops along each edge. */
  lemma Heights(g: Graph, pos: map<Vertex, nat>, n: nat) returns (h: map<Vertex, nat>)
    requires Wf(g) && ParentsEarlier(g, pos) && g.Keys <= pos.Keys
    requires forall x :: x in pos ==> pos[x] < n
    ensures Descends(g, h)
  {
    h := map x | x in pos :: (n - 1 - pos[x]) as nat;
    EarlierDescends(g, pos, n, h);
  }

  /**
    Every edge of `g` joins two vertex indices and runs down the sweep order when `down`
    holds (the child sorts before its parent) and up it otherwise.
   */
  ghost predicate Ordered(g: Graph, vals: seq<int>, down: bool)
  {
    forall p, c :: Edge(g, p, c) ==>
      0 <= p < |vals| && 0 <= c < |vals| && if down then Before(vals, c, p) else Before(vals, p, c)
  }

  /**
    A merge tree's edges respect the sweep: a parent was swept before its child, so the
    join tree runs down in value and the split tree up.
   */
  lemma SweepTreeOrdered(adj: seq<set<Vertex>>, vals: seq<int>, isJoin: bool, g: Graph)
    requires |adj| == |vals| && Wf(g) && SweepTree(adj, vals, SweepOrder(vals, isJoin), g)
    ensures Ordered(g, vals, isJoin)
  {
    var order := SweepOrder(vals, isJoin);
    forall p, c | Edge(g, p, c)
      ensures 0 <= p < |vals| && 0 <= c < |vals| && if isJoin then Before(vals, c, p) else Before(vals, p, c)
    {
      assert c in g && p in g[c].parents && c in order;
      var k :| 0 <= k < |order| && order[k] == c;
      assert BoundaryParent(adj, order, k, p);
      var w, j :| w in adj[order[k]] && w in Processed(order, k) && IsLastAt(adj, order, k, w, j) && order[j] == p;
      assert j < k;
    }
  }

  /**
    The vertex swept at step `k` is a root of the merge tree exactly when none of its
    neighbours was swept before it.
   */
  lemma SweepRoot(adj: seq<set<Vertex>>, vals: seq<int>, order: seq<Vertex>, g: Graph, k: nat)
    requires Mesh(adj) && |adj| == |vals| && Enumerates(order, |vals|) && SweepTree(adj, vals, order, g) && k < |vals|
    ensures g[order[k]].parents == {} <==> forall w :: w in adj[order[k]] ==> w !in Processed(order, k)
  {
    var v := order[k];
    if w :| w in adj[v] && w in Processed(order, k) {
      LastExists(adj, order, k, w);
      var j :| IsLastAt(adj, order, k, w, j);
      assert BoundaryParent(adj, order, k, order[j]);
      assert order[j] in g[v].parents;
    } else {
      forall p ensures p !in g[v].parents {
        assert !BoundaryParent(adj, order, k, p);
      }
      assert g[v].parents == {};
    }
  }
}
