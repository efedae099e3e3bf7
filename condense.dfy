/**
  Condensation of a tree onto a chosen set of significant vertices: which significant
  vertex each significant vertex leads to when the chains of other vertices between them
  are skipped, and which significant vertices are reached at all from the roots.
 */
module Condense {
  import opened Graphs

  /**
    `c` is the condensation of `g` onto `sig`: the vertices of `sig` with their values, and
    an edge from each significant vertex reached from a root of `g` to every significant
    vertex it leads to directly.
   */
  ghost predicate Condensation(g: Graph, sig: set<Vertex>, c: Graph)
  {
    && c.Keys == sig && (forall v :: v in sig ==> v in g && c[v].value == g[v].value)
    && forall a, b :: Edge(c, a, b) <==> Reached(g, sig, Roots(g), a) && b in NextSigs(g, sig, a)
  }

  /** No vertex strictly inside the walk belongs to `sig`. */
  ghost predicate InteriorOutside(s: seq<Vertex>, sig: set<Vertex>)
  {
    forall i :: 0 < i < |s| - 1 ==> s[i] !in sig
  }

  /** `x` is entered from `u` along at least one edge, passing only vertices outside `sig` on the way. */
  ghost predicate Via(g: Graph, sig: set<Vertex>, u: Vertex, x: Vertex)
  {
    exists s :: IsPath(g, s) && |s| >= 2 && s[0] == u && s[|s| - 1] == x && InteriorOutside(s, sig)
  }

  /** `w` is a significant vertex that `u` leads to without passing another significant vertex. */
  ghost predicate SigStep(g: Graph, sig: set<Vertex>, u: Vertex, w: Vertex)
  {
    w in sig && Via(g, sig, u, w)
  }

  /** The significant vertices that `u` leads to directly: the children of `u` in the condensed tree. */
  ghost function NextSigs(g: Graph, sig: set<Vertex>, u: Vertex): set<Vertex>
  {
    set w | w in g && SigStep(g, sig, u, w)
  }

  /** A significant vertex reachable from one of the given roots: the vertices the condensation keeps edges from. */
  ghost predicate Reached(g: Graph, sig: set<Vertex>, roots: set<Vertex>, u: Vertex)
  {
    u in sig && exists r :: r in roots && Reach(g, r, u)
  }

  /** A walk from `x` to `w` whose every vertex except the last lies outside `sig`. */
  ghost predicate Tail(g: Graph, sig: set<Vertex>, x: Vertex, w: Vertex)
  {
    exists s :: IsPath(g, s) && s[0] == x && s[|s| - 1] == w && forall i :: 0 <= i < |s| - 1 ==> s[i] !in sig
  }

  lemma ViaChild(g: Graph, sig: set<Vertex>, u: Vertex, c: Vertex)
    requires Edge(g, u, c)
    ensures Via(g, sig, u, c)
  {
    assert IsPath(g, [u, c]);
  }

  /** A walk through non-significant vertices can be extended by one edge out of a non-significant vertex. */
  lemma ViaExtend(g: Graph, sig: set<Vertex>, u: Vertex, x: Vertex, c: Vertex)
    requires Via(g, sig, u, x) && x !in sig && Edge(g, x, c)
    ensures Via(g, sig, u, c)
  {
    var s :| IsPath(g, s) && |s| >= 2 && s[0] == u && s[|s| - 1] == x && InteriorOutside(s, sig);
    assert IsPath(g, [x, c]);
    JoinPaths(g, s, [x, c]);
    var t := s + [c];
    assert t == s + [x, c][1..];
    assert forall i :: 0 < i < |t| - 1 ==> t[i] == s[i];
  }

  lemma TailRefl(g: Graph, sig: set<Vertex>, w: Vertex)
    ensures Tail(g, sig, w, w)
  {
    assert IsPath(g, [w]);
  }

  /** Every significant vertex `u` leads to is at the end of a tail starting at a child of `u`. */
  lemma SigStepStartsAtChild(g: Graph, sig: set<Vertex>, u: Vertex, w: Vertex)
    requires SigStep(g, sig, u, w)
    ensures u in g
    ensures exists c :: c in g[u].children && Tail(g, sig, c, w)
  {
    var s :| IsPath(g, s) && |s| >= 2 && s[0] == u && s[|s| - 1] == w && InteriorOutside(s, sig);
    assert Edge(g, s[0], s[1]);
    SubPath(g, s, 1, |s|);
    var t := s[1..];
    assert forall i :: 0 <= i < |t| - 1 ==> t[i] == s[i + 1];
    assert Tail(g, sig, s[1], w);
  }

  /** A tail that starts outside `sig` and ends inside it continues through a child of its start. */
  lemma TailStep(g: Graph, sig: set<Vertex>, x: Vertex, w: Vertex)
    requires Tail(g, sig, x, w) && x !in sig && w in sig
    ensures x in g
    ensures exists c :: c in g[x].children && Tail(g, sig, c, w)
  {
    var s :| IsPath(g, s) && s[0] == x && s[|s| - 1] == w && forall i :: 0 <= i < |s| - 1 ==> s[i] !in sig;
    assert |s| >= 2;
    assert Edge(g, s[0], s[1]);
    SubPath(g, s, 1, |s|);
    var t := s[1..];
    assert forall i :: 0 <= i < |t| - 1 ==> t[i] == s[i + 1];
    assert Tail(g, sig, s[1], w);
  }

  /** A tail that starts inside `sig` is the single vertex it starts at. */
  lemma TailFromSig(g: Graph, sig: set<Vertex>, x: Vertex, w: Vertex)
    requires Tail(g, sig, x, w) && x in sig
    ensures x == w
  {
    var s :| IsPath(g, s) && s[0] == x && s[|s| - 1] == w && forall i :: 0 <= i < |s| - 1 ==> s[i] !in sig;
    if |s| > 1 {
      assert s[0] !in sig;
    }
  }

  /** What a reached vertex leads to is reached too. */
  lemma ReachedStep(g: Graph, sig: set<Vertex>, roots: set<Vertex>, u: Vertex, w: Vertex)
    requires Reached(g, sig, roots, u) && SigStep(g, sig, u, w)
    ensures Reached(g, sig, roots, w)
  {
    var r :| r in roots && Reach(g, r, u);
    var s :| IsPath(g, s) && s[0] == r && s[|s| - 1] == u;
    var t :| IsPath(g, t) && |t| >= 2 && t[0] == u && t[|t| - 1] == w && InteriorOutside(t, sig);
    JoinPaths(g, s, t);
    var st := s + t[1..];
    assert st[0] == r && st[|st| - 1] == w;
  }

  /** The first index at or after `i` whose vertex is in `sig`; the path is known to end in `sig`. */
  ghost function FirstIn(s: seq<Vertex>, sig: set<Vertex>, i: int): (r: int)
    requires 0 <= i < |s| && s[|s| - 1] in sig
    ensures i <= r < |s| && s[r] in sig
    ensures forall k :: i <= k < r ==> s[k] !in sig
    decreases |s| - i
  {
    if s[i] in sig then i else FirstIn(s, sig, i + 1)
  }

  /**
    A set of significant vertices that holds a path's start and is closed under `NextSigs`
    holds every significant vertex of the path, in particular its end.
   */
  lemma {:induction false} ClosedHoldsPathEnd(g: Graph, sig: set<Vertex>, m: set<Vertex>, s: seq<Vertex>)
    requires m <= sig && forall a :: a in m ==> NextSigs(g, sig, a) <= m
    requires IsPath(g, s) && s[0] in m && s[|s| - 1] in sig && s[|s| - 1] in g
    ensures s[|s| - 1] in m
    decreases |s|
  {
    if |s| > 1 {
      var j := FirstIn(s, sig, 1);
      SubPath(g, s, 0, j + 1);
      var head := s[..j + 1];
      assert head == s[0..j + 1];
      assert forall i :: 0 < i < |head| - 1 ==> head[i] == s[i];
      assert Via(g, sig, s[0], s[j]);
      if j == |s| - 1 {
        assert s[j] in NextSigs(g, sig, s[0]);
      } else {
        assert Edge(g, s[j], s[j + 1]);
        assert s[j] in NextSigs(g, sig, s[0]);
        SubPath(g, s, j, |s|);
        ClosedHoldsPathEnd(g, sig, m, s[j..]);
      }
    }
  }

  /**
    A set that contains the roots, consists of significant vertices and is closed under
    `NextSigs` contains every significant vertex reached from a root.
   */
  lemma ClosedHoldsReached(g: Graph, sig: set<Vertex>, roots: set<Vertex>, m: set<Vertex>, u: Vertex)
    requires roots <= m <= sig && forall a :: a in m ==> NextSigs(g, sig, a) <= m
    requires Reached(g, sig, roots, u) && u in g
    ensures u in m
  {
    var r :| r in roots && Reach(g, r, u);
    var s :| IsPath(g, s) && s[0] == r && s[|s| - 1] == u;
    ClosedHoldsPathEnd(g, sig, m, s);
  }

  /** Each condensed edge goes strictly down any descending height of the original graph. */
  lemma SigStepDescends(g: Graph, sig: set<Vertex>, h: map<Vertex, nat>, u: Vertex, w: Vertex)
    requires Descends(g, h) && SigStep(g, sig, u, w)
    ensures u in h && w in h && h[w] < h[u]
  {
    var s :| IsPath(g, s) && |s| >= 2 && s[0] == u && s[|s| - 1] == w && InteriorOutside(s, sig);
    PathDescends(g, h, s);
  }

  /**
    Where every vertex outside `sig` has exactly one child (as when `sig` holds every
    significant vertex), the chain from a vertex runs into one significant vertex only.
   */
  lemma {:induction false} ChainTailUnique(g: Graph, sig: set<Vertex>, x: Vertex, w1: Vertex, w2: Vertex)
    requires forall v :: v in g && v !in sig ==> |g[v].children| == 1
    requires Tail(g, sig, x, w1) && Tail(g, sig, x, w2) && w1 in sig && w2 in sig
    ensures w1 == w2
  {
    var s1 :| IsPath(g, s1) && s1[0] == x && s1[|s1| - 1] == w1 && forall i :: 0 <= i < |s1| - 1 ==> s1[i] !in sig;
    var s2 :| IsPath(g, s2) && s2[0] == x && s2[|s2| - 1] == w2 && forall i :: 0 <= i < |s2| - 1 ==> s2[i] !in sig;
    ChainPathsAgree(g, sig, s1, s2);
  }

  lemma {:induction false} ChainPathsAgree(g: Graph, sig: set<Vertex>, s1: seq<Vertex>, s2: seq<Vertex>)
    requires forall v :: v in g && v !in sig ==> |g[v].children| == 1
    requires IsPath(g, s1) && IsPath(g, s2) && s1[0] == s2[0]
    requires forall i :: 0 <= i < |s1| - 1 ==> s1[i] !in sig
    requires forall i :: 0 <= i < |s2| - 1 ==> s2[i] !in sig
    requires s1[|s1| - 1] in sig && s2[|s2| - 1] in sig
    ensures s1[|s1| - 1] == s2[|s2| - 1]
    decreases |s1|
  {
    if |s1| > 1 && |s2| > 1 {
      var x := s1[0];
      assert Edge(g, x, s1[1]) && Edge(g, x, s2[1]);
      assert x !in sig;
      assert |g[x].children| == 1;
      assert s1[1] == s2[1] by {
        if s1[1] != s2[1] {
          assert {s1[1], s2[1]} <= g[x].children;
          assert |{s1[1], s2[1]}| == 2;
          SubsetCard({s1[1], s2[1]}, g[x].children);
        }
      }
      SubPath(g, s1, 1, |s1|);
      SubPath(g, s2, 1, |s2|);
      var t1, t2 := s1[1..], s2[1..];
      assert forall i :: 0 <= i < |t1| - 1 ==> t1[i] == s1[i + 1];
      assert forall i :: 0 <= i < |t2| - 1 ==> t2[i] == s2[i + 1];
      ChainPathsAgree(g, sig, t1, t2);
    }
  }

  /** A subset is no larger than its superset. */
  lemma {:induction false} SubsetCard<T>(a: set<T>, b: set<T>)
    requires a <= b
    ensures |a| <= |b|
    decreases |a|
  {
    if a != {} {
      var x :| x in a;
      SubsetCard(a - {x}, b - {x});
    }
  }

  /** A graph whose every edge is a condensed step of `g` goes down every descending height of `g`. */
  lemma CondensationDescends(g: Graph, sig: set<Vertex>, h: map<Vertex, nat>, c: Graph)
    requires Descends(g, h) && c.Keys <= g.Keys
    requires forall a, b :: Edge(c, a, b) ==> SigStep(g, sig, a, b)
    ensures Descends(c, h)
  {
    forall a, b | a in c && b in c[a].children ensures b in h && h[b] < h[a] {
      assert Edge(c, a, b);
      SigStepDescends(g, sig, h, a, b);
    }
  }

  /**
    What the walk down from `u` knows at each step: every pending vertex is entered from
    `u` through non-significant vertices, every reported vertex is a significant vertex `u`
    leads to, and every significant vertex `u` leads to is reported or at the end of a
    tail from a pending vertex.
   */
  ghost predicate WalkInv(g: Graph, sig: set<Vertex>, u: Vertex, stack: seq<Vertex>, next: seq<Vertex>)
  {
    && (forall i :: 0 <= i < |stack| ==> stack[i] in g && Via(g, sig, u, stack[i]))
    && (forall w :: w in next ==> w in g && SigStep(g, sig, u, w))
    && (forall w :: w in g && SigStep(g, sig, u, w) ==> w in next || exists x :: x in stack && Tail(g, sig, x, w))
  }

  lemma WalkStart(g: Graph, sig: set<Vertex>, u: Vertex, stack: seq<Vertex>)
    requires Closed(g) && u in g && forall x :: x in stack <==> x in g[u].children
    ensures WalkInv(g, sig, u, stack, [])
  {
    forall i | 0 <= i < |stack| ensures stack[i] in g && Via(g, sig, u, stack[i]) {
      ViaChild(g, sig, u, stack[i]);
    }
    forall w | w in g && SigStep(g, sig, u, w) ensures exists x :: x in stack && Tail(g, sig, x, w) {
      SigStepStartsAtChild(g, sig, u, w);
    }
  }

  /** Popping a significant vertex reports it. */
  lemma WalkReport(g: Graph, sig: set<Vertex>, u: Vertex, stack: seq<Vertex>, x: Vertex, next: seq<Vertex>)
    requires WalkInv(g, sig, u, stack + [x], next) && x in sig
    ensures WalkInv(g, sig, u, stack, next + [x])
  {
    assert (stack + [x])[|stack|] == x;
    forall i | 0 <= i < |stack| ensures stack[i] in g && Via(g, sig, u, stack[i]) {
      assert stack[i] == (stack + [x])[i];
    }
    forall w | w in g && SigStep(g, sig, u, w) ensures w in next + [x] || exists y :: y in stack && Tail(g, sig, y, w) {
      if w !in next {
        var y :| y in stack + [x] && Tail(g, sig, y, w);
        if y == x {
          TailFromSig(g, sig, x, w);
        }
      }
    }
  }

  /** Popping a non-significant vertex replaces it by its children. */
  lemma WalkDescend(g: Graph, sig: set<Vertex>, u: Vertex, stack: seq<Vertex>, x: Vertex, more: seq<Vertex>, next: seq<Vertex>)
    requires Closed(g) && WalkInv(g, sig, u, stack + [x], next) && x !in sig
    requires x in g && forall c :: c in more <==> c in g[x].children
    ensures WalkInv(g, sig, u, stack + more, next)
  {
    assert (stack + [x])[|stack|] == x;
    forall i | 0 <= i < |stack + more| ensures (stack + more)[i] in g && Via(g, sig, u, (stack + more)[i]) {
      if i < |stack| {
        assert (stack + more)[i] == (stack + [x])[i];
      } else {
        assert (stack + more)[i] in more;
        ViaExtend(g, sig, u, x, (stack + more)[i]);
      }
    }
    forall w | w in g && SigStep(g, sig, u, w) ensures w in next || exists y :: y in stack + more && Tail(g, sig, y, w) {
      if w !in next {
        var y :| y in stack + [x] && Tail(g, sig, y, w);
        if y == x {
          TailStep(g, sig, x, w);
          var c :| c in g[x].children && Tail(g, sig, c, w);
          assert c in stack + more;
        } else {
          assert y in stack + more;
        }
      }
    }
  }

  /** With nothing pending, the reported vertices are exactly those `u` leads to. */
  lemma WalkDone(g: Graph, sig: set<Vertex>, u: Vertex, next: seq<Vertex>)
    requires WalkInv(g, sig, u, [], next)
    ensures forall w :: w in next <==> w in NextSigs(g, sig, u)
  {
  }

  /**
    What the condensation loop knows at each step: `marked` and the pending `stack` hold
    only reached significant vertices, every root and every vertex that a marked vertex
    leads to is marked or pending, and the edges built so far are exactly those out of the
    marked vertices.
   */
  ghost predicate SigInv(g: Graph, sig: set<Vertex>, roots: set<Vertex>, marked: set<Vertex>, stack: seq<Vertex>, c: Graph)
  {
    && marked <= sig
    && (forall x :: x in marked ==> Reached(g, sig, roots, x))
    && (forall i :: 0 <= i < |stack| ==> Reached(g, sig, roots, stack[i]))
    && (forall r :: r in roots ==> r in marked || r in stack)
    && (forall a, w :: a in marked && w in NextSigs(g, sig, a) ==> w in marked || w in stack)
    && (forall a, b :: Edge(c, a, b) <==> a in marked && b in NextSigs(g, sig, a))
  }

  lemma SigStart(g: Graph, sig: set<Vertex>, roots: set<Vertex>, stack: seq<Vertex>, c: Graph)
    requires roots <= sig && forall x :: x in stack <==> x in roots
    requires forall v :: v in c ==> c[v].children == {}
    ensures SigInv(g, sig, roots, {}, stack, c)
  {
    forall i | 0 <= i < |stack| ensures Reached(g, sig, roots, stack[i]) {
      ReachRefl(g, stack[i]);
      assert stack[i] in roots;
    }
  }

  /** Popping a vertex already marked changes nothing else. */
  lemma SigSkip(g: Graph, sig: set<Vertex>, roots: set<Vertex>, marked: set<Vertex>, stack: seq<Vertex>, c: Graph)
    requires stack != [] && SigInv(g, sig, roots, marked, stack, c) && stack[|stack| - 1] in marked
    ensures SigInv(g, sig, roots, marked, stack[..|stack| - 1], c)
  {
    var rest, u := stack[..|stack| - 1], stack[|stack| - 1];
    assert stack == rest + [u];
    assert forall i :: 0 <= i < |rest| ==> rest[i] == stack[i];
    assert forall x :: x in stack ==> x in rest || x == u;
  }

  /** Marking a popped vertex, connecting it to what it leads to and pushing those keeps the invariant. */
  lemma SigVisit(g: Graph, sig: set<Vertex>, roots: set<Vertex>, marked: set<Vertex>, stack0: seq<Vertex>,
                 next: seq<Vertex>, c: Graph, c': Graph)
    requires stack0 != [] && SigInv(g, sig, roots, marked, stack0, c) && stack0[|stack0| - 1] !in marked
    requires forall w :: w in next <==> w in NextSigs(g, sig, stack0[|stack0| - 1])
    requires forall a, b :: Edge(c', a, b) <==> Edge(c, a, b) || (a == stack0[|stack0| - 1] && b in next)
    ensures stack0[|stack0| - 1] in sig
    ensures SigInv(g, sig, roots, marked + {stack0[|stack0| - 1]}, stack0[..|stack0| - 1] + next, c')
  {
    var stack, u := stack0[..|stack0| - 1], stack0[|stack0| - 1];
    assert stack0 == stack + [u];
    assert forall i :: 0 <= i < |stack| ==> stack[i] == stack0[i];
    assert forall x :: x in stack0 ==> x in stack || x == u;
    forall i | 0 <= i < |stack + next| ensures Reached(g, sig, roots, (stack + next)[i]) {
      if i >= |stack| {
        var w := (stack + next)[i];
        assert w in next;
        ReachedStep(g, sig, roots, u, w);
      } else {
        assert (stack + next)[i] == stack[i];
      }
    }
  }

  /** With nothing pending, the marked vertices are exactly the reached ones. */
  lemma SigDone(g: Graph, sig: set<Vertex>, roots: set<Vertex>, marked: set<Vertex>, c: Graph)
    requires sig <= g.Keys && SigInv(g, sig, roots, marked, [], c)
    ensures forall a, b :: Edge(c, a, b) <==> Reached(g, sig, roots, a) && b in NextSigs(g, sig, a)
  {
    forall r | r in roots ensures r in marked {
      var empty: seq<Vertex> := [];
      assert r !in empty;
    }
    forall a | a in marked ensures NextSigs(g, sig, a) <= marked {
      assert forall w :: w in NextSigs(g, sig, a) ==> w in marked || w in [];
    }
    forall a | Reached(g, sig, roots, a) ensures a in marked {
      ClosedHoldsReached(g, sig, roots, marked, a);
    }
  }
}
