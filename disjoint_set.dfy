/**
  Union-find over component labels: path compression in Find, union by rank in Link.
  The sweep uses mesh vertex indices as labels.
 */
module DisjointSets {
  import opened Wrappers

  type Label = int

  /** Labels whose rank is strictly above that of `x`; it shrinks along every parent link. */
  ghost function Above(rank: map<Label, nat>, x: Label): set<Label>
    requires x in rank
  {
    set y | y in rank && rank[y] > rank[x]
  }

  /**
    The shape union by rank keeps: every registered label points at a registered label, and
    a label that is not its own parent has a strictly smaller rank than its parent.
   */
  ghost predicate RankedForest(parent: map<Label, Label>, rank: map<Label, nat>)
  {
    && parent.Keys == rank.Keys
    && (forall x {:trigger parent[x]} :: x in parent ==> parent[x] in parent)
    && (forall x {:trigger parent[x]} :: x in parent && parent[x] != x ==> rank[x] < rank[parent[x]])
  }

  /** The representative of the component of `x`: the label reached by following parents. */
  ghost function Root(parent: map<Label, Label>, rank: map<Label, nat>, x: Label): (r: Label)
    requires RankedForest(parent, rank) && x in parent
    ensures r in parent && parent[r] == r
    ensures rank[x] <= rank[r]
    ensures parent[x] != x ==> rank[x] < rank[r]
    ensures parent[x] == x ==> r == x
    decreases Above(rank, x)
  {
    if parent[x] == x then x
    else
      assert Above(rank, parent[x]) < Above(rank, x) by {
        assert parent[x] in Above(rank, x) && parent[x] !in Above(rank, parent[x]);
      }
      Root(parent, rank, parent[x])
  }

  /**
    Two forests over the same labels that give every label the same representative: the
    partition into components is the same.
   */
  ghost predicate SameComponents(parent: map<Label, Label>, rank: map<Label, nat>, parent': map<Label, Label>, rank': map<Label, nat>)
    requires RankedForest(parent, rank) && RankedForest(parent', rank')
  {
    && parent'.Keys == parent.Keys
    && forall x {:trigger Root(parent', rank', x)} :: x in parent ==> Root(parent', rank', x) == Root(parent, rank, x)
  }

  /** The component representative does not depend on the ranks, only on the parent links. */
  lemma {:induction false} RootIgnoresRank(parent: map<Label, Label>, rank: map<Label, nat>, rank': map<Label, nat>, x: Label)
    requires RankedForest(parent, rank) && RankedForest(parent, rank') && x in parent
    ensures Root(parent, rank', x) == Root(parent, rank, x)
    decreases Above(rank, x)
  {
    if parent[x] != x {
      assert parent[x] in Above(rank, x) && parent[x] !in Above(rank, parent[x]);
      RootIgnoresRank(parent, rank, rank', parent[x]);
    }
  }

  /** Pointing a label at a label of larger rank keeps the forest ranked. */
  lemma ReparentKeepsForest(parent: map<Label, Label>, rank: map<Label, nat>, x: Label, y: Label)
    requires RankedForest(parent, rank) && x in parent && y in parent && rank[x] < rank[y]
    ensures RankedForest(parent[x := y], rank)
  {
    var p' := parent[x := y];
    forall z | z in p' && p'[z] != z ensures rank[z] < rank[p'[z]] {
      if z != x {
        assert p'[z] == parent[z];
      }
    }
  }

  /**
    Path compression: pointing `x` straight at its root keeps the forest ranked and every
    label's representative unchanged.
   */
  lemma {:induction false} CompressPreservesRoots(parent: map<Label, Label>, rank: map<Label, nat>, x: Label, z: Label)
    requires RankedForest(parent, rank) && x in parent && z in parent
    ensures RankedForest(parent[x := Root(parent, rank, x)], rank)
    ensures Root(parent[x := Root(parent, rank, x)], rank, z) == Root(parent, rank, z)
    decreases Above(rank, z)
  {
    var r := Root(parent, rank, x);
    var p' := parent[x := r];
    if parent[x] == x {
      assert p' == parent;
    } else {
      ReparentKeepsForest(parent, rank, x, r);
      if z == x {
        assert p'[r] == r;
        assert Root(p', rank, r) == r;
      } else if parent[z] != z {
        assert parent[z] in Above(rank, z) && parent[z] !in Above(rank, parent[z]);
        CompressPreservesRoots(parent, rank, x, parent[z]);
        assert p'[z] == parent[z];
      }
    }
  }

  /** The labels met when following parents from `x` up to its representative, both ends included. */
  ghost function PathUp(parent: map<Label, Label>, rank: map<Label, nat>, x: Label): (path: set<Label>)
    requires RankedForest(parent, rank) && x in parent
    ensures x in path && path <= parent.Keys
    decreases Above(rank, x)
  {
    if parent[x] == x then {x}
    else
      assert Above(rank, parent[x]) < Above(rank, x) by {
        assert parent[x] in Above(rank, x) && parent[x] !in Above(rank, parent[x]);
      }
      {x} + PathUp(parent, rank, parent[x])
  }

  /** The parent map after path compression from `name`: the path above it is compressed first, then `name` points at the root. */
  ghost function Compress(parent: map<Label, Label>, rank: map<Label, nat>, name: Label): map<Label, Label>
    requires RankedForest(parent, rank) && name in parent
    decreases Above(rank, name)
  {
    if parent[name] == name then parent
    else
      assert Above(rank, parent[name]) < Above(rank, name) by {
        assert parent[name] in Above(rank, name) && parent[name] !in Above(rank, parent[name]);
      }
      Compress(parent, rank, parent[name])[name := Root(parent, rank, name)]
  }

  /**
    Path compression re-points exactly the path: every label on the path from `name` to its
    representative now points straight at it, and every other label keeps its parent.
   */
  lemma {:induction false} CompressRepointsPath(parent: map<Label, Label>, rank: map<Label, nat>, name: Label, x: Label)
    requires RankedForest(parent, rank) && name in parent && x in parent
    ensures Compress(parent, rank, name).Keys == parent.Keys
    ensures Compress(parent, rank, name)[x] == if x in PathUp(parent, rank, name) then Root(parent, rank, name) else parent[x]
    decreases Above(rank, name)
  {
    if parent[name] != name {
      assert parent[name] in Above(rank, name) && parent[name] !in Above(rank, parent[name]);
      CompressRepointsPath(parent, rank, parent[name], x);
    }
  }

  /** Every label on the path from `x` to its representative has that same representative. */
  lemma {:induction false} PathSharesRoot(parent: map<Label, Label>, rank: map<Label, nat>, x: Label, y: Label)
    requires RankedForest(parent, rank) && x in parent && y in PathUp(parent, rank, x)
    ensures Root(parent, rank, y) == Root(parent, rank, x)
    decreases Above(rank, x)
  {
    if y != x {
      assert parent[x] in Above(rank, x) && parent[x] !in Above(rank, parent[x]);
      PathSharesRoot(parent, rank, parent[x], y);
    }
  }

  /** Registering a fresh label leaves every existing representative unchanged. */
  lemma {:induction false} FreshLabelKeepsRoot(parent: map<Label, Label>, rank: map<Label, nat>, name: Label, x: Label)
    requires RankedForest(parent, rank) && name !in parent && x in parent
    ensures RankedForest(parent[name := name], rank[name := 0])
    ensures Root(parent[name := name], rank[name := 0], x) == Root(parent, rank, x)
    decreases Above(rank, x)
  {
    if parent[x] != x {
      assert parent[x] in Above(rank, x) && parent[x] !in Above(rank, parent[x]);
      FreshLabelKeepsRoot(parent, rank, name, parent[x]);
    }
  }

  /** The root that `Link(a, b)` keeps: the higher-ranked one, or `b` on a tie. */
  function Winner(rank: map<Label, nat>, a: Label, b: Label): Label
    requires a in rank && b in rank
  {
    if rank[a] > rank[b] then a else b
  }

  /** The parent map after `Link(a, b)`. */
  function LinkedParent(parent: map<Label, Label>, rank: map<Label, nat>, a: Label, b: Label): map<Label, Label>
    requires a in rank && b in rank
  {
    if rank[a] > rank[b] then parent[b := a] else parent[a := b]
  }

  /** The rank map after `Link(a, b)`: only a tie raises the surviving root's rank, by one. */
  function LinkedRank(rank: map<Label, nat>, a: Label, b: Label): map<Label, nat>
    requires a in rank && b in rank
  {
    if rank[a] == rank[b] then rank[b := rank[b] + 1] else rank
  }

  /**
    Linking two roots keeps the forest ranked, and merges exactly their two components:
    every label of either component now has the winner as representative, and every
    other label keeps its own.
   */
  lemma {:induction false} LinkMergesComponents(parent: map<Label, Label>, rank: map<Label, nat>, a: Label, b: Label, z: Label)
    requires RankedForest(parent, rank) && a in parent && b in parent && z in parent
    requires parent[a] == a && parent[b] == b
    ensures RankedForest(LinkedParent(parent, rank, a, b), LinkedRank(rank, a, b))
    ensures Root(LinkedParent(parent, rank, a, b), LinkedRank(rank, a, b), z)
            == (var r := Root(parent, rank, z); if r == a || r == b then Winner(rank, a, b) else r)
    decreases Above(rank, z)
  {
    var p', rk' := LinkedParent(parent, rank, a, b), LinkedRank(rank, a, b);
    assert RankedForest(p', rk') by {
      forall x | x in p' && p'[x] != x ensures rk'[x] < rk'[p'[x]] {
        if x != a && x != b {
          assert p'[x] == parent[x];
        }
      }
    }
    if parent[z] != z {
      assert parent[z] in Above(rank, z) && parent[z] !in Above(rank, parent[z]);
      LinkMergesComponents(parent, rank, a, b, parent[z]);
      assert z != a && z != b;
      assert p'[z] == parent[z];
    }
  }

  class DisjointSet {
    var parent: map<Label, Label>
    var rank: map<Label, nat>

    ghost predicate Valid()
      reads this
    {
      RankedForest(parent, rank)
    }

    constructor ()
      ensures Valid() && parent == map[] && rank == map[]
    {
      parent := map[];
      rank := map[];
    }

    /** Registers `name` as a fresh singleton component of rank 0. */
    method MakeSet(name: Label)
      requires Valid() && name !in parent
      modifies this
      ensures Valid()
      ensures parent == old(parent)[name := name] && rank == old(rank)[name := 0]
      ensures Root(parent, rank, name) == name
      ensures forall x {:trigger Root(parent, rank, x)} :: x in old(parent) ==> Root(parent, rank, x) == Root(old(parent), old(rank), x)
    {
      ghost var p0, r0 := parent, rank;
      parent := parent[name := name];
      rank := rank[name := 0];
      forall x {:trigger Root(parent, rank, x)} | x in p0 ensures Root(parent, rank, x) == Root(p0, r0, x) {
        FreshLabelKeepsRoot(p0, r0, name, x);
      }
    }

    /**
      The representative of `name`, or None for a label never registered. Every label on
      the path to the root is re-pointed at the root; no representative changes.
     */
    method Find(name: Label) returns (r: Option<Label>)
      requires Valid()
      modifies this
      ensures Valid() && rank == old(rank)
      ensures SameComponents(old(parent), old(rank), parent, rank)
      ensures name !in old(parent) <==> r == None
      ensures name !in old(parent) ==> parent == old(parent)
      ensures name in old(parent) ==> r == Some(Root(old(parent), old(rank), name)) && parent[name] == r.value
      ensures name in old(parent) ==> parent == Compress(old(parent), old(rank), name)
      decreases if name in rank then Above(rank, name) else {}
    {
      if name !in parent {
        return None;
      }
      if parent[name] != name {
        ghost var p0 := parent;
        assert parent[name] in Above(rank, name) && parent[name] !in Above(rank, parent[name]);
        var up := Find(parent[name]);
        ghost var p1 := parent;
        assert up.value == Root(p1, rank, name);
        CompressPreservesRoots(p1, rank, name, name);
        parent := parent[name := up.value];
        forall x {:trigger Root(parent, rank, x)} | x in p0 ensures Root(parent, rank, x) == Root(p0, rank, x) {
          CompressPreservesRoots(p1, rank, name, x);
        }
      }
      return Some(parent[name]);
    }

    /** Merges two components given by their roots; on a rank tie `b` survives and gains a rank. */
    method Link(a: Label, b: Label)
      requires Valid() && a in parent && b in parent && parent[a] == a && parent[b] == b
      modifies this
      ensures parent == LinkedParent(old(parent), old(rank), a, b)
      ensures rank == LinkedRank(old(rank), a, b)
      ensures Valid()
      ensures forall z {:trigger Root(parent, rank, z)} :: z in parent ==>
        Root(parent, rank, z) == (var r := Root(old(parent), old(rank), z); if r == a || r == b then Winner(old(rank), a, b) else r)
    {
      ghost var p0, r0 := parent, rank;
      if rank[a] > rank[b] {
        parent := parent[b := a];
      } else {
        parent := parent[a := b];
        if rank[a] == rank[b] {
          rank := rank[b := rank[b] + 1];
        }
      }
      forall z {:trigger Root(parent, rank, z)} | z in parent ensures RankedForest(parent, rank) && Root(parent, rank, z) ==
        (var r := Root(p0, r0, z); if r == a || r == b then Winner(r0, a, b) else r)
      {
        LinkMergesComponents(p0, r0, a, b, z);
      }
    }

    /** Merges the components of two registered labels. */
    method Union(a: Label, b: Label)
      requires Valid() && a in parent && b in parent
      modifies this
      ensures Valid() && parent.Keys == old(parent).Keys
      ensures Root(parent, rank, a) == Root(parent, rank, b)
      ensures Root(parent, rank, a) == Root(old(parent), old(rank), a) || Root(parent, rank, a) == Root(old(parent), old(rank), b)
      ensures forall z {:trigger Root(parent, rank, z)} :: z in parent ==>
        Root(parent, rank, z) == (var r := Root(old(parent), old(rank), z);
                                  if r == Root(old(parent), old(rank), a) || r == Root(old(parent), old(rank), b)
                                  then Root(parent, rank, a) else r)
    {
      ghost var p0 := parent;
      var ra := Find(a);
      ghost var p1 := parent;
      var rb := Find(b);
      assert Root(parent, rank, ra.value) == Root(p1, rank, ra.value) == Root(p0, rank, ra.value) == ra.value;
      assert Root(parent, rank, rb.value) == Root(p1, rank, rb.value) == rb.value;
      Link(ra.value, rb.value);
    }
  }
}
