/**
  The order in which a sweep visits the mesh vertices. The vertex indices are sorted by
  scalar value with a stable sort, so equal values keep ascending index order; the join
  tree sweeps that order reversed.
 */
module Orders {
  /** Vertex `a` sorts strictly before vertex `b`: a lower value, or an equal value and a lower index. */
  predicate Before(vals: seq<int>, a: int, b: int)
    requires 0 <= a < |vals| && 0 <= b < |vals|
  {
    vals[a] < vals[b] || (vals[a] == vals[b] && a < b)
  }

  /** Every entry of `s` is a vertex index. */
  predicate InRange(vals: seq<int>, s: seq<int>)
  {
    forall i :: 0 <= i < |s| ==> 0 <= s[i] < |vals|
  }

  /** `s` lists vertices in strictly ascending `Before` order. */
  predicate Ascends(vals: seq<int>, s: seq<int>)
    requires InRange(vals, s)
  {
    forall i, j :: 0 <= i < j < |s| ==> Before(vals, s[i], s[j])
  }

  /** `s` with `x` placed in front of the first entry that `x` sorts before. */
  function Insert(vals: seq<int>, s: seq<int>, x: int): (r: seq<int>)
    requires InRange(vals, s) && 0 <= x < |vals|
    ensures InRange(vals, r) && |r| == |s| + 1
    ensures forall y :: y in r <==> y in s || y == x
  {
    if s == [] then [x]
    else if Before(vals, x, s[0]) then [x] + s
    else
      var t := Insert(vals, s[1..], x);
      assert forall y :: y in s <==> y == s[0] || y in s[1..] by {
        assert s == [s[0]] + s[1..];
      }
      [s[0]] + t
  }

  /** Inserting a new vertex into an ascending list keeps it ascending. */
  lemma {:induction false} InsertAscends(vals: seq<int>, s: seq<int>, x: int)
    requires InRange(vals, s) && 0 <= x < |vals| && Ascends(vals, s) && x !in s
    ensures Ascends(vals, Insert(vals, s, x))
  {
    var r := Insert(vals, s, x);
    if s == [] {
    } else if Before(vals, x, s[0]) {
      forall i, j | 0 <= i < j < |r| ensures Before(vals, r[i], r[j]) {
        if i > 0 {
          assert r[i] == s[i - 1] && r[j] == s[j - 1];
        } else if j > 1 {
          assert r[j] == s[j - 1] && Before(vals, s[0], s[j - 1]);
        }
      }
    } else {
      var t := Insert(vals, s[1..], x);
      InsertAscends(vals, s[1..], x);
      assert r == [s[0]] + t;
      forall i, j | 0 <= i < j < |r| ensures Before(vals, r[i], r[j]) {
        if i > 0 {
          assert r[i] == t[i - 1] && r[j] == t[j - 1];
        } else {
          var y := t[j - 1];
          assert y in t;
          if y != x {
            var m :| 0 <= m < |s[1..]| && s[1..][m] == y;
            assert s[m + 1] == y;
          }
        }
      }
    }
  }

  /** The indices `0 .. k-1` sorted by value, stably: the sort of the sweep. */
  function Ascending(vals: seq<int>, k: nat): (r: seq<int>)
    requires k <= |vals|
    ensures InRange(vals, r) && |r| == k
    ensures forall y :: y in r <==> 0 <= y < k
  {
    if k == 0 then [] else Insert(vals, Ascending(vals, k - 1), k - 1)
  }

  /** The sort really sorts: its result is strictly ascending in `Before`. */
  lemma {:induction false} AscendingAscends(vals: seq<int>, k: nat)
    requires k <= |vals|
    ensures Ascends(vals, Ascending(vals, k))
  {
    if k > 0 {
      AscendingAscends(vals, k - 1);
      InsertAscends(vals, Ascending(vals, k - 1), k - 1);
    }
  }

  /** The head of an ascending list sorts before every other entry. */
  lemma HeadIsLeast(vals: seq<int>, s: seq<int>, y: int)
    requires InRange(vals, s) && Ascends(vals, s) && y in s
    ensures y == s[0] || (y in s[1..] && Before(vals, s[0], y))
  {
    var m :| 0 <= m < |s| && s[m] == y;
    if m > 0 {
      assert s[1..][m - 1] == y;
    }
  }

  /** Two strictly ascending lists of the same vertices are the same list. */
  lemma {:induction false} AscendingUnique(vals: seq<int>, s: seq<int>, t: seq<int>)
    requires InRange(vals, s) && InRange(vals, t) && Ascends(vals, s) && Ascends(vals, t)
    requires forall y :: y in s <==> y in t
    ensures s == t
  {
    if t != [] {
      assert t[0] in s;
    }
    if s != [] {
      assert s[0] in t;
      HeadIsLeast(vals, t, s[0]);
      HeadIsLeast(vals, s, t[0]);
      forall y ensures y in s[1..] <==> y in t[1..] {
        assert s == [s[0]] + s[1..] && t == [t[0]] + t[1..];
        if y in s[1..] {
          HeadIsLeast(vals, t, y);
        }
        if y in t[1..] {
          HeadIsLeast(vals, s, y);
        }
      }
      AscendingUnique(vals, s[1..], t[1..]);
      assert s == [s[0]] + s[1..] && t == [t[0]] + t[1..];
    }
  }

  /** `s` back to front. */
  function Reversed(s: seq<int>): (r: seq<int>)
    ensures |r| == |s| && forall i :: 0 <= i < |s| ==> r[i] == s[|s| - 1 - i]
  {
    seq(|s|, i requires 0 <= i < |s| => s[|s| - 1 - i])
  }

  /**
    The sweep order: every vertex once, by ascending value for the split tree and by
    descending value for the join tree (the ascending order reversed).
   */
  function SweepOrder(vals: seq<int>, isJoin: bool): (o: seq<int>)
    ensures |o| == |vals| && InRange(vals, o)
    ensures forall y :: y in o <==> 0 <= y < |vals|
    ensures forall i, j :: 0 <= i < j < |o| ==>
      if isJoin then Before(vals, o[j], o[i]) else Before(vals, o[i], o[j])
  {
    var up := Ascending(vals, |vals|);
    AscendingAscends(vals, |vals|);
    if isJoin then
      var down := Reversed(up);
      assert forall y :: y in down <==> y in up by {
        forall y ensures y in down <==> y in up {
          if y in up {
            var i :| 0 <= i < |up| && up[i] == y;
            assert down[|up| - 1 - i] == y;
          }
        }
      }
      down
    else up
  }

  /** The join order is the split order back to front. */
  lemma JoinReversesSplit(vals: seq<int>, i: int)
    requires 0 <= i < |vals|
    ensures SweepOrder(vals, true)[i] == SweepOrder(vals, false)[|vals| - 1 - i]
  {
  }

  /** No vertex occurs twice in a sweep order. */
  lemma SweepOrderDistinct(vals: seq<int>, isJoin: bool, i: int, j: int)
    requires 0 <= i < |vals| && 0 <= j < |vals| && i != j
    ensures SweepOrder(vals, isJoin)[i] != SweepOrder(vals, isJoin)[j]
  {
    var o := SweepOrder(vals, isJoin);
    if i < j {
      assert if isJoin then Before(vals, o[j], o[i]) else Before(vals, o[i], o[j]);
    } else {
      assert if isJoin then Before(vals, o[i], o[j]) else Before(vals, o[j], o[i]);
    }
  }

  /** `o` lists each of the vertices `0 .. n - 1` exactly once. */
  predicate Enumerates(o: seq<int>, n: nat)
  {
    && |o| == n && (forall i :: 0 <= i < n ==> 0 <= o[i] < n)
    && (forall y :: 0 <= y < n ==> y in o)
    && forall i, j :: 0 <= i < j < n ==> o[i] != o[j]
  }

  /** A sweep order visits every vertex exactly once. */
  lemma SweepOrderEnumerates(vals: seq<int>, isJoin: bool)
    ensures Enumerates(SweepOrder(vals, isJoin), |vals|)
  {
    forall i, j | 0 <= i < j < |vals| ensures SweepOrder(vals, isJoin)[i] != SweepOrder(vals, isJoin)[j] {
      SweepOrderDistinct(vals, isJoin, i, j);
    }
  }
}
