/** Finite directed graphs over keys: walks, cycles, reachability, and what one more edge does to them. */
module Graphs {
  import opened Foundation

  type Graph = map<Bytes, set<Bytes>>

  predicate Edge(g: Graph, a: Bytes, b: Bytes) {
    a in g && b in g[a]
  }

  predicate IsWalk(g: Graph, p: seq<Bytes>) {
    p != [] && forall i :: 0 <= i < |p| - 1 ==> Edge(g, p[i], p[i + 1])
  }

  ghost predicate IsWalkFrom(g: Graph, p: seq<Bytes>, a: Bytes, b: Bytes) {
    IsWalk(g, p) && p[0] == a && p[|p| - 1] == b
  }

  /** No walk of at least one step returns to where it started. */
  ghost predicate Acyclic(g: Graph) {
    forall p :: IsWalk(g, p) && |p| >= 2 ==> p[0] != p[|p| - 1]
  }

  ghost predicate Reaches(g: Graph, a: Bytes, b: Bytes) {
    exists p :: IsWalkFrom(g, p, a, b)
  }

  /** A walk whose last node already occurs in it shows a cycle. */
  ghost predicate ShowsCycle(g: Graph, p: seq<Bytes>) {
    IsWalk(g, p) && p[|p| - 1] in p[..|p| - 1]
  }

  lemma {:induction false} ShownCycle(g: Graph, p: seq<Bytes>)
    requires ShowsCycle(g, p)
    ensures !Acyclic(g)
  {
    var last := |p| - 1;
    var i :| 0 <= i < last && p[i] == p[last];
    var loop := p[i..];
    assert IsWalk(g, loop) && |loop| >= 2 && loop[0] == loop[|loop| - 1];
  }

  /** Every node of the sequence has its successors earlier in the sequence. */
  predicate Layered(g: Graph, order: seq<Bytes>) {
    forall i :: 0 <= i < |order| ==> order[i] in g && forall b :: b in g[order[i]] ==> b in order[..i]
  }

  lemma {:induction false} LayeredSnoc(g: Graph, order: seq<Bytes>, k: Bytes)
    requires Layered(g, order) && k in g && forall b :: b in g[k] ==> b in order
    ensures Layered(g, order + [k])
  {
    var longer := order + [k];
    forall i | 0 <= i < |longer|
      ensures longer[i] in g && forall b :: b in g[longer[i]] ==> b in longer[..i]
    {
      if i < |order| {
        assert longer[..i] == order[..i];
      } else {
        assert longer[..i] == order;
      }
    }
  }

  lemma {:induction false} WalkDescends(g: Graph, order: seq<Bytes>, i: nat, p: seq<Bytes>)
    requires Layered(g, order) && i < |order| && IsWalk(g, p) && |p| >= 2 && p[0] == order[i]
    ensures p[|p| - 1] in order[..i]
    decreases |p|
  {
    assert Edge(g, p[0], p[1]);
    assert p[1] in order[..i];
    var j :| 0 <= j < i && order[..i][j] == p[1];
    if |p| > 2 {
      SubWalk(g, p, 1, |p|);
      assert p[1..|p|] == p[1..];
      WalkDescends(g, order, j, p[1..]);
      assert p[1..][|p[1..]| - 1] == p[|p| - 1];
      assert forall x :: x in order[..j] ==> x in order[..i];
    }
  }

  /** A graph all of whose nodes can be so arranged has no cycle. */
  lemma {:induction false} LayeredIsAcyclic(g: Graph, order: seq<Bytes>)
    requires Layered(g, order) && forall k :: k in g ==> k in order
    ensures Acyclic(g)
  {
    forall p | IsWalk(g, p) && |p| >= 2
      ensures p[0] != p[|p| - 1]
    {
      assert Edge(g, p[0], p[1]);
      var i := FirstIndex(order, p[0]);
      WalkDescends(g, order, i, p);
    }
  }

  lemma {:induction false} FirstIndex(s: seq<Bytes>, k: Bytes) returns (i: nat)
    requires k in s
    ensures i < |s| && s[i] == k && k !in s[..i]
  {
    i := 0;
    while s[i] != k
      invariant i < |s| && k !in s[..i]
      invariant exists j :: i <= j < |s| && s[j] == k
      decreases |s| - i
    {
      i := i + 1;
    }
  }

  lemma {:induction false} WalkConcat(g: Graph, p: seq<Bytes>, q: seq<Bytes>)
    requires IsWalk(g, p) && IsWalk(g, q) && p[|p| - 1] == q[0]
    ensures IsWalkFrom(g, p + q[1..], p[0], q[|q| - 1])
  {
    var r := p + q[1..];
    forall i | 0 <= i < |r| - 1
      ensures Edge(g, r[i], r[i + 1])
    {
      if i < |p| - 1 {
        assert Edge(g, p[i], p[i + 1]);
      } else {
        assert Edge(g, q[i - |p| + 1], q[i - |p| + 2]);
      }
    }
  }

  lemma {:induction false} SubWalk(g: Graph, p: seq<Bytes>, lo: nat, hi: nat)
    requires IsWalk(g, p) && lo < hi <= |p|
    ensures IsWalk(g, p[lo..hi])
  {
    var q := p[lo..hi];
    forall i | 0 <= i < |q| - 1
      ensures Edge(g, q[i], q[i + 1])
    {
      assert Edge(g, p[lo + i], p[lo + i + 1]);
    }
  }

  // ---- One more edge ----

  function AddEdge(g: Graph, a: Bytes, b: Bytes): (h: Graph)
    requires a in g
    ensures forall x, y :: Edge(h, x, y) <==> Edge(g, x, y) || (x == a && y == b)
  {
    g[a := g[a] + {b}]
  }

  predicate UsesEdge(p: seq<Bytes>, i: nat, a: Bytes, b: Bytes) {
    i + 1 < |p| && p[i] == a && p[i + 1] == b
  }

  lemma {:induction false} OldWalk(g: Graph, a: Bytes, b: Bytes, p: seq<Bytes>)
    requires a in g && IsWalk(AddEdge(g, a, b), p) && forall i: nat :: !UsesEdge(p, i, a, b)
    ensures IsWalk(g, p)
  {
    forall i | 0 <= i < |p| - 1
      ensures Edge(g, p[i], p[i + 1])
    {
      assert !UsesEdge(p, i, a, b);
      assert Edge(AddEdge(g, a, b), p[i], p[i + 1]);
    }
  }

  /** A walk from b back to a does not need the new edge: it can stop the first time it meets a. */
  lemma {:induction false} WalkBackWithoutEdge(g: Graph, a: Bytes, b: Bytes, p: seq<Bytes>)
    requires a in g && IsWalkFrom(AddEdge(g, a, b), p, b, a)
    ensures Reaches(g, b, a)
  {
    var i := FirstIndex(p, a);
    var q := p[..i + 1];
    SubWalk(AddEdge(g, a, b), p, 0, i + 1);
    assert forall k :: 0 <= k < i ==> q[k] == p[..i][k] != a;
    OldWalk(g, a, b, q);
    assert IsWalkFrom(g, q, b, a);
  }

  lemma {:induction false} LoopThroughEdge(g: Graph, a: Bytes, b: Bytes, p: seq<Bytes>)
    requires a in g && Acyclic(g) && IsWalk(AddEdge(g, a, b), p) && |p| >= 2 && p[0] == p[|p| - 1]
    ensures Reaches(g, b, a)
  {
    var h := AddEdge(g, a, b);
    if i: nat :| UsesEdge(p, i, a, b) {
      SubWalk(h, p, i + 1, |p|);
      SubWalk(h, p, 0, i + 1);
      assert p[i + 1..|p|] == p[i + 1..] && p[0..i + 1] == p[..i + 1];
      WalkConcat(h, p[i + 1..], p[..i + 1]);
      WalkBackWithoutEdge(g, a, b, p[i + 1..] + p[..i + 1][1..]);
    } else {
      OldWalk(g, a, b, p);
    }
  }

  lemma {:induction false} EdgeClosesLoop(g: Graph, a: Bytes, b: Bytes)
    requires a in g && Reaches(g, b, a)
    ensures !Acyclic(AddEdge(g, a, b))
  {
    var p :| IsWalkFrom(g, p, b, a);
    var loop := [a] + p;
    forall i | 0 <= i < |loop| - 1
      ensures Edge(AddEdge(g, a, b), loop[i], loop[i + 1])
    {
      if i > 0 {
        assert Edge(g, p[i - 1], p[i]);
      }
    }
    assert loop[0] == loop[|loop| - 1];
  }

  /** Adding an edge keeps a graph acyclic exactly when its end did not already reach its start. */
  lemma {:induction false} AddEdgeAcyclic(g: Graph, a: Bytes, b: Bytes)
    requires a in g && Acyclic(g)
    ensures Acyclic(AddEdge(g, a, b)) <==> !Reaches(g, b, a)
  {
    if Reaches(g, b, a) {
      EdgeClosesLoop(g, a, b);
    } else {
      forall p | IsWalk(AddEdge(g, a, b), p) && |p| >= 2
        ensures p[0] != p[|p| - 1]
      {
        if p[0] == p[|p| - 1] {
          LoopThroughEdge(g, a, b, p);
        }
      }
    }
  }
}
