/** Directed graphs given by the list of successors of each node, and walks in them. */
module Graphs {

  type Node = nat
  type Graph = map<Node, seq<Node>>

  predicate Edge(g: Graph, a: Node, b: Node) {
    a in g && b in g[a]
  }

  predicate Walk(g: Graph, w: seq<Node>) {
    w != [] && forall i | 0 < i < |w| :: Edge(g, w[i - 1], w[i])
  }

  ghost predicate Joins(g: Graph, w: seq<Node>, a: Node, b: Node) {
    Walk(g, w) && w[0] == a && w[|w| - 1] == b
  }

  ghost predicate Reaches(g: Graph, a: Node, b: Node) {
    exists w :: Joins(g, w, a, b)
  }

  predicate Distinct(w: seq<Node>) {
    forall i, j | 0 <= i < j < |w| :: w[i] != w[j]
  }

  function Nodes(w: seq<Node>): set<Node> {
    set x | x in w
  }

  lemma Here(g: Graph, a: Node)
    ensures Reaches(g, a, a)
  {
    assert Joins(g, [a], a, a);
  }

  lemma Onward(g: Graph, a: Node, b: Node, c: Node)
    requires Reaches(g, a, b) && Reaches(g, b, c)
    ensures Reaches(g, a, c)
  {
    var v :| Joins(g, v, a, b);
    var w :| Joins(g, w, b, c);
    assert Joins(g, v + w[1..], a, c);
  }

  lemma OneStep(g: Graph, a: Node, b: Node)
    requires Edge(g, a, b)
    ensures Reaches(g, a, b)
  {
    assert Joins(g, [a, b], a, b);
  }

  /** Parts of a walk are walks. */
  lemma PartOfWalk(g: Graph, w: seq<Node>, i: nat, j: nat)
    requires Walk(g, w) && i <= j < |w|
    ensures Reaches(g, w[i], w[j])
  {
    var p := w[i..j + 1];
    forall k | 0 < k < |p| ensures Edge(g, p[k - 1], p[k]) {
      assert Edge(g, w[(i + k) - 1], w[i + k]);
    }
    assert Joins(g, p, w[i], w[j]);
  }

  /** With fewer edges there are fewer walks. */
  lemma FewerWalks(g: Graph, h: Graph, w: seq<Node>)
    requires Walk(h, w) && forall a, b | Edge(h, a, b) :: Edge(g, a, b)
    ensures Walk(g, w)
  {
  }

  lemma FewerReached(g: Graph, h: Graph, a: Node, b: Node)
    requires Reaches(h, a, b) && forall x, y | Edge(h, x, y) :: Edge(g, x, y)
    ensures Reaches(g, a, b)
  {
    var w :| Joins(h, w, a, b);
    FewerWalks(g, h, w);
    assert Joins(g, w, a, b);
  }

  /** One more node is done. */
  lemma FewerLeft(all: set<Node>, done: set<Node>, n: Node)
    requires n in all && n !in done
    ensures |all - (done + {n})| < |all - done|
  {
    assert all - (done + {n}) == (all - done) - {n};
  }

  /** A walk from a node back to itself. */
  ghost predicate Cyclic(g: Graph) {
    exists w :: Walk(g, w) && |w| > 1 && w[0] == w[|w| - 1]
  }

  lemma {:induction false} DistinctFits(w: seq<Node>, s: set<Node>)
    requires Distinct(w) && forall x | x in w :: x in s
    ensures |w| <= |s|
  {
    if w != [] {
      var v, x := w[..|w| - 1], w[|w| - 1];
      assert forall y | y in v :: y in s - {x};
      DistinctFits(v, s - {x});
    }
  }

  lemma WalkOn(g: Graph, w: seq<Node>, b: Node)
    requires Walk(g, w) && Edge(g, w[|w| - 1], b)
    ensures Walk(g, w + [b])
  {
  }

  lemma WalkInCircle(g: Graph, w: seq<Node>, i: nat, j: nat)
    requires Walk(g, w) && i < j < |w| && w[i] == w[j]
    ensures Cyclic(g)
  {
    var p := w[i..j + 1];
    forall k | 0 < k < |p| ensures Edge(g, p[k - 1], p[k]) {
      assert Edge(g, w[(i + k) - 1], w[i + k]);
    }
    assert Walk(g, p) && p[0] == p[|p| - 1];
  }

  ghost predicate LeadsInto(g: Graph, s: set<Node>, a: Node) {
    exists b :: b in s && Edge(g, a, b)
  }

  lemma Next(g: Graph, s: set<Node>, a: Node) returns (b: Node)
    requires LeadsInto(g, s, a)
    ensures b in s && Edge(g, a, b)
  {
    b :| b in s && Edge(g, a, b);
  }

  /** Whoever can always walk on inside finitely many nodes walks in a circle. */
  lemma CycleInside(g: Graph, s: set<Node>, x: Node)
    requires x in s && forall a | a in s :: LeadsInto(g, s, a)
    ensures Cyclic(g)
  {
    hide Walk, Cyclic, LeadsInto;
    var w := LongWalk(g, s, x, |s|);
    if Distinct(w) {
      DistinctFits(w, s);
      assert false;
    }
    var i, j :| 0 <= i < j < |w| && w[i] == w[j];
    WalkInCircle(g, w, i, j);
  }

  lemma {:induction false} LongWalk(g: Graph, s: set<Node>, x: Node, n: nat) returns (w: seq<Node>)
    requires x in s && forall a | a in s :: LeadsInto(g, s, a)
    ensures Walk(g, w) && |w| == n + 1 && forall y | y in w :: y in s
  {
    hide LeadsInto;
    if n == 0 {
      w := [x];
    } else {
      var v := LongWalk(g, s, x, n - 1);
      var last := v[|v| - 1];
      assert last in v;
      var b := Next(g, s, last);
      WalkOn(g, v, b);
      w := v + [b];
    }
  }
}
