/** `oak::dependency_graph`: which tasks a change affects, and an order to do them in. */
module DependencyGraphs {

  import opened Graphs

  type Dependencies = map<Node, set<Node>>

  /** `a` depends on `b`. */
  predicate DependsOn(deps: Dependencies, a: Node, b: Node) {
    a in deps && b in deps[a]
  }

  ghost function Listed(s: set<Node>): (r: seq<Node>)
    ensures forall x :: x in r <==> x in s
  {
    if s == {} then [] else
      var x :| x in s;
      [x] + Listed(s - {x})
  }

  /** The graph with an edge from each task to all it depends on. */
  ghost function AsGraph(deps: Dependencies): (g: Graph)
    ensures forall a, b :: Edge(g, a, b) <==> DependsOn(deps, a, b)
  {
    map a | a in deps :: Listed(deps[a])
  }

  lemma {:induction false} WalksBack(g: Graph, s: set<Node>, w: seq<Node>)
    requires Walk(g, w) && w[|w| - 1] in s && forall a, b | b in s && Edge(g, a, b) :: a in s
    ensures w[0] in s
  {
    if |w| > 1 {
      var v := w[..|w| - 1];
      assert forall i | 0 <= i < |v| :: v[i] == w[i];
      assert Edge(g, w[(|w| - 1) - 1], w[|w| - 1]);
      WalksBack(g, s, v);
    }
  }

  /** Every task that depends on one of `res` is in `res` itself or will be. */
  ghost predicate Followed(deps: Dependencies, res: set<Node>, active: seq<Node>) {
    forall a, b | b in res && DependsOn(deps, a, b) :: a in res || a in active
  }

  /** A task that waits again although it is in `res` waits below all that depends on it. */
  ghost predicate Repeated(deps: Dependencies, res: set<Node>, active: seq<Node>) {
    forall i, a | 0 <= i < |active| && active[i] in res && DependsOn(deps, a, active[i]) ::
      a in res || a in active[i + 1..]
  }

  /** All of `res` and `active` depend on the node. */
  ghost predicate Affected(deps: Dependencies, node: Node, res: set<Node>, active: seq<Node>) {
    forall x | x in res || x in active :: Reaches(AsGraph(deps), x, node) && (x == node || x in deps)
  }

  /** The dependents of `n` that are not in `res` go on top of the stack. */
  ghost predicate Pushed(deps: Dependencies, todo: set<Node>, res: set<Node>, below: seq<Node>,
      active: seq<Node>, n: Node) {
    |below| <= |active| && active[..|below|] == below &&
    (forall x | x in active[|below|..] :: DependsOn(deps, x, n) && x !in res) &&
    (forall a | DependsOn(deps, a, n) && a !in todo :: a in res || a in active[|below|..])
  }

  lemma InSlice(s: seq<Node>, k: nat, i: nat)
    ensures k <= i < |s| ==> s[i] in s[k..]
    ensures s == [] || s[0] in s
  {
    if k <= i < |s| {
      assert s[k..][i - k] == s[i];
    }
  }

  /** A task taken from the stack again finds all that depends on it in `res`. */
  lemma TakenAgain(deps: Dependencies, res: set<Node>, below: seq<Node>, n: Node)
    requires Repeated(deps, res, below + [n])
    ensures n in res ==> forall a | DependsOn(deps, a, n) :: a in res
  {
    var was := below + [n];
    assert was[|below|] == n && was[|below| + 1..] == [];
  }

  lemma StillRepeated(deps: Dependencies, res: set<Node>, below: seq<Node>, active: seq<Node>, n: Node)
    requires Repeated(deps, res, below + [n]) && Pushed(deps, {}, res + {n}, below, active, n)
    ensures Repeated(deps, res + {n}, active)
  {
    var was, top := below + [n], active[|below|..];
    assert active == below + top;
    forall i, a | 0 <= i < |active| && active[i] in res + {n} && DependsOn(deps, a, active[i])
      ensures a in res + {n} || a in active[i + 1..]
    {
      InSlice(active, |below|, i);
      if i < |below| {
        assert was[i] == active[i];
        assert active[i + 1..] == below[i + 1..] + top;
        assert was[i + 1..] == below[i + 1..] + [n];
      }
    }
  }

  /** One turn of the loop: what depends on `n` is on the stack now, unless it is in `res`. */
  lemma PushedOn(deps: Dependencies, node: Node, res: set<Node>, below: seq<Node>, active: seq<Node>, n: Node)
    requires Followed(deps, res, below + [n]) && Repeated(deps, res, below + [n]) &&
             Affected(deps, node, res, below + [n])
    requires Pushed(deps, {}, res + {n}, below, active, n)
    ensures Followed(deps, res + {n}, active) && Repeated(deps, res + {n}, active) &&
            Affected(deps, node, res + {n}, active)
    ensures n in res ==> active == below
  {
    hide Repeated, Reaches;
    var top := active[|below|..];
    assert active == below + top && (below + [n])[|below|] == n;
    StillRepeated(deps, res, below, active, n);
    TakenAgain(deps, res, below, n);
    InSlice(top, 0, 0);
    forall x | x in top ensures Reaches(AsGraph(deps), x, node) {
      OneStep(AsGraph(deps), x, n);
      Onward(AsGraph(deps), x, n, node);
    }
  }

  lemma FewerToDo(deps: Dependencies, node: Node, res: set<Node>, active: seq<Node>, n: Node)
    requires Affected(deps, node, res, active) && n in active
    ensures n !in res ==> |deps.Keys + {node} - (res + {n})| < |deps.Keys + {node} - res|
    ensures n in res ==> res + {n} == res
  {
    hide Reaches;
    var all := deps.Keys + {node};
    assert n in all;
    if n !in res {
      FewerLeft(all, res, n);
    }
  }

  lemma NothingLeft(deps: Dependencies, node: Node, res: set<Node>)
    requires Followed(deps, res, []) && Affected(deps, node, res, []) && node in res
    ensures forall d :: d in res <==> Reaches(AsGraph(deps), d, node)
  {
    forall d | Reaches(AsGraph(deps), d, node) ensures d in res {
      var w :| Joins(AsGraph(deps), w, d, node);
      WalksBack(AsGraph(deps), res, w);
    }
  }

  // ---- orders ---------------------------------------------------------------------------------

  /** Every task comes once and behind all it depends on. */
  ghost predicate Ordered(deps: Dependencies, order: seq<Node>) {
    Distinct(order) && forall i | 0 <= i < |order| :: order[i] in deps && deps[order[i]] <= Nodes(order[..i])
  }

  /** Every dependency is itself a task. */
  ghost predicate Closed(deps: Dependencies) {
    forall a, b | DependsOn(deps, a, b) :: b in deps
  }

  /** No task is left out that could have been done. */
  ghost predicate Maximal(deps: Dependencies, order: seq<Node>) {
    forall a | a in deps && deps[a] <= Nodes(order) :: a in order
  }

  lemma {:induction false} WalksDown(deps: Dependencies, order: seq<Node>, w: seq<Node>, i: nat, j: nat)
    requires Ordered(deps, order) && Walk(AsGraph(deps), w) && |w| > 1
    requires i < |order| && j < |order| && order[i] == w[0] && order[j] == w[|w| - 1]
    ensures j < i
  {
    var v := w[..|w| - 1];
    assert forall k | 0 <= k < |v| :: v[k] == w[k];
    assert DependsOn(deps, w[(|w| - 1) - 1], w[|w| - 1]);
    if |v| == 1 {
      Earlier(deps, order, i, j);
    } else {
      var k := Position(deps, order, w, i, |v| - 1);
      WalksDown(deps, order, v, i, k);
      Earlier(deps, order, k, j);
    }
  }

  lemma Earlier(deps: Dependencies, order: seq<Node>, i: nat, j: nat)
    requires Ordered(deps, order) && i < |order| && j < |order| && DependsOn(deps, order[i], order[j])
    ensures j < i
  {
    assert order[j] in Nodes(order[..i]);
    var k :| 0 <= k < i && order[..i][k] == order[j];
  }

  lemma {:induction false} Position(deps: Dependencies, order: seq<Node>, w: seq<Node>, i: nat, n: nat) returns (k: nat)
    requires Ordered(deps, order) && Walk(AsGraph(deps), w) && n < |w| && i < |order| && order[i] == w[0]
    ensures k < |order| && order[k] == w[n]
  {
    if n == 0 {
      k := i;
    } else {
      var l := Position(deps, order, w, i, n - 1);
      assert DependsOn(deps, w[n - 1], w[n]) && w[n] in Nodes(order[..l]);
      k :| 0 <= k < l && order[..l][k] == w[n];
    }
  }

  /** An order has all nodes if and only if every dependency is a node and none depends,
      directly or not, on itself. */
  lemma CompleteExactly(deps: Dependencies, order: seq<Node>)
    requires Ordered(deps, order) && Maximal(deps, order)
    ensures (forall a | a in deps :: a in order) <==> Closed(deps) && !Cyclic(AsGraph(deps))
  {
    if forall a | a in deps :: a in order {
      CompleteIsSound(deps, order);
    } else if Closed(deps) {
      var left := deps.Keys - Nodes(order);
      forall a | a in left ensures LeadsInto(AsGraph(deps), left, a) {
        var b :| b in deps[a] && b !in Nodes(order);
        assert DependsOn(deps, a, b);
      }
      var x :| x in deps && x !in order;
      CycleInside(AsGraph(deps), left, x);
    }
  }

  lemma CompleteIsSound(deps: Dependencies, order: seq<Node>)
    requires Ordered(deps, order) && forall a | a in deps :: a in order
    ensures Closed(deps) && !Cyclic(AsGraph(deps))
  {
    forall a, b | DependsOn(deps, a, b) ensures b in deps {
      var i :| 0 <= i < |order| && order[i] == a;
      assert b in Nodes(order[..i]);
      var k :| 0 <= k < i && order[..i][k] == b;
      assert order[k] == b;
    }
    forall w | Walk(AsGraph(deps), w) && |w| > 1 ensures w[0] != w[|w| - 1] {
      assert DependsOn(deps, w[1 - 1], w[1]);
      var i :| 0 <= i < |order| && order[i] == w[0];
      if w[0] == w[|w| - 1] {
        WalksDown(deps, order, w, i, i);
      }
    }
  }

  /** What `tmp` holds: the dependencies that are not done yet. */
  ghost predicate Remaining(deps: Dependencies, tmp: Dependencies, done: set<Node>) {
    tmp.Keys == deps.Keys && forall a | a in deps :: tmp[a] == deps[a] - done
  }

  /** Exactly the nodes with nothing left to wait for are done or on the stack, once each. */
  ghost predicate Waiting(tmp: Dependencies, res: seq<Node>, active: seq<Node>) {
    Distinct(res) && Distinct(active) && (forall x | x in res :: x !in active) &&
    forall a :: a in res || a in active <==> a in tmp && tmp[a] == {}
  }

  lemma TopWaits(deps: Dependencies, tmp: Dependencies, res: seq<Node>, below: seq<Node>, n: Node)
    requires Remaining(deps, tmp, Nodes(res)) && Waiting(tmp, res, below + [n])
    ensures n in deps && n !in res && deps[n] <= Nodes(res) && Waiting(tmp, res + [n], below)
  {
    var active := below + [n];
    assert active[|below|] == n;
    assert n in active && n !in res && n in deps;
    forall x | x in deps[n] ensures x in Nodes(res) {
      assert x in deps[n] - Nodes(res) || x in Nodes(res);
    }
    assert forall i | 0 <= i < |below| :: below[i] == active[i] != active[|below|];
    assert n !in below;
    assert forall x :: x in active <==> x in below || x == n;
  }

  lemma OneMore(deps: Dependencies, res: seq<Node>, n: Node)
    requires Ordered(deps, res) && n in deps && n !in res && deps[n] <= Nodes(res)
    ensures Ordered(deps, res + [n]) && Nodes(res + [n]) == Nodes(res) + {n}
    ensures |deps.Keys - Nodes(res + [n])| < |deps.Keys - Nodes(res)|
  {
    NodesOfMore(res, n);
    OrderedMore(deps, res, n);
    assert n !in Nodes(res);
    hide Nodes, Ordered;
    FewerLeft(deps.Keys, Nodes(res), n);
  }

  lemma OrderedMore(deps: Dependencies, res: seq<Node>, n: Node)
    requires Ordered(deps, res) && n in deps && n !in res && deps[n] <= Nodes(res)
    ensures Ordered(deps, res + [n])
  {
    hide Nodes;
    var order := res + [n];
    assert order[..|res|] == res;
    forall i | 0 <= i < |res| ensures order[i] == res[i] && order[..i] == res[..i] {
    }
  }

  lemma NodesOfMore(res: seq<Node>, n: Node)
    ensures Nodes(res + [n]) == Nodes(res) + {n}
  {
  }

  lemma NoneDone(deps: Dependencies)
    ensures Ordered(deps, []) && Remaining(deps, deps, Nodes([]))
  {
  }

  lemma AllReleased(deps: Dependencies, tmp: Dependencies, res: seq<Node>)
    requires Remaining(deps, tmp, Nodes(res)) && Waiting(tmp, res, [])
    ensures Maximal(deps, res)
  {
    forall a | a in deps && deps[a] <= Nodes(res) ensures a in res {
      assert tmp[a] == {};
    }
  }

  /** Putting a task that has just become free on the stack. */
  lemma NowFree(tmp: Dependencies, res: seq<Node>, active: seq<Node>, a: Node, left: set<Node>)
    requires Waiting(tmp, res, active) && a in tmp && tmp[a] != {}
    ensures left == {} ==> Waiting(tmp[a := left], res, active + [a])
    ensures left != {} ==> Waiting(tmp[a := left], res, active)
  {
  }

  class DependencyGraph {
    var dependencies: Dependencies

    constructor ()
      ensures dependencies == map[]
    {
      dependencies := map[];
    }

    method AddNode(node: Node)
      modifies this
      ensures dependencies.Keys == old(dependencies).Keys + {node}
      ensures forall a, b :: DependsOn(dependencies, a, b) <==> DependsOn(old(dependencies), a, b)
    {
      if node !in dependencies {
        dependencies := dependencies[node := {}];
      }
    }

    method AddEdge(node: Node, dependsOn: Node)
      modifies this
      ensures dependencies.Keys == old(dependencies).Keys + {node}
      ensures forall a, b :: DependsOn(dependencies, a, b) <==>
              DependsOn(old(dependencies), a, b) || (a == node && b == dependsOn)
    {
      dependencies := dependencies[node := (if node in dependencies then dependencies[node] else {}) + {dependsOn}];
    }

    /** The node itself and all that depends on it, directly or not. */
    method Touch(node: Node) returns (res: set<Node>)
      ensures forall d :: d in res <==> Reaches(AsGraph(dependencies), d, node)
    {
      hide Followed, Repeated, Affected, AsGraph, Reaches;
      res := {};
      var active := [node];
      TouchStart(dependencies, node);
      while active != []
        invariant Followed(dependencies, res, active) && Repeated(dependencies, res, active) &&
                  Affected(dependencies, node, res, active)
        invariant node in res || active == [node]
        decreases |dependencies.Keys + {node} - res|, |active|
      {
        var below, n := active[..|active| - 1], active[|active| - 1];
        assert active == below + [n];
        FewerToDo(dependencies, node, res, active, n);
        active := PushDependents(res + {n}, below, n);
        PushedOn(dependencies, node, res, below, active, n);
        res := res + {n};
      }
      NothingLeft(dependencies, node, res);
    }

    method TopologicalOrder() returns (res: seq<Node>)
      ensures Ordered(dependencies, res) && Maximal(dependencies, res)
      ensures (forall a | a in dependencies :: a in res) <==> Closed(dependencies) && !Cyclic(AsGraph(dependencies))
    {
      hide Cyclic, AsGraph, Ordered, Remaining, Waiting, Maximal;
      res := [];
      NoneDone(dependencies);
      var active := Free();
      var tmp := dependencies;
      while active != []
        invariant Ordered(dependencies, res) && Remaining(dependencies, tmp, Nodes(res)) && Waiting(tmp, res, active)
        decreases |dependencies.Keys - Nodes(res)|
      {
        var below, n := active[..|active| - 1], active[|active| - 1];
        assert active == below + [n];
        TopWaits(dependencies, tmp, res, below, n);
        OneMore(dependencies, res, n);
        ghost var done := Nodes(res);
        res := res + [n];
        tmp, active := Release(tmp, below, n, res, done);
      }
      AllReleased(dependencies, tmp, res);
      CompleteExactly(dependencies, res);
    }

    /** The nodes that depend on nothing. */
    method Free() returns (active: seq<Node>)
      ensures Waiting(dependencies, [], active)
    {
      active := [];
      var todo := dependencies.Keys;
      while todo != {}
        invariant todo <= dependencies.Keys && Distinct(active)
        invariant forall a :: a in active <==> a in dependencies.Keys - todo && dependencies[a] == {}
      {
        var it :| it in todo;
        assert it !in active;
        todo := todo - {it};
        if dependencies[it] == {} {
          active := active + [it];
        }
      }
    }

    /** Nothing waits for `n` any more; what waits for nothing else goes on the stack. */
    method Release(deps: Dependencies, below: seq<Node>, n: Node, ghost res: seq<Node>, ghost done: set<Node>)
      returns (tmp: Dependencies, active: seq<Node>)
      requires Remaining(dependencies, deps, done) && Waiting(deps, res, below)
      ensures Remaining(dependencies, tmp, done + {n}) && Waiting(tmp, res, active)
    {
      hide Waiting;
      tmp, active := deps, below;
      var todo := deps.Keys;
      while todo != {}
        invariant todo <= deps.Keys == tmp.Keys && Waiting(tmp, res, active)
        invariant forall a | a in tmp :: tmp[a] == if a in todo then deps[a] else deps[a] - {n}
      {
        var it :| it in todo;
        todo := todo - {it};
        if n in tmp[it] {
          NowFree(tmp, res, active, it, tmp[it] - {n});
          tmp := tmp[it := tmp[it] - {n}];
          if tmp[it] == {} {
            active := active + [it];
          }
        }
      }
    }

    /** The loop over all dependencies. */
    method PushDependents(res: set<Node>, below: seq<Node>, n: Node) returns (active: seq<Node>)
      ensures Pushed(dependencies, {}, res, below, active, n)
    {
      active := below;
      var todo := dependencies.Keys;
      while todo != {}
        invariant todo <= dependencies.Keys
        invariant Pushed(dependencies, todo, res, below, active, n)
      {
        var it :| it in todo;
        todo := todo - {it};
        if n in dependencies[it] && it !in res {
          assert (active + [it])[|below|..] == active[|below|..] + [it];
          active := active + [it];
        }
      }
    }
  }

  lemma TouchStart(deps: Dependencies, node: Node)
    ensures Followed(deps, {}, [node]) && Repeated(deps, {}, [node]) && Affected(deps, node, {}, [node])
  {
    Here(AsGraph(deps), node);
  }
}
