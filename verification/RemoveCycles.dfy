/** Menus may contain each other; cutting the cycles among those a bundle's menu leads to. */
module RemoveCycles {

  import opened Graphs

  /** The elements of `s` that are in `keep`, in their order. */
  function Keeping(s: seq<Node>, keep: set<Node>): seq<Node> {
    if s == [] then [] else Keeping(s[..|s| - 1], keep) + if s[|s| - 1] in keep then [s[|s| - 1]] else []
  }

  /** `t` is `s` without some elements: each is kept everywhere or taken out everywhere. */
  ghost predicate Thinned(s: seq<Node>, t: seq<Node>) {
    t == Keeping(s, Nodes(t))
  }

  lemma {:induction false} KeepingElements(s: seq<Node>, keep: set<Node>)
    ensures forall x :: x in Keeping(s, keep) <==> x in s && x in keep
  {
    if s != [] {
      KeepingElements(s[..|s| - 1], keep);
      assert s == s[..|s| - 1] + [s[|s| - 1]];
    }
  }

  lemma {:induction false} KeepingAgain(s: seq<Node>, a: set<Node>, b: set<Node>)
    ensures Keeping(Keeping(s, a), b) == Keeping(s, a * b)
  {
    if s != [] {
      var t, x := Keeping(s[..|s| - 1], a), s[|s| - 1];
      KeepingAgain(s[..|s| - 1], a, b);
      if x in a {
        assert (t + [x])[..|t|] == t;
      } else {
        assert t + [] == t;
      }
    }
  }

  /** Only which elements of `s` are kept matters. */
  lemma {:induction false} KeepingSame(s: seq<Node>, a: set<Node>, b: set<Node>)
    requires forall x | x in s :: x in a <==> x in b
    ensures Keeping(s, a) == Keeping(s, b)
  {
    if s != [] {
      KeepingSame(s[..|s| - 1], a, b);
    }
  }

  lemma KeptIsThinned(s: seq<Node>, keep: set<Node>)
    ensures Thinned(s, Keeping(s, keep))
  {
    KeepingElements(s, keep);
    KeepingSame(s, keep, Nodes(Keeping(s, keep)));
  }

  lemma ThinnedSame(s: seq<Node>)
    ensures Thinned(s, s)
  {
    KeepsAll(s, Nodes(s));
  }

  lemma {:induction false} KeepsAll(s: seq<Node>, keep: set<Node>)
    requires forall x | x in s :: x in keep
    ensures Keeping(s, keep) == s
  {
    if s != [] {
      KeepsAll(s[..|s| - 1], keep);
    }
  }

  lemma ThinnedAgain(s: seq<Node>, t: seq<Node>, u: seq<Node>)
    requires Thinned(s, t) && Thinned(t, u)
    ensures Thinned(s, u) && forall x | x in u :: x in t && x in s
  {
    KeepingAgain(s, Nodes(t), Nodes(u));
    KeepingElements(s, Nodes(t));
    KeepingElements(t, Nodes(u));
    KeepingSame(s, Nodes(t) * Nodes(u), Nodes(u));
  }

  // ---- what cutting cycles may do to the graph --------------------------------------------

  /** Lists are thinned; only edges that lie on a cycle are gone; lists change only where `from`
      leads; and all that `root` leads to it still leads to. */
  ghost predicate Trimmed(g: Graph, h: Graph, root: Node, from: Node) {
    h.Keys == g.Keys && (forall a | a in g :: Thinned(g[a], h[a])) &&
    (forall a, b | Edge(g, a, b) && !Edge(h, a, b) :: Reaches(g, b, a)) &&
    (forall a | a in g && h[a] != g[a] :: Reaches(g, from, a)) &&
    (forall a | Reaches(g, root, a) :: Reaches(h, root, a))
  }

  lemma TrimmedSub(g: Graph, h: Graph, root: Node, from: Node)
    requires Trimmed(g, h, root, from)
    ensures h.Keys == g.Keys
    ensures forall a, b | Edge(h, a, b) :: Edge(g, a, b)
  {
    forall a, b | Edge(h, a, b) ensures Edge(g, a, b) {
      KeepingElements(g[a], Nodes(h[a]));
    }
  }

  lemma TrimmedSame(g: Graph, root: Node, from: Node)
    ensures Trimmed(g, g, root, from)
  {
    forall a | a in g ensures Thinned(g[a], g[a]) {
      ThinnedSame(g[a]);
    }
  }

  lemma TrimmedAgain(g: Graph, h: Graph, k: Graph, root: Node, from: Node, next: Node)
    requires Trimmed(g, h, root, from) && Trimmed(h, k, root, next) && Reaches(h, from, next)
    ensures Trimmed(g, k, root, from)
  {
    hide Thinned, Reaches;
    TrimmedSub(g, h, root, from);
    TrimmedSub(h, k, root, next);
    forall a | a in g ensures Thinned(g[a], k[a]) {
      ThinnedAgain(g[a], h[a], k[a]);
    }
    forall a, b | Edge(g, a, b) && !Edge(k, a, b) ensures Reaches(g, b, a) {
      if Edge(h, a, b) {
        FewerReached(g, h, b, a);
      }
    }
    forall a | a in g && k[a] != g[a] ensures Reaches(g, from, a) {
      if k[a] != h[a] {
        Onward(h, from, next, a);
        FewerReached(g, h, from, a);
      }
    }
  }

  /** Taking the edges that lead back to a trail out of the list of its last node. */
  lemma BackEdges(g: Graph, trail: seq<Node>, u: Node)
    requires Walk(g, trail) && Distinct(trail) && trail[|trail| - 1] == u && u in g
    ensures Trimmed(g, g[u := Keeping(g[u], Nodes(g[u]) - Nodes(trail))], trail[0], u)
    ensures Walk(g[u := Keeping(g[u], Nodes(g[u]) - Nodes(trail))], trail)
  {
    var keep := Nodes(g[u]) - Nodes(trail);
    var h := g[u := Keeping(g[u], keep)];
    KeepingElements(g[u], keep);
    forall a | a in g ensures Thinned(g[a], h[a]) {
      ThinnedSame(g[a]);
      KeptIsThinned(g[u], keep);
    }
    forall a, b | Edge(g, a, b) && !Edge(h, a, b) ensures a == u && b in trail && Reaches(g, b, a) {
      var i :| 0 <= i < |trail| && trail[i] == b;
      PartOfWalk(g, trail, i, |trail| - 1);
    }
    Here(g, u);
    forall i | 0 < i < |trail| ensures Edge(h, trail[i - 1], trail[i]) {
    }
    forall a | Reaches(g, trail[0], a) ensures Reaches(h, trail[0], a) {
      var w :| Joins(g, w, trail[0], a);
      Rerouted(g, h, trail, w);
    }
  }

  /** An edge back to the trail is not needed: the trail leads there anyway. */
  lemma {:induction false} Rerouted(g: Graph, h: Graph, trail: seq<Node>, w: seq<Node>)
    requires Walk(h, trail) && Walk(g, w) && w[0] == trail[0]
    requires forall a, b | Edge(g, a, b) && !Edge(h, a, b) :: b in trail
    ensures Reaches(h, trail[0], w[|w| - 1])
  {
    hide Reaches;
    if |w| == 1 {
      Here(h, trail[0]);
    } else {
      var v, b := w[..|w| - 1], w[|w| - 1];
      assert forall i | 0 <= i < |v| :: v[i] == w[i];
      Rerouted(g, h, trail, v);
      if Edge(h, v[|v| - 1], b) {
        OneStep(h, v[|v| - 1], b);
        Onward(h, trail[0], v[|v| - 1], b);
      } else {
        assert Edge(g, w[(|w| - 1) - 1], w[|w| - 1]);
        var i :| 0 <= i < |trail| && trail[i] == b;
        PartOfWalk(h, trail, 0, i);
      }
    }
  }

  // ---- no cycle is left --------------------------------------------------------------------

  /** No walk from `u` meets a node twice, or one of `parents` at all. */
  ghost predicate Clear(g: Graph, u: Node, parents: set<Node>) {
    forall w | Walk(g, w) && w[0] == u :: Distinct(w) && Nodes(w) !! parents
  }

  lemma ClearStays(g: Graph, h: Graph, u: Node, parents: set<Node>)
    requires Clear(g, u, parents) && forall a, b | Edge(h, a, b) :: Edge(g, a, b)
    ensures Clear(h, u, parents)
  {
    forall w | Walk(h, w) && w[0] == u ensures Distinct(w) && Nodes(w) !! parents {
      FewerWalks(g, h, w);
    }
  }

  ghost predicate AllClear(g: Graph, nodes: seq<Node>, parents: set<Node>) {
    forall i | 0 <= i < |nodes| :: Clear(g, nodes[i], parents)
  }

  lemma OneMoreClear(g: Graph, h: Graph, nodes: seq<Node>, n: nat, parents: set<Node>)
    requires n < |nodes| && AllClear(g, nodes[..n], parents) && Clear(h, nodes[n], parents)
    requires forall a, b | Edge(h, a, b) :: Edge(g, a, b)
    ensures AllClear(h, nodes[..n + 1], parents)
  {
    hide Clear;
    var more := nodes[..n + 1];
    forall i | 0 <= i < |more| ensures Clear(h, more[i], parents) {
      if i < n {
        assert more[i] == nodes[..n][i];
        ClearStays(g, h, more[i], parents);
      }
    }
  }

  lemma NoneToClear(g: Graph, parents: set<Node>)
    ensures AllClear(g, [], parents)
  {
  }

  lemma AllClearEdges(g: Graph, u: Node, n: nat, parents: set<Node>)
    requires u in g && n == |g[u]| && AllClear(g, g[u][..n], parents)
    ensures forall b | Edge(g, u, b) :: Clear(g, b, parents)
  {
    hide Clear;
    assert g[u][..n] == g[u];
  }

  /** A node is clear if all its successors are, of itself too. */
  lemma ClearAbove(g: Graph, u: Node, parents: set<Node>)
    requires u !in parents
    requires forall b | Edge(g, u, b) :: Clear(g, b, parents + {u})
    ensures Clear(g, u, parents)
  {
    forall w | Walk(g, w) && w[0] == u ensures Distinct(w) && Nodes(w) !! parents {
      if |w| > 1 {
        var v := w[1..];
        assert Edge(g, w[1 - 1], w[1]);
        forall i | 0 < i < |v| ensures Edge(g, v[i - 1], v[i]) {
          assert Edge(g, w[(i + 1) - 1], w[i + 1]);
        }
        assert Walk(g, v) && v[0] == w[1];
        forall i, j | 0 <= i < j < |w| ensures w[i] != w[j] {
          assert w[j] == v[j - 1] && w[j] in Nodes(v);
          assert i > 0 ==> w[i] == v[i - 1];
        }
        assert forall x | x in w :: x == u || x in Nodes(v);
      }
    }
  }

  /** What the recursive call for one successor adds to what has been done. */
  lemma OneMoreDone(before: Graph, g: Graph, h: Graph, nodes: seq<Node>, n: nat, known: set<Node>, root: Node, u: Node)
    requires Trimmed(before, g, root, u) && n < |nodes| && Edge(g, u, nodes[n]) && AllClear(g, nodes[..n], known)
    requires Trimmed(g, h, root, nodes[n]) && Clear(h, nodes[n], known)
    ensures h.Keys == g.Keys && Trimmed(before, h, root, u) && AllClear(h, nodes[..n + 1], known)
  {
    hide Trimmed, Clear, AllClear, Walk;
    OneStep(g, u, nodes[n]);
    TrimmedSub(g, h, root, nodes[n]);
    TrimmedAgain(before, g, h, root, u, nodes[n]);
    OneMoreClear(g, h, nodes, n, known);
  }

  class MenuIndex {
    var menus: Graph

    constructor (menus: Graph)
      ensures this.menus == menus
    {
      this.menus := menus;
    }

    /** `remove_cycles`; `trail` is the way that led here, through all of `parents`. */
    method RemoveCycles(menu: Node, parents: set<Node>, ghost trail: seq<Node>)
      requires Walk(menus, trail) && Distinct(trail) && trail[|trail| - 1] == menu && Nodes(trail) == parents + {menu}
      requires menu !in parents
      modifies this
      ensures Trimmed(old(menus), menus, trail[0], menu)
      ensures Clear(menus, menu, parents)
      ensures forall p | p in parents && p in menus :: menus[p] == old(menus)[p]
      decreases |menus.Keys - parents|
    {
      hide Trimmed, Clear, Walk, Distinct, AllClear, Reaches, Keeping, Thinned;
      ghost var before, root := menus, trail[0];
      var known := parents + {menu};
      TrimmedSame(menus, root, menu);
      if menu in menus {
        CutBack(menu, known, trail);
        ghost var cut := menus;
        NoneToClear(menus, known);
        assert cut[menu][..0] == [];
        var i := 0;
        while i < |menus[menu]|
          invariant menus.Keys == before.Keys && menu in menus && 0 <= i <= |cut[menu]|
          invariant forall p | p in known && p in menus :: menus[p] == cut[p]
          invariant Trimmed(before, menus, root, menu)
          invariant AllClear(menus, cut[menu][..i], known)
        {
          var next := menus[menu][i];
          ghost var m := menus;
          LongerTrail(cut, m, trail, known, next);
          FewerLeft(menus.Keys, parents, menu);
          RemoveCycles(next, known, trail + [next]);
          OneMoreDone(before, m, menus, cut[menu], i, known, root, menu);
          i := i + 1;
        }
        AllClearEdges(menus, menu, i, known);
      }
      assert known == parents + {menu};
      ClearAbove(menus, menu, parents);
    }

    /** The call of `std::remove_if`. */
    method CutBack(menu: Node, known: set<Node>, ghost trail: seq<Node>)
      requires menu in menus && Walk(menus, trail) && Distinct(trail) && trail[|trail| - 1] == menu &&
               Nodes(trail) == known
      modifies this
      ensures menus.Keys == old(menus).Keys && Trimmed(old(menus), menus, trail[0], menu) && Walk(menus, trail)
      ensures forall p | p in menus && p != menu :: menus[p] == old(menus)[p]
      ensures forall x | x in menus[menu] :: x !in known
    {
      var keep := Nodes(menus[menu]) - known;
      BackEdges(menus, trail, menu);
      KeepingElements(menus[menu], keep);
      menus := menus[menu := Keeping(menus[menu], keep)];
    }

    /** What `create_bundle_index` asks for: no cycle is left among the menus that `root` leads to. */
    method RemoveCyclesFrom(root: Node)
      modifies this
      ensures forall w | Walk(menus, w) && w[0] == root :: Distinct(w)
      ensures menus.Keys == old(menus).Keys && forall a | a in menus :: Thinned(old(menus)[a], menus[a])
      ensures forall a | Reaches(old(menus), root, a) :: Reaches(menus, root, a)
      ensures forall a, b | Edge(old(menus), a, b) && !Edge(menus, a, b) :: Reaches(old(menus), b, a)
      ensures forall a | a in menus && !Reaches(old(menus), root, a) :: menus[a] == old(menus)[a]
    {
      RemoveCycles(root, {}, [root]);
    }
  }

  lemma LongerTrail(cut: Graph, m: Graph, trail: seq<Node>, known: set<Node>, next: Node)
    requires Walk(cut, trail) && Distinct(trail) && Nodes(trail) == known && next !in known
    requires cut.Keys == m.Keys && forall p | p in known && p in m :: m[p] == cut[p]
    requires Edge(m, trail[|trail| - 1], next)
    ensures Walk(m, trail + [next]) && Distinct(trail + [next]) && Nodes(trail + [next]) == known + {next}
  {
    var w := trail + [next];
    forall i | 0 < i < |w| ensures Edge(m, w[i - 1], w[i]) {
      assert trail[i - 1] in Nodes(trail);
      if i < |trail| {
        assert Edge(cut, trail[i - 1], trail[i]);
      }
    }
    assert forall x | x in trail :: x in Nodes(trail);
  }
}
