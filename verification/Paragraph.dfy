/** `paragraph_t`: a line of text as nodes, each with a kind and a length. */
module Paragraphs {

  import opened Seqs

  datatype Kind = Text | Unprintable | Folding | SoftBreak | Newline

  datatype Node = Node(kind: Kind, length: nat)

  /** A character as the user sees it: how many bytes it has, and what kind of node it needs. */
  datatype Character = Character(kind: Kind, length: nat)

  /** `kCTLineMaxSize` */
  const MAX_SIZE: nat := 2048

  function Total(nodes: seq<Node>): nat {
    if nodes == [] then 0 else Total(nodes[..|nodes| - 1]) + nodes[|nodes| - 1].length
  }

  function Repeated(kind: Kind, n: nat): (r: seq<Kind>)
    ensures |r| == n
  {
    seq(n, _ => kind)
  }

  /** The kind of every byte of the line. */
  function Kinds(nodes: seq<Node>): (k: seq<Kind>)
    ensures |k| == Total(nodes)
  {
    if nodes == [] then []
    else Kinds(nodes[..|nodes| - 1]) + Repeated(nodes[|nodes| - 1].kind, nodes[|nodes| - 1].length)
  }

  /** The kinds of the bytes of some characters. */
  function KindsOf(chars: seq<Character>): seq<Kind> {
    if chars == [] then []
    else KindsOf(chars[..|chars| - 1]) + Repeated(chars[|chars| - 1].kind, chars[|chars| - 1].length)
  }

  /** Only text can be divided: position `i` is not inside a node of another kind. */
  ghost predicate Divisible(nodes: seq<Node>, i: nat) {
    forall n | 0 <= n < |nodes| && Total(nodes[..n]) < i < Total(nodes[..n]) + nodes[n].length :: nodes[n].kind == Text
  }

  // ---- nodes and their kinds ---------------------------------------------------------------

  lemma {:induction false} KindsOfSum(a: seq<Node>, b: seq<Node>)
    ensures Kinds(a + b) == Kinds(a) + Kinds(b) && Total(a + b) == Total(a) + Total(b)
  {
    hide Repeated;
    if b == [] {
      assert a + b == a;
    } else {
      var c, x := b[..|b| - 1], b[|b| - 1];
      KindsOfSum(a, c);
      assert (a + b)[..|a + b| - 1] == a + c && (a + b)[|a + b| - 1] == x;
      Assoc(Kinds(a), Kinds(c), Repeated(x.kind, x.length));
    }
  }

  lemma Parts(nodes: seq<Node>, n: nat)
    requires n <= |nodes|
    ensures nodes[..n] + nodes[n..] == nodes
    ensures n < |nodes| ==> nodes[..n] + [nodes[n]] == nodes[..n + 1]
  {
  }

  lemma KindsOfOne(n: Node)
    ensures Kinds([n]) == Repeated(n.kind, n.length) && Total([n]) == n.length
  {
    assert [n][..0] == [];
  }

  /** Every byte has the kind of its node. */
  lemma KindOfByte(nodes: seq<Node>, n: nat, i: nat)
    requires n < |nodes| && Total(nodes[..n]) <= i < Total(nodes[..n]) + nodes[n].length
    ensures i < |Kinds(nodes)| && Kinds(nodes)[i] == nodes[n].kind
  {
    KindsAt(nodes, n);
  }

  /** Every byte of some characters has the kind of the character it belongs to. */
  lemma {:induction false} KindOfCharacter(chars: seq<Character>, n: nat, i: nat)
    requires n < |chars| && |KindsOf(chars[..n])| <= i < |KindsOf(chars[..n])| + chars[n].length
    ensures i < |KindsOf(chars)| && KindsOf(chars)[i] == chars[n].kind
  {
    if n < |chars| - 1 {
      assert chars[..|chars| - 1][..n] == chars[..n];
      KindOfCharacter(chars[..|chars| - 1], n, i);
    }
  }

  /** A list of nodes, at node `n`. */
  lemma KindsAt(nodes: seq<Node>, n: nat)
    requires n < |nodes|
    ensures Kinds(nodes) == Kinds(nodes[..n]) + Repeated(nodes[n].kind, nodes[n].length) + Kinds(nodes[n + 1..])
    ensures Total(nodes[..n + 1]) == Total(nodes[..n]) + nodes[n].length
    ensures Total(nodes) == Total(nodes[..n]) + nodes[n].length + Total(nodes[n + 1..])
  {
    hide Kinds, Total, Repeated;
    KindsOfSum(nodes[..n], [nodes[n]]);
    KindsOfOne(nodes[n]);
    KindsOfSum(nodes[..n + 1], nodes[n + 1..]);
    Parts(nodes, n);
    Parts(nodes, n + 1);
  }

  lemma KindsSplit(nodes: seq<Node>, n: nat)
    requires n <= |nodes|
    ensures Kinds(nodes) == Kinds(nodes[..n]) + Kinds(nodes[n..])
  {
    hide Kinds, Total;
    KindsOfSum(nodes[..n], nodes[n..]);
    Parts(nodes, n);
  }

  lemma RepeatedSum(kind: Kind, m: nat, n: nat)
    ensures Repeated(kind, m + n) == Repeated(kind, m) + Repeated(kind, n)
  {
  }

  /** Putting a node in between nodes puts its kind in between the bytes. */
  lemma InsertedNode(nodes: seq<Node>, n: nat, x: Node)
    requires n <= |nodes|
    ensures Total(nodes[..n]) <= |Kinds(nodes)|
    ensures Kinds(nodes[..n] + [x] + nodes[n..]) ==
            Splice(Kinds(nodes), Total(nodes[..n]), Total(nodes[..n]), Repeated(x.kind, x.length))
  {
    KindsSplit(nodes, n);
    KindsOfSum(nodes[..n], [x]);
    KindsOfOne(x);
    KindsOfSum(nodes[..n] + [x], nodes[n..]);
  }

  /** Dividing a text node changes no byte. */
  lemma DividedNode(nodes: seq<Node>, n: nat, at: nat)
    requires n < |nodes| && at <= nodes[n].length
    ensures var d := nodes[..n] + [Node(nodes[n].kind, at), Node(Text, nodes[n].length - at)] + nodes[n + 1..];
            Total(d) == Total(nodes) && Total(d[..n + 1]) == Total(nodes[..n]) + at &&
                (nodes[n].kind == Text ==> Kinds(d) == Kinds(nodes))
  {
    hide Kinds, Total, Repeated;
    var before, x, behind := nodes[..n], nodes[n], nodes[n + 1..];
    var l, r := Node(x.kind, at), Node(Text, x.length - at);
    KindsAt(nodes, n);
    KindsOfSum(before, [l, r]);
    KindsOfSum([l], [r]);
    KindsOfSum(before, [l]);
    assert [l] + [r] == [l, r];
    KindsOfOne(l);
    KindsOfOne(r);
    KindsOfSum(before + [l, r], behind);
    var d := before + [l, r] + behind;
    assert d[..n + 1] == before + [l];
    RepeatedSum(Text, at, x.length - at);
  }

  /** Making a text node longer, anywhere inside it. */
  lemma LongerNode(nodes: seq<Node>, n: nat, at: nat, len: nat)
    requires n < |nodes| && at <= nodes[n].length
    ensures Total(nodes[..n]) + at <= |Kinds(nodes)|
    ensures Kinds(nodes[n := Node(nodes[n].kind, nodes[n].length + len)]) ==
            Splice(Kinds(nodes), Total(nodes[..n]) + at, Total(nodes[..n]) + at, Repeated(nodes[n].kind, len))
  {
    hide Kinds, Total, Repeated, Splice;
    var x, rest := nodes[n], nodes[n].length - at;
    var longer := nodes[n := Node(x.kind, x.length + len)];
    LongerKinds(nodes, n, at, len, rest);
    SplicedInside(Kinds(nodes), Kinds(longer), Kinds(nodes[..n]), Repeated(x.kind, at), Repeated(x.kind, rest),
        Kinds(nodes[n + 1..]), Repeated(x.kind, len));
  }

  lemma LongerKinds(nodes: seq<Node>, n: nat, at: nat, len: nat, rest: nat)
    requires n < |nodes| && at + rest == nodes[n].length
    ensures var x, a, b := nodes[n], Kinds(nodes[..n]), Kinds(nodes[n + 1..]);
            var l, r, t := Repeated(x.kind, at), Repeated(x.kind, rest), Repeated(x.kind, len);
            Kinds(nodes) == a + (l + r) + b &&
            Kinds(nodes[n := Node(x.kind, x.length + len)]) == a + (l + t + r) + b &&
            |a| == Total(nodes[..n]) && |l| == at
  {
    hide Kinds, Total, Repeated;
    var x := nodes[n];
    LongerParts(nodes, n, len);
    KindsAt(nodes, n);
    KindsAt(nodes[n := Node(x.kind, x.length + len)], n);
    RepeatedThree(x.kind, at, len, rest);
    assert x.length + len == at + len + rest;
  }

  lemma LongerParts(nodes: seq<Node>, n: nat, len: nat)
    requires n < |nodes|
    ensures var longer := nodes[n := Node(nodes[n].kind, nodes[n].length + len)];
            longer[..n] == nodes[..n] && longer[n + 1..] == nodes[n + 1..]
  {
  }

  lemma RepeatedThree(kind: Kind, a: nat, b: nat, c: nat)
    ensures Repeated(kind, a + c) == Repeated(kind, a) + Repeated(kind, c)
    ensures Repeated(kind, a + b + c) == Repeated(kind, a) + Repeated(kind, b) + Repeated(kind, c)
  {
  }

  lemma SplicedInside<T>(was: seq<T>, now: seq<T>, a: seq<T>, l: seq<T>, r: seq<T>, b: seq<T>, t: seq<T>)
    requires was == a + (l + r) + b && now == a + (l + t + r) + b
    ensures |a| + |l| <= |was| && now == Splice(was, |a| + |l|, |a| + |l|, t)
  {
  }

  lemma {:induction false} TotalsGrow(nodes: seq<Node>, m: nat, n: nat)
    requires m <= n <= |nodes|
    ensures Total(nodes[..m]) <= Total(nodes[..n]) <= Total(nodes)
    decreases |nodes| - m
  {
    hide Total, Kinds;
    if m < n {
      KindsAt(nodes, m);
      TotalsGrow(nodes, m + 1, n);
    } else {
      KindsOfSum(nodes[..n], nodes[n..]);
      Parts(nodes, n);
    }
  }

  /** Between two nodes, at the end and inside text a line can be divided. */
  lemma DivisibleAt(nodes: seq<Node>, n: nat, p: nat)
    requires n <= |nodes|
    requires p == Total(nodes[..n]) ||
             (n < |nodes| && nodes[n].kind == Text && Total(nodes[..n]) <= p <= Total(nodes[..n]) + nodes[n].length)
    ensures Divisible(nodes, p)
  {
    hide Total, Kinds;
    forall m | 0 <= m < |nodes| && Total(nodes[..m]) < p < Total(nodes[..m]) + nodes[m].length
      ensures nodes[m].kind == Text
    {
      KindsAt(nodes, m);
      if m < n {
        TotalsGrow(nodes, m + 1, n);
      } else if n < m {
        KindsAt(nodes, n);
        TotalsGrow(nodes, n + 1, m);
      }
    }
  }

  /** Position `i` is inside text node `n` or at one of its ends. */
  ghost predicate Touches(nodes: seq<Node>, n: nat, i: nat)
    requires n < |nodes|
  {
    nodes[n].kind == Text && Total(nodes[..n]) <= i <= Total(nodes[..n]) + nodes[n].length
  }

  ghost predicate FirstToTouch(nodes: seq<Node>, n: nat, i: nat)
    requires n < |nodes|
  {
    Touches(nodes, n, i) && forall m | 0 <= m < n :: !Touches(nodes, m, i)
  }

  ghost predicate Bound(nodes: seq<Node>, k: nat, i: nat) {
    k <= |nodes| && Total(nodes[..k]) == i
  }

  /** One node more, in between two. */
  ghost predicate OneAdded(was: seq<Node>, now: seq<Node>, x: Node, i: nat) {
    exists k: nat :: Bound(was, k, i) && now == was[..k] + [x] + was[k..]
  }

  /** The first text node that `i` touches gets longer, unless it ends there and is full. */
  ghost predicate TextGrows(was: seq<Node>, now: seq<Node>, n: nat, i: nat, len: nat)
    requires n < |was|
  {
    if i == Total(was[..n]) + was[n].length && was[n].length >= MAX_SIZE then OneAdded(was, now, Node(Text, len), i)
    else now == was[n := Node(Text, was[n].length + len)]
  }

  lemma NoBoundInside(nodes: seq<Node>, n: nat, i: nat, k: nat)
    requires n < |nodes| && Total(nodes[..n]) < i < Total(nodes[..n]) + nodes[n].length
    ensures !Bound(nodes, k, i)
  {
    hide Total;
    if k <= n {
      TotalsGrow(nodes, k, n);
    } else if k <= |nodes| {
      KindsAt(nodes, n);
      TotalsGrow(nodes, n + 1, k);
    }
  }

  class Paragraph {
    var nodes: seq<Node>

    constructor ()
      ensures nodes == []
    {
      nodes := [];
    }

    method Length() returns (res: nat)
      ensures res == Total(nodes)
    {
      res := 0;
      for n := 0 to |nodes|
        invariant res == Total(nodes[..n])
      {
        assert nodes[..n + 1][..n] == nodes[..n];
        res := res + nodes[n].length;
      }
      assert nodes[..|nodes|] == nodes;
    }

    /** The node that begins at `i`; a node that `i` is inside of is divided there. */
    method IteratorAt(i: nat) returns (it: nat)
      requires i <= Total(nodes)
      modifies this
      ensures it <= |nodes| && Total(nodes[..it]) == i
      ensures Total(nodes) == old(Total(nodes)) && ((exists k: nat :: Bound(old(nodes), k, i)) ==> nodes == old(nodes))
      ensures old(Divisible(nodes, i)) ==> Kinds(nodes) == old(Kinds(nodes))
    {
      hide Total, Kinds, Bound;
      TotalOfNone(nodes);
      var from := 0;
      it := 0;
      while it < |nodes|
        invariant it <= |nodes| && from == Total(nodes[..it]) <= i && nodes == old(nodes)
      {
        KindsAt(nodes, it);
        if from == i {
          return;
        } else if from < i && i < from + nodes[it].length {
          var len := nodes[it].length - (i - from);
          DividedNode(nodes, it, i - from);
          forall k: nat ensures !Bound(nodes, k, i) {
            NoBoundInside(nodes, it, i, k);
          }
          nodes := nodes[..it] + [Node(nodes[it].kind, i - from), Node(Text, len)] + nodes[it + 1..];
          it := it + 1;
          return;
        }
        from := from + nodes[it].length;
        it := it + 1;
      }
      assert nodes[..it] == nodes;
    }

    method InsertNode(kind: Kind, i: nat, len: nat)
      requires i <= Total(nodes)
      modifies this
      ensures Total(nodes) == old(Total(nodes)) + len && Divisible(nodes, i + len)
      ensures (exists k: nat :: Bound(old(nodes), k, i)) ==> OneAdded(old(nodes), nodes, Node(kind, len), i)
      ensures old(Divisible(nodes, i)) ==> Kinds(nodes) == Splice(old(Kinds(nodes)), i, i, Repeated(kind, len))
    {
      hide Total, Kinds, Divisible, Repeated, Splice;
      var it := IteratorAt(i);
      ghost var was := nodes;
      InsertedNode(nodes, it, Node(kind, len));
      nodes := nodes[..it] + [Node(kind, len)] + nodes[it..];
      SplicedLength(Kinds(was), i, Repeated(kind, len));
      KindsAt(nodes, it);
      assert nodes[..it] == was[..it];
      DivisibleAt(nodes, it + 1, i + len);
    }

    method InsertText(i: nat, len: nat)
      requires i <= Total(nodes)
      modifies this
      ensures Total(nodes) == old(Total(nodes)) + len && Divisible(nodes, i + len)
      ensures forall n | 0 <= n < |old(nodes)| && FirstToTouch(old(nodes), n, i) ::
                TextGrows(old(nodes), nodes, n, i, len)
      ensures old(Divisible(nodes, i)) ==> Kinds(nodes) == Splice(old(Kinds(nodes)), i, i, Repeated(Text, len))
    {
      hide Total, Kinds, Divisible, Repeated, Splice, OneAdded;
      TotalOfNone(nodes);
      var from := 0;
      var n := 0;
      while n < |nodes|
        invariant 0 <= n <= |nodes| && from == Total(nodes[..n]) && nodes == old(nodes)
        invariant forall m | 0 <= m < n :: !Touches(nodes, m, i)
      {
        KindsAt(nodes, n);
        if from <= i <= from + nodes[n].length && nodes[n].kind == Text {
          assert FirstToTouch(nodes, n, i) && forall m | 0 <= m < |nodes| && FirstToTouch(nodes, m, i) :: m == n;
          if i == from + nodes[n].length && nodes[n].length >= MAX_SIZE {
            assert Bound(nodes, n + 1, i);
            break;
          }
          LongerNode(nodes, n, i - from, len);
          SplicedLength(Kinds(nodes), i, Repeated(Text, len));
          ghost var was := nodes;
          nodes := nodes[n := Node(Text, nodes[n].length + len)];
          assert nodes[..n] == was[..n];
          DivisibleAt(nodes, n, i + len);
          return;
        }
        from := from + nodes[n].length;
        n := n + 1;
      }
      InsertNode(Text, i, len);
    }

    /** `insert`: text in as few nodes as possible, everything else in nodes of its own. */
    method Insert(pos: nat, chars: seq<Character>)
      requires pos <= Total(nodes) && forall c | c in chars :: c.kind in {Text, Unprintable, Newline}
      modifies this
      ensures Total(nodes) == old(Total(nodes)) + |KindsOf(chars)|
      ensures old(Divisible(nodes, pos)) ==> Kinds(nodes) == Splice(old(Kinds(nodes)), pos, pos, KindsOf(chars))
    {
      hide Total, Kinds, Divisible, Repeated, Splice, KindsOf;
      ghost var k, d := Kinds(nodes), Divisible(nodes, pos);
      var from, i := 0, 0;
      NothingInserted(chars, k, pos);
      for c := 0 to |chars|
        invariant 0 <= from <= i == |KindsOf(chars[..c])| && Total(nodes) == |k| + from
        invariant KindsOf(chars[..c])[from..] == Repeated(Text, i - from)
        invariant d ==> Divisible(nodes, pos + from) && Kinds(nodes) == Splice(k, pos, pos, KindsOf(chars[..c])[..from])
      {
        var ch := chars[c];
        assert ch in chars;
        ghost var seen, next := KindsOf(chars[..c]), KindsOf(chars[..c + 1]);
        NextCharacter(chars, c);
        if ch.kind == Newline || ch.kind == Unprintable {
          if from != i {
            SplicedAgain(k, pos, seen, from);
            InsertText(pos + from, i - from);
          }
          assert seen[..i] == seen;
          SplicedOn(k, pos, seen, Repeated(ch.kind, ch.length));
          InsertNode(ch.kind, pos + i, ch.length);
          from := i + ch.length;
          NothingPending(next);
        } else if i - from >= MAX_SIZE {
          SplicedAgain(k, pos, seen, from);
          InsertText(pos + from, i - from);
          from := i;
          PendingOn(seen, next, i, i, ch.length);
        } else {
          PendingOn(seen, next, from, i, ch.length);
        }
        i := i + ch.length;
      }
      assert chars[..|chars|] == chars;
      ghost var all := KindsOf(chars);
      if from != i {
        SplicedAgain(k, pos, all, from);
        InsertText(pos + from, i - from);
      }
      assert all[..i] == all;
    }

    /** `node_t::erase` */
    method EraseInNode(n: nat, from: nat, to: nat)
      requires n < |nodes| && from <= to <= nodes[n].length
      modifies this
      ensures nodes == old(nodes)[n := Node(old(nodes)[n].kind, old(nodes)[n].length - (to - from))]
      ensures Kinds(nodes) == Kinds(nodes[..n]) + Repeated(nodes[n].kind, nodes[n].length) + Kinds(nodes[n + 1..])
    {
      nodes := nodes[n := Node(nodes[n].kind, nodes[n].length - (to - from))];
      KindsAt(nodes, n);
    }

    /** `erase`; `bufferOffset` is where the line begins. */
    method Erase(first: nat, to: nat, bufferOffset: nat)
      requires bufferOffset <= first <= to <= bufferOffset + Total(nodes)
      modifies this
      ensures Total(nodes) == old(Total(nodes)) - (to - first)
      ensures to - bufferOffset <= |old(Kinds(nodes))|
      ensures Kinds(nodes) == old(Kinds(nodes))[..first - bufferOffset] + old(Kinds(nodes))[to - bufferOffset..]
    {
      hide Total, Kinds, Repeated;
      ghost var k := Kinds(nodes);
      TotalOfNone(nodes);
      var from, i := first, bufferOffset;
      var n := 0;
      while n < |nodes|
        invariant 0 <= n <= |nodes| == |old(nodes)| && nodes[n..] == old(nodes)[n..]
        invariant i == bufferOffset + Total(old(nodes)[..n])
        invariant first <= from <= to && i <= from && (first < from ==> from == i)
        invariant Kinds(nodes[..n]) == k[..(if first < i then first else i) - bufferOffset]
      {
        ghost var was := nodes;
        assert nodes[n] == nodes[n..][0] == old(nodes)[n];
        var len := nodes[n].length;
        EraseStep(old(nodes), n, bufferOffset, i, first, to, from);
        if i <= from && from < i + len {
          var last := if to - i < len then to - i else len;
          EraseInNode(n, from - i, last);
          NodesAround(was, old(nodes), n, nodes[n]);
          from := i + last;
          if to - i <= last {
            break;
          }
        }
        KindsTo(nodes, n);
        KindsTo(old(nodes), n);
        NodesAround(was, old(nodes), n, nodes[n]);
        assert nodes == was[n := nodes[n]];
        i := i + len;
        n := n + 1;
      }
      if n == |nodes| {
        assert nodes[..n] == nodes && old(nodes)[..n] == old(nodes);
        assert to == i;
      }
      DropEmpty();
    }

    /** The loop that removes what has no bytes left. */
    method DropEmpty()
      modifies this
      ensures Kinds(nodes) == old(Kinds(nodes))
    {
      hide Total, Kinds;
      var it := 0;
      while it < |nodes|
        invariant 0 <= it <= |nodes| && Kinds(nodes) == old(Kinds(nodes))
        decreases |nodes| - it
      {
        if nodes[it].length == 0 && nodes[it].kind != SoftBreak {
          WithoutNode(nodes, it);
          nodes := nodes[..it] + nodes[it + 1..];
        } else {
          it := it + 1;
        }
      }
    }
  }

  lemma NodesAround(was: seq<Node>, start: seq<Node>, n: nat, x: Node)
    requires n < |was| == |start| && was[n..] == start[n..]
    ensures was[n := x][..n] == was[..n] && was[n := x][n + 1..] == start[n + 1..]
  {
    assert was[n + 1..] == was[n..][1..] && start[n + 1..] == start[n..][1..];
  }

  lemma KindsTo(nodes: seq<Node>, n: nat)
    requires n < |nodes|
    ensures Kinds(nodes[..n + 1]) == Kinds(nodes[..n]) + Repeated(nodes[n].kind, nodes[n].length)
    ensures Total(nodes[..n + 1]) == Total(nodes[..n]) + nodes[n].length
  {
    assert nodes[..n + 1][..n] == nodes[..n];
  }

  lemma Cut<T>(before: seq<T>, own: seq<T>, behind: seq<T>, j: nat)
    requires j <= |own|
    ensures (before + own + behind)[..|before| + j] == before + own[..j]
    ensures (before + own + behind)[|before| + j..] == own[j..] + behind
  {
  }

  lemma CutBefore<T>(before: seq<T>, own: seq<T>, behind: seq<T>, j: nat)
    requires j <= |before|
    ensures (before + own + behind)[..j] == before[..j]
  {
  }

  lemma RepeatedCut(kind: Kind, n: nat, j: nat)
    requires j <= n
    ensures Repeated(kind, n)[..j] == Repeated(kind, j) && Repeated(kind, n)[j..] == Repeated(kind, n - j)
  {
  }

  /** Node `n`, which begins at `r`, when all from before it up to `b` is erased. */
  lemma ErasedBefore(nodes: seq<Node>, n: nat, r: nat, a: nat, b: nat)
    requires n < |nodes| && r == Total(nodes[..n]) && a <= r <= b <= |Kinds(nodes)|
    ensures var k, x := Kinds(nodes), nodes[n];
            r + x.length <= |k| && k[..a] + Repeated(x.kind, 0) == k[..a] &&
            (b <= r + x.length ==>
                k[..a] + Repeated(x.kind, x.length - (b - r)) + Kinds(nodes[n + 1..]) == k[..a] + k[b..])
  {
    hide Kinds, Total, Repeated;
    KindsAt(nodes, n);
    ErasedFromBefore(Kinds(nodes[..n]), nodes[n].kind, nodes[n].length, Kinds(nodes[n + 1..]), a, b);
  }

  /** Node `n`, which begins at `r`, when all from `i` up to `j` bytes behind its start is erased. */
  lemma ErasedInside(nodes: seq<Node>, n: nat, r: nat, i: nat, j: nat)
    requires n < |nodes| && r == Total(nodes[..n]) && i <= j && r + j <= |Kinds(nodes)| && i <= nodes[n].length
    ensures var k, x := Kinds(nodes), nodes[n];
            k[..r] + Repeated(x.kind, i) == k[..r + i] &&
            (j <= x.length ==>
                k[..r] + Repeated(x.kind, x.length - (j - i)) + Kinds(nodes[n + 1..]) == k[..r + i] + k[r + j..])
  {
    hide Kinds, Total, Repeated;
    KindsAt(nodes, n);
    var before, behind := Kinds(nodes[..n]), Kinds(nodes[n + 1..]);
    ErasedFromInside(Kinds(nodes), r, before, nodes[n].kind, nodes[n].length, behind, i, j);
  }

  /** Node `n`, which begins at `r`, when all that is erased lies behind it. */
  lemma ErasedBehind(nodes: seq<Node>, n: nat, r: nat)
    requires n < |nodes| && r == Total(nodes[..n])
    ensures var k, x := Kinds(nodes), nodes[n];
            r + x.length <= |k| && k[..r] + Repeated(x.kind, x.length) == k[..r + x.length]
  {
    hide Kinds, Total, Repeated;
    KindsAt(nodes, n);
    var before, behind := Kinds(nodes[..n]), Kinds(nodes[n + 1..]);
    Untouched(before, nodes[n].kind, nodes[n].length, behind);
    assert |before| == r;
  }

  /** What the loop of `erase` does to node `n`, which begins at `i`; erased so far is all from `first` up to `from`. */
  lemma EraseStep(nodes: seq<Node>, n: nat, bufferOffset: nat, i: nat, first: nat, to: nat, from: nat)
    requires n < |nodes| && i == bufferOffset + Total(nodes[..n]) &&
             bufferOffset <= first <= from <= to <= bufferOffset + Total(nodes)
    requires i <= from && (first < from ==> from == i)
    ensures var k, x := Kinds(nodes), nodes[n];
            var last := if to - i < x.length then to - i else x.length;
            var before := k[..(if first < i then first else i) - bufferOffset];
            i + x.length <= bufferOffset + |k| &&
            if i + x.length <= from
                then before + Repeated(x.kind, x.length) ==
                    k[..(if first < i + x.length then first else i + x.length) - bufferOffset]
            else
              var left := Repeated(x.kind, x.length - (last - (from - i)));
              if to - i <= last
                  then before + left + Kinds(nodes[n + 1..]) == k[..first - bufferOffset] + k[to - bufferOffset..]
              else before + left == k[..first - bufferOffset]
  {
    hide Total, Kinds, Repeated;
    var x, r, a, b := nodes[n], i - bufferOffset, first - bufferOffset, to - bufferOffset;
    TotalsGrow(nodes, n, |nodes|);
    if first <= i {
      ErasedBefore(nodes, n, r, a, b);
    } else if first < i + x.length {
      ErasedInside(nodes, n, r, first - i, to - i);
    } else {
      ErasedBehind(nodes, n, r);
    }
  }

  lemma Untouched(before: seq<Kind>, kind: Kind, len: nat, behind: seq<Kind>)
    ensures var k := before + Repeated(kind, len) + behind;
            k[..|before|] + Repeated(kind, len) == k[..|before| + len]
  {
    hide Repeated;
    CutBefore(before, Repeated(kind, len), behind, |before|);
    Cut(before, Repeated(kind, len), behind, len);
    assert Repeated(kind, len)[..len] == Repeated(kind, len);
  }

  lemma ErasedFromBefore(before: seq<Kind>, kind: Kind, len: nat, behind: seq<Kind>, a: nat, b: nat)
    requires a <= |before| <= b
    ensures var k := before + Repeated(kind, len) + behind;
            k[..a] + Repeated(kind, 0) == k[..a] &&
            (b <= |before| + len ==> k[..a] + Repeated(kind, len - (b - |before|)) + behind == k[..a] + k[b..])
  {
    hide Repeated;
    var k := before + Repeated(kind, len) + behind;
    NoneRepeated(k[..a], kind);
    if b <= |before| + len {
      Cut(before, Repeated(kind, len), behind, b - |before|);
      RepeatedCut(kind, len, b - |before|);
      Assoc(k[..a], Repeated(kind, len - (b - |before|)), behind);
    }
  }

  lemma ErasedFromInside(k: seq<Kind>, r: nat, before: seq<Kind>, kind: Kind, len: nat, behind: seq<Kind>,
      i: nat, j: nat)
    requires i <= j && i <= len && r == |before| && k == before + Repeated(kind, len) + behind
    ensures r + len <= |k|
    ensures k[..r] + Repeated(kind, i) == k[..r + i] &&
            (j <= len ==> k[..r] + Repeated(kind, len - (j - i)) + behind == k[..r + i] + k[r + j..])
  {
    hide Repeated;
    var own := Repeated(kind, len);
    CutBefore(before, own, behind, |before|);
    assert before[..|before|] == before;
    Cut(before, own, behind, i);
    RepeatedCut(kind, len, i);
    if j <= len {
      Cut(before, own, behind, j);
      RepeatedCut(kind, len, j);
      RepeatedSum(kind, i, len - j);
      Regroup(before, Repeated(kind, i), Repeated(kind, len - j), behind);
    }
  }

  lemma NoneRepeated(k: seq<Kind>, kind: Kind)
    ensures k + Repeated(kind, 0) == k
  {
  }

  lemma Regroup<T>(a: seq<T>, b: seq<T>, c: seq<T>, d: seq<T>)
    ensures a + (b + c) + d == a + b + (c + d)
  {
  }

  lemma WithoutNode(nodes: seq<Node>, n: nat)
    requires n < |nodes| && nodes[n].length == 0
    ensures Kinds(nodes[..n] + nodes[n + 1..]) == Kinds(nodes)
  {
    hide Kinds, Total;
    KindsAt(nodes, n);
    KindsOfSum(nodes[..n], nodes[n + 1..]);
    assert Kinds(nodes[..n]) + Repeated(nodes[n].kind, 0) == Kinds(nodes[..n]);
  }

  lemma NothingInserted(chars: seq<Character>, k: seq<Kind>, pos: nat)
    requires pos <= |k|
    ensures KindsOf(chars[..0]) == [] == Repeated(Text, 0) && Splice(k, pos, pos, []) == k
  {
  }

  lemma NextCharacter(chars: seq<Character>, c: nat)
    requires c < |chars|
    ensures KindsOf(chars[..c + 1]) == KindsOf(chars[..c]) + Repeated(chars[c].kind, chars[c].length)
  {
    assert chars[..c + 1][..c] == chars[..c];
  }

  lemma SplicedOn(k: seq<Kind>, pos: nat, a: seq<Kind>, b: seq<Kind>)
    requires pos <= |k|
    ensures |Splice(k, pos, pos, a)| == |k| + |a|
    ensures Splice(Splice(k, pos, pos, a), pos + |a|, pos + |a|, b) == Splice(k, pos, pos, a + b)
    ensures (a + b)[..|a| + |b|] == a + b
  {
  }

  /** What is pending, put behind what has been inserted. */
  lemma SplicedAgain(k: seq<Kind>, pos: nat, seen: seq<Kind>, from: nat)
    requires pos <= |k| && from <= |seen|
    ensures |Splice(k, pos, pos, seen[..from])| == |k| + from
    ensures Splice(Splice(k, pos, pos, seen[..from]), pos + from, pos + from, seen[from..]) == Splice(k, pos, pos, seen)
  {
    SplicedOn(k, pos, seen[..from], seen[from..]);
    assert seen[..from] + seen[from..] == seen;
  }

  lemma NothingPending(seen: seq<Kind>)
    ensures seen[|seen|..] == Repeated(Text, 0) && seen[..|seen|] == seen
  {
  }

  lemma PendingOn(seen: seq<Kind>, next: seq<Kind>, from: nat, i: nat, len: nat)
    requires from <= i == |seen| && next == seen + Repeated(Text, len) &&
             (seen[from..] == Repeated(Text, i - from) || from == i)
    ensures next[from..] == Repeated(Text, i + len - from) && next[..from] == seen[..from]
  {
  }

  lemma TotalOfNone(nodes: seq<Node>)
    ensures Total(nodes[..0]) == 0
  {
  }

  lemma SplicedLength<T>(s: seq<T>, i: nat, t: seq<T>)
    requires i <= |s|
    ensures |Splice(s, i, i, t)| == |s| + |t|
  {
  }
}
