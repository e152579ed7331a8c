/** `indexed_map_t`: a map from absolute position to value whose tree nodes only
    store the distance to the previous node, so that moving every key behind an
    edit is one addition.  The tree is modelled as its in-order node sequence. */
module IndexedMaps {

  datatype Node<V> = Node(len: int, value: V)

  /** A node with its absolute key. */
  datatype Entry<V> = Entry(key: int, value: V)

  /** The absolute key of node `i`: its length added to those of all earlier nodes. */
  function Key<V>(t: seq<Node<V>>, i: nat): int
    requires i < |t|
  {
    (if i == 0 then 0 else Key(t, i - 1)) + t[i].len
  }

  function Entries<V>(t: seq<Node<V>>): (e: seq<Entry<V>>)
    ensures |e| == |t|
  {
    seq(|t|, i requires 0 <= i < |t| => Entry(Key(t, i), t[i].value))
  }

  ghost predicate Ascending<V>(e: seq<Entry<V>>) {
    forall i, j | 0 <= i < j < |e| :: e[i].key < e[j].key
  }

  ghost predicate HasKey<V>(e: seq<Entry<V>>, k: int) {
    exists i | 0 <= i < |e| :: e[i].key == k
  }

  ghost function KeySet<V>(e: seq<Entry<V>>): set<int> {
    set i | 0 <= i < |e| :: e[i].key
  }

  ghost function ValueAt<V>(e: seq<Entry<V>>, k: int): V
    requires HasKey(e, k)
  {
    var i :| 0 <= i < |e| && e[i].key == k;
    e[i].value
  }

  /** The map a list of entries stands for. */
  ghost function Abs<V>(e: seq<Entry<V>>): map<int, V> {
    map k | k in KeySet(e) :: ValueAt(e, k)
  }

  lemma AbsOfEntries<V>(e: seq<Entry<V>>)
    requires Ascending(e)
    ensures forall i | 0 <= i < |e| :: e[i].key in Abs(e) && Abs(e)[e[i].key] == e[i].value
    ensures forall k | k in Abs(e) :: HasKey(e, k)
  {
    forall i | 0 <= i < |e| ensures e[i].key in Abs(e) && Abs(e)[e[i].key] == e[i].value {
      assert HasKey(e, e[i].key);
      var j :| 0 <= j < |e| && e[j].key == e[i].key && ValueAt(e, e[i].key) == e[j].value;
      assert i == j;
    }
  }

  /** Entries in ascending order stand for the one map with exactly their keys and values. */
  lemma AbsIs<V>(e: seq<Entry<V>>, m: map<int, V>)
    requires Ascending(e)
    requires forall i | 0 <= i < |e| :: e[i].key in m && m[e[i].key] == e[i].value
    requires forall k | k in m :: HasKey(e, k)
    ensures Abs(e) == m
  {
    AbsOfEntries(e);
    forall k | k in m ensures k in Abs(e) && Abs(e)[k] == m[k] {
      assert HasKey(e, k);
    }
    forall k | k in Abs(e) ensures k in m {
      assert HasKey(e, k);
    }
  }

  // ---- the three changes the operations make to the tree ------------------------

  function Bump<V>(t: seq<Node<V>>, k: nat, d: int): seq<Node<V>>
    requires k < |t|
  {
    t[k := Node(t[k].len + d, t[k].value)]
  }

  function ShiftedFrom<V>(e: seq<Entry<V>>, k: nat, d: int): seq<Entry<V>>
    requires k <= |e|
  {
    seq(|e|, i requires 0 <= i < |e| => if i < k then e[i] else Entry(e[i].key + d, e[i].value))
  }

  lemma {:induction false} BumpKey<V>(t: seq<Node<V>>, k: nat, d: int, i: nat)
    requires k < |t| && i < |t|
    ensures Key(Bump(t, k, d), i) == Key(t, i) + (if k <= i then d else 0)
  {
    if i > 0 {
      BumpKey(t, k, d, i - 1);
    }
  }

  /** Lengthening one node moves it and every later one. */
  lemma BumpEntries<V>(t: seq<Node<V>>, k: nat, d: int)
    requires k < |t|
    ensures Entries(Bump(t, k, d)) == ShiftedFrom(Entries(t), k, d)
  {
    forall i | 0 <= i < |t| ensures Entries(Bump(t, k, d))[i] == ShiftedFrom(Entries(t), k, d)[i] {
      BumpKey(t, k, d, i);
    }
  }

  function Without<V>(t: seq<Node<V>>, k: nat): seq<Node<V>>
    requires k < |t|
  {
    var u := if k + 1 < |t| then Bump(t, k + 1, t[k].len) else t;
    u[..k] + u[k + 1..]
  }

  lemma {:induction false} WithoutKey<V>(t: seq<Node<V>>, k: nat, i: nat)
    requires k < |t| && i < |t| - 1
    ensures Key(Without(t, k), i) == Key(t, if i < k then i else i + 1)
  {
    if i > 0 {
      WithoutKey(t, k, i - 1);
    }
    if i == k && k > 0 {
      assert Key(t, k + 1) == Key(t, k - 1) + t[k].len + t[k + 1].len;
    }
  }

  /** Taking a node out, and giving its length to the next one, moves no other key. */
  lemma WithoutEntries<V>(t: seq<Node<V>>, k: nat)
    requires k < |t|
    ensures Entries(Without(t, k)) == Entries(t)[..k] + Entries(t)[k + 1..]
  {
    var e := Entries(t)[..k] + Entries(t)[k + 1..];
    forall i | 0 <= i < |t| - 1 ensures Entries(Without(t, k))[i] == e[i] {
      WithoutKey(t, k, i);
    }
  }

  function With<V>(t: seq<Node<V>>, k: nat, rel: int, value: V): seq<Node<V>>
    requires k <= |t|
  {
    var u := if k < |t| then Bump(t, k, -rel) else t;
    u[..k] + [Node(rel, value)] + u[k..]
  }

  lemma {:induction false} WithKey<V>(t: seq<Node<V>>, k: nat, rel: int, value: V, i: nat)
    requires k <= |t| && i <= |t|
    ensures Key(With(t, k, rel, value), i) ==
            if i < k then Key(t, i) else if i == k then (if k == 0 then 0 else Key(t, k - 1)) + rel else Key(t, i - 1)
  {
    if i > 0 {
      WithKey(t, k, rel, value, i - 1);
    }
  }

  /** Putting a node in, and taking its length off the next one, moves no other key. */
  lemma WithEntries<V>(t: seq<Node<V>>, k: nat, pos: int, value: V)
    requires k <= |t|
    ensures var rel := pos - (if k == 0 then 0 else Key(t, k - 1));
            Entries(With(t, k, rel, value)) == Entries(t)[..k] + [Entry(pos, value)] + Entries(t)[k..]
  {
    var rel := pos - (if k == 0 then 0 else Key(t, k - 1));
    var e := Entries(t)[..k] + [Entry(pos, value)] + Entries(t)[k..];
    forall i | 0 <= i <= |t| ensures Entries(With(t, k, rel, value))[i] == e[i] {
      WithKey(t, k, rel, value, i);
    }
  }

  lemma {:induction false} SameLengthsSameKeys<V>(t: seq<Node<V>>, u: seq<Node<V>>, i: nat)
    requires |t| == |u| && i < |t|
    requires forall j | 0 <= j < |t| :: t[j].len == u[j].len
    ensures Key(t, i) == Key(u, i)
  {
    if i > 0 {
      SameLengthsSameKeys(t, u, i - 1);
    }
  }

  // ---- finding nodes -----------------------------------------------------------

  /** The first entry whose key is at least `pos`; `|e|` is the end iterator. */
  function LowerBound<V>(e: seq<Entry<V>>, pos: int, i: nat := 0): (r: nat)
    requires Ascending(e) && i <= |e|
    requires forall j | 0 <= j < i :: e[j].key < pos
    ensures r <= |e|
    ensures forall j | 0 <= j < r :: e[j].key < pos
    ensures forall j | r <= j < |e| :: pos <= e[j].key
    decreases |e| - i
  {
    if i == |e| || pos <= e[i].key then i else LowerBound(e, pos, i + 1)
  }

  /** The first entry whose key is greater than `pos`. */
  function UpperBound<V>(e: seq<Entry<V>>, pos: int, i: nat := 0): (r: nat)
    requires Ascending(e) && i <= |e|
    requires forall j | 0 <= j < i :: e[j].key <= pos
    ensures r <= |e|
    ensures forall j | 0 <= j < r :: e[j].key <= pos
    ensures forall j | r <= j < |e| :: pos < e[j].key
    decreases |e| - i
  {
    if i == |e| || pos < e[i].key then i else UpperBound(e, pos, i + 1)
  }

  /** The entry whose key is `pos`, or the end. */
  function Find<V>(e: seq<Entry<V>>, pos: int): (r: nat)
    requires Ascending(e)
    ensures r <= |e|
    ensures r < |e| ==> e[r].key == pos
    ensures r == |e| ==> forall j | 0 <= j < |e| :: e[j].key != pos
  {
    var r := LowerBound(e, pos);
    if r < |e| && e[r].key == pos then r else |e|
  }

  /** The lower bound when `replace` binds right, the upper bound otherwise. */
  function Bound<V>(e: seq<Entry<V>>, pos: int, bindRight: bool): (r: nat)
    requires Ascending(e)
    ensures r <= |e|
    ensures forall j | 0 <= j < |e| :: j < r <==> Before(e[j].key, pos, bindRight)
  {
    if bindRight then LowerBound(e, pos) else UpperBound(e, pos)
  }

  // ---- what `replace` does to the map ---------------------------------------------

  /** Keys an edit leaves where they are: a key at the very start of the edit belongs
      to the text on its left, unless it binds right. */
  predicate Before(k: int, pos: int, bindRight: bool) {
    if bindRight then k < pos else k <= pos
  }

  /** Where a key that is present after the edit was before it. */
  function Source(k: int, from: int, to: int, len: nat, bindRight: bool): int {
    if Before(k, from, bindRight) then k else k - len + (to - from)
  }

  /** No key survives inside the new text. */
  predicate InGap(k: int, from: int, len: nat, bindRight: bool) {
    !Before(k, from, bindRight) && Before(k, from + len, bindRight)
  }

  ghost function Replaced<V>(m: map<int, V>, from: int, to: int, len: nat, bindRight: bool): map<int, V> {
    map k | k in m.Keys + (set j | j in m.Keys :: j + len - (to - from)) &&
            !InGap(k, from, len, bindRight) && Source(k, from, to, len, bindRight) in m
          :: m[Source(k, from, to, len, bindRight)]
  }

  /** The edited map, key by key. */
  lemma ReplacedAt<V>(m: map<int, V>, from: int, to: int, len: nat, bindRight: bool, k: int)
    ensures k in Replaced(m, from, to, len, bindRight) <==>
            !InGap(k, from, len, bindRight) && Source(k, from, to, len, bindRight) in m
    ensures k in Replaced(m, from, to, len, bindRight) ==>
            Replaced(m, from, to, len, bindRight)[k] == m[Source(k, from, to, len, bindRight)]
    ensures var d := len - (to - from);
            k in Replaced(m, from, to, len, true) <==> (k < from && k in m) || (from + len <= k && k - d in m)
    ensures var d := len - (to - from);
            k in Replaced(m, from, to, len, false) <==> (k <= from && k in m) || (from + len < k && k - d in m)
    ensures var d, r := len - (to - from), Replaced(m, from, to, len, bindRight);
            k in r ==> r[k] == m[if k < from || (k == from && !bindRight) then k else k - d]
  {
    var j := k - len + (to - from);
    if j in m {
      assert k == j + len - (to - from);
    }
  }

  // ---- the changes seen as changes of the map ---------------------------------------

  lemma OverwriteAbs<V>(e: seq<Entry<V>>, k: nat, value: V)
    requires Ascending(e) && k < |e|
    ensures Ascending(e[k := Entry(e[k].key, value)])
    ensures Abs(e[k := Entry(e[k].key, value)]) == Abs(e)[e[k].key := value]
  {
    var f := e[k := Entry(e[k].key, value)];
    AbsOfEntries(e);
    forall p | p in Abs(e)[e[k].key := value] ensures HasKey(f, p) {
      assert HasKey(e, p);
      var i :| 0 <= i < |e| && e[i].key == p;
      assert f[i].key == p;
    }
    AbsIs(f, Abs(e)[e[k].key := value]);
  }

  ghost predicate Inserted<V>(e: seq<Entry<V>>, k: nat, x: Entry<V>, f: seq<Entry<V>>) {
    k <= |e| && |f| == |e| + 1 && f[k] == x &&
    (forall i | 0 <= i < k :: f[i] == e[i]) &&
    (forall i | k < i < |f| :: f[i] == e[i - 1])
  }

  lemma InsertedKey<V>(e: seq<Entry<V>>, k: nat, x: Entry<V>, f: seq<Entry<V>>, p: int)
    requires Inserted(e, k, x, f) && (p == x.key || HasKey(e, p))
    ensures HasKey(f, p)
  {
    if p == x.key {
      assert f[k].key == p;
    } else {
      var i :| 0 <= i < |e| && e[i].key == p;
      assert f[if i < k then i else i + 1].key == p;
    }
  }

  lemma InsertedAbs<V>(e: seq<Entry<V>>, k: nat, x: Entry<V>, f: seq<Entry<V>>)
    requires Ascending(e) && Ascending(f) && Inserted(e, k, x, f)
    ensures Abs(f) == Abs(e)[x.key := x.value]
  {
    var m := Abs(e)[x.key := x.value];
    forall p | p in m ensures HasKey(f, p) {
      InsertedKey(e, k, x, f, p);
    }
    forall i | 0 <= i < |f| ensures f[i].key in m && m[f[i].key] == f[i].value {
      if i != k {
        AbsOfEntries(e);
        assert f[i] == e[if i < k then i else i - 1];
      }
    }
    AbsIs(f, m);
  }

  lemma WithAbs<V>(e: seq<Entry<V>>, k: nat, x: Entry<V>)
    requires Ascending(e) && k <= |e|
    requires k > 0 ==> e[k - 1].key < x.key
    requires k < |e| ==> x.key < e[k].key
    ensures Ascending(e[..k] + [x] + e[k..])
    ensures Abs(e[..k] + [x] + e[k..]) == Abs(e)[x.key := x.value]
  {
    var f := e[..k] + [x] + e[k..];
    assert Inserted(e, k, x, f);
    InsertedAbs(e, k, x, f);
  }

  /** `f` is what is left of `e` after the entries [a, b) are cut out and those behind
      them are moved by `d`. */
  ghost predicate Moved<V>(e: seq<Entry<V>>, a: nat, b: nat, d: int, f: seq<Entry<V>>) {
    a <= b <= |e| && |f| == |e| - (b - a) &&
    (forall i | 0 <= i < a :: f[i] == e[i]) &&
    (forall i | a <= i < |f| :: f[i] == Entry(e[i + (b - a)].key + d, e[i + (b - a)].value))
  }

  lemma MovedKey<V>(e: seq<Entry<V>>, a: nat, b: nat, d: int, f: seq<Entry<V>>, i: nat)
    requires Moved(e, a, b, d, f) && i < |e| && !(a <= i < b)
    ensures HasKey(f, if i < a then e[i].key else e[i].key + d)
  {
    var j := if i < a then i else i - (b - a);
    assert f[j].key == if i < a then e[i].key else e[i].key + d;
  }

  lemma MovedAscends<V>(e: seq<Entry<V>>, a: nat, b: nat, d: int, f: seq<Entry<V>>)
    requires Ascending(e) && Moved(e, a, b, d, f)
    requires 0 < a && b < |e| ==> e[a - 1].key < e[b].key + d
    ensures Ascending(f)
  {
    forall i, j | 0 <= i < j < |f| ensures f[i].key < f[j].key {
      if i < a <= j {
        assert e[i].key <= e[a - 1].key;
        assert e[b].key <= e[j + (b - a)].key;
      }
    }
  }

  /** Cutting out a run of entries removes exactly their keys from the map. */
  lemma CutAbs<V>(e: seq<Entry<V>>, a: nat, b: nat)
    requires Ascending(e) && a <= b <= |e|
    ensures Ascending(e[..a] + e[b..])
    ensures Abs(e[..a] + e[b..]) == Abs(e) - KeySet(e[a..b])
  {
    var f := e[..a] + e[b..];
    assert Moved(e, a, b, 0, f);
    MovedAscends(e, a, b, 0, f);
    CutMovedAbs(e, a, b, f);
  }

  lemma RunKeys<V>(e: seq<Entry<V>>, a: nat, b: nat, i: nat)
    requires a <= b <= |e|
    ensures a <= i < b ==> e[i].key in KeySet(e[a..b])
  {
    if a <= i < b {
      assert e[a..b][i - a] == e[i];
    }
  }

  lemma CutMovedAbs<V>(e: seq<Entry<V>>, a: nat, b: nat, f: seq<Entry<V>>)
    requires Ascending(e) && Ascending(f) && Moved(e, a, b, 0, f)
    ensures Abs(f) == Abs(e) - KeySet(e[a..b])
  {
    var m := Abs(e) - KeySet(e[a..b]);
    forall p | p in m ensures HasKey(f, p) {
      var i :| 0 <= i < |e| && e[i].key == p;
      RunKeys(e, a, b, i);
      MovedKey(e, a, b, 0, f, i);
    }
    forall i | 0 <= i < |f| ensures f[i].key in m && m[f[i].key] == f[i].value {
      AbsOfEntries(e);
      var j := if i < a then i else i + (b - a);
      assert f[i] == e[j];
    }
    AbsIs(f, m);
  }

  lemma CutOneAbs<V>(e: seq<Entry<V>>, k: nat)
    requires Ascending(e) && k < |e|
    ensures Ascending(e[..k] + e[k + 1..])
    ensures Abs(e[..k] + e[k + 1..]) == Abs(e) - {e[k].key}
  {
    CutAbs(e, k, k + 1);
    assert e[k..k + 1] == [e[k]];
    assert KeySet([e[k]]) == {e[k].key} by {
      assert [e[k]][0] == e[k];
    }
  }

  lemma EmptyAbs<V>(e: seq<Entry<V>>)
    ensures e == [] <==> Abs(e) == map[]
  {
    if e != [] {
      assert e[0].key in Abs(e);
    }
  }

  lemma SameLast<V>(e: seq<Entry<V>>, f: seq<Entry<V>>)
    requires Ascending(e) && Ascending(f) && Abs(e) == Abs(f) && e != [] && f != []
    ensures e[|e| - 1] == f[|f| - 1]
  {
    AbsOfEntries(e);
    AbsOfEntries(f);
    assert HasKey(f, e[|e| - 1].key) && HasKey(e, f[|f| - 1].key);
  }

  /** A map has only one list of entries in ascending order. */
  lemma {:induction false} AbsUnique<V>(e: seq<Entry<V>>, f: seq<Entry<V>>)
    requires Ascending(e) && Ascending(f) && Abs(e) == Abs(f)
    ensures e == f
  {
    hide Abs;
    EmptyAbs(e);
    EmptyAbs(f);
    if e != [] && f != [] {
      var m, n := |e| - 1, |f| - 1;
      SameLast(e, f);
      CutOneAbs(e, m);
      CutOneAbs(f, n);
      assert e[..m] + e[m + 1..] == e[..m] && f[..n] + f[n + 1..] == f[..n];
      AbsUnique(e[..m], f[..n]);
      assert e == e[..m] + [e[m]] && f == f[..n] + [f[n]];
    }
  }

  lemma CutOut<V>(e: seq<Entry<V>>, f: seq<Entry<V>>, a: nat, b: nat)
    requires Ascending(e) && Ascending(f) && a <= b <= |e|
    requires Abs(f) == Abs(e) - KeySet(e[a..b])
    ensures f == e[..a] + e[b..]
  {
    CutAbs(e, a, b);
    AbsUnique(f, e[..a] + e[b..]);
  }

  /** Nodes `a` and `b` are the first behind the start and behind the end of the edit. */
  ghost predicate Bounds<V>(e: seq<Entry<V>>, from: int, to: int, bindRight: bool, a: nat, b: nat) {
    a <= b <= |e| &&
    (forall j | 0 <= j < |e| :: j < a <==> Before(e[j].key, from, bindRight)) &&
    (forall j | 0 <= j < |e| :: j < b <==> Before(e[j].key, to, bindRight))
  }

  /** Moving the entries behind the edit and cutting out those inside it is exactly `Replaced`. */
  lemma ReplaceAbs<V>(e: seq<Entry<V>>, f: seq<Entry<V>>, from: int, to: int, len: nat, bindRight: bool, a: nat, b: nat)
    requires Ascending(e) && from <= to && Bounds(e, from, to, bindRight, a, b)
    requires Moved(e, a, b, len - (to - from), f)
    ensures Ascending(f) && Abs(f) == Replaced(Abs(e), from, to, len, bindRight)
  {
    MovedAscends(e, a, b, len - (to - from), f);
    var m := Replaced(Abs(e), from, to, len, bindRight);
    forall k | k in m ensures HasKey(f, k) {
      KeptKey(e, f, from, to, len, bindRight, a, b, k);
    }
    forall i | 0 <= i < |f| ensures f[i].key in m && m[f[i].key] == f[i].value {
      ReplacedEntry(e, f, from, to, len, bindRight, a, b, i);
    }
    AbsIs(f, m);
  }

  lemma KeptKey<V>(e: seq<Entry<V>>, f: seq<Entry<V>>, from: int, to: int, len: nat, bindRight: bool, a: nat,
      b: nat, k: int)
    requires Ascending(e) && from <= to && Bounds(e, from, to, bindRight, a, b)
    requires Moved(e, a, b, len - (to - from), f) && k in Replaced(Abs(e), from, to, len, bindRight)
    ensures HasKey(f, k)
  {
    ReplacedAt(Abs(e), from, to, len, bindRight, k);
    var i :| 0 <= i < |e| && e[i].key == Source(k, from, to, len, bindRight);
    MovedKey(e, a, b, len - (to - from), f, i);
  }

  lemma ShiftKeepsBounds<V>(e: seq<Entry<V>>, from: int, to: int, len: nat, bindRight: bool, a: nat, b: nat)
    requires Ascending(e) && from <= to
    requires a == Bound(e, from, bindRight) && b == Bound(e, to, bindRight)
    ensures Bounds(e, from, to, bindRight, a, b)
    ensures Ascending(ShiftedFrom(e, b, len)) && a <= b <= |e|
    ensures a == Bound(ShiftedFrom(e, b, len), from, bindRight) && b == Bound(ShiftedFrom(e, b, len), to, bindRight)
  {
    var f := ShiftedFrom(e, b, len);
    assert b < |e| ==> !Before(e[b].key, from, bindRight);
    BoundIs(f, from, bindRight, a);
    BoundIs(f, to, bindRight, b);
  }

  lemma BoundIs<V>(e: seq<Entry<V>>, pos: int, bindRight: bool, a: nat)
    requires Ascending(e) && a <= |e|
    requires forall j | 0 <= j < |e| :: j < a <==> Before(e[j].key, pos, bindRight)
    ensures a == Bound(e, pos, bindRight)
  {
    var r := Bound(e, pos, bindRight);
    assert r < |e| ==> !Before(e[r].key, pos, bindRight);
    assert a < |e| ==> !Before(e[a].key, pos, bindRight);
  }

  lemma ReplacedEntry<V>(e: seq<Entry<V>>, f: seq<Entry<V>>, from: int, to: int, len: nat, bindRight: bool, a: nat,
      b: nat, i: nat)
    requires Ascending(e) && from <= to && i < |f| && Bounds(e, from, to, bindRight, a, b)
    requires Moved(e, a, b, len - (to - from), f)
    ensures f[i].key in Replaced(Abs(e), from, to, len, bindRight)
    ensures Replaced(Abs(e), from, to, len, bindRight)[f[i].key] == f[i].value
  {
    var j := if i < a then i else i + (b - a);
    assert e[j].value == f[i].value && e[j].key == Source(f[i].key, from, to, len, bindRight);
    assert !InGap(f[i].key, from, len, bindRight);
    ReplacedAt(Abs(e), from, to, len, bindRight, f[i].key);
    AbsOfEntries(e);
  }

  /** `indexed_map_t` */
  class IndexedMap<V> {
    var tree: seq<Node<V>>

    ghost predicate Valid()
      reads this
    {
      Ascending(Entries(tree))
    }

    /** The map from absolute position to value that the nodes stand for. */
    ghost function Contents(): map<int, V>
      reads this
    {
      Abs(Entries(tree))
    }

    constructor ()
      ensures Valid() && Contents() == map[]
    {
      tree := [];
    }

    method Clear()
      modifies this
      ensures Valid() && Contents() == map[]
    {
      tree := [];
    }

    method Set(pos: int, value: V)
      requires Valid()
      modifies this
      ensures Valid() && Contents() == old(Contents())[pos := value]
    {
      ghost var t := tree;
      var alreadyThere := Find(Entries(tree), pos);
      if alreadyThere < |tree| {
        tree := tree[alreadyThere := tree[alreadyThere].(value := value)];
        OverwriteAbs(Entries(t), alreadyThere, value);
        forall i | 0 <= i < |t| ensures Key(tree, i) == Key(t, i) {
          SameLengthsSameKeys(t, tree, i);
        }
        assert Entries(tree) == Entries(t)[alreadyThere := Entry(pos, value)];
        return;
      }

      var it := UpperBound(Entries(tree), pos);
      WithEntries(t, it, pos, value);
      var rel := pos;
      if it > 0 {
        rel := rel - Key(tree, it - 1);
      }
      if it < |tree| {
        tree := Bump(tree, it, -rel);
      }
      tree := tree[..it] + [Node(rel, value)] + tree[it..];
      assert tree == With(t, it, rel, value);
      WithAbs(Entries(t), it, Entry(pos, value));
    }

    method Remove(pos: int)
      requires Valid()
      modifies this
      ensures Valid() && Contents() == old(Contents()) - {pos}
    {
      ghost var t := tree;
      var it := Find(Entries(tree), pos);
      if it == |tree| {
        return;
      }
      WithoutEntries(t, it);
      CutOneAbs(Entries(t), it);
      if it + 1 < |tree| {
        tree := Bump(tree, it + 1, tree[it].len);
      }
      tree := tree[..it] + tree[it + 1..];
      assert tree == Without(t, it);
    }

    /** Removes the nodes from iterator `first` up to, not including, iterator `last`. */
    method RemoveRange(first: nat, last: nat)
      requires Valid() && first <= last <= |tree|
      modifies this
      ensures Valid() && Contents() == old(Contents()) - KeySet(old(Entries(tree))[first..last])
    {
      ghost var run := Entries(tree)[first..last];
      var toRemove: seq<int> := [];
      var info := first;
      while info < last
        invariant first <= info <= last
        invariant |toRemove| == info - first
        invariant forall i | 0 <= i < |toRemove| :: toRemove[i] == run[i].key
      {
        assert run[info - first] == Entries(tree)[info];
        toRemove := toRemove + [Key(tree, info)];
        info := info + 1;
      }
      RemoveKeys(toRemove);
      assert KeySet(run) == set i | 0 <= i < |toRemove| :: toRemove[i];
    }

    /** The second half of `RemoveRange`: last key first. */
    method RemoveKeys(toRemove: seq<int>)
      requires Valid()
      modifies this
      ensures Valid() && Contents() == old(Contents()) - set i | 0 <= i < |toRemove| :: toRemove[i]
    {
      hide Abs, Entries;
      var n := |toRemove|;
      ghost var m, gone: set<int> := Contents(), {};
      while n > 0
        invariant 0 <= n <= |toRemove|
        invariant Valid() && Contents() == m - gone
        invariant gone == set i | n <= i < |toRemove| :: toRemove[i]
      {
        n := n - 1;
        Remove(toRemove[n]);
        gone := gone + {toRemove[n]};
      }
    }

    /** Moves the keys for an edit that replaces [from, to) by `newLength` units. */
    method Replace(from: int, to: int, newLength: nat, bindRight: bool := true)
      requires Valid() && from <= to
      modifies this
      ensures Valid() && Contents() == Replaced(old(Contents()), from, to, newLength, bindRight)
    {
      hide Abs, Entries, Replaced, ShiftedFrom, Moved, Bounds, KeySet;
      ghost var e := Entries(tree);
      ghost var a, b := Bound(e, from, bindRight), Bound(e, to, bindRight);
      ShiftKeepsBounds(e, from, to, newLength, bindRight, a, b);
      Lengthen(to, newLength, bindRight);
      var first, last := Bound(Entries(tree), from, bindRight), Bound(Entries(tree), to, bindRight);
      RemoveRange(first, last);
      ghost var f := Entries(tree);
      CutOut(ShiftedFrom(e, b, newLength), f, a, b);
      CutKeepsBound(e, f, from, to, newLength, bindRight, a, b);
      Lengthen(to, -(to - from), bindRight);
      assert Entries(tree) == ShiftedFrom(f, a, -(to - from));
      ReplaceAbs(e, Entries(tree), from, to, newLength, bindRight, a, b);
    }

    /** Adds `d` to the length of the first node behind `to`, if there is one. */
    method Lengthen(to: int, d: int, bindRight: bool)
      requires Valid()
      modifies this
      ensures Entries(tree) == ShiftedFrom(old(Entries(tree)), Bound(old(Entries(tree)), to, bindRight), d)
    {
      var it := Bound(Entries(tree), to, bindRight);
      if it < |tree| {
        BumpEntries(tree, it, d);
        tree := Bump(tree, it, d);
      }
    }
  }

  lemma CutKeepsBound<V>(e: seq<Entry<V>>, f: seq<Entry<V>>, from: int, to: int, len: nat, bindRight: bool,
      a: nat, b: nat)
    requires Ascending(e) && from <= to && Bounds(e, from, to, bindRight, a, b)
    requires f == ShiftedFrom(e, b, len)[..a] + ShiftedFrom(e, b, len)[b..]
    ensures Ascending(f) && a <= |f| && a == Bound(f, to, bindRight)
    ensures Moved(e, a, b, len - (to - from), ShiftedFrom(f, a, -(to - from)))
  {
    assert Moved(e, a, b, len, f);
    MovedAscends(e, a, b, len, f);
    BoundIs(f, to, bindRight, a);
  }
}
