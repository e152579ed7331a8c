/** Property lists, and how what is at a key path in one is erased or set. */
module Plists {

  import opened Wrappers
  import opened KeyPaths

  /** `plist::any_t` */
  datatype Plist =
    | Bool(b: bool)
    | Int32(i: int)
    | Uint64(u: nat)
    | Str(s: string)
    | Data(bytes: seq<int>)
    | Date(seconds: int)
    | Array(items: seq<Plist>)
    | Dict(d: map<string, Plist>)

  type Dictionary = map<string, Plist>

  // ---- erasing and setting ------------------------------------------------------------------

  function EraseFirst(a: seq<Plist>, key: string): seq<Plist> {
    if a == [] then [] else if a[0] == Str(key) then a[1..] else [a[0]] + EraseFirst(a[1..], key)
  }

  /** `erase_key_path`, for a path that has been parsed. */
  function Erased(p: Dictionary, v: Path): Dictionary
    requires v != []
    decreases v
  {
    if v[0] !in p then p
    else if |v| == 1 then p - {v[0]}
    else match p[v[0]]
      case Dict(q) => p[v[0] := Dict(Erased(q, v[1..]))]
      case Array(a) => p[v[0] := Array(EraseFirst(a, v[1]))]
      case _ => p
  }

  /** A value inside as many new dictionaries as there are keys. */
  function Nested(v: Path, value: Plist): Plist {
    if v == [] then value else Dict(map[v[0] := Nested(v[1..], value)])
  }

  /** `update_key_path`, for a path that has been parsed. */
  function Updated(p: Dictionary, v: Path, value: Plist): Dictionary
    requires v != []
    decreases v
  {
    if v[0] !in p then p[v[0] := Nested(v[1..], value)]
    else if |v| == 1 then p[v[0] := value]
    else match p[v[0]]
      case Dict(q) => p[v[0] := Dict(Updated(q, v[1..], value))]
      case Array(a) => p[v[0] := Array(a + [Str(v[1])])]
      case _ => p
  }

  // ---- what a change at a path does to what is read ---------------------------------------------

  /** What is read at a path, through dictionaries alone. */
  function At(p: Dictionary, v: Path): Option<Plist>
    requires v != []
    decreases v
  {
    if v[0] !in p then None
    else if |v| == 1 then Some(p[v[0]])
    else if p[v[0]].Dict? then At(p[v[0]].d, v[1..])
    else None
  }

  /** Neither path leads through the other. */
  predicate Beside(v: Path, w: Path) {
    !(v <= w) && !(w <= v)
  }

  ghost predicate SameBeside(p: Dictionary, r: Dictionary, v: Path) {
    forall w: Path | w != [] && Beside(v, w) :: At(r, w) == At(p, w)
  }

  /** `b` is `a` without its first `x`, if it has one. */
  ghost predicate OneLess(a: seq<Plist>, b: seq<Plist>, x: Plist) {
    if x in a then exists u, w :: Around(a, x, u, w) && b == u + w else b == a
  }

  ghost predicate Around(a: seq<Plist>, x: Plist, u: seq<Plist>, w: seq<Plist>) {
    a == u + [x] + w && x !in u
  }

  /** What is at the first `n` keys of a path after erasing it: an array there loses the next key, a dictionary
      stays one, all else stays as it is. */
  ghost predicate PrefixErased(p: Dictionary, r: Dictionary, v: Path, n: nat)
    requires 0 < n < |v|
  {
    var before, after := At(p, v[..n]), At(r, v[..n]);
    if before.Some? && before.value.Array? then
      after.Some? && after.value.Array? && OneLess(before.value.items, after.value.items, Str(v[n]))
    else if before.Some? && before.value.Dict? then after.Some? && after.value.Dict?
    else after == before
  }

  /** `r` is `p` with `v` erased: nothing is there then, an array on the way loses a string, and nothing else
      changes. */
  ghost predicate ErasesAt(p: Dictionary, v: Path, r: Dictionary) {
    v != [] && At(r, v).None? && SameBeside(p, r, v) &&
    forall n {:trigger v[..n]} | 0 < n < |v| :: PrefixErased(p, r, v, n)
  }

  /** Something that is no dictionary is in the way. */
  ghost predicate Blocked(p: Dictionary, v: Path) {
    exists n {:trigger v[..n]} :: 0 < n < |v| && At(p, v[..n]).Some? && !At(p, v[..n]).value.Dict?
  }

  /** What is at the first `n` keys of a path after setting it: an array there gets the next key, a dictionary is
      there if nothing is in the way, all else stays as it is. */
  ghost predicate PrefixUpdated(p: Dictionary, r: Dictionary, v: Path, n: nat)
    requires 0 < n < |v|
  {
    var before, after := At(p, v[..n]), At(r, v[..n]);
    if before.Some? && before.value.Array? then after == Some(Array(before.value.items + [Str(v[n])]))
    else if Blocked(p, v) && (before.None? || !before.value.Dict?) then after == before
    else after.Some? && after.value.Dict?
  }

  /** `r` is `p` with `value` at `v`: unless something is in the way it is there then, dictionaries are on the way to
      it, and nothing else changes. */
  ghost predicate UpdatesAt(p: Dictionary, v: Path, value: Plist, r: Dictionary) {
    v != [] && At(r, v) == (if Blocked(p, v) then None else Some(value)) && SameBeside(p, r, v) &&
    forall n {:trigger v[..n]} | 0 < n < |v| :: PrefixUpdated(p, r, v, n)
  }

  lemma {:induction false} EraseFirstOne(a: seq<Plist>, key: string)
    ensures OneLess(a, EraseFirst(a, key), Str(key))
  {
    if a != [] {
      hide OneLess;
      EraseFirstOne(a[1..], key);
      OneLessBehind(a, EraseFirst(a[1..], key), Str(key));
    } else {
      assert EraseFirst(a, key) == a;
    }
  }

  lemma OneLessBehind(a: seq<Plist>, rest: seq<Plist>, x: Plist)
    requires a != [] && OneLess(a[1..], rest, x)
    ensures OneLess(a, if a[0] == x then a[1..] else [a[0]] + rest, x)
  {
    hide Around;
    var c, t := a[0], a[1..];
    assert a == [c] + t;
    if c == x {
      FirstOfAll(x, t);
    } else if x in t {
      var u, w :| Around(t, x, u, w) && rest == u + w;
      AroundBehind(c, t, x, u, w);
    }
  }

  lemma FirstOfAll(x: Plist, t: seq<Plist>)
    ensures Around([x] + t, x, [], t) && [] + t == t
  {
  }

  lemma AroundBehind(c: Plist, t: seq<Plist>, x: Plist, u: seq<Plist>, w: seq<Plist>)
    requires Around(t, x, u, w) && c != x
    ensures Around([c] + t, x, [c] + u, w) && [c] + (u + w) == [c] + u + w
  {
    assert [c] + (u + [x] + w) == [c] + u + [x] + w;
  }

  /** One key further down. */
  lemma OneDown(p: Dictionary, v: Path, n: nat)
    requires 1 < n <= |v|
    ensures v[..n][0] == v[0] && v[..n][1..] == v[1..][..n - 1] && (n < |v| ==> v[n] == v[1..][n - 1])
    ensures At(p, v[..n]) == if v[0] in p && p[v[0]].Dict? then At(p[v[0]].d, v[1..][..n - 1]) else None
  {
    assert v[..n][1..] == v[1..][..n - 1];
  }

  lemma BesideDown(v: Path, w: Path)
    requires w != [] && v != [] && Beside(v, w) && v[0] == w[0]
    ensures |v| > 1 && |w| > 1 && Beside(v[1..], w[1..])
  {
    assert v == [v[0]] + v[1..] && w == [w[0]] + w[1..];
  }

  lemma {:induction false} ErasedBeside(p: Dictionary, v: Path, w: Path)
    requires v != [] && w != [] && Beside(v, w)
    ensures At(Erased(p, v), w) == At(p, w)
    decreases v
  {
    if v[0] == w[0] {
      BesideDown(v, w);
      if v[0] in p && p[v[0]].Dict? {
        ErasedBeside(p[v[0]].d, v[1..], w[1..]);
      }
    }
  }

  lemma {:induction false} ErasedThere(p: Dictionary, v: Path)
    requires v != []
    ensures At(Erased(p, v), v).None?
    decreases v
  {
    if |v| > 1 && v[0] in p && p[v[0]].Dict? {
      ErasedThere(p[v[0]].d, v[1..]);
    }
  }

  lemma {:induction false} ErasedOnTheWay(p: Dictionary, v: Path, n: nat)
    requires 0 < n < |v|
    ensures PrefixErased(p, Erased(p, v), v, n)
    decreases n
  {
    hide EraseFirst, OneLess;
    if n == 1 {
      assert v[..1] == [v[0]];
      if v[0] in p && p[v[0]].Array? {
        EraseFirstOne(p[v[0]].items, v[1]);
      }
    } else {
      OneDown(p, v, n);
      OneDown(Erased(p, v), v, n);
      if v[0] in p && p[v[0]].Dict? {
        ErasedOnTheWay(p[v[0]].d, v[1..], n - 1);
      }
    }
  }

  /** Erasing, without a word about how it is done. */
  lemma ErasedReads(p: Dictionary, v: Path)
    requires v != []
    ensures ErasesAt(p, v, Erased(p, v))
  {
    hide Erased, PrefixErased, At;
    ErasedThere(p, v);
    forall w: Path | w != [] && Beside(v, w) ensures At(Erased(p, v), w) == At(p, w) {
      ErasedBeside(p, v, w);
    }
    forall n | 0 < n < |v| ensures PrefixErased(p, Erased(p, v), v, n) {
      ErasedOnTheWay(p, v, n);
    }
  }

  /** New dictionaries are made as if empty ones had been there. */
  lemma NestedIsUpdated(v: Path, value: Plist)
    requires v != []
    ensures Nested(v, value) == Dict(Updated(map[], v, value))
  {
  }

  lemma {:induction false} UpdatedBeside(p: Dictionary, v: Path, value: Plist, w: Path)
    requires v != [] && w != [] && Beside(v, w)
    ensures At(Updated(p, v, value), w) == At(p, w)
    decreases v
  {
    if v[0] == w[0] {
      BesideDown(v, w);
      if v[0] !in p {
        NestedIsUpdated(v[1..], value);
        UpdatedBeside(map[], v[1..], value, w[1..]);
      } else if p[v[0]].Dict? {
        UpdatedBeside(p[v[0]].d, v[1..], value, w[1..]);
      }
    }
  }

  lemma BlockedDown(p: Dictionary, v: Path)
    requires |v| > 1
    ensures Blocked(p, v) <==> v[0] in p && (p[v[0]].Dict? ==> Blocked(p[v[0]].d, v[1..]))
  {
    assert v[..1] == [v[0]];
    forall n | 1 < n < |v|
      ensures At(p, v[..n]) == if v[0] in p && p[v[0]].Dict? then At(p[v[0]].d, v[1..][..n - 1]) else None
    {
      OneDown(p, v, n);
    }
    if v[0] in p && p[v[0]].Dict? {
      if n :| 0 < n < |v| && At(p, v[..n]).Some? && !At(p, v[..n]).value.Dict? {
        assert 0 < n - 1 < |v[1..]| && At(p[v[0]].d, v[1..][..n - 1]).Some?;
      }
      if n :| 0 < n < |v[1..]| && At(p[v[0]].d, v[1..][..n]).Some? && !At(p[v[0]].d, v[1..][..n]).value.Dict? {
        assert At(p, v[..n + 1]) == At(p[v[0]].d, v[1..][..n + 1 - 1]);
      }
    }
  }

  lemma NoneBlocked(v: Path)
    ensures !Blocked(map[], v)
  {
  }

  lemma {:induction false} UpdatedThere(p: Dictionary, v: Path, value: Plist)
    requires v != []
    ensures At(Updated(p, v, value), v) == if Blocked(p, v) then None else Some(value)
    decreases v
  {
    hide Blocked;
    if |v| > 1 {
      BlockedDown(p, v);
      if v[0] !in p {
        NestedIsUpdated(v[1..], value);
        NoneBlocked(v[1..]);
        UpdatedThere(map[], v[1..], value);
      } else if p[v[0]].Dict? {
        UpdatedThere(p[v[0]].d, v[1..], value);
      }
    } else {
      OneKeyFree(p, v);
    }
  }

  lemma OneKeyFree(p: Dictionary, v: Path)
    requires |v| == 1
    ensures !Blocked(p, v)
  {
  }

  lemma {:induction false} UpdatedOnTheWay(p: Dictionary, v: Path, value: Plist, n: nat)
    requires 0 < n < |v|
    ensures PrefixUpdated(p, Updated(p, v, value), v, n)
    decreases n
  {
    hide Blocked;
    BlockedDown(p, v);
    if v[0] !in p {
      NestedIsUpdated(v[1..], value);
      NoneBlocked(v[1..]);
    }
    if n == 1 {
      assert v[..1] == [v[0]];
    } else {
      OneDown(p, v, n);
      OneDown(Updated(p, v, value), v, n);
      if v[0] !in p {
        UpdatedOnTheWay(map[], v[1..], value, n - 1);
      } else if p[v[0]].Dict? {
        UpdatedOnTheWay(p[v[0]].d, v[1..], value, n - 1);
      }
    }
  }

  /** Setting, without a word about how it is done. */
  lemma UpdatedReads(p: Dictionary, v: Path, value: Plist)
    requires v != []
    ensures UpdatesAt(p, v, value, Updated(p, v, value))
  {
    hide Updated, PrefixUpdated, At, Blocked;
    UpdatedThere(p, v, value);
    forall w: Path | w != [] && Beside(v, w) ensures At(Updated(p, v, value), w) == At(p, w) {
      UpdatedBeside(p, v, value, w);
    }
    forall n | 0 < n < |v| ensures PrefixUpdated(p, Updated(p, v, value), v, n) {
      UpdatedOnTheWay(p, v, value, n);
    }
  }

  // ---- the algorithms -----------------------------------------------------------------------------

  /** The dictionary in which the pointer of a walk stands, put back into those above it. */
  function Rebuilt(above: seq<(Dictionary, string)>, current: Dictionary): Dictionary {
    if above == [] then current else
      var (p, k) := above[|above| - 1];
      Rebuilt(above[..|above| - 1], p[k := Dict(current)])
  }

  lemma RebuiltStep(above: seq<(Dictionary, string)>, p: Dictionary, k: string, current: Dictionary)
    ensures Rebuilt(above + [(p, k)], current) == Rebuilt(above, p[k := Dict(current)])
  {
    assert (above + [(p, k)])[..|above|] == above;
  }

  /** The loop over an array in `erase_key_path`. */
  method EraseString(a: seq<Plist>, key: string) returns (r: seq<Plist>)
    ensures r == EraseFirst(a, key)
  {
    hide EraseFirst;
    r := a;
    assert a[0..] == a && a[..0] + EraseFirst(a, key) == EraseFirst(a, key);
    for i := 0 to |a|
      invariant r == a && EraseFirst(a, key) == a[..i] + EraseFirst(a[i..], key)
    {
      EraseStep(a, i, key);
      if a[i].Str? && a[i].s == key {
        return a[..i] + a[i + 1..];
      }
    }
    NothingErased(a, key);
  }

  lemma EraseStep(a: seq<Plist>, i: nat, key: string)
    requires i < |a|
    ensures a[i] == Str(key) ==> EraseFirst(a[i..], key) == a[i + 1..]
    ensures a[i] != Str(key) ==> a[..i] + EraseFirst(a[i..], key) == a[..i + 1] + EraseFirst(a[i + 1..], key)
  {
    assert a[i..][0] == a[i] && a[i..][1..] == a[i + 1..];
    var rest := EraseFirst(a[i + 1..], key);
    assert a[i] != Str(key) ==> EraseFirst(a[i..], key) == [a[i]] + rest;
    hide EraseFirst;
    assert a[..i + 1] == a[..i] + [a[i]];
    assert a[..i] + ([a[i]] + rest) == a[..i] + [a[i]] + rest;
  }

  lemma NothingErased(a: seq<Plist>, key: string)
    ensures a[..|a|] + EraseFirst(a[|a|..], key) == a
  {
    assert a[|a|..] == [];
  }

  method EraseKeyPath(plist: Dictionary, keyPath: string) returns (r: Dictionary)
    ensures ErasesAt(plist, Parsed(keyPath), r)
    ensures r == Erased(plist, Parsed(keyPath))
  {
    hide Parsed, Rebuilt, EraseFirst, ErasesAt;
    var v := ParseKeyPath(keyPath);
    ErasedReads(plist, v);
    var current, above, n := plist, [], 0;
    RebuiltNothing(plist);
    RebuiltNothing(Erased(plist, v));
    assert v[0..] == v;
    while true
      invariant n < |v|
      invariant Rebuilt(above, current) == plist && Rebuilt(above, Erased(current, v[n..])) == Erased(plist, v)
      decreases |v| - n
    {
      var k := v[n];
      assert v[n..][0] == k && v[n..][1..] == v[n + 1..];
      if k !in current {
        return plist;
      }
      n := n + 1;
      if n == |v| {
        current := current - {k};
        break;
      }
      assert v[n - 1..][1] == v[n];
      if current[k].Dict? {
        ghost var inner := current[k].d;
        RebuiltStep(above, current, k, inner);
        RebuiltStep(above, current, k, Erased(inner, v[n..]));
        assert current[k := Dict(inner)] == current;
        above, current := above + [(current, k)], current[k].d;
      } else {
        if current[k].Array? {
          var items := EraseString(current[k].items, v[n]);
          current := current[k := Array(items)];
        }
        break;
      }
    }
    r := Rebuild(above, current);
  }

  lemma RebuiltNothing(p: Dictionary)
    ensures Rebuilt([], p) == p
  {
  }

  /** The changes made where the pointer stands are changes of the whole. */
  method Rebuild(above: seq<(Dictionary, string)>, current: Dictionary) returns (r: Dictionary)
    ensures r == Rebuilt(above, current)
  {
    r := current;
    var n := |above|;
    assert above[..n] == above;
    while n > 0
      invariant 0 <= n <= |above| && Rebuilt(above[..n], r) == Rebuilt(above, current)
    {
      n := n - 1;
      assert above[..n + 1][..n] == above[..n];
      var (p, k) := above[n];
      r := p[k := Dict(r)];
    }
  }

  method UpdateKeyPath(plist: Dictionary, keyPath: string, value: Plist) returns (r: Dictionary)
    ensures UpdatesAt(plist, Parsed(keyPath), value, r)
    ensures r == Updated(plist, Parsed(keyPath), value)
  {
    hide Parsed, Rebuilt, Nested, UpdatesAt;
    var v := ParseKeyPath(keyPath);
    UpdatedReads(plist, v, value);
    var current, above, n := plist, [], 0;
    RebuiltNothing(plist);
    RebuiltNothing(Updated(plist, v, value));
    assert v[0..] == v;
    while true
      invariant n < |v|
      invariant Rebuilt(above, Updated(current, v[n..], value)) == Updated(plist, v, value)
      decreases |v| - n
    {
      var k := v[n];
      assert v[n..][0] == k && v[n..][1..] == v[n + 1..];
      if k !in current {
        var payload := Nest(v, n, value);
        current := current[k := payload];
        break;
      }
      n := n + 1;
      if n == |v| {
        current := current[k := value];
        break;
      }
      assert v[n - 1..][1] == v[n];
      if current[k].Dict? {
        RebuiltStep(above, current, k, Updated(current[k].d, v[n..], value));
        above, current := above + [(current, k)], current[k].d;
      } else {
        if current[k].Array? {
          current := current[k := Array(current[k].items + [Str(v[n])])];
        }
        break;
      }
    }
    r := Rebuild(above, current);
  }

  /** The loop from the last key back to the missing one. */
  method Nest(v: Path, key: nat, value: Plist) returns (payload: Plist)
    requires key < |v|
    ensures payload == Nested(v[key + 1..], value)
  {
    payload := value;
    var lastKey := |v| - 1;
    assert v[lastKey + 1..] == [];
    while lastKey != key
      invariant key <= lastKey < |v| && payload == Nested(v[lastKey + 1..], value)
    {
      assert v[lastKey..][0] == v[lastKey] && v[lastKey..][1..] == v[lastKey + 1..];
      payload := Dict(map[v[lastKey] := payload]);
      lastKey := lastKey - 1;
    }
  }
}
