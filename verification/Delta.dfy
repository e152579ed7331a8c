/** Differences between property lists: making them, and merging them onto a list. */
module Delta {

  import opened Wrappers
  import opened KeyPaths
  import opened Plists

  // ---- which paths differ -----------------------------------------------------------------

  /** Both lists have a dictionary under the key, so the difference is one inside it. */
  predicate BothDicts(old_: Plist, new_: Plist, k: string)
    requires old_.Dict? && new_.Dict?
  {
    k in old_.d && k in new_.d && old_.d[k].Dict? && new_.d[k].Dict?
  }

  ghost predicate IsDeleted(old_: Plist, new_: Plist, v: Path)
    requires old_.Dict? && new_.Dict?
    decreases v
  {
    v != [] &&
    if |v| == 1 then v[0] in old_.d && v[0] !in new_.d
    else BothDicts(old_, new_, v[0]) && IsDeleted(old_.d[v[0]], new_.d[v[0]], v[1..])
  }

  ghost predicate IsChanged(old_: Plist, new_: Plist, v: Path)
    requires old_.Dict? && new_.Dict?
    decreases v
  {
    v != [] &&
    if |v| == 1 then v[0] in new_.d && !BothDicts(old_, new_, v[0]) && (v[0] in old_.d ==> old_.d[v[0]] != new_.d[v[0]])
    else BothDicts(old_, new_, v[0]) && IsChanged(old_.d[v[0]], new_.d[v[0]], v[1..])
  }

  ghost function ChangedTo(old_: Plist, new_: Plist, v: Path): Plist
    requires old_.Dict? && new_.Dict? && IsChanged(old_, new_, v)
    decreases v
  {
    if |v| == 1 then new_.d[v[0]] else ChangedTo(old_.d[v[0]], new_.d[v[0]], v[1..])
  }

  /** Dictionaries in both lead to a path. */
  ghost predicate DictsLeadTo(old_: Dictionary, new_: Dictionary, v: Path) {
    forall n | 0 < n < |v| ::
      At(old_, v[..n]).Some? && At(old_, v[..n]).value.Dict? && At(new_, v[..n]).Some? && At(new_, v[..n]).value.Dict?
  }

  /** What differs, as it is read: where dictionaries in both lead to, what is there in the old one alone is deleted,
      what is not the same in the new one is changed, unless it is a dictionary in both. */
  lemma {:induction false} DifferencesRead(old_: Dictionary, new_: Dictionary, v: Path)
    requires v != []
    ensures IsDeleted(Dict(old_), Dict(new_), v) <==>
              DictsLeadTo(old_, new_, v) && At(old_, v).Some? && At(new_, v).None?
    ensures IsChanged(Dict(old_), Dict(new_), v) <==>
              DictsLeadTo(old_, new_, v) && At(new_, v).Some? && At(new_, v) != At(old_, v) &&
              !(At(new_, v).value.Dict? && At(old_, v).Some? && At(old_, v).value.Dict?)
    ensures IsChanged(Dict(old_), Dict(new_), v) ==> ChangedTo(Dict(old_), Dict(new_), v) == At(new_, v).value
    decreases v
  {
    if |v| > 1 {
      LeadToDown(old_, new_, v);
      if BothDicts(Dict(old_), Dict(new_), v[0]) {
        DifferencesRead(old_[v[0]].d, new_[v[0]].d, v[1..]);
      }
    }
  }

  lemma LeadToDown(old_: Dictionary, new_: Dictionary, v: Path)
    requires |v| > 1
    ensures DictsLeadTo(old_, new_, v) <==>
              BothDicts(Dict(old_), Dict(new_), v[0]) && DictsLeadTo(old_[v[0]].d, new_[v[0]].d, v[1..])
  {
    assert v[..1] == [v[0]];
    forall n | 1 < n < |v|
      ensures v[..n][1..] == v[1..][..n - 1]
      ensures At(old_, v[..n]) == if v[0] in old_ && old_[v[0]].Dict? then At(old_[v[0]].d, v[1..][..n - 1]) else None
      ensures At(new_, v[..n]) == if v[0] in new_ && new_[v[0]].Dict? then At(new_[v[0]].d, v[1..][..n - 1]) else None
    {
      OneDown(old_, v, n);
      OneDown(new_, v, n);
    }
    if BothDicts(Dict(old_), Dict(new_), v[0]) && DictsLeadTo(old_, new_, v) {
      forall n | 0 < n < |v[1..]|
        ensures At(old_[v[0]].d, v[1..][..n]) == At(old_, v[..n + 1])
        ensures At(new_[v[0]].d, v[1..][..n]) == At(new_, v[..n + 1])
      {
        OneDown(old_, v, n + 1);
        OneDown(new_, v, n + 1);
      }
    }
  }

  // ---- `create_delta` ---------------------------------------------------------------------

  ghost predicate DeletedAt(old_: Plist, new_: Plist, done: set<string>, v: Path)
    requires old_.Dict? && new_.Dict?
  {
    v != [] && v[0] in done && IsDeleted(old_, new_, v)
  }

  ghost predicate ChangedAt(old_: Plist, new_: Plist, done: set<string>, v: Path)
    requires old_.Dict? && new_.Dict?
  {
    v != [] && v[0] in done && IsChanged(old_, new_, v)
  }

  /** `changed` has got an entry for exactly the changed paths below `path` whose first key is in `done`. */
  ghost predicate Collected(old_: Plist, new_: Plist, path: Path, done: set<string>, before: Dictionary,
      after: Dictionary)
    requires old_.Dict? && new_.Dict?
  {
    (forall k | k in before :: k in after && after[k] == before[k]) &&
    (forall k | k in after :: k in before || exists v :: ChangedAt(old_, new_, done, v) && k == KeyPath(path + v)) &&
    (forall v | ChangedAt(old_, new_, done, v) ::
       KeyPath(path + v) in after && after[KeyPath(path + v)] == ChangedTo(old_, new_, v))
  }

  ghost predicate Listed(old_: Plist, new_: Plist, path: Path, done: set<string>, before: seq<Plist>, after: seq<Plist>)
    requires old_.Dict? && new_.Dict?
  {
    forall x :: x in after <==> x in before || exists v :: DeletedAt(old_, new_, done, v) && x == Str(KeyPath(path + v))
  }

  /** No path at or below `path` has an entry yet. */
  ghost predicate Unused(path: Path, changed: Dictionary) {
    forall v: Path | v != [] :: KeyPath(path + v) !in changed
  }

  // ---- `merge_delta` ------------------------------------------------------------------------

  /** Erases the key paths of a list of strings, first to last; other items are ignored. */
  function EraseAll(p: Dictionary, deleted: seq<Plist>): Dictionary {
    if deleted == [] then p else
      var q, item := EraseAll(p, deleted[..|deleted| - 1]), deleted[|deleted| - 1];
      if item.Str? then Erased(q, Parsed(item.s)) else q
  }

  function UpdateAll(p: Dictionary, keys: seq<string>, changed: Dictionary): Dictionary
    requires forall k | k in keys :: k in changed
  {
    if keys == [] then p else
      var k := keys[|keys| - 1];
      Updated(UpdateAll(p, keys[..|keys| - 1], changed), Parsed(k), changed[k])
  }

  /** The keys of a dictionary in some order. */
  ghost predicate Order(keys: seq<string>, m: Dictionary) {
    (forall i, j | 0 <= i < j < |keys| :: keys[i] != keys[j]) && forall k :: k in keys <==> k in m
  }

  function WithoutDeleted(delta: Dictionary, p: Dictionary): Dictionary {
    if "deleted" in delta && delta["deleted"].Array? then EraseAll(p, delta["deleted"].items) else p
  }

  ghost predicate Updates(p: Dictionary, changed: Dictionary, keys: seq<string>, r: Dictionary) {
    Order(keys, changed) && r == UpdateAll(p, keys, changed)
  }

  /** What merging one delta onto `p` may give: `changed` may be taken in any order. */
  ghost predicate Applied(delta: Dictionary, p: Dictionary, r: Dictionary) {
    var q := WithoutDeleted(delta, p);
    if "changed" in delta && delta["changed"].Dict? then exists keys :: Updates(q, delta["changed"].d, keys, r)
    else r == q
  }

  /** One turn of the loop of `merge_delta`. */
  ghost predicate Turn(plist: Dictionary, p: Dictionary, f: bool, r: Dictionary, found: bool) {
    if "isDelta" in plist then Applied(plist, p, r) && found == f else r == plist && found
  }

  /** The lists are taken from the last to the first. */
  ghost predicate Taken(plists: seq<Dictionary>, r: Dictionary, found: bool) {
    if plists == [] then r == map[] && !found
    else exists p, f :: Taken(plists[1..], p, f) && Turn(plists[0], p, f, r, found)
  }

  ghost predicate Merged(plists: seq<Dictionary>, r: Dictionary) {
    exists p, f :: Taken(plists, p, f) && r == if f then p else map[]
  }

  // ---- between old and new --------------------------------------------------------------------

  ghost function Under(pending: iset<Path>, k: string): iset<Path> {
    iset v: Path | [k] + v in pending
  }

  /** `now` is `old_` where a difference is pending, and `new_` everywhere else. */
  ghost predicate Between(now: Plist, old_: Plist, new_: Plist, pending: iset<Path>)
    requires old_.Dict? && new_.Dict?
    decreases new_
  {
    now.Dict? && forall k: string {:trigger k in now.d} :: KeyBetween(now, old_, new_, pending, k)
  }

  ghost predicate KeyBetween(now: Plist, old_: Plist, new_: Plist, pending: iset<Path>, k: string)
    requires now.Dict? && old_.Dict? && new_.Dict?
    decreases new_, 0
  {
    if BothDicts(old_, new_, k) then k in now.d && Between(now.d[k], old_.d[k], new_.d[k], Under(pending, k))
    else if [k] in pending then (k in now.d <==> k in old_.d) && (k in now.d ==> now.d[k] == old_.d[k])
    else (k in now.d <==> k in new_.d) && (k in now.d ==> now.d[k] == new_.d[k])
  }

  lemma {:induction false} AllPending(old_: Plist, new_: Plist, pending: iset<Path>)
    requires old_.Dict? && new_.Dict? && forall v: Path :: v in pending
    ensures Between(old_, old_, new_, pending)
    decreases new_
  {
    forall k: string ensures KeyBetween(old_, old_, new_, pending, k) {
      if BothDicts(old_, new_, k) {
        AllPending(old_.d[k], new_.d[k], Under(pending, k));
      }
    }
  }

  lemma {:induction false} NothingPending(now: Plist, old_: Plist, new_: Plist, pending: iset<Path>)
    requires old_.Dict? && new_.Dict? && Between(now, old_, new_, pending)
    requires forall v | IsDeleted(old_, new_, v) || IsChanged(old_, new_, v) :: v !in pending
    ensures now == new_
    decreases new_
  {
    forall k: string ensures (k in now.d <==> k in new_.d) && (k in now.d ==> now.d[k] == new_.d[k]) {
      assert KeyBetween(now, old_, new_, pending, k);
      if BothDicts(old_, new_, k) {
        forall v | IsDeleted(old_.d[k], new_.d[k], v) || IsChanged(old_.d[k], new_.d[k], v)
          ensures v !in Under(pending, k)
        {
          var w := [k] + v;
          assert w[1..] == v && w[0] == k;
        }
        NothingPending(now.d[k], old_.d[k], new_.d[k], Under(pending, k));
      } else {
        assert IsDeleted(old_, new_, [k]) <==> k in old_.d && k !in new_.d;
      }
    }
    assert now.d == new_.d;
  }

  /** A path that is settled below one key is settled for no other. */
  lemma UnderOne(pending: iset<Path>, v: Path, k: string)
    requires v != []
    ensures k != v[0] ==>
              Under(pending - iset{v}, k) == Under(pending, k) &&
              ([k] in pending - iset{v} <==> [k] in pending)
    ensures k == v[0] ==> Under(pending - iset{v}, k) == Under(pending, k) - iset{v[1..]}
    ensures k == v[0] && |v| > 1 ==> ([k] in pending - iset{v} <==> [k] in pending)
  {
    assert v == [v[0]] + v[1..];
    forall u: Path ensures [k] + u == v <==> k == v[0] && u == v[1..] {
      assert ([k] + u)[0] == k && ([k] + u)[1..] == u;
    }
  }

  /** Erasing a deleted path settles it, whatever else is pending. */
  lemma {:induction false} ErasedBetween(now: Plist, old_: Plist, new_: Plist, pending: iset<Path>, v: Path)
    requires old_.Dict? && new_.Dict? && Between(now, old_, new_, pending) && IsDeleted(old_, new_, v)
    ensures Between(Dict(Erased(now.d, v)), old_, new_, pending - iset{v})
    decreases v
  {
    var k, r := v[0], Dict(Erased(now.d, v));
    assert KeyBetween(now, old_, new_, pending, k);
    if |v| > 1 {
      ErasedBetween(now.d[k], old_.d[k], new_.d[k], Under(pending, k), v[1..]);
    }
    forall j: string ensures KeyBetween(r, old_, new_, pending - iset{v}, j) {
      assert KeyBetween(now, old_, new_, pending, j);
      UnderOne(pending, v, j);
      assert |v| == 1 ==> v == [k];
    }
  }

  /** Updating a changed path settles it, whatever else is pending. */
  lemma {:induction false} UpdatedBetween(now: Plist, old_: Plist, new_: Plist, pending: iset<Path>, v: Path)
    requires old_.Dict? && new_.Dict? && Between(now, old_, new_, pending) && IsChanged(old_, new_, v)
    ensures Between(Dict(Updated(now.d, v, ChangedTo(old_, new_, v))), old_, new_, pending - iset{v})
    decreases v
  {
    var k, r := v[0], Dict(Updated(now.d, v, ChangedTo(old_, new_, v)));
    assert KeyBetween(now, old_, new_, pending, k);
    if |v| > 1 {
      UpdatedBetween(now.d[k], old_.d[k], new_.d[k], Under(pending, k), v[1..]);
    }
    forall j: string ensures KeyBetween(r, old_, new_, pending - iset{v}, j) {
      assert KeyBetween(now, old_, new_, pending, j);
      UnderOne(pending, v, j);
      assert |v| == 1 ==> v == [k];
    }
  }

  // ---- a delta made by `create_delta`, merged -------------------------------------------------

  /** `x` names a deleted path. */
  ghost predicate NamesDeleted(x: Plist, old_: Plist, new_: Plist)
    requires old_.Dict? && new_.Dict?
  {
    exists v :: IsDeleted(old_, new_, v) && x == Str(KeyPath(v))
  }

  ghost predicate ListsDeleted(deleted: seq<Plist>, old_: Plist, new_: Plist)
    requires old_.Dict? && new_.Dict?
  {
    forall x :: x in deleted <==> NamesDeleted(x, old_, new_)
  }

  ghost predicate HoldsChanged(changed: Dictionary, old_: Plist, new_: Plist)
    requires old_.Dict? && new_.Dict?
  {
    (forall k | k in changed :: exists v :: IsChanged(old_, new_, v) && k == KeyPath(v)) &&
    forall v | IsChanged(old_, new_, v) :: KeyPath(v) in changed && changed[KeyPath(v)] == ChangedTo(old_, new_, v)
  }

  /** What `create_delta` gives for two dictionaries; nothing is said about the order of `deleted`. */
  ghost predicate IsDeltaOf(delta: Dictionary, old_: Dictionary, new_: Dictionary) {
    var o, n := Dict(old_), Dict(new_);
    (forall k | k in delta :: k in ["isDelta", "changed", "deleted", "uuid"]) &&
    "isDelta" in delta && delta["isDelta"] == Bool(true) &&
    ("changed" in delta <==> exists v :: IsChanged(o, n, v)) &&
    ("changed" in delta ==> delta["changed"].Dict? && HoldsChanged(delta["changed"].d, o, n)) &&
    ("deleted" in delta <==> exists v :: IsDeleted(o, n, v)) &&
    ("deleted" in delta ==> delta["deleted"].Array? && ListsDeleted(delta["deleted"].items, o, n)) &&
    ("uuid" in delta <==> "uuid" in old_) && ("uuid" in delta ==> delta["uuid"] == old_["uuid"])
  }

  ghost function ErasedPaths(deleted: seq<Plist>): iset<Path> {
    iset v: Path | v != [] && Str(KeyPath(v)) in deleted
  }

  lemma {:induction false} EraseAllBetween(now: Plist, old_: Plist, new_: Plist, pending: iset<Path>,
      deleted: seq<Plist>)
    requires now.Dict? && old_.Dict? && new_.Dict? && Between(now, old_, new_, pending)
    requires forall x | x in deleted :: NamesDeleted(x, old_, new_)
    ensures Between(Dict(EraseAll(now.d, deleted)), old_, new_, pending - ErasedPaths(deleted))
  {
    hide Between, IsDeleted, Erased, KeyPath;
    if deleted == [] {
      assert pending - ErasedPaths(deleted) == pending;
      assert Dict(now.d) == now;
    } else {
      var front, x := deleted[..|deleted| - 1], deleted[|deleted| - 1];
      assert x in deleted && forall y | y in front :: y in deleted;
      EraseAllBetween(now, old_, new_, pending, front);
      var v :| IsDeleted(old_, new_, v) && x == Str(KeyPath(v));
      DifferenceHasKeys(old_, new_, v);
      KeyPathUndone(v);
      ErasedBetween(Dict(EraseAll(now.d, front)), old_, new_, pending - ErasedPaths(front), v);
      forall u: Path ensures u in ErasedPaths(deleted) <==> u in ErasedPaths(front) || u == v {
        if u != [] && KeyPath(u) == KeyPath(v) {
          KeyPathInjective(u, v);
        }
      }
      assert pending - ErasedPaths(deleted) == pending - ErasedPaths(front) - iset{v};
    }
  }

  lemma DifferenceHasKeys(old_: Plist, new_: Plist, v: Path)
    requires old_.Dict? && new_.Dict?
    ensures IsDeleted(old_, new_, v) || IsChanged(old_, new_, v) ==> v != []
  {
  }

  ghost function UpdatedPaths(keys: seq<string>): iset<Path> {
    iset v: Path | v != [] && KeyPath(v) in keys
  }

  lemma {:induction false} UpdateAllBetween(now: Plist, old_: Plist, new_: Plist, pending: iset<Path>,
      keys: seq<string>, changed: Dictionary)
    requires now.Dict? && old_.Dict? && new_.Dict? && Between(now, old_, new_, pending)
    requires (forall k | k in keys :: k in changed) && HoldsChanged(changed, old_, new_)
    ensures Between(Dict(UpdateAll(now.d, keys, changed)), old_, new_, pending - UpdatedPaths(keys))
  {
    hide Between, IsChanged, Updated, KeyPath;
    if keys == [] {
      assert pending - UpdatedPaths(keys) == pending;
      assert Dict(now.d) == now;
    } else {
      var front, k := keys[..|keys| - 1], keys[|keys| - 1];
      assert k in keys && forall j | j in front :: j in keys;
      UpdateAllBetween(now, old_, new_, pending, front, changed);
      var v :| IsChanged(old_, new_, v) && k == KeyPath(v);
      DifferenceHasKeys(old_, new_, v);
      KeyPathUndone(v);
      UpdatedBetween(Dict(UpdateAll(now.d, front, changed)), old_, new_, pending - UpdatedPaths(front), v);
      forall u: Path ensures u in UpdatedPaths(keys) <==> u in UpdatedPaths(front) || u == v {
        if u != [] && KeyPath(u) == KeyPath(v) {
          KeyPathInjective(u, v);
        }
      }
      assert pending - UpdatedPaths(keys) == pending - UpdatedPaths(front) - iset{v};
    }
  }

  /** Applied to the old dictionary, in whatever order, a delta gives the new one. */
  lemma AppliedGivesNew(delta: Dictionary, old_: Dictionary, new_: Dictionary, r: Dictionary)
    requires IsDeltaOf(delta, old_, new_) && Applied(delta, old_, r)
    ensures r == new_
  {
    hide Between, IsDeleted, IsChanged, EraseAll, UpdateAll;
    var o, n, all := Dict(old_), Dict(new_), iset v: Path {:trigger KeyPath(v)} | true;
    AllPending(o, n, all);
    var deleted := if "deleted" in delta then delta["deleted"].items else [];
    EraseAllBetween(o, o, n, all, deleted);
    EraseNothing(old_);
    var q, left := WithoutDeleted(delta, old_), all - ErasedPaths(deleted);
    assert q == EraseAll(old_, deleted);
    var keys: seq<string> := [];
    if "changed" in delta {
      var c := delta["changed"].d;
      keys :| Updates(q, c, keys, r);
      UpdateAllBetween(Dict(q), o, n, left, keys, c);
    }
    forall v | IsDeleted(o, n, v) || IsChanged(o, n, v) ensures v !in left - UpdatedPaths(keys) {
      DifferenceHasKeys(o, n, v);
      assert IsDeleted(o, n, v) ==> NamesDeleted(Str(KeyPath(v)), o, n);
    }
    assert "changed" !in delta ==> left - UpdatedPaths(keys) == left;
    NothingPending(Dict(r), o, n, left - UpdatedPaths(keys));
  }

  lemma EraseNothing(p: Dictionary)
    ensures EraseAll(p, []) == p
  {
  }

  /** `plists` holds, before the first of `versions`, the deltas that lead from one to the next, latest first. */
  ghost predicate Stacked(plists: seq<Dictionary>, versions: seq<Dictionary>) {
    |plists| == |versions| > 0 && plists[|plists| - 1] == versions[0] &&
    forall i | 0 <= i < |plists| - 1 :: IsDeltaOf(plists[i], versions[|versions| - 2 - i], versions[|versions| - 1 - i])
  }

  lemma {:induction false} TakenStack(plists: seq<Dictionary>, versions: seq<Dictionary>, r: Dictionary, found: bool)
    requires Stacked(plists, versions) && Taken(plists, r, found)
    ensures found <==> "isDelta" !in versions[0]
    ensures found ==> r == versions[|versions| - 1]
  {
    hide IsDeltaOf, Applied;
    var p, f :| Taken(plists[1..], p, f) && Turn(plists[0], p, f, r, found);
    var n := |versions|;
    if n > 1 {
      assert Stacked(plists[1..], versions[..n - 1]) by {
        forall i | 0 <= i < n - 2
          ensures IsDeltaOf(plists[1..][i], versions[..n - 1][n - 3 - i], versions[..n - 1][n - 2 - i])
        {
          assert IsDeltaOf(plists[i + 1], versions[n - 2 - (i + 1)], versions[n - 1 - (i + 1)]);
        }
      }
      TakenStack(plists[1..], versions[..n - 1], p, f);
      assert IsDeltaOf(plists[0], versions[n - 2 - 0], versions[n - 1 - 0]);
      DeltaIsMarked(plists[0], versions[n - 2], versions[n - 1]);
      if f {
        AppliedGivesNew(plists[0], versions[n - 2], versions[n - 1], r);
      }
    }
  }

  lemma DeltaIsMarked(delta: Dictionary, old_: Dictionary, new_: Dictionary)
    requires IsDeltaOf(delta, old_, new_)
    ensures "isDelta" in delta
  {
  }

  /** Merging a first version and the deltas that lead on from it gives the last version, if
      and only if the first one is not taken for a delta or the last one is empty. */
  lemma MergedGivesLast(plists: seq<Dictionary>, versions: seq<Dictionary>, r: Dictionary)
    requires Stacked(plists, versions) && Merged(plists, r)
    ensures r == versions[|versions| - 1] <==> "isDelta" !in versions[0] || versions[|versions| - 1] == map[]
  {
    var p, f :| Taken(plists, p, f) && r == if f then p else map[];
    TakenStack(plists, versions, p, f);
  }

  /** In particular, a delta merged onto the dictionary it was made from. */
  lemma RoundTrip(delta: Dictionary, old_: Dictionary, new_: Dictionary, r: Dictionary)
    requires IsDeltaOf(delta, old_, new_) && Merged([delta, old_], r)
    ensures r == new_ <==> "isDelta" !in old_ || new_ == map[]
  {
    hide IsDeltaOf, Merged;
    assert Stacked([delta, old_], [old_, new_]);
    MergedGivesLast([delta, old_], [old_, new_], r);
  }

  /** A delta written by hand, with one key path to erase, merged onto a dictionary. */
  lemma MergedErasing(delta: Dictionary, p: Dictionary, keyPath: string, r: Dictionary)
    requires delta == map["isDelta" := Bool(true), "deleted" := Array([Str(keyPath)])] && "isDelta" !in p
    requires Merged([delta, p], r)
    ensures ErasesAt(p, Parsed(keyPath), r)
  {
    MergedOne(delta, p, r);
    var one := [Str(keyPath)];
    assert one[..|one| - 1] == [];
    assert EraseAll(p, one) == Erased(EraseAll(p, []), Parsed(keyPath));
    EraseNothing(p);
    assert r == WithoutDeleted(delta, p) == EraseAll(p, one);
    assert r == Erased(p, Parsed(keyPath));
    ErasedReads(p, Parsed(keyPath));
  }

  /** A delta written by hand, with one key path to set, merged onto a dictionary. */
  lemma MergedUpdating(delta: Dictionary, p: Dictionary, keyPath: string, value: Plist, r: Dictionary)
    requires delta == map["isDelta" := Bool(true), "changed" := Dict(map[keyPath := value])] && "isDelta" !in p
    requires Merged([delta, p], r)
    ensures UpdatesAt(p, Parsed(keyPath), value, r)
  {
    MergedOne(delta, p, r);
    assert WithoutDeleted(delta, p) == p;
    var changed := map[keyPath := value];
    var keys :| Updates(p, changed, keys, r);
    OnlyKey(keys, keyPath, value);
    assert keys[..|keys| - 1] == [] && UpdateAll(p, [], changed) == p;
    assert UpdateAll(p, keys, changed) == Updated(UpdateAll(p, [], changed), Parsed(keyPath), changed[keyPath]);
    assert r == Updated(p, Parsed(keyPath), value);
    UpdatedReads(p, Parsed(keyPath), value);
  }

  /** A deleted setting goes from the list of settings, where it stands first, and nothing else changes. */
  lemma SettingDeleted(delta: Dictionary, p: Dictionary, key: string, before: seq<Plist>, behind: seq<Plist>,
      r: Dictionary)
    requires delta == map["isDelta" := Bool(true), "deleted" := Array([Str("settings." + key)])] && "isDelta" !in p
    requires Plain(key) && Merged([delta, p], r)
    requires "settings" in p && p["settings"] == Array(before + [Str(key)] + behind) && Str(key) !in before
    ensures r == p["settings" := Array(before + behind)]
  {
    hide Merged, Erased, PrefixErased;
    assert "settings" + "." + key == "settings." + key;
    PlainKeys("settings", key, '.');
    MergedErasing(delta, p, "settings." + key, r);
    var v := ["settings", key];
    assert v[..1] == ["settings"] && PrefixErased(p, r, v, 1);
    ListErased(p, r, v, before, behind);
    forall k | k != "settings" ensures (k in r <==> k in p) && (k in r ==> r[k] == p[k]) {
      assert Beside(v, [k]) && At(r, [k]) == At(p, [k]);
    }
  }

  lemma ListErased(p: Dictionary, r: Dictionary, v: Path, before: seq<Plist>, behind: seq<Plist>)
    requires |v| == 2 && v[..1] == [v[0]] && PrefixErased(p, r, v, 1)
    requires v[0] in p && p[v[0]] == Array(before + [Str(v[1])] + behind) && Str(v[1]) !in before
    ensures v[0] in r && r[v[0]] == Array(before + behind)
  {
    var a, x := before + [Str(v[1])] + behind, Str(v[1]);
    assert a[|before|] == x;
    var u, w :| Around(a, x, u, w) && r[v[0]].items == u + w;
    OnlyFirst(a, x, before, behind, u, w);
  }

  lemma OnlyFirst(a: seq<Plist>, x: Plist, u: seq<Plist>, w: seq<Plist>, u': seq<Plist>, w': seq<Plist>)
    requires Around(a, x, u, w) && Around(a, x, u', w')
    ensures u == u' && w == w'
  {
    assert a[|u|] == x && a[|u'|] == x;
    assert forall i | 0 <= i < |u| :: a[i] == u[i] && a[i] != x;
    assert forall i | 0 <= i < |u'| :: a[i] == u'[i] && a[i] != x;
    assert u == a[..|u|] && u' == a[..|u'|] && w == a[|u| + 1..] && w' == a[|u'| + 1..];
  }

  /** A changed setting is put behind the settings that are there, whatever its value, and nothing else changes. */
  lemma SettingChanged(delta: Dictionary, p: Dictionary, key: string, value: Plist, r: Dictionary)
    requires delta == map["isDelta" := Bool(true), "changed" := Dict(map["settings." + key := value])]
    requires "isDelta" !in p && Plain(key) && Merged([delta, p], r) && "settings" in p && p["settings"].Array?
    ensures r == p["settings" := Array(p["settings"].items + [Str(key)])]
  {
    hide Merged, Updated, PrefixUpdated;
    assert "settings" + "." + key == "settings." + key;
    PlainKeys("settings", key, '.');
    MergedUpdating(delta, p, "settings." + key, value, r);
    var v := ["settings", key];
    assert v[..1] == ["settings"] && PrefixUpdated(p, r, v, 1);
    ListUpdated(p, r, v);
    forall k | k != "settings" ensures (k in r <==> k in p) && (k in r ==> r[k] == p[k]) {
      assert Beside(v, [k]) && At(r, [k]) == At(p, [k]);
    }
  }

  lemma ListUpdated(p: Dictionary, r: Dictionary, v: Path)
    requires |v| == 2 && v[..1] == [v[0]] && PrefixUpdated(p, r, v, 1) && v[0] in p && p[v[0]].Array?
    ensures v[0] in r && r[v[0]] == Array(p[v[0]].items + [Str(v[1])])
  {
  }

  lemma OnlyKey(keys: seq<string>, k: string, value: Plist)
    requires Order(keys, map[k := value])
    ensures keys == [k]
  {
    assert k in keys;
    forall i | 0 <= i < |keys| ensures keys[i] == k {
      assert keys[i] in keys;
    }
    assert keys[0] == keys[|keys| - 1] == k;
  }

  lemma MergedOne(delta: Dictionary, p: Dictionary, r: Dictionary)
    requires "isDelta" in delta && "isDelta" !in p && Merged([delta, p], r)
    ensures Applied(delta, p, r)
  {
    hide Applied;
    var l := [delta, p];
    assert l[1..] == [p] && [p][1..] == [];
    var t, g :| Taken(l, t, g) && r == if g then t else map[];
    var q, f :| Taken(l[1..], q, f) && Turn(l[0], q, f, t, g);
    var q', f' :| Taken([p][1..], q', f') && Turn([p][0], q', f', q, f);
  }

  // ---- the algorithms -----------------------------------------------------------------------------

  /** The path of a difference below key `k`. */
  lemma BelowKey(old_: Plist, new_: Plist, path: Path, v: Path)
    requires old_.Dict? && new_.Dict? && v != []
    ensures |v| == 1 ==> v == [v[0]]
    ensures path + v == path + [v[0]] + v[1..]
    ensures [v[0]] + v[1..] == v
  {
  }

  lemma DifferenceBelow(old_: Plist, new_: Plist, k: string, u: Path)
    requires old_.Dict? && new_.Dict? && BothDicts(old_, new_, k)
    ensures IsDeleted(old_, new_, [k] + u) <==> IsDeleted(old_.d[k], new_.d[k], u)
    ensures IsChanged(old_, new_, [k] + u) <==> IsChanged(old_.d[k], new_.d[k], u)
    ensures IsChanged(old_.d[k], new_.d[k], u) ==> ChangedTo(old_, new_, [k] + u) == ChangedTo(old_.d[k], new_.d[k], u)
  {
    var v := [k] + u;
    assert v[0] == k && v[1..] == u;
  }

  lemma AtOneKey(old_: Plist, new_: Plist, v: Path)
    requires old_.Dict? && new_.Dict? && v != [] && !BothDicts(old_, new_, v[0])
    ensures IsDeleted(old_, new_, v) <==> v == [v[0]] && v[0] in old_.d && v[0] !in new_.d
    ensures IsChanged(old_, new_, v) <==>
              v == [v[0]] && v[0] in new_.d &&
              (v[0] in old_.d ==> old_.d[v[0]] != new_.d[v[0]])
    ensures IsChanged(old_, new_, v) ==> ChangedTo(old_, new_, v) == new_.d[v[0]]
  {
  }

  /** A key of which nothing is deleted. */
  lemma ListedNone(old_: Plist, new_: Plist, path: Path, done: set<string>, before: seq<Plist>,
      after: seq<Plist>, k: string)
    requires old_.Dict? && new_.Dict? && Listed(old_, new_, path, done, before, after)
    requires !BothDicts(old_, new_, k) && (k in old_.d ==> k in new_.d)
    ensures Listed(old_, new_, path, done + {k}, before, after)
  {
    hide IsDeleted, KeyPath;
    forall v ensures DeletedAt(old_, new_, done + {k}, v) <==> DeletedAt(old_, new_, done, v) {
      if v != [] && v[0] == k {
        AtOneKey(old_, new_, v);
      }
    }
  }

  /** A key that is deleted. */
  lemma ListedOne(old_: Plist, new_: Plist, path: Path, done: set<string>, before: seq<Plist>,
      after: seq<Plist>, k: string)
    requires old_.Dict? && new_.Dict? && Listed(old_, new_, path, done, before, after)
    requires k in old_.d && k !in new_.d
    ensures Listed(old_, new_, path, done + {k}, before, after + [Str(KeyPath(path + [k]))])
  {
    hide IsDeleted, KeyPath;
    var item := Str(KeyPath(path + [k]));
    AtOneKey(old_, new_, [k]);
    forall x
      ensures x in after + [item] <==>
              x in before || exists v :: DeletedAt(old_, new_, done + {k}, v) && x == Str(KeyPath(path + v))
    {
      if x == item {
        assert DeletedAt(old_, new_, done + {k}, [k]);
      }
      if v :| DeletedAt(old_, new_, done + {k}, v) && x == Str(KeyPath(path + v)) {
        DifferenceHasKeys(old_, new_, v);
        if v[0] == k {
          AtOneKey(old_, new_, v);
        }
      }
    }
  }

  /** A key under which both have a dictionary: what is deleted there has been listed. */
  lemma ListedBelow(old_: Plist, new_: Plist, path: Path, done: set<string>, before: seq<Plist>, mid: seq<Plist>,
      after: seq<Plist>, k: string)
    requires old_.Dict? && new_.Dict? && Listed(old_, new_, path, done, before, mid) && BothDicts(old_, new_, k)
    requires Listed(old_.d[k], new_.d[k], path + [k], old_.d[k].d.Keys + new_.d[k].d.Keys, mid, after)
    ensures Listed(old_, new_, path, done + {k}, before, after)
  {
    hide IsDeleted, KeyPath;
    forall x
      ensures x in after <==>
              x in before || exists v :: DeletedAt(old_, new_, done + {k}, v) && x == Str(KeyPath(path + v))
    {
      var done' := old_.d[k].d.Keys + new_.d[k].d.Keys;
      if u :| DeletedAt(old_.d[k], new_.d[k], done', u) && x == Str(KeyPath(path + [k] + u)) {
        DifferenceBelow(old_, new_, k, u);
        assert path + [k] + u == path + ([k] + u) && DeletedAt(old_, new_, done + {k}, [k] + u);
      }
      if v :| DeletedAt(old_, new_, done + {k}, v) && x == Str(KeyPath(path + v)) {
        DifferenceHasKeys(old_, new_, v);
        if v[0] == k {
          BelowKey(old_, new_, path, v);
          DifferenceBelow(old_, new_, k, v[1..]);
          KeyOfDifference(old_.d[k], new_.d[k], v[1..]);
        }
      }
    }
  }

  lemma KeyOfDifference(old_: Plist, new_: Plist, v: Path)
    requires old_.Dict? && new_.Dict?
    ensures IsDeleted(old_, new_, v) ==> v != [] && v[0] in old_.d
    ensures IsChanged(old_, new_, v) ==> v != [] && v[0] in new_.d
  {
  }

  lemma CollectedNone(old_: Plist, new_: Plist, path: Path, done: set<string>, before: Dictionary,
      after: Dictionary, k: string)
    requires old_.Dict? && new_.Dict? && Collected(old_, new_, path, done, before, after)
    requires !BothDicts(old_, new_, k) && k in new_.d && k in old_.d && old_.d[k] == new_.d[k]
    ensures Collected(old_, new_, path, done + {k}, before, after)
  {
    hide IsChanged, KeyPath, ChangedTo;
    forall v ensures ChangedAt(old_, new_, done + {k}, v) <==> ChangedAt(old_, new_, done, v) {
      if v != [] && v[0] == k {
        AtOneKey(old_, new_, v);
      }
    }
  }

  lemma SameFirstKey(path: Path, u: Path, v: Path)
    requires u != [] && v != [] && KeyPath(path + u) == KeyPath(path + v)
    ensures u[0] == v[0]
  {
    KeyPathInjective(path + u, path + v);
    assert (path + u)[|path|] == u[0] && (path + v)[|path|] == v[0];
  }

  /** No entry below a key that has not been looked at can be there. */
  lemma NotYet(old_: Plist, new_: Plist, path: Path, done: set<string>, before: Dictionary,
      after: Dictionary, k: string)
    requires old_.Dict? && new_.Dict? && Collected(old_, new_, path, done, before, after)
    requires Unused(path, before) && k !in done
    ensures Unused(path + [k], after) && KeyPath(path + [k]) !in after
  {
    hide IsChanged, KeyPath;
    forall u: Path ensures KeyPath(path + ([k] + u)) !in after {
      if KeyPath(path + ([k] + u)) in after {
        assert KeyPath(path + ([k] + u)) !in before;
        var v :| ChangedAt(old_, new_, done, v) && KeyPath(path + ([k] + u)) == KeyPath(path + v);
        DifferenceHasKeys(old_, new_, v);
        SameFirstKey(path, [k] + u, v);
      }
    }
    forall u: Path ensures path + [k] + u == path + ([k] + u) {
    }
    assert path + ([k] + []) == path + [k];
  }

  lemma CollectedOne(old_: Plist, new_: Plist, path: Path, done: set<string>, before: Dictionary,
      after: Dictionary, k: string)
    requires old_.Dict? && new_.Dict? && Collected(old_, new_, path, done, before, after)
    requires k in new_.d && !BothDicts(old_, new_, k) && (k in old_.d ==> old_.d[k] != new_.d[k])
    requires KeyPath(path + [k]) !in after
    ensures Collected(old_, new_, path, done + {k}, before, after[KeyPath(path + [k]) := new_.d[k]])
  {
    hide IsChanged, KeyPath, ChangedTo;
    var item := KeyPath(path + [k]);
    var all := after[item := new_.d[k]];
    AtOneKey(old_, new_, [k]);
    assert ChangedAt(old_, new_, done + {k}, [k]);
    forall v | ChangedAt(old_, new_, done + {k}, v)
      ensures KeyPath(path + v) in all && all[KeyPath(path + v)] == ChangedTo(old_, new_, v)
    {
      DifferenceHasKeys(old_, new_, v);
      if v[0] == k {
        AtOneKey(old_, new_, v);
      }
    }
  }

  lemma CollectedBelow(old_: Plist, new_: Plist, path: Path, done: set<string>, before: Dictionary, mid: Dictionary,
      after: Dictionary, k: string)
    requires old_.Dict? && new_.Dict? && Collected(old_, new_, path, done, before, mid) && BothDicts(old_, new_, k)
    requires Collected(old_.d[k], new_.d[k], path + [k], new_.d[k].d.Keys, mid, after)
    ensures Collected(old_, new_, path, done + {k}, before, after)
  {
    hide IsChanged, KeyPath, ChangedTo;
    forall x | x in after
      ensures x in before || exists v :: ChangedAt(old_, new_, done + {k}, v) && x == KeyPath(path + v)
    {
      if x !in mid {
        var u :| ChangedAt(old_.d[k], new_.d[k], new_.d[k].d.Keys, u) && x == KeyPath(path + [k] + u);
        DifferenceBelow(old_, new_, k, u);
        assert path + [k] + u == path + ([k] + u) && ChangedAt(old_, new_, done + {k}, [k] + u);
      }
    }
    forall v | ChangedAt(old_, new_, done + {k}, v)
      ensures KeyPath(path + v) in after && after[KeyPath(path + v)] == ChangedTo(old_, new_, v)
    {
      DifferenceHasKeys(old_, new_, v);
      if v[0] == k {
        BelowKey(old_, new_, path, v);
        DifferenceBelow(old_, new_, k, v[1..]);
        KeyOfDifference(old_.d[k], new_.d[k], v[1..]);
      }
    }
  }

  /** `delta_plist_helper`: adds what differs below `path` to `changed` and `deleted`. */
  method DeltaHelper(old_: Plist, new_: Plist, changed: Dictionary, deleted: seq<Plist>, path: Path)
      returns (changed': Dictionary, deleted': seq<Plist>)
    requires old_.Dict? && new_.Dict? && Unused(path, changed)
    ensures Collected(old_, new_, path, new_.d.Keys, changed, changed')
    ensures Listed(old_, new_, path, old_.d.Keys + new_.d.Keys, deleted, deleted')
    decreases new_
  {
    hide Collected, Listed, Unused, KeyPath;
    changed', deleted' := changed, deleted;
    NothingYet(old_, new_, path, changed, deleted);
    var deletedKeys := old_.d.Keys - new_.d.Keys;
    assert old_.d.Keys - new_.d.Keys - deletedKeys == {};
    while deletedKeys != {}
      invariant deletedKeys <= old_.d.Keys - new_.d.Keys
      invariant Listed(old_, new_, path, old_.d.Keys - new_.d.Keys - deletedKeys, deleted, deleted')
    {
      var key :| key in deletedKeys;
      ListedOne(old_, new_, path, old_.d.Keys - new_.d.Keys - deletedKeys, deleted, deleted', key);
      assert old_.d.Keys - new_.d.Keys - (deletedKeys - {key}) == old_.d.Keys - new_.d.Keys - deletedKeys + {key};
      var item := JoinPath(path + [key]);
      deleted' := deleted' + [Str(item)];
      deletedKeys := deletedKeys - {key};
    }

    ghost var gone := old_.d.Keys - new_.d.Keys;
    ghost var done: set<string> := {};
    assert gone - deletedKeys == gone + done;
    var todo := new_.d.Keys;
    while todo != {}
      invariant todo <= new_.d.Keys && done == new_.d.Keys - todo
      invariant Collected(old_, new_, path, done, changed, changed')
      invariant Listed(old_, new_, path, gone + done, deleted, deleted')
    {
      var key :| key in todo;
      todo := todo - {key};
      NotYet(old_, new_, path, done, changed, changed', key);
      ghost var c, d := changed', deleted';
      if BothDicts(old_, new_, key) {
        changed', deleted' := DeltaHelper(old_.d[key], new_.d[key], changed', deleted', path + [key]);
        CollectedBelow(old_, new_, path, done, changed, c, changed', key);
        ListedBelow(old_, new_, path, gone + done, deleted, d, deleted', key);
      } else {
        ListedNone(old_, new_, path, gone + done, deleted, d, key);
        if key !in old_.d || old_.d[key] != new_.d[key] {
          var item := JoinPath(path + [key]);
          CollectedOne(old_, new_, path, done, changed, c, key);
          changed' := Emplaced(changed', item, new_.d[key]);
        } else {
          CollectedNone(old_, new_, path, done, changed, c, key);
        }
      }
      assert gone + (done + {key}) == gone + done + {key};
      done := done + {key};
    }
    assert done == new_.d.Keys && gone + done == old_.d.Keys + new_.d.Keys;
  }

  /** `std::map::emplace` leaves an entry that is there alone. */
  function Emplaced(m: Dictionary, k: string, value: Plist): Dictionary {
    if k in m then m else m[k := value]
  }

  lemma NothingYet(old_: Plist, new_: Plist, path: Path, changed: Dictionary, deleted: seq<Plist>)
    requires old_.Dict? && new_.Dict?
    ensures Collected(old_, new_, path, {}, changed, changed)
    ensures Listed(old_, new_, path, {}, deleted, deleted)
  {
  }

  method CreateDelta(oldDict: Dictionary, newDict: Dictionary) returns (res: Dictionary)
    ensures IsDeltaOf(res, oldDict, newDict)
  {
    var changed, deleted := DeltaHelper(Dict(oldDict), Dict(newDict), map[], [], []);
    WholeChanged(Dict(oldDict), Dict(newDict), changed);
    WholeDeleted(Dict(oldDict), Dict(newDict), deleted);
    res := map["isDelta" := Bool(true)];
    if changed != map[] {
      res := res["changed" := Dict(changed)];
    }
    if deleted != [] {
      res := res["deleted" := Array(deleted)];
    }
    if "uuid" in oldDict {
      res := res["uuid" := oldDict["uuid"]];
    }
  }

  lemma HasEntry(m: Dictionary, k: string, s: seq<Plist>, x: Plist)
    ensures k in m ==> m != map[]
    ensures x in s ==> s != []
  {
  }

  lemma WholeChanged(old_: Plist, new_: Plist, changed: Dictionary)
    requires old_.Dict? && new_.Dict? && Collected(old_, new_, [], new_.d.Keys, map[], changed)
    ensures HoldsChanged(changed, old_, new_)
    ensures changed != map[] ==> exists v :: IsChanged(old_, new_, v)
    ensures (exists v :: IsChanged(old_, new_, v)) ==> changed != map[]
  {
    hide IsChanged, KeyPath, ChangedTo;
    forall v: Path
      ensures [] + v == v
      ensures ChangedAt(old_, new_, new_.d.Keys, v) <==> IsChanged(old_, new_, v)
    {
      KeyOfDifference(old_, new_, v);
    }
    forall v | IsChanged(old_, new_, v)
      ensures KeyPath(v) in changed && changed[KeyPath(v)] == ChangedTo(old_, new_, v)
    {
      assert ChangedAt(old_, new_, new_.d.Keys, v) && KeyPath([] + v) in changed;
    }
    if changed != map[] {
      var k :| k in changed;
      assert exists v :: ChangedAt(old_, new_, new_.d.Keys, v) && k == KeyPath([] + v);
    }
    if v :| IsChanged(old_, new_, v) {
      HasEntry(changed, KeyPath(v), [], Str(""));
    }
  }

  lemma WholeDeleted(old_: Plist, new_: Plist, deleted: seq<Plist>)
    requires old_.Dict? && new_.Dict? && Listed(old_, new_, [], old_.d.Keys + new_.d.Keys, [], deleted)
    ensures ListsDeleted(deleted, old_, new_)
    ensures deleted != [] ==> exists v :: IsDeleted(old_, new_, v)
    ensures (exists v :: IsDeleted(old_, new_, v)) ==> deleted != []
  {
    hide IsDeleted, KeyPath;
    forall v: Path
      ensures [] + v == v
      ensures DeletedAt(old_, new_, old_.d.Keys + new_.d.Keys, v) <==> IsDeleted(old_, new_, v)
    {
      KeyOfDifference(old_, new_, v);
    }
    forall x ensures x in deleted <==> NamesDeleted(x, old_, new_) {
      if v :| IsDeleted(old_, new_, v) && x == Str(KeyPath(v)) {
        assert DeletedAt(old_, new_, old_.d.Keys + new_.d.Keys, v) && x == Str(KeyPath([] + v));
      }
    }
    if deleted != [] {
      assert NamesDeleted(deleted[0], old_, new_);
      var v :| IsDeleted(old_, new_, v) && deleted[0] == Str(KeyPath(v));
    }
    if v :| IsDeleted(old_, new_, v) {
      assert NamesDeleted(Str(KeyPath(v)), old_, new_);
      HasEntry(map[], "", deleted, Str(KeyPath(v)));
    }
  }

  method MergeDelta(plists: seq<Dictionary>) returns (r: Dictionary)
    ensures Merged(plists, r)
  {
    hide Applied;
    var res: Dictionary, didFindNonDelta := map[], false;
    var i := |plists|;
    assert plists[i..] == [];
    while i > 0
      invariant 0 <= i <= |plists| && Taken(plists[i..], res, didFindNonDelta)
    {
      i := i - 1;
      var plist := plists[i];
      assert plists[i..][0] == plist && plists[i..][1..] == plists[i + 1..];
      ghost var p, f := res, didFindNonDelta;
      if "isDelta" in plist {
        res := ApplyDelta(plist, res);
      } else {
        res, didFindNonDelta := plist, true;
      }
      assert Turn(plist, p, f, res, didFindNonDelta);
    }
    assert plists[0..] == plists;
    return if didFindNonDelta then res else map[];
  }

  /** A dictionary that is itself marked as a delta is lost: what `create_delta` makes from it does not
      lead to the new one. */
  method MarkedOriginIsLost() returns (oldDict: Dictionary, newDict: Dictionary, delta: Dictionary, r: Dictionary)
    ensures oldDict == map["isDelta" := Bool(true)] && newDict == map["name" := Str("x")]
    ensures IsDeltaOf(delta, oldDict, newDict) && Merged([delta, oldDict], r) && r != newDict
  {
    hide IsDeltaOf, Merged;
    oldDict, newDict := map["isDelta" := Bool(true)], map["name" := Str("x")];
    delta := CreateDelta(oldDict, newDict);
    r := MergeDelta([delta, oldDict]);
    RoundTrip(delta, oldDict, newDict, r);
    assert "isDelta" in oldDict && "name" in newDict;
  }

  method ApplyDelta(delta: Dictionary, p: Dictionary) returns (res: Dictionary)
    ensures Applied(delta, p, res)
  {
    hide UpdateAll, EraseAll, Parsed;
    res := p;
    if "deleted" in delta && delta["deleted"].Array? {
      res := EraseItems(p, delta["deleted"].items);
    }
    var q := res;
    assert q == WithoutDeleted(delta, p);
    if "changed" in delta && delta["changed"].Dict? {
      ghost var keys;
      res, keys := UpdateItems(q, delta["changed"].d);
      assert Updates(q, delta["changed"].d, keys, res);
    }
  }

  method EraseItems(p: Dictionary, deleted: seq<Plist>) returns (res: Dictionary)
    ensures res == EraseAll(p, deleted)
  {
    res := p;
    for i := 0 to |deleted|
      invariant res == EraseAll(p, deleted[..i])
    {
      assert deleted[..i + 1][..i] == deleted[..i];
      if deleted[i].Str? {
        res := EraseKeyPath(res, deleted[i].s);
      }
    }
    assert deleted[..|deleted|] == deleted;
  }

  method UpdateItems(p: Dictionary, changed: Dictionary) returns (res: Dictionary, ghost keys: seq<string>)
    ensures Updates(p, changed, keys, res)
  {
    res, keys := p, [];
    var todo := changed.Keys;
    while todo != {}
      invariant todo <= changed.Keys && forall k :: k in keys <==> k in changed.Keys - todo
      invariant forall i, j | 0 <= i < j < |keys| :: keys[i] != keys[j]
      invariant res == UpdateAll(p, keys, changed)
    {
      var k :| k in todo;
      assert k !in keys;
      todo := todo - {k};
      res := UpdateKeyPath(res, k, changed[k]);
      assert (keys + [k])[..|keys|] == keys;
      keys := keys + [k];
    }
  }
}
