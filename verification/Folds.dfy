/** Folded ranges of the text: `folds_t`. */
module Folds {

  import opened IndexedMaps
  import opened Sets

  datatype Fold = Fold(first: nat, last: nat)

  /** Half-open ranges of which one contains the other, or that have nothing in common. */
  predicate Apart(a: Fold, b: Fold) {
    a.last <= b.first || b.last <= a.first || (a.first <= b.first && b.last <= a.last) ||
        (b.first <= a.first && a.last <= b.last)
  }

  /** Not empty, inside the text, and pairwise nested or disjoint. */
  predicate Tidy(folds: seq<Fold>, size: nat) {
    (forall i | 0 <= i < |folds| :: folds[i].first < folds[i].last <= size) &&
    forall i, j | 0 <= i < j < |folds| :: Apart(folds[i], folds[j])
  }

  predicate Ordered(a: Fold, b: Fold) {
    a.first < b.first || (a.first == b.first && a.last <= b.last)
  }

  ghost predicate Sorted(folds: seq<Fold>) {
    forall i, j | 0 <= i < j < |folds| :: Ordered(folds[i], folds[j])
  }

  /** Position `x` is inside a fold. */
  ghost predicate Covered(folds: seq<Fold>, x: int) {
    exists i :: 0 <= i < |folds| && folds[i].first <= x < folds[i].last
  }

  /** The union of all folds begins or ends at `x`. */
  ghost predicate Turns(folds: seq<Fold>, x: int) {
    Covered(folds, x) != Covered(folds, x - 1)
  }

  /** Where the union of all folds begins (true) and ends (false). */
  ghost predicate Outlines(folds: seq<Fold>, m: map<int, bool>) {
    forall x: int {:trigger x in m} :: (x in m <==> Turns(folds, x)) && (x in m ==> m[x] == Covered(folds, x))
  }

  // ---- how many folds a position is in --------------------------------------------------

  /** Folds that have begun by `x`, less those that have ended. */
  function Level(folds: seq<Fold>, x: int): int {
    if folds == [] then 0
    else
      var f := folds[|folds| - 1];
      Level(folds[..|folds| - 1], x) + (if f.first <= x then 1 else 0) - (if f.last <= x then 1 else 0)
  }

  /** Folds that begin at `x`, less those that end there. */
  function Net(folds: seq<Fold>, x: int): int {
    if folds == [] then 0
    else
      var f := folds[|folds| - 1];
      Net(folds[..|folds| - 1], x) + (if f.first == x then 1 else 0) - (if f.last == x then 1 else 0)
  }

  /** No fold ends before it begins. */
  predicate Forward(folds: seq<Fold>) {
    forall i | 0 <= i < |folds| :: folds[i].first <= folds[i].last
  }

  lemma {:induction false} NetIsStep(folds: seq<Fold>, x: int)
    ensures Level(folds, x) == Level(folds, x - 1) + Net(folds, x)
  {
    if folds != [] {
      NetIsStep(folds[..|folds| - 1], x);
    }
  }

  /** Between two positions where folds begin or end the level is the same. */
  lemma {:induction false} SameLevel(folds: seq<Fold>, a: int, b: int)
    requires a <= b && forall x | a < x <= b :: Net(folds, x) == 0
    ensures Level(folds, a) == Level(folds, b)
    decreases b - a
  {
    if a < b {
      SameLevel(folds, a, b - 1);
      NetIsStep(folds, b);
    }
  }

  /** Before all ends the level is 0, and so it is behind them. */
  lemma {:induction false} NoLevelOutside(folds: seq<Fold>, x: int)
    requires (forall i | 0 <= i < |folds| :: x < folds[i].first && x < folds[i].last) ||
             (forall i | 0 <= i < |folds| :: folds[i].first <= x && folds[i].last <= x)
    ensures Level(folds, x) == 0
  {
    if folds != [] {
      var rest := folds[..|folds| - 1];
      assert forall i | 0 <= i < |rest| :: rest[i] == folds[i];
      NoLevelOutside(rest, x);
    }
  }

  /** If no fold ends before it begins, the level counts the folds around a position. */
  lemma {:induction false} LevelIsCovered(folds: seq<Fold>, x: int)
    requires Forward(folds)
    ensures Level(folds, x) >= 0 && (Level(folds, x) > 0 <==> Covered(folds, x))
  {
    if folds != [] {
      var rest := folds[..|folds| - 1];
      assert forall i | 0 <= i < |rest| :: rest[i] == folds[i];
      LevelIsCovered(rest, x);
      if Covered(rest, x) {
        var i :| 0 <= i < |rest| && rest[i].first <= x < rest[i].last;
        assert folds[i] == rest[i];
      }
      if Covered(folds, x) {
        var i :| 0 <= i < |folds| && folds[i].first <= x < folds[i].last;
        assert i < |rest| ==> rest[i] == folds[i];
      }
    }
  }

  // ---- what the boundary list is, whatever the folds ---------------------------------------

  /** The level leaves 0 upwards, or comes back to 0. */
  predicate Crosses(folds: seq<Fold>, x: int) {
    (Level(folds, x - 1) == 0 < Level(folds, x)) || (Net(folds, x) != 0 && Level(folds, x) == 0)
  }

  ghost predicate Marked(folds: seq<Fold>, m: map<int, bool>) {
    forall x: int {:trigger x in m} :: (x in m <==> Crosses(folds, x)) && (x in m ==> m[x] == (Level(folds, x) > 0))
  }

  /** Positions inside folds, and no others, have a level; and where a run of them begins it is positive. */
  ghost predicate Balanced(folds: seq<Fold>) {
    forall x: int :: BalancedAt(folds, x)
  }

  ghost predicate BalancedAt(folds: seq<Fold>, x: int) {
    (Covered(folds, x) <==> Level(folds, x) != 0) &&
    (Covered(folds, x) && !Covered(folds, x - 1) ==> Level(folds, x) > 0)
  }

  lemma ForwardIsBalanced(folds: seq<Fold>)
    requires Forward(folds)
    ensures Balanced(folds)
  {
    forall x: int ensures BalancedAt(folds, x) {
      LevelIsCovered(folds, x);
    }
  }

  /** The boundary list is that of the union of all folds if and only if the folds are balanced. */
  lemma OutlinesExactly(folds: seq<Fold>, m: map<int, bool>)
    requires Marked(folds, m)
    ensures Outlines(folds, m) <==> Balanced(folds)
  {
    hide BalancedAt, Turns, Crosses, Covered, Level;
    if Balanced(folds) {
      forall x: int ensures (x in m <==> Turns(folds, x)) && (x in m ==> m[x] == Covered(folds, x)) {
        assert BalancedAt(folds, x) && BalancedAt(folds, x - 1);
        TurnsHere(folds, x);
      }
    }
    if Outlines(folds, m) {
      forall x: int ensures BalancedAt(folds, x) {
        OutlinesBalance(folds, m, x);
        OutlinesBalance(folds, m, x - 1);
        BalancedHere(folds, x, x in m);
      }
    }
  }

  lemma TurnsHere(folds: seq<Fold>, x: int)
    requires BalancedAt(folds, x) && BalancedAt(folds, x - 1)
    ensures Crosses(folds, x) <==> Turns(folds, x)
    ensures Crosses(folds, x) ==> (Level(folds, x) > 0 <==> Covered(folds, x))
  {
    hide Covered, Level, Net;
    NetIsStep(folds, x);
  }

  lemma BalancedHere(folds: seq<Fold>, x: int, turns: bool)
    requires (Covered(folds, x) <==> Level(folds, x) != 0) && (Covered(folds, x - 1) <==> Level(folds, x - 1) != 0)
    requires (turns <==> Turns(folds, x)) && (turns ==> (Level(folds, x) > 0 <==> Covered(folds, x)))
    ensures BalancedAt(folds, x)
  {
    hide Covered, Level, Net;
  }

  lemma {:induction false} OutlinesBalance(folds: seq<Fold>, m: map<int, bool>, x: int)
    requires Marked(folds, m) && Outlines(folds, m)
    ensures Covered(folds, x) <==> Level(folds, x) != 0
    decreases if x < 0 then 0 else x + 1
  {
    if x < 0 {
      NoLevelOutside(folds, x);
    } else {
      hide Covered, Level, Net;
      OutlinesBalance(folds, m, x - 1);
      NetIsStep(folds, x);
      NeverComesBack(folds, m, x);
      assert x in m <==> Turns(folds, x);
      assert x in m <==> Crosses(folds, x);
    }
  }

  /** Outside all folds, the level could only come back to 0 with a mark that does not belong there. */
  lemma {:induction false} NeverComesBack(folds: seq<Fold>, m: map<int, bool>, x: int)
    requires Marked(folds, m) && Outlines(folds, m)
    ensures Covered(folds, x) || Level(folds, x) == 0
    decreases if x < EndOfAll(folds) then EndOfAll(folds) - x else 0
  {
    hide Covered, Level, Net, EndOfAll;
    if x >= EndOfAll(folds) {
      NoLevelOutside(folds, x);
    } else if !Covered(folds, x) {
      NeverComesBack(folds, m, x + 1);
      NetIsStep(folds, x + 1);
      assert x + 1 in m <==> Crosses(folds, x + 1);
      assert x + 1 in m <==> Turns(folds, x + 1);
    }
  }

  function EndOfAll(folds: seq<Fold>): (n: nat)
    ensures forall i | 0 <= i < |folds| :: folds[i].first <= n && folds[i].last <= n
  {
    if folds == [] then 0
    else
      var n, f := EndOfAll(folds[..|folds| - 1]), folds[|folds| - 1];
      assert forall i | 0 <= i < |folds| - 1 :: folds[i] == folds[..|folds| - 1][i];
      n + f.first + f.last
  }

  /** A fold that ends before it begins spoils the list. */
  lemma BackwardFoldShows(m: map<int, bool>)
    requires Marked([Fold(5, 3)], m)
    ensures 5 in m && !m[5] && !Covered([Fold(5, 3)], 5) && !Covered([Fold(5, 3)], 4) && !Outlines([Fold(5, 3)], m)
  {
    var folds := [Fold(5, 3)];
    assert folds[..0] == [];
    assert Net(folds, 5) == 1 && Level(folds, 5) == 0;
    assert Crosses(folds, 5);
    assert !Turns(folds, 5);
  }

  // ---- `set_folded` -------------------------------------------------------------------------

  /** `tmp` counts the beginnings and the ends at every position that is one. */
  ghost predicate Counts(folds: seq<Fold>, tmp: map<int, int>) {
    (forall x :: Net(folds, x) == if x in tmp then tmp[x] else 0) &&
    (forall i | 0 <= i < |folds| :: folds[i].first in tmp && folds[i].last in tmp)
  }

  /** `level` is the level from the last position that is done up to the next. */
  ghost predicate AtLevel(folds: seq<Fold>, tmp: map<int, int>, todo: set<int>, level: int) {
    forall x {:trigger Level(folds, x)} |
      (forall t | t in todo :: x < t) && (forall d | d in tmp && d !in todo :: d <= x) :: Level(folds, x) == level
  }

  ghost predicate MarkedOf(folds: seq<Fold>, done: set<int>, m: map<int, bool>) {
    forall x: int {:trigger x in m} :: (x in m <==> x in done && Crosses(folds, x)) &&
        (x in m ==> m[x] == (Level(folds, x) > 0))
  }

  lemma CountOne(folds: seq<Fold>, n: nat, tmp: map<int, int>)
    requires n < |folds| && Counts(folds[..n], tmp)
    ensures var a := tmp[folds[n].first := (if folds[n].first in tmp then tmp[folds[n].first] else 0) + 1];
            Counts(folds[..n + 1], a[folds[n].last := (if folds[n].last in a then a[folds[n].last] else 0) - 1])
  {
    assert folds[..n + 1][..n] == folds[..n];
  }

  /** The least position that is left: what changes there. */
  lemma LevelStep(folds: seq<Fold>, tmp: map<int, int>, todo: set<int>, k: int, level: int)
    requires Counts(folds, tmp) && AtLevel(folds, tmp, todo, level) && IsLeast(todo, k) && k in tmp
    requires forall d | d in tmp && d !in todo :: d < k
    ensures level == Level(folds, k - 1) && level + tmp[k] == Level(folds, k) && tmp[k] == Net(folds, k)
    ensures AtLevel(folds, tmp, todo - {k}, level + tmp[k])
  {
    NetIsStep(folds, k);
    assert Level(folds, k - 1) == level;
    forall x | (forall t | t in todo - {k} :: x < t) && (forall d | d in tmp && d !in todo - {k} :: d <= x)
      ensures Level(folds, x) == level + tmp[k]
    {
      assert k <= x;
      forall y | k < y <= x ensures Net(folds, y) == 0 {
        assert y in tmp ==> y in todo - {k} || y < k;
      }
      SameLevel(folds, k, x);
    }
  }

  lemma MarkStep(folds: seq<Fold>, done: set<int>, m: map<int, bool>, k: int, level: int, net: int)
    requires MarkedOf(folds, done, m) && k !in done
    requires level == Level(folds, k - 1) && level + net == Level(folds, k) && net == Net(folds, k)
    ensures MarkedOf(folds, done + {k},
                     if net > 0 && level == 0 then m[k := true]
                     else if net != 0 && level + net == 0 then m[k := false] else m)
  {
    hide Level, Net;
  }

  lemma FirstLevel(folds: seq<Fold>, tmp: map<int, int>)
    requires Counts(folds, tmp)
    ensures AtLevel(folds, tmp, tmp.Keys, 0) && MarkedOf(folds, {}, map[])
  {
    forall x | forall t | t in tmp.Keys :: x < t ensures Level(folds, x) == 0 {
      NoLevelOutside(folds, x);
    }
  }

  lemma AllMarked(folds: seq<Fold>, tmp: map<int, int>, m: map<int, bool>)
    requires Counts(folds, tmp) && MarkedOf(folds, tmp.Keys, m)
    ensures Marked(folds, m)
  {
    forall x: int | x !in tmp ensures !Crosses(folds, x) {
      NetIsStep(folds, x);
    }
  }

  /** Stands for `std::sort` of pairs. */
  method Sort(folds: seq<Fold>) returns (r: seq<Fold>)
    ensures Sorted(r) && multiset(r) == multiset(folds)
  {
    r := [];
    for i := 0 to |folds|
      invariant Sorted(r) && multiset(r) == multiset(folds[..i])
    {
      var at := 0;
      while at < |r| && Ordered(r[at], folds[i])
        invariant 0 <= at <= |r| && forall k | 0 <= k < at :: Ordered(r[k], folds[i])
      {
        at := at + 1;
      }
      InsertedInOrder(r, at, folds[i]);
      InsertedOnce(r, at, folds[i]);
      assert folds[..i + 1] == folds[..i] + [folds[i]];
      r := r[..at] + [folds[i]] + r[at..];
    }
    assert folds[..|folds|] == folds;
  }

  lemma InsertedInOrder(r: seq<Fold>, at: nat, f: Fold)
    requires Sorted(r) && at <= |r| && (at < |r| ==> Ordered(f, r[at])) && forall k | 0 <= k < at :: Ordered(r[k], f)
    ensures Sorted(r[..at] + [f] + r[at..])
  {
    var s := r[..at] + [f] + r[at..];
    forall i, j | 0 <= i < j < |s| ensures Ordered(s[i], s[j]) {
      assert at <= i - 1 ==> Ordered(r[i - 1], r[j - 1]);
      assert i == at && at < |r| ==> Ordered(r[at], r[j - 1]) || j - 1 == at;
      assert j < at ==> Ordered(r[i], r[j]);
      assert i < at < j ==> Ordered(r[i], r[j - 1]);
    }
  }

  lemma InsertedOnce(r: seq<Fold>, at: nat, f: Fold)
    requires at <= |r|
    ensures multiset(r[..at] + [f] + r[at..]) == multiset(r) + multiset{f}
  {
    assert r == r[..at] + r[at..];
  }

  class Foldings {
    var folded: seq<Fold>
    const legacy: IndexedMap<bool>

    /** The list of boundaries that the layout reads is always that of the counts. */
    ghost predicate Valid()
      reads this, legacy
    {
      Sorted(folded) && legacy.Valid() && Marked(folded, legacy.Contents())
    }

    constructor ()
      ensures Valid() && folded == [] && legacy.Contents() == map[] && fresh(legacy)
    {
      folded := [];
      legacy := new IndexedMap();
    }

    method CountEnds() returns (tmp: map<int, int>)
      ensures Counts(folded, tmp)
    {
      tmp := map[];
      for i := 0 to |folded|
        invariant Counts(folded[..i], tmp)
      {
        CountOne(folded, i, tmp);
        var f := folded[i];
        tmp := tmp[f.first := (if f.first in tmp then tmp[f.first] else 0) + 1];
        tmp := tmp[f.last := (if f.last in tmp then tmp[f.last] else 0) - 1];
      }
      assert folded[..|folded|] == folded;
    }

    /** The loop over the counts, in the order of their positions. */
    method MarkLevels(tmp: map<int, int>)
      requires Counts(folded, tmp) && legacy.Valid() && legacy.Contents() == map[]
      modifies legacy
      ensures legacy.Valid() && Marked(folded, legacy.Contents())
    {
      hide Counts, AtLevel, MarkedOf, Crosses, Level, Net, Abs, Entries, Ascending;
      var todo := tmp.Keys;
      var level := 0;
      FirstLevel(folded, tmp);
      assert tmp.Keys - todo == {};
      while todo != {}
        invariant todo <= tmp.Keys && AtLevel(folded, tmp, todo, level)
        invariant forall d, t | d in tmp && d !in todo && t in todo :: d < t
        invariant legacy.Valid() && MarkedOf(folded, tmp.Keys - todo, legacy.Contents())
      {
        LeastExists(todo);
        var k :| k in todo && forall j | j in todo :: k <= j;
        LevelStep(folded, tmp, todo, k, level);
        MarkStep(folded, tmp.Keys - todo, legacy.Contents(), k, level, tmp[k]);
        assert tmp.Keys - todo + {k} == tmp.Keys - (todo - {k});
        todo := todo - {k};
        if tmp[k] != 0 {
          if level == 0 && tmp[k] > 0 {
            legacy.Set(k, true);
          }
          level := level + tmp[k];
          if level == 0 {
            legacy.Set(k, false);
          }
        }
      }
      assert tmp.Keys - todo == tmp.Keys;
      AllMarked(folded, tmp, legacy.Contents());
    }

    method SetFolded(newFoldings: seq<Fold>)
      requires Valid()
      modifies this, legacy
      ensures Valid() && multiset(folded) == multiset(newFoldings)
      ensures Outlines(folded, legacy.Contents()) <==> Balanced(folded)
      ensures Forward(newFoldings) ==> Forward(folded) && Balanced(folded)
    {
      hide Abs, Covered, Level, Net, Crosses, Outlines, Balanced;
      if folded != newFoldings {
        folded := Sort(newFoldings);
        var tmp := CountEnds();
        legacy.Clear();
        MarkLevels(tmp);
      }
      SameFolds(newFoldings, folded);
      OutlinesExactly(folded, legacy.Contents());
      if Forward(folded) {
        ForwardIsBalanced(folded);
      }
    }

    /** The callback before an edit that replaces [from, to) by `len` bytes; `size` is the text's. */
    method WillReplace(from: nat, to: nat, len: nat, ghost size: nat)
      requires Valid() && Forward(folded) && from <= to <= size
      modifies this, legacy
      ensures Valid() && Forward(folded) && Outlines(folded, legacy.Contents())
      ensures multiset(folded) == multiset(Edited(old(folded), from, to, len))
      ensures Follow(old(folded), folded, from, to, len)
      ensures old(Tidy(folded, size)) ==> Tidy(folded, size + len - (to - from))
    {
      hide Abs, Covered, Level, Net, Crosses, Marked, Outlines, Balanced, Tidy, Edited, Forward, ComeFrom;
      ghost var was := folded;
      var newFoldings := Survivors(from, to, len);
      ghost var origin := EditedExactly(was, from, to, len);
      if Tidy(was, size) {
        EditedTidy(was, from, to, len, size);
      }
      SetFolded(newFoldings);
      if Tidy(was, size) {
        TidyAnyOrder(newFoldings, folded, size + len - (to - from));
      }
    }

    /** The folds of the edited text. */
    method Survivors(from: nat, to: nat, len: nat) returns (newFoldings: seq<Fold>)
      requires Forward(folded) && from <= to
      ensures Forward(newFoldings) && newFoldings == Edited(folded, from, to, len)
    {
      newFoldings := [];
      var delta := len - (to - from);
      for i := 0 to |folded|
        invariant Forward(newFoldings) && newFoldings == Edited(folded[..i], from, to, len)
      {
        assert folded[..i + 1][..i] == folded[..i];
        var foldFrom, foldTo := folded[i].first, folded[i].last;
        if to <= foldFrom {
          newFoldings := newFoldings + [Fold(foldFrom + delta, foldTo + delta)];
        } else if foldFrom <= from && to <= foldTo && delta != foldFrom - foldTo {
          newFoldings := newFoldings + [Fold(foldFrom, foldTo + delta)];
        } else if foldTo <= from {
          newFoldings := newFoldings + [Fold(foldFrom, foldTo)];
        }
      }
      assert folded[..|folded|] == folded;
    }
  }

  // ---- `will_replace` ---------------------------------------------------------------------

  /** Whether a fold survives an edit: it lies behind, or before, or holds all of it and is not empty then. */
  predicate Survives(f: Fold, from: nat, to: nat, len: nat) {
    to <= f.first || f.last <= from || (f.first <= from && to <= f.last && len - (to - from) != f.first - f.last)
  }

  /** Where an end of a fold is after an edit. */
  function Shifted(x: nat, from: nat, to: nat, len: nat): nat
    requires from <= to
  {
    if to <= x then x + len - (to - from) else x
  }

  function Edited(folds: seq<Fold>, from: nat, to: nat, len: nat): seq<Fold>
    requires from <= to
  {
    if folds == [] then []
    else
      var f := folds[|folds| - 1];
      Edited(folds[..|folds| - 1], from, to, len) +
      if Survives(f, from, to, len) then [Fold(Shifted(f.first, from, to, len), Shifted(f.last, from, to, len))] else []
  }

  /** A surviving fold is not empty, and does not begin or end inside the edit. */
  lemma SurvivorShape(f: Fold, from: nat, to: nat, len: nat, size: nat)
    requires from <= to <= size && f.first < f.last <= size && Survives(f, from, to, len)
    ensures (f.first <= from || to <= f.first) && (f.last <= from || to <= f.last)
    ensures Shifted(f.first, from, to, len) < Shifted(f.last, from, to, len) <= size + len - (to - from)
  {
  }

  /** Ends keep their order, so what was nested or disjoint still is. */
  lemma StillApart(a: Fold, b: Fold, from: nat, to: nat, len: nat, size: nat)
    requires from <= to <= size && a.first < a.last <= size && b.first < b.last <= size && Apart(a, b)
    requires Survives(a, from, to, len) && Survives(b, from, to, len)
    ensures Apart(Fold(Shifted(a.first, from, to, len), Shifted(a.last, from, to, len)),
                  Fold(Shifted(b.first, from, to, len), Shifted(b.last, from, to, len)))
  {
    SurvivorShape(a, from, to, len, size);
    SurvivorShape(b, from, to, len, size);
  }

  /** Where the folds of the edited list come from. */
  ghost predicate CameFrom(folds: seq<Fold>, from: nat, to: nat, len: nat, r: Fold, i: nat)
    requires from <= to
  {
    i < |folds| && Survives(folds[i], from, to, len) &&
    r == Fold(Shifted(folds[i].first, from, to, len), Shifted(folds[i].last, from, to, len))
  }

  lemma {:induction false} EditedFrom(folds: seq<Fold>, from: nat, to: nat, len: nat, j: nat) returns (i: nat)
    requires from <= to && j < |Edited(folds, from, to, len)|
    ensures CameFrom(folds, from, to, len, Edited(folds, from, to, len)[j], i)
  {
    var rest := folds[..|folds| - 1];
    if j < |Edited(rest, from, to, len)| {
      i := EditedFrom(rest, from, to, len, j);
    } else {
      i := |folds| - 1;
    }
  }

  lemma {:induction false} EditedInOrder(folds: seq<Fold>, from: nat, to: nat, len: nat, j: nat, k: nat)
      returns (i: nat, l: nat)
    requires from <= to && j < k < |Edited(folds, from, to, len)|
    ensures CameFrom(folds, from, to, len, Edited(folds, from, to, len)[j], i)
    ensures CameFrom(folds, from, to, len, Edited(folds, from, to, len)[k], l) && i < l
  {
    var rest := folds[..|folds| - 1];
    if k < |Edited(rest, from, to, len)| {
      i, l := EditedInOrder(rest, from, to, len, j, k);
    } else {
      i := EditedFrom(rest, from, to, len, j);
      l := |folds| - 1;
    }
  }

  /** What an edit makes of a fold: both ends of one behind it move, the last end of one that holds it moves, unless
      nothing is left between the ends, and one before it stays.  All others go. */
  predicate Becomes(f: Fold, g: Fold, from: nat, to: nat, len: nat) {
    var delta := len - (to - from);
    if to <= f.first then g.first == f.first + delta && g.last == f.last + delta
    else if f.first <= from && to <= f.last then g.first == f.first && g.last == f.last + delta && g.first != g.last
    else f.last <= from && g == f
  }

  /** Each fold of `news` is what one of `folds` becomes, in order, and none that becomes anything is missing. */
  ghost predicate ComeFrom(folds: seq<Fold>, news: seq<Fold>, origin: seq<nat>, from: nat, to: nat, len: nat) {
    |origin| == |news| &&
    (forall j | 0 <= j < |origin| :: origin[j] < |folds| && Becomes(folds[origin[j]], news[j], from, to, len)) &&
    (forall j, k | 0 <= j < k < |origin| :: origin[j] < origin[k]) &&
    (forall i: nat, g | i < |folds| && Becomes(folds[i], g, from, to, len) :: i in origin)
  }

  /** In some order, `news` is what an edit makes of all of `folds`, with as many of each. */
  ghost predicate Follow(folds: seq<Fold>, news: seq<Fold>, from: nat, to: nat, len: nat) {
    exists moved, origin :: multiset(news) == multiset(moved) && ComeFrom(folds, moved, origin, from, to, len)
  }

  lemma BecomesOne(f: Fold, from: nat, to: nat, len: nat)
    requires from <= to && f.first <= f.last
    ensures Survives(f, from, to, len) ==>
              Becomes(f, Fold(Shifted(f.first, from, to, len), Shifted(f.last, from, to, len)), from, to, len)
    ensures !Survives(f, from, to, len) ==> forall g :: !Becomes(f, g, from, to, len)
  {
  }

  lemma OneMore(folds: seq<Fold>, e: seq<Fold>, origin: seq<nat>, f: Fold, g: Fold, from: nat, to: nat, len: nat)
    requires folds != [] && f == folds[|folds| - 1] && ComeFrom(folds[..|folds| - 1], e, origin, from, to, len)
    ensures Becomes(f, g, from, to, len) ==> ComeFrom(folds, e + [g], origin + [|folds| - 1], from, to, len)
    ensures (forall h :: !Becomes(f, h, from, to, len)) ==> ComeFrom(folds, e, origin, from, to, len)
  {
    hide Becomes;
    var n := |folds| - 1;
    var more := origin + [n];
    assert forall i | 0 <= i < n :: folds[..n][i] == folds[i];
    forall i: nat, h | i < |folds| && Becomes(folds[i], h, from, to, len) ensures i in more && (i < n ==> i in origin) {
      if i < n {
        assert Becomes(folds[..n][i], h, from, to, len);
      } else {
        assert more[|origin|] == i;
      }
    }
  }

  lemma {:induction false} EditedExactly(folds: seq<Fold>, from: nat, to: nat, len: nat) returns (origin: seq<nat>)
    requires from <= to && Forward(folds)
    ensures ComeFrom(folds, Edited(folds, from, to, len), origin, from, to, len)
  {
    hide Becomes, ComeFrom, Survives, Shifted;
    origin := [];
    if folds == [] {
      NoneComes(from, to, len);
    } else {
      var n := |folds| - 1;
      origin := EditedExactly(folds[..n], from, to, len);
      BecomesOne(folds[n], from, to, len);
      var g := Fold(Shifted(folds[n].first, from, to, len), Shifted(folds[n].last, from, to, len));
      OneMore(folds, Edited(folds[..n], from, to, len), origin, folds[n], g, from, to, len);
      if Survives(folds[n], from, to, len) {
        origin := origin + [n];
      } else {
        assert Edited(folds, from, to, len) == Edited(folds[..n], from, to, len);
      }
    }
  }

  lemma NoneComes(from: nat, to: nat, len: nat)
    ensures ComeFrom([], [], [], from, to, len)
  {
  }

  /** Tidy folds stay tidy in the edited text. */
  lemma EditedTidy(folds: seq<Fold>, from: nat, to: nat, len: nat, size: nat)
    requires from <= to <= size && Tidy(folds, size)
    ensures Tidy(Edited(folds, from, to, len), size + len - (to - from))
  {
    var r := Edited(folds, from, to, len);
    forall j | 0 <= j < |r| ensures r[j].first < r[j].last <= size + len - (to - from) {
      var i := EditedFrom(folds, from, to, len, j);
      SurvivorShape(folds[i], from, to, len, size);
    }
    forall j, k | 0 <= j < k < |r| ensures Apart(r[j], r[k]) {
      var i, l := EditedInOrder(folds, from, to, len, j, k);
      StillApart(folds[i], folds[l], from, to, len, size);
    }
  }

  /** Being tidy does not depend on the order of the list. */
  lemma TidyAnyOrder(a: seq<Fold>, b: seq<Fold>, size: nat)
    requires Tidy(a, size) && multiset(a) == multiset(b)
    ensures Tidy(b, size)
  {
    SameFolds(a, b);
    forall j | 0 <= j < |b| ensures b[j].first < b[j].last <= size {
      assert b[j] in a;
    }
    forall j, k | 0 <= j < k < |b| ensures Apart(b[j], b[k]) {
      assert b[j] in a && b[k] in a;
      var i :| 0 <= i < |a| && a[i] == b[j];
      var l :| 0 <= l < |a| && a[l] == b[k];
    }
  }

  // ---- what the layout makes of the boundaries -------------------------------------------------

  /** From `a` up to `b` everything is covered, and nothing right before or behind. */
  ghost predicate MaximalRun(folds: seq<Fold>, a: int, b: int) {
    a < b && (forall x | a <= x < b :: Covered(folds, x)) && !Covered(folds, a - 1) && !Covered(folds, b)
  }

  /** All maximal runs, in order. */
  ghost predicate Runs(folds: seq<Fold>, ranges: seq<(int, int)>) {
    (forall i | 0 <= i < |ranges| :: MaximalRun(folds, ranges[i].0, ranges[i].1)) &&
    (forall i, j | 0 <= i < j < |ranges| :: ranges[i].1 < ranges[j].0) &&
    (forall x | Covered(folds, x) :: exists i :: 0 <= i < |ranges| && ranges[i].0 <= x < ranges[i].1)
  }

  lemma NoTurn(folds: seq<Fold>, m: map<int, bool>, x: int)
    requires Outlines(folds, m) && x !in m
    ensures Covered(folds, x) == Covered(folds, x - 1)
  {
    assert !Turns(folds, x);
  }

  /** Between two boundaries nothing changes. */
  lemma {:induction false} NoBoundary(folds: seq<Fold>, m: map<int, bool>, a: int, b: int)
    requires Outlines(folds, m) && a <= b && forall x | a < x <= b :: x !in m
    ensures forall x | a <= x <= b :: Covered(folds, x) == Covered(folds, a)
    decreases b - a
  {
    hide Outlines, Covered;
    if a < b {
      NoBoundary(folds, m, a, b - 1);
      NoTurn(folds, m, b);
    }
  }

  /** Up to the first boundary nothing is covered, from each to the next what its value says, and
      behind the last nothing. */
  ghost predicate Reads(folds: seq<Fold>, e: seq<Entry<bool>>) {
    (forall x | e == [] || x < e[0].key :: !Covered(folds, x)) &&
    (forall i, x | 0 <= i < |e| - 1 && e[i].key <= x < e[i + 1].key :: Covered(folds, x) == e[i].value) &&
    (e != [] ==> !e[|e| - 1].value && forall x | e[|e| - 1].key <= x :: !Covered(folds, x))
  }

  /** What the list of boundaries says about positions. */
  lemma BoundaryFacts(folds: seq<Fold>, e: seq<Entry<bool>>)
    requires Ascending(e) && Outlines(folds, Abs(e))
    ensures Reads(folds, e)
  {
    hide Abs, Covered, Outlines;
    AbsOfEntries(e);
    var m := Abs(e);
    forall x | e == [] || x < e[0].key ensures !Covered(folds, x) {
      var far := if x < -1 then x else -1;
      OutOfReach(folds, far);
      NoKeyBetween(e, 0, far, x);
      NoBoundary(folds, m, far, x);
    }
    forall i, x | 0 <= i < |e| - 1 && e[i].key <= x < e[i + 1].key ensures Covered(folds, x) == e[i].value {
      NoKeyBetween(e, i + 1, e[i].key, x);
      NoBoundary(folds, m, e[i].key, x);
      ValueAtKey(folds, e, i);
    }
    if e != [] {
      LastRuns(folds, e);
    }
  }

  lemma ValueAtKey(folds: seq<Fold>, e: seq<Entry<bool>>, i: nat)
    requires Ascending(e) && Outlines(folds, Abs(e)) && i < |e|
    ensures Covered(folds, e[i].key) == e[i].value
  {
    hide Covered;
    AbsOfEntries(e);
    assert e[i].key in Abs(e);
  }

  lemma LastRuns(folds: seq<Fold>, e: seq<Entry<bool>>)
    requires Ascending(e) && Outlines(folds, Abs(e)) && e != []
    ensures !e[|e| - 1].value && forall x | e[|e| - 1].key <= x :: !Covered(folds, x)
  {
    hide Abs, Covered, Outlines;
    var k, top := e[|e| - 1].key, EndOfAll(folds);
    ValueAtKey(folds, e, |e| - 1);
    forall x | k <= x ensures Covered(folds, x) == e[|e| - 1].value {
      NoKeyBetween(e, |e|, k, x);
      NoBoundary(folds, Abs(e), k, x);
    }
    OutOfReach(folds, if k < top then top else k);
  }

  /** Nothing is covered before the text or behind the last fold. */
  lemma OutOfReach(folds: seq<Fold>, x: int)
    ensures x < 0 || EndOfAll(folds) <= x ==> !Covered(folds, x)
  {
  }

  lemma NoKeyBetween(e: seq<Entry<bool>>, i: nat, a: int, b: int)
    requires Ascending(e) && i <= |e| && (i > 0 ==> e[i - 1].key <= a) && (i < |e| ==> b < e[i].key)
    ensures forall x | a < x <= b :: x !in Abs(e)
  {
    AbsOfEntries(e);
    forall n | 0 <= n < |e| ensures e[n].key <= a || b < e[n].key {
      assert n < i ==> e[n].key <= e[i - 1].key;
      assert i <= n ==> e[i].key <= e[n].key;
    }
    assert forall x | x in Abs(e) :: HasKey(e, x);
  }

  lemma SameFolds(a: seq<Fold>, b: seq<Fold>)
    requires multiset(a) == multiset(b)
    ensures forall f :: f in a <==> f in b
    ensures Forward(a) ==> Forward(b)
  {
    forall f ensures f in a <==> f in b {
      assert f in multiset(a) <==> f in multiset(b);
    }
    forall i | 0 <= i < |b| && Forward(a) ensures b[i].first <= b[i].last {
      assert b[i] in a;
    }
  }

  /** What is known of the ranges when `i` boundaries have been read. */
  ghost predicate ReadUpTo(folds: seq<Fold>, e: seq<Entry<bool>>, i: nat, nestCount: int, ranges: seq<(int, int)>)
    requires i <= |e|
  {
    nestCount == (if i > 0 && e[i - 1].value then 1 else 0) && nestCount <= |ranges| &&
    (forall r | 0 <= r < |ranges| - nestCount :: MaximalRun(folds, ranges[r].0, ranges[r].1) && i > 0 &&
        ranges[r].1 <= e[i - 1].key) &&
    (nestCount == 1 ==> ranges[|ranges| - 1] == (e[i - 1].key, e[i - 1].key)) &&
    (forall r, q | 0 <= r < q < |ranges| :: ranges[r].1 < ranges[q].0) &&
    (forall x | i > 0 && x < e[i - 1].key && Covered(folds, x) ::
      exists r ::
        0 <= r < |ranges| - nestCount &&
        ranges[r].0 <= x < ranges[r].1)
  }

  /** Boundaries alternate. */
  lemma Alternating(folds: seq<Fold>, e: seq<Entry<bool>>, i: nat)
    requires Ascending(e) && Reads(folds, e) && i < |e| && Covered(folds, e[i].key - 1) != e[i].value
    ensures if i == 0 then e[i].value else e[i - 1].value != e[i].value
  {
    hide Covered;
    if i > 0 {
      assert e[i - 1].key <= e[i].key - 1 < e[i].key;
    }
  }

  lemma ReadTrue(folds: seq<Fold>, e: seq<Entry<bool>>, i: nat, ranges: seq<(int, int)>)
    requires Ascending(e) && Reads(folds, e) && i < |e| && e[i].value && (i > 0 ==> !e[i - 1].value)
    requires ReadUpTo(folds, e, i, 0, ranges)
    ensures ReadUpTo(folds, e, i + 1, 1, ranges + [(e[i].key, e[i].key)])
  {
    hide Covered;
    var r := ranges + [(e[i].key, e[i].key)];
    assert i > 0 ==> e[i - 1].key < e[i].key;
    forall x | x < e[i].key && Covered(folds, x) ensures exists q :: 0 <= q < |r| - 1 && r[q].0 <= x < r[q].1 {
      assert i > 0 && x < e[i - 1].key;
      var q :| 0 <= q < |ranges| && ranges[q].0 <= x < ranges[q].1;
      assert r[q] == ranges[q];
    }
  }

  lemma ReadFalse(folds: seq<Fold>, e: seq<Entry<bool>>, i: nat, ranges: seq<(int, int)>)
    requires Ascending(e) && Reads(folds, e) && i < |e| && !e[i].value && i > 0 && e[i - 1].value
    requires !Covered(folds, e[i].key) && !Covered(folds, e[i - 1].key - 1)
    requires ReadUpTo(folds, e, i, 1, ranges)
    ensures ReadUpTo(folds, e, i + 1, 0, ranges[..|ranges| - 1] + [(ranges[|ranges| - 1].0, e[i].key)])
  {
    hide Covered;
    var n := |ranges| - 1;
    var r := ranges[..n] + [(ranges[n].0, e[i].key)];
    assert e[i - 1].key < e[i].key && ranges[n] == (e[i - 1].key, e[i - 1].key);
    assert forall q | 0 <= q < n :: r[q] == ranges[q];
    assert MaximalRun(folds, r[n].0, r[n].1);
    forall x | x < e[i].key && Covered(folds, x) ensures exists q :: 0 <= q < |r| && r[q].0 <= x < r[q].1 {
      if x < e[i - 1].key {
        var q :| 0 <= q < n && ranges[q].0 <= x < ranges[q].1;
        assert r[q] == ranges[q];
      } else {
        assert r[n].0 <= x < r[n].1;
      }
    }
  }

  lemma AllRead(folds: seq<Fold>, e: seq<Entry<bool>>, nestCount: int, ranges: seq<(int, int)>)
    requires Ascending(e) && Reads(folds, e) && ReadUpTo(folds, e, |e|, nestCount, ranges)
    ensures Runs(folds, ranges)
  {
    hide Covered;
  }

  /** The counter of `repair_folds`: it decodes the list of boundaries. */
  method FoldedRanges(e: seq<Entry<bool>>, ghost folds: seq<Fold>) returns (ranges: seq<(int, int)>)
    requires Ascending(e) && Outlines(folds, Abs(e))
    ensures Runs(folds, ranges)
  {
    hide Abs, Covered, Outlines, ReadUpTo, Reads, Runs;
    BoundaryFacts(folds, e);
    var nestCount := 0;
    ranges := [];
    NothingRead(folds, e);
    for i := 0 to |e|
      invariant nestCount == if i > 0 && e[i - 1].value then 1 else 0
      invariant ReadUpTo(folds, e, i, nestCount, ranges) && nestCount <= |ranges|
    {
      Boundary(folds, e, i);
      Alternating(folds, e, i);
      if e[i].value {
        ReadTrue(folds, e, i, ranges);
        nestCount := nestCount + 1;
        if nestCount == 1 {
          ranges := ranges + [(e[i].key, e[i].key)];
        }
      } else {
        Boundary(folds, e, i - 1);
        ReadFalse(folds, e, i, ranges);
        nestCount := nestCount - 1;
        if nestCount == 0 {
          ranges := ranges[..|ranges| - 1] + [(ranges[|ranges| - 1].0, e[i].key)];
        }
      }
    }
    AllRead(folds, e, nestCount, ranges);
  }

  lemma NothingRead(folds: seq<Fold>, e: seq<Entry<bool>>)
    ensures ReadUpTo(folds, e, 0, 0, [])
  {
  }

  lemma Boundary(folds: seq<Fold>, e: seq<Entry<bool>>, i: nat)
    requires Ascending(e) && Outlines(folds, Abs(e)) && i < |e|
    ensures Covered(folds, e[i].key) == e[i].value != Covered(folds, e[i].key - 1)
  {
    AbsOfEntries(e);
    assert e[i].key in Abs(e) && Turns(folds, e[i].key);
  }

  // ---- the end of `foldable_ranges` ---------------------------------------------------------

  /** The stack holds ranges inside each other; all others that were kept lie before `next`. */
  ghost predicate Nesting(unique: seq<Fold>, stack: seq<Fold>, next: int) {
    (forall i | 0 <= i < |stack| :: stack[i] in unique && stack[i].first <= next) &&
    (forall i, j | 0 <= i < j < |stack| :: stack[j].last <= stack[i].last) &&
    (forall u | u in unique :: u in stack || u.last <= next)
  }

  /** A range that was left out begins inside one that was kept, and ends behind it. */
  ghost predicate LeftOut(unique: seq<Fold>, f: Fold) {
    exists u :: u in unique && u.first <= f.first < u.last < f.last
  }

  ghost predicate AllApart(folds: seq<Fold>) {
    forall i, j | 0 <= i < j < |folds| :: Apart(folds[i], folds[j])
  }

  lemma PushApart(unique: seq<Fold>, stack: seq<Fold>, f: Fold)
    requires AllApart(unique) && Nesting(unique, stack, f.first)
    requires stack != [] ==> f.last <= stack[|stack| - 1].last
    ensures AllApart(unique + [f]) && Nesting(unique + [f], stack + [f], f.first)
  {
    hide Apart;
    forall u | u in unique ensures Apart(u, f) {
      PushOne(unique, stack, f, u);
    }
    var all := unique + [f];
    forall i, j | 0 <= i < j < |all| ensures Apart(all[i], all[j]) {
      assert j == |unique| ==> all[i] in unique;
    }
    NestingPushed(unique, stack, f);
  }

  lemma PushOne(unique: seq<Fold>, stack: seq<Fold>, f: Fold, u: Fold)
    requires Nesting(unique, stack, f.first) && u in unique
    requires stack != [] ==> f.last <= stack[|stack| - 1].last
    ensures Apart(u, f)
  {
    if u in stack {
      var i :| 0 <= i < |stack| && stack[i] == u;
      assert stack[|stack| - 1].last <= stack[i].last;
    }
  }

  lemma NestingPushed(unique: seq<Fold>, stack: seq<Fold>, f: Fold)
    requires Nesting(unique, stack, f.first)
    requires stack != [] ==> f.last <= stack[|stack| - 1].last
    ensures Nesting(unique + [f], stack + [f], f.first)
  {
    var s := stack + [f];
    forall i, j | 0 <= i < j < |s| ensures s[j].last <= s[i].last {
      assert i < |stack| - 1 ==> stack[|stack| - 1].last <= stack[i].last;
    }
  }

  lemma PopNesting(unique: seq<Fold>, stack: seq<Fold>, next: int)
    requires Nesting(unique, stack, next) && stack != [] && stack[|stack| - 1].last <= next
    ensures Nesting(unique, stack[..|stack| - 1], next)
  {
    var rest := stack[..|stack| - 1];
    assert stack == rest + [stack[|stack| - 1]];
  }

  /** Sorts ranges and keeps those that fit into one another. */
  method NestedRanges(found: seq<Fold>) returns (unique: seq<Fold>)
    ensures AllApart(unique) && forall u | u in unique :: u in found
    ensures forall f | f in found :: f in unique || LeftOut(unique, f)
  {
    hide Nesting, AllApart, LeftOut, Apart;
    var res := Sort(found);
    SameFolds(found, res);
    var stack: seq<Fold> := [];
    unique := [];
    NothingNested(if res == [] then 0 else res[0].first);
    for k := 0 to |res|
      invariant AllApart(unique) && (k < |res| ==> Nesting(unique, stack, res[k].first))
      invariant forall u | u in unique :: u in res
      invariant forall f | f in res[..k] :: f in unique || LeftOut(unique, f)
    {
      ghost var next := res[k].first;
      while stack != [] && stack[|stack| - 1].last <= res[k].first
        invariant Nesting(unique, stack, next)
        decreases |stack|
      {
        PopNesting(unique, stack, next);
        stack := stack[..|stack| - 1];
      }
      ghost var kept := unique;
      if stack != [] && stack[|stack| - 1].last < res[k].last {
        InsideKept(unique, stack, res[k]);
      } else {
        PushApart(unique, stack, res[k]);
        stack := stack + [res[k]];
        unique := unique + [res[k]];
      }
      MoreKept(kept, unique, res, k);
      if k + 1 < |res| {
        assert Ordered(res[k], res[k + 1]);
        NestingOn(unique, stack, next, res[k + 1].first);
      }
    }
    assert res[..|res|] == res;
  }

  lemma NothingNested(next: int)
    ensures AllApart([]) && Nesting([], [], next)
  {
  }

  lemma InsideKept(unique: seq<Fold>, stack: seq<Fold>, f: Fold)
    requires Nesting(unique, stack, f.first) && stack != []
    requires f.first < stack[|stack| - 1].last < f.last
    ensures LeftOut(unique, f)
  {
    assert stack[|stack| - 1] in unique;
  }

  lemma MoreKept(kept: seq<Fold>, unique: seq<Fold>, res: seq<Fold>, k: nat)
    requires k < |res| && ((unique == kept && LeftOut(unique, res[k])) || unique == kept + [res[k]])
    requires forall f | f in res[..k] :: f in kept || LeftOut(kept, f)
    ensures forall f | f in res[..k + 1] :: f in unique || LeftOut(unique, f)
  {
    assert res[..k + 1] == res[..k] + [res[k]];
    forall f | f in res[..k] ensures f in unique || LeftOut(unique, f) {
      if LeftOut(kept, f) {
        var u :| u in kept && u.first <= f.first < u.last < f.last;
        assert u in unique;
      }
    }
  }

  lemma NestingOn(unique: seq<Fold>, stack: seq<Fold>, next: int, later: int)
    requires Nesting(unique, stack, next) && next <= later
    ensures Nesting(unique, stack, later)
  {
  }
}
