/** What the rows of a layout show of a text: newlines inside folds do not end a line. */
module Hiding {

  import opened Seqs
  import opened Utf8
  import opened Rows
  import opened Folds

  /** Stands for every byte inside a fold: it is no newline. */
  const HIDDEN: byte := 0

  /** The text with all that is folded hidden. */
  ghost function Hidden(text: seq<byte>, folds: seq<Fold>): (r: seq<byte>)
    ensures |r| == |text|
  {
    seq(|text|, i requires 0 <= i < |text| => if Covered(folds, i) then HIDDEN else text[i])
  }

  /** Some more bytes inside folds are hidden, all before `bound`. */
  ghost predicate HidesMore(a: seq<byte>, b: seq<byte>, folds: seq<Fold>, bound: nat) {
    |b| == |a| && forall i | 0 <= i < |a| :: b[i] == a[i] || (b[i] == HIDDEN && i < bound && Covered(folds, i))
  }

  /** All maximal runs of folded positions that begin before `to` and reach behind `from` end by `bound`. */
  ghost predicate RunsEnd(folds: seq<Fold>, from: int, to: int, bound: int) {
    forall a, b | MaximalRun(folds, a, b) && a < to && from < b :: b <= bound
  }

  ghost predicate ShowsNewline(text: seq<byte>, from: nat, to: nat) {
    exists k :: from <= k < to && k < |text| && text[k] == NEWLINE
  }

  // ---- lines depend on newlines alone -----------------------------------------------------

  ghost predicate SameNewlines(a: seq<byte>, b: seq<byte>) {
    |a| == |b| && forall i | 0 <= i < |a| :: a[i] == NEWLINE <==> b[i] == NEWLINE
  }

  lemma {:induction false} SameNewlinesSameLines(a: seq<byte>, b: seq<byte>)
    requires SameNewlines(a, b)
    ensures LineLengths(a) == LineLengths(b)
  {
    if a != [] {
      SameNewlinesSameLines(a[..|a| - 1], b[..|b| - 1]);
    }
  }

  lemma {:induction false} FewerNewlines(a: seq<byte>, b: seq<byte>)
    requires |a| == |b| && forall i | 0 <= i < |a| && a[i] == NEWLINE :: b[i] == NEWLINE
    ensures |LineLengths(a)| <= |LineLengths(b)|
    ensures |LineLengths(a)| == |LineLengths(b)| ==> SameNewlines(a, b)
  {
    if a != [] {
      var n := |a| - 1;
      FewerNewlines(a[..n], b[..n]);
      assert a[n] == NEWLINE ==> b[n] == NEWLINE;
      if |LineLengths(a)| == |LineLengths(b)| {
        assert SameNewlines(a[..n], b[..n]);
        assert forall i | 0 <= i < n :: a[..n][i] == a[i] && b[..n][i] == b[i];
      }
    }
  }

  /** With fewer newlines, the lines are the same if and only if no newline is missing. */
  lemma LinesTellNewlines(a: seq<byte>, b: seq<byte>)
    requires |a| == |b| && forall i | 0 <= i < |a| && a[i] == NEWLINE :: b[i] == NEWLINE
    ensures LineLengths(a) == LineLengths(b) <==> forall i | 0 <= i < |a| && b[i] == NEWLINE :: a[i] == NEWLINE
  {
    FewerNewlines(a, b);
    if forall i | 0 <= i < |a| && b[i] == NEWLINE :: a[i] == NEWLINE {
      SameNewlinesSameLines(a, b);
    }
  }

  /** Bytes without a newline make the row longer that they go into. */
  lemma LongerRow(a: seq<byte>, h: seq<byte>, b: seq<byte>, row: nat)
    requires Holds(LineLengths(a + b), row, |a|) && forall k | 0 <= k < |h| :: h[k] != NEWLINE
    ensures row < |LineLengths(a + b)| && Offset(LineLengths(a + b), row) <= |a|
    ensures |a| - Offset(LineLengths(a + b), row) <= LineLengths(a + b)[row]
    ensures LineLengths(a + h + b) == LineLengths(a + b)[row := LineLengths(a + b)[row] + |h|]
  {
    hide LineLengths, Glued, Holds, Offset;
    var l, m := LineLengths(a), LineLengths(b);
    RowOfPosition(a, b, row);
    LinesOfSum(a, b);
    OpenLine(h);
    LinesOfSum(a, h);
    LinesOfSum(a + h, b);
    GluedLonger(l, m, |h|);
  }

  lemma GluedLonger(l: seq<nat>, m: seq<nat>, n: nat)
    requires l != [] && m != []
    ensures Glued(Glued(l, [n]), m) == Glued(l, m)[|l| - 1 := Glued(l, m)[|l| - 1] + n]
  {
    var g := Glued(l, [n]);
    assert g[..|g| - 1] == l[..|l| - 1] && g[|g| - 1] == l[|l| - 1] + n;
  }

  /** Positions of different rows have a newline between them. */
  lemma RowsApart(a: seq<byte>, mid: seq<byte>, b: seq<byte>, r: nat, q: nat)
    requires Holds(LineLengths(a + mid + b), r, |a|) && Holds(LineLengths(a + mid + b), q, |a| + |mid|)
    ensures r != q <==> exists k :: 0 <= k < |mid| && mid[k] == NEWLINE
  {
    hide LineLengths, Glued, Holds, Offset;
    assert a + mid + b == a + (mid + b);
    RowOfPosition(a, mid + b, r);
    RowOfPosition(a + mid, b, q);
    if forall k | 0 <= k < |mid| :: mid[k] != NEWLINE {
      OpenLine(mid);
      LinesOfSum(a, mid);
    } else {
      var k :| 0 <= k < |mid| && mid[k] == NEWLINE;
      NewlinesAt(mid);
      assert BeginsAt(LineLengths(mid), k + 1);
      LinesOfSum(a, mid);
    }
  }

  // ---- folds of an edited text -------------------------------------------------------------

  /** Where a position inside a surviving fold was before the edit. */
  lemma Origin(f: Fold, from: nat, to: nat, len: nat, x: int)
    requires from <= to && f.first <= f.last && Survives(f, from, to, len)
    requires Shifted(f.first, from, to, len) <= x < Shifted(f.last, from, to, len)
    ensures x < from ==> f.first <= x < f.last
    ensures from + len <= x ==> f.first <= x - len + (to - from) < f.last
    ensures from <= x < from + len ==> f.first <= from && to <= f.last
  {
  }

  /** What is folded after an edit was folded before it; all of the edit was, if its new text is. */
  lemma EditedCovered(old_: seq<Fold>, from: nat, to: nat, len: nat, new_: seq<Fold>, x: int)
    requires from <= to && Forward(old_) && multiset(new_) == multiset(Edited(old_, from, to, len)) && Covered(new_, x)
    ensures x < from ==> Covered(old_, x)
    ensures from + len <= x ==> Covered(old_, x - len + (to - from))
    ensures from <= x < from + len ==> forall y | from <= y < to :: Covered(old_, y)
  {
    hide Edited, Survives, Shifted;
    var e := Edited(old_, from, to, len);
    var j :| 0 <= j < |new_| && new_[j].first <= x < new_[j].last;
    SameFolds(new_, e);
    assert new_[j] in new_;
    var k :| 0 <= k < |e| && e[k] == new_[j];
    var i := EditedFrom(old_, from, to, len, k);
    Origin(old_[i], from, to, len, x);
  }

  /** In bounds: every fold ends inside the text. */
  predicate Bounded(folds: seq<Fold>, size: nat) {
    forall i | 0 <= i < |folds| :: folds[i].last <= size
  }

  lemma CoveredInside(folds: seq<Fold>, size: nat, x: int)
    requires Bounded(folds, size) && Covered(folds, x)
    ensures 0 <= x < size
  {
  }

  /** Where the runs end that concern an edit whose range shows a newline: before it, if it brings
      new text, and inside the text in any case. */
  function EditBound(size: nat, from: nat, to: nat, len: nat): nat
    requires from <= to <= size
  {
    if len == 0 then size - (to - from) else from
  }

  lemma EditedRunsEnd(before: seq<byte>, old_: seq<Fold>, from: nat, to: nat, len: nat, new_: seq<Fold>)
    requires from <= to <= |before| && Forward(old_) && Bounded(old_, |before|)
    requires multiset(new_) == multiset(Edited(old_, from, to, len))
    ensures forall a, b | MaximalRun(new_, a, b) :: b <= |before| + len - (to - from)
    ensures ShowsNewline(Hidden(before, old_), from, to) ==>
              forall a, b | MaximalRun(new_, a, b) && a < from :: b <= EditBound(|before|, from, to, len)
  {
    hide Covered, Edited;
    forall a, b | MaximalRun(new_, a, b) ensures b <= |before| + len - (to - from) {
      if b > from + len {
        assert Covered(new_, b - 1);
        EditedCovered(old_, from, to, len, new_, b - 1);
        CoveredInside(old_, |before|, b - 1 - len + (to - from));
      }
    }
    if ShowsNewline(Hidden(before, old_), from, to) && len > 0 {
      var k :| from <= k < to && Hidden(before, old_)[k] == NEWLINE;
      assert !Covered(old_, k);
      forall a, b | MaximalRun(new_, a, b) && a < from ensures b <= from {
        if b > from {
          assert Covered(new_, from);
          EditedCovered(old_, from, to, len, new_, from);
        }
      }
    }
  }

  /** Where a position outside an edit is after it. */
  function Moved(x: nat, from: nat, to: nat, len: nat): int {
    if x < from then x else x + len - (to - from)
  }

  /** No newline outside the edit was folded before and is not folded any more. */
  ghost predicate KeepsHidden(before: seq<byte>, old_: seq<Fold>, from: nat, to: nat, len: nat, new_: seq<Fold>) {
    forall x: nat {:trigger Covered(old_, x)} |
      x < |before| && (x < from || to <= x) && before[x] == NEWLINE && Covered(old_, x) ::
      Covered(new_, Moved(x, from, to, len))
  }

  /** A fold that an edit does not cut into: it lies before it, behind it or around it. */
  predicate Uncut(f: Fold, from: nat, to: nat) {
    f.last <= from || to <= f.first || (f.first <= from && to <= f.last)
  }

  /** `x` is inside a fold that an edit does not cut into. */
  ghost predicate InUncut(folds: seq<Fold>, from: nat, to: nat, x: nat) {
    exists i :: 0 <= i < |folds| && Uncut(folds[i], from, to) && folds[i].first <= x < folds[i].last
  }

  /** Every folded newline outside an edit is inside a fold that the edit does not cut into. */
  ghost predicate SafelyFolded(before: seq<byte>, old_: seq<Fold>, from: nat, to: nat) {
    forall x: nat {:trigger Covered(old_, x)} |
      x < |before| && (x < from || to <= x) && before[x] == NEWLINE && Covered(old_, x) ::
      InUncut(old_, from, to, x)
  }

  /** A fold that is not cut still holds what it held outside the edit. */
  lemma UncutHolds(f: Fold, from: nat, to: nat, len: nat, x: nat)
    requires from <= to && Uncut(f, from, to) && f.first <= x < f.last && (x < from || to <= x)
    ensures exists g :: Becomes(f, g, from, to, len) && g.first <= Moved(x, from, to, len) < g.last
  {
    var delta := len - (to - from);
    var g := if to <= f.first then Fold(f.first + delta, f.last + delta)
             else if f.first <= from && to <= f.last then Fold(f.first, f.last + delta)
             else f;
    assert Becomes(f, g, from, to, len);
  }

  lemma OnlyOneBecomes(f: Fold, g: Fold, h: Fold, from: nat, to: nat, len: nat)
    requires Becomes(f, g, from, to, len) && Becomes(f, h, from, to, len)
    ensures g == h
  {
  }

  /** Only a fold that is not cut holds anything outside the edit after it, and that it held before. */
  lemma BecomesUncut(f: Fold, g: Fold, from: nat, to: nat, len: nat, x: nat)
    requires from <= to && Becomes(f, g, from, to, len) && (x < from || to <= x)
    requires g.first <= Moved(x, from, to, len) < g.last
    ensures Uncut(f, from, to) && f.first <= x < f.last
  {
  }

  /** A position outside an edit is folded after it if and only if it was inside a fold that is not cut. */
  lemma CoveredAfter(old_: seq<Fold>, new_: seq<Fold>, from: nat, to: nat, len: nat, x: nat)
    requires from <= to && Follow(old_, new_, from, to, len) && (x < from || to <= x)
    ensures Covered(new_, Moved(x, from, to, len)) <==> InUncut(old_, from, to, x)
  {
    hide Becomes, Uncut;
    var moved, origin :| multiset(new_) == multiset(moved) && ComeFrom(old_, moved, origin, from, to, len);
    var y := Moved(x, from, to, len);
    SameFolds(new_, moved);
    if i: nat :| i < |old_| && Uncut(old_[i], from, to) && old_[i].first <= x < old_[i].last {
      UncutHolds(old_[i], from, to, len, x);
      var g :| Becomes(old_[i], g, from, to, len) && g.first <= y < g.last;
      var j :| 0 <= j < |origin| && origin[j] == i;
      OnlyOneBecomes(old_[i], g, moved[j], from, to, len);
      assert g in new_;
    }
    if j: nat :| j < |new_| && new_[j].first <= y < new_[j].last {
      assert new_[j] in moved;
      var k :| 0 <= k < |moved| && moved[k] == new_[j];
      BecomesUncut(old_[origin[k]], moved[k], from, to, len, x);
    }
  }

  /** Nothing comes to light by an edit, if and only if every folded newline outside it was inside a fold that the
      edit does not cut into; so nothing does by one that leaves all folds whole, or swallows them whole. */
  lemma KeepsHiddenExactly(before: seq<byte>, old_: seq<Fold>, from: nat, to: nat, len: nat, new_: seq<Fold>)
    requires from <= to && Follow(old_, new_, from, to, len)
    ensures KeepsHidden(before, old_, from, to, len, new_) <==> SafelyFolded(before, old_, from, to)
    ensures (forall f | f in old_ :: Uncut(f, from, to) || (from <= f.first && f.last <= to)) ==>
              KeepsHidden(before, old_, from, to, len, new_)
  {
    forall x: nat | x < from || to <= x
      ensures Covered(new_, Moved(x, from, to, len)) <==> InUncut(old_, from, to, x)
    {
      CoveredAfter(old_, new_, from, to, len, x);
    }
    hide Follow;
    if forall f | f in old_ :: Uncut(f, from, to) || (from <= f.first && f.last <= to) {
      forall x: nat | (x < from || to <= x) && Covered(old_, x) ensures InUncut(old_, from, to, x) {
        var i :| 0 <= i < |old_| && old_[i].first <= x < old_[i].last;
        assert old_[i] in old_;
      }
    }
  }

  lemma EditedSafely(before: seq<byte>, old_: seq<Fold>, from: nat, to: nat, len: nat, new_: seq<Fold>)
    requires from <= to && Forward(old_) && multiset(new_) == multiset(Edited(old_, from, to, len))
    ensures KeepsHidden(before, old_, from, to, len, new_) <==> SafelyFolded(before, old_, from, to)
    ensures (forall f | f in old_ :: Uncut(f, from, to) || (from <= f.first && f.last <= to)) ==>
              KeepsHidden(before, old_, from, to, len, new_)
  {
    hide ComeFrom, Edited, KeepsHidden, SafelyFolded, Uncut;
    var origin := EditedExactly(old_, from, to, len);
    KeepsHiddenExactly(before, old_, from, to, len, new_);
  }

  /** What the rows show when the edited range has been erased from them. */
  lemma ErasedShows(before: seq<byte>, old_: seq<Fold>, from: nat, to: nat, len: nat, new_: seq<Fold>, p: seq<byte>)
    requires from <= to <= |before| && Forward(old_) && multiset(new_) == multiset(Edited(old_, from, to, len))
    requires var m := Hidden(before, old_);
             HidesMore(m[..from] + m[to..], p, new_, EditBound(|before|, from, to, len))
    ensures p == Hidden(before, old_)[..from] + Hidden(before, old_)[to..]
  {
    hide Covered, Edited;
    var m := Hidden(before, old_);
    var q := m[..from] + m[to..];
    forall i | 0 <= i < |q| ensures p[i] == q[i] {
      assert q[i] == m[if i < from then i else i + (to - from)];
      if p[i] != q[i] {
        EditedCovered(old_, from, to, len, new_, i);
      }
    }
  }

  /** One byte of what the rows show of the edited text, and of what they should show. */
  ghost predicate EditedByte(before: seq<byte>, old_: seq<Fold>, from: nat, to: nat, len: nat, new_: seq<Fold>,
      i: nat, shown: byte, due: byte)
    requires from <= to <= |before| && i < |before| + len - (to - from)
  {
    if from <= i < from + len then shown == due
    else
      var x := if i < from then i else i - len + (to - from);
      shown == (if Covered(old_, x) then HIDDEN else before[x]) &&
          due == (if Covered(new_, i) then HIDDEN else before[x]) &&
      (Covered(new_, i) ==> Covered(old_, x))
  }

  lemma EditedBytes(before: seq<byte>, old_: seq<Fold>, from: nat, to: nat, s: seq<byte>, new_: seq<Fold>,
      n: seq<byte>, i: nat)
    requires from <= to <= |before| && Forward(old_) && multiset(new_) == multiset(Edited(old_, from, to, |s|))
    requires i < |n| == |before| + |s| - (to - from)
    requires var shown := Hidden(before, old_)[..from] + s + Hidden(before, old_)[to..];
             n[i] == shown[i] || (n[i] == HIDDEN && Covered(new_, i))
    requires from <= i < from + |s| && Covered(new_, i) ==> n[i] == HIDDEN
    ensures EditedByte(before, old_, from, to, |s|, new_, i, n[i], Hidden(Splice(before, from, to, s), new_)[i])
  {
    hide Covered, Edited;
    if Covered(new_, i) {
      EditedCovered(old_, from, to, |s|, new_, i);
    }
  }

  /** What the rows show of the whole edited text: what is to be shown, but for the newlines that
      folds which are gone still hide. */
  lemma EditedShows(before: seq<byte>, old_: seq<Fold>, from: nat, to: nat, s: seq<byte>, new_: seq<Fold>, n: seq<byte>)
    requires from <= to <= |before| && Forward(old_) && multiset(new_) == multiset(Edited(old_, from, to, |s|))
    requires var m := Hidden(before, old_); HidesMore(m[..from] + s + m[to..], n, new_, |before| + |s| - (to - from))
    requires forall i | from <= i < from + |s| && Covered(new_, i) && i < |n| :: n[i] == HIDDEN
    ensures LineLengths(n) == LineLengths(Hidden(Splice(before, from, to, s), new_)) <==>
            KeepsHidden(before, old_, from, to, |s|, new_)
  {
    hide LineLengths, Covered, Edited, EditedByte, Hidden;
    var len, h := |s|, Hidden(Splice(before, from, to, s), new_);
    forall i | 0 <= i < |n| ensures EditedByte(before, old_, from, to, len, new_, i, n[i], h[i]) {
      EditedBytes(before, old_, from, to, s, new_, n, i);
    }
    FewerShown(before, old_, from, to, len, new_, n, h);
    LinesTellNewlines(n, h);
  }

  lemma FewerShown(before: seq<byte>, old_: seq<Fold>, from: nat, to: nat, len: nat, new_: seq<Fold>, n: seq<byte>,
      h: seq<byte>)
    requires from <= to <= |before| && |n| == |h| == |before| + len - (to - from)
    requires forall i | 0 <= i < |n| :: EditedByte(before, old_, from, to, len, new_, i, n[i], h[i])
    ensures forall i | 0 <= i < |n| && n[i] == NEWLINE :: h[i] == NEWLINE
    ensures (forall i | 0 <= i < |n| && h[i] == NEWLINE :: n[i] == NEWLINE) <==>
            KeepsHidden(before, old_, from, to, len, new_)
  {
    hide Covered;
    if forall i | 0 <= i < |n| && h[i] == NEWLINE :: n[i] == NEWLINE {
      forall x: nat | x < |before| && (x < from || to <= x) && before[x] == NEWLINE && Covered(old_, x)
        ensures Covered(new_, if x < from then x else x + len - (to - from))
      {
        var i := if x < from then x else x + len - (to - from);
        assert EditedByte(before, old_, from, to, len, new_, i, n[i], h[i]);
      }
    }
    if KeepsHidden(before, old_, from, to, len, new_) {
      forall i | 0 <= i < |n| && h[i] == NEWLINE ensures n[i] == NEWLINE {
        assert EditedByte(before, old_, from, to, len, new_, i, n[i], h[i]);
      }
    }
  }

  /** Without folds all is shown, and no edit loses anything. */
  lemma NothingHidden(text: seq<byte>, from: nat, to: nat, len: nat)
    requires from <= to <= |text|
    ensures Hidden(text, []) == text && KeepsHidden(text, [], from, to, len, [])
  {
  }

  /** An edit that cuts into a fold from outside removes it, and the newlines left of it stay hidden. */
  lemma CutFoldStaysHidden()
    ensures var before, was := [120, 120, NEWLINE, 120], [Fold(1, 4)];
            Edited(was, 0, 2, 0) == [] && !KeepsHidden(before, was, 0, 2, 0, [])
  {
    var before: seq<byte>, was := [120, 120, NEWLINE, 120], [Fold(1, 4)];
    assert was[..0] == [];
    assert was[0].first <= 2 < was[0].last && before[2] == NEWLINE;
    assert Covered(was, 2) && !Covered([], 0);
  }
}
