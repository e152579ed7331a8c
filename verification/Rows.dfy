/** The lengths of the lines of a text, as a list: what the rows of a layout are to be. */
module Rows {

  import opened Utf8
  import opened IndexedMaps
  import HardLines

  /** The length of every line, with its newline. */
  function LineLengths(text: seq<byte>): (r: seq<nat>)
    ensures r != []
  {
    if text == [] then [0]
    else
      var l := OneMore(LineLengths(text[..|text| - 1]));
      if text[|text| - 1] == NEWLINE then l + [0] else l
  }

  /** One more byte in the last line. */
  function OneMore(l: seq<nat>): (r: seq<nat>)
    requires l != []
    ensures |r| == |l|
  {
    l[..|l| - 1] + [l[|l| - 1] + 1]
  }

  lemma LineStep(a: seq<byte>, c: byte)
    ensures LineLengths(a + [c]) == if c == NEWLINE then OneMore(LineLengths(a)) + [0] else OneMore(LineLengths(a))
  {
    assert (a + [c])[..|a|] == a;
  }

  /** Where row `k` starts: the lengths of all before it. */
  function Offset(keys: seq<nat>, k: nat): nat
    requires k <= |keys|
  {
    if k == 0 then 0 else Offset(keys, k - 1) + keys[k - 1]
  }

  /** Two texts one after the other share a line. */
  function Glued(a: seq<nat>, b: seq<nat>): (r: seq<nat>)
    requires a != [] && b != []
    ensures |r| == |a| + |b| - 1
  {
    a[..|a| - 1] + [a[|a| - 1] + b[0]] + b[1..]
  }

  lemma GluedNothing(a: seq<nat>)
    requires a != []
    ensures Glued(a, [0]) == a
  {
  }

  lemma {:induction false} LinesOfSum(a: seq<byte>, b: seq<byte>)
    ensures LineLengths(a + b) == Glued(LineLengths(a), LineLengths(b))
  {
    if b == [] {
      assert a + b == a;
      GluedNothing(LineLengths(a));
    } else {
      hide LineLengths, OneMore, Glued;
      var c, x := b[..|b| - 1], b[|b| - 1];
      LinesOfSum(a, c);
      assert b == c + [x] && a + b == (a + c) + [x];
      LineStep(c, x);
      LineStep(a + c, x);
      GluedGrows(LineLengths(a), LineLengths(c));
    }
  }

  lemma GluedGrows(a: seq<nat>, b: seq<nat>)
    requires a != [] && b != []
    ensures OneMore(Glued(a, b)) == Glued(a, OneMore(b))
    ensures Glued(a, b) + [0] == Glued(a, b + [0])
    ensures OneMore(Glued(a, b)) + [0] == Glued(a, OneMore(b) + [0])
  {
    var g := Glued(a, b);
    if |b| == 1 {
      assert g[..|g| - 1] == a[..|a| - 1];
    } else {
      assert g[..|g| - 1] == a[..|a| - 1] + [a[|a| - 1] + b[0]] + b[1..|b| - 1];
    }
    assert (b + [0])[1..] == b[1..] + [0];
    assert (OneMore(b) + [0])[1..] == OneMore(b)[1..] + [0];
  }

  lemma {:induction false} SumOfLines(text: seq<byte>)
    ensures Offset(LineLengths(text), |LineLengths(text)|) == |text|
  {
    if text != [] {
      var l := LineLengths(text[..|text| - 1]);
      SumOfLines(text[..|text| - 1]);
      var m := OneMore(l);
      OffsetOfPrefix(l, m, |l| - 1);
      if text[|text| - 1] == NEWLINE {
        OffsetOfPrefix(m, m + [0], |m|);
      }
    }
  }

  lemma {:induction false} OffsetOfPrefix(a: seq<nat>, b: seq<nat>, k: nat)
    requires k <= |a| && k <= |b| && a[..k] == b[..k]
    ensures Offset(a, k) == Offset(b, k)
  {
    if k > 0 {
      assert a[..k - 1] == a[..k][..k - 1] && b[..k - 1] == b[..k][..k - 1];
      assert a[k - 1] == a[..k][k - 1] == b[..k][k - 1];
      OffsetOfPrefix(a, b, k - 1);
    }
  }

  lemma {:induction false} OffsetsGrow(keys: seq<nat>, j: nat, k: nat)
    requires j <= k <= |keys|
    ensures Offset(keys, j) <= Offset(keys, k)
  {
    if j < k {
      OffsetsGrow(keys, j, k - 1);
    }
  }

  /** All lines but the last have a newline, so they are not empty. */
  lemma {:induction false} LinesNotEmpty(text: seq<byte>)
    ensures forall k | 0 <= k < |LineLengths(text)| - 1 :: LineLengths(text)[k] > 0
  {
    if text != [] {
      LinesNotEmpty(text[..|text| - 1]);
    }
  }

  /** Where the text up to a position ends among the lines of the whole text. */
  lemma LineOfPosition(a: seq<byte>, b: seq<byte>)
    ensures var l, g := LineLengths(a), LineLengths(a + b);
            |l| <= |g| && g[..|l| - 1] == l[..|l| - 1] && Offset(g, |l| - 1) + l[|l| - 1] == |a| &&
            Offset(g, |l|) == |a| + LineLengths(b)[0] && (|l| < |g| ==> |a| < Offset(g, |l|))
  {
    var l, g := LineLengths(a), LineLengths(a + b);
    LinesOfSum(a, b);
    SumOfLines(a);
    OffsetOfPrefix(l, g, |l| - 1);
    LinesNotEmpty(b);
  }

  // ---- lines after an edit ----------------------------------------------------------------------

  /** The row that holds a position: the last that starts at or before it. */
  ghost predicate Holds(keys: seq<nat>, r: nat, i: nat) {
    r < |keys| && Offset(keys, r) <= i && (r + 1 < |keys| ==> i < Offset(keys, r + 1))
  }

  lemma HoldsOne(keys: seq<nat>, r: nat, q: nat, i: nat)
    requires Holds(keys, r, i) && Holds(keys, q, i)
    ensures r == q
  {
    if r < q {
      OffsetsGrow(keys, r + 1, q);
    } else if q < r {
      OffsetsGrow(keys, q + 1, r);
    }
  }

  lemma OwnRow(a: seq<byte>, b: seq<byte>)
    ensures var l, m, g := LineLengths(a), LineLengths(b), LineLengths(a + b);
            Holds(g, |l| - 1, |a|) && Offset(g, |l| - 1) + l[|l| - 1] == |a| &&
            g[..|l| - 1] == l[..|l| - 1] && g[|l| - 1] == l[|l| - 1] + m[0] && g[|l|..] == m[1..]
  {
    hide LineLengths, Glued;
    LineOfPosition(a, b);
    LinesOfSum(a, b);
    GluedParts(LineLengths(a), LineLengths(b));
  }

  /** The parts of the row that holds the end of `a`. */
  lemma RowOfPosition(a: seq<byte>, b: seq<byte>, r: nat)
    requires Holds(LineLengths(a + b), r, |a|)
    ensures var l, m, g := LineLengths(a), LineLengths(b), LineLengths(a + b);
            r == |l| - 1 && l[..r] == g[..r] && l[r] == |a| - Offset(g, r) <= g[r] &&
            m[0] == g[r] - (|a| - Offset(g, r)) && m[1..] == g[r + 1..]
  {
    hide LineLengths, Glued, Holds;
    OwnRow(a, b);
    HoldsOne(LineLengths(a + b), r, |LineLengths(a)| - 1, |a|);
  }

  lemma GluedParts(l: seq<nat>, m: seq<nat>)
    requires l != [] && m != []
    ensures var g, r := Glued(l, m), |l| - 1;
            g[..r] == l[..r] && g[r] == l[r] + m[0] && g[r + 1..] == m[1..]
  {
  }

  /** Taking `mid` out joins the first part of one row with the last part of another. */
  lemma ErasedLines(a: seq<byte>, mid: seq<byte>, b: seq<byte>, r: nat, q: nat)
    requires Holds(LineLengths(a + mid + b), r, |a|) && Holds(LineLengths(a + mid + b), q, |a| + |mid|)
    ensures var g := LineLengths(a + mid + b);
            var left, right := |a| - Offset(g, r), g[q] - (|a| + |mid| - Offset(g, q));
            r <= q && 0 <= left && 0 <= right && LineLengths(a + b) == g[..r] + [left + right] + g[q + 1..]
  {
    hide LineLengths, Holds, Offset;
    assert a + mid + b == a + (mid + b);
    HoldsLater(LineLengths(a + mid + b), r, q, |a|, |a| + |mid|);
    RowOfPosition(a, mid + b, r);
    RowOfPosition(a + mid, b, q);
    LinesOfSum(a, b);
  }

  lemma HoldsLater(keys: seq<nat>, r: nat, q: nat, i: nat, j: nat)
    requires Holds(keys, r, i) && Holds(keys, q, j) && i <= j
    ensures r <= q
  {
    if q < r {
      OffsetsGrow(keys, q + 1, r);
    }
  }

  lemma {:induction false} OpenLine(c: seq<byte>)
    requires forall k | 0 <= k < |c| :: c[k] != NEWLINE
    ensures LineLengths(c) == [|c|]
  {
    if c != [] {
      OpenLine(c[..|c| - 1]);
    }
  }

  /** Text that ends with its only newline. */
  lemma ClosedLine(c: seq<byte>)
    requires forall k | 0 <= k < |c| :: c[k] != NEWLINE
    ensures LineLengths(c + [NEWLINE]) == [|c| + 1, 0]
  {
    OpenLine(c);
    LineStep(c, NEWLINE);
  }

  // ---- the same lines as those found through the map of newlines -------------------------------

  /** Line `k` begins behind a newline. */
  ghost predicate BehindNewline(text: seq<byte>, l: seq<nat>, k: nat)
    requires k <= |l|
  {
    0 < Offset(l, k) <= |text| && text[Offset(l, k) - 1] == NEWLINE
  }

  ghost predicate BeginsAt(l: seq<nat>, p: int) {
    exists k :: 0 < k < |l| && Offset(l, k) == p
  }

  lemma OffsetsStay(l: seq<nat>, k: nat)
    requires l != [] && k < |l|
    ensures Offset(OneMore(l), k) == Offset(l, k) == Offset(OneMore(l) + [0], k)
  {
    OffsetOfPrefix(l, OneMore(l), k);
    OffsetOfPrefix(l, OneMore(l) + [0], k);
  }

  /** A newline ends every line but the last, and there are no others. */
  lemma {:induction false} NewlinesAt(text: seq<byte>)
    ensures forall k | 0 < k < |LineLengths(text)| :: BehindNewline(text, LineLengths(text), k)
    ensures forall p | 0 <= p < |text| && text[p] == NEWLINE :: BeginsAt(LineLengths(text), p + 1)
  {
    if text != [] {
      var front, c := text[..|text| - 1], text[|text| - 1];
      NewlinesAt(front);
      SumOfLines(text);
      assert text == front + [c];
      LineStep(front, c);
      hide LineLengths, OneMore;
      var l, g := LineLengths(front), LineLengths(text);
      forall k | 0 < k < |g| ensures BehindNewline(text, g, k) {
        if k < |l| {
          OffsetsStay(l, k);
          assert BehindNewline(front, l, k);
        }
      }
      forall p | 0 <= p < |text| && text[p] == NEWLINE ensures BeginsAt(g, p + 1) {
        if p < |front| {
          assert front[p] == NEWLINE && BeginsAt(l, p + 1);
          var k :| 0 < k < |l| && Offset(l, k) == p + 1;
          OffsetsStay(l, k);
        } else {
          assert Offset(g, |l|) == p + 1;
        }
      }
    }
  }

  /** The newlines that the lengths of the lines imply. */
  function Marks(l: seq<nat>): (f: seq<Entry<bool>>)
    requires l != []
    ensures |f| == |l| - 1
  {
    seq(|l| - 1, i requires 0 <= i < |l| - 1 => Entry(Offset(l, i + 1) - 1, true))
  }

  lemma MarksAreNewlines(text: seq<byte>)
    ensures HardLines.Marks(Marks(LineLengths(text)), text)
  {
    var l := LineLengths(text);
    var f := Marks(l);
    NewlinesAt(text);
    LinesNotEmpty(text);
    hide LineLengths;
    forall i, j | 0 <= i < j < |f| ensures f[i].key < f[j].key {
      OffsetsGrow(l, i + 2, j + 1);
    }
    forall p | p in HardLines.Newlines(text) ensures HasKey(f, p) {
      assert BeginsAt(l, p + 1);
      var n :| 0 < n < |l| && Offset(l, n) == p + 1;
      assert f[n - 1].key == p;
    }
    forall i | 0 <= i < |f| ensures f[i].key in HardLines.Newlines(text) {
      assert BehindNewline(text, l, i + 1);
    }
    AbsIs(f, HardLines.Newlines(text));
  }

  /** Rows with the lengths of the lines start and end where `begin` and `end` say. */
  lemma RowsAreLines(text: seq<byte>, e: seq<Entry<bool>>, k: nat)
    requires HardLines.Marks(e, text) && k < |LineLengths(text)|
    ensures |LineLengths(text)| == HardLines.LineCount(e)
    ensures Offset(LineLengths(text), k) == HardLines.Begin(e, k)
    ensures LineLengths(text)[k] == HardLines.End(e, |text|, k) - HardLines.Begin(e, k)
  {
    hide LineLengths;
    MarksAreNewlines(text);
    AbsUnique(e, Marks(LineLengths(text)));
    SumOfLines(text);
  }
}
