/** Lines of a text, by position: what `begin`, `end` and `convert` of a buffer mean. */
module Lines {

  import opened Seqs
  import opened Utf8

  predicate IsLineStart(text: seq<byte>, p: int) {
    0 <= p <= |text| && (p == 0 || text[p - 1] == NEWLINE)
  }

  /** The start of the line that position `i` is on. */
  function LineStart(text: seq<byte>, i: nat): (p: nat)
    requires i <= |text|
    ensures p <= i && IsLineStart(text, p)
    ensures forall k | p <= k < i :: text[k] != NEWLINE
  {
    if i == 0 || text[i - 1] == NEWLINE then i else LineStart(text, i - 1)
  }

  /** The position behind the newline that ends the line of `i`, or the end of the text. */
  function LineEnd(text: seq<byte>, i: nat): (q: nat)
    requires i <= |text|
    ensures i <= q <= |text|
    ensures forall k | i <= k < q - 1 :: text[k] != NEWLINE
    ensures q < |text| ==> i < q && text[q - 1] == NEWLINE
    decreases |text| - i
  {
    if i == |text| then i else if text[i] == NEWLINE then i + 1 else LineEnd(text, i + 1)
  }

  /** No newline follows: the line that starts at `p` has no end. */
  predicate IsLastLine(text: seq<byte>, p: nat) {
    forall k | p <= k < |text| :: text[k] != NEWLINE
  }

  /** Position `k` belongs to the line that starts at `p`; the last line owns all that follows. */
  predicate InLine(text: seq<byte>, p: nat, k: int)
    requires p <= |text|
  {
    p <= k && (IsLastLine(text, p) || k < LineEnd(text, p))
  }

  lemma EndOfLine(text: seq<byte>, p: nat)
    requires p <= |text|
    ensures IsLastLine(text, p) ==> LineEnd(text, p) == |text|
    ensures !IsLastLine(text, p) ==>
              p < LineEnd(text, p) && text[LineEnd(text, p) - 1] == NEWLINE &&
              IsLineStart(text, LineEnd(text, p))
  {
    var q := LineEnd(text, p);
    if !IsLastLine(text, p) && q == |text| {
      var k :| p <= k < |text| && text[k] == NEWLINE;
      assert k == q - 1;
    }
  }

  /** The first newline behind `p` is what ends its line. */
  lemma LineEndIs(text: seq<byte>, p: nat, q: nat)
    requires p < q <= |text| && text[q - 1] == NEWLINE
    requires forall k | p <= k < q - 1 :: text[k] != NEWLINE
    ensures LineEnd(text, p) == q && !IsLastLine(text, p)
  {
    EndOfLine(text, p);
    var r := LineEnd(text, p);
    assert text[r - 1] == NEWLINE;
  }

  /** Every position is on exactly one line. */
  lemma OnOwnLine(text: seq<byte>, k: nat)
    requires k <= |text|
    ensures InLine(text, LineStart(text, k), k)
    ensures LineEnd(text, LineStart(text, k)) == LineEnd(text, k)
  {
    var p := LineStart(text, k);
    EndOfLine(text, p);
    EndOfLine(text, k);
    var q := LineEnd(text, k);
    if !IsLastLine(text, k) {
      LineEndIs(text, p, q);
    } else {
      assert IsLastLine(text, p);
    }
  }

  lemma OneLine(text: seq<byte>, p: nat, r: nat, k: int)
    requires IsLineStart(text, p) && IsLineStart(text, r)
    requires InLine(text, p, k) && InLine(text, r, k)
    ensures p == r
  {
    if p < r {
      NoStartInside(text, p, r, k);
    } else if r < p {
      NoStartInside(text, r, p, k);
    }
  }

  lemma NoStartInside(text: seq<byte>, p: nat, r: nat, k: int)
    requires p < r <= k && IsLineStart(text, r) && p <= |text|
    ensures !InLine(text, p, k)
  {
    assert text[r - 1] == NEWLINE;
  }

  /** The line before a line start ends there. */
  lemma LineBeforeStart(text: seq<byte>, p: nat)
    requires IsLineStart(text, p) && p > 0
    ensures LineStart(text, p - 1) < p
    ensures LineEnd(text, LineStart(text, p - 1)) == p && !IsLastLine(text, LineStart(text, p - 1))
  {
    LineEndIs(text, LineStart(text, p - 1), p);
  }

  lemma StartOfStart(text: seq<byte>, p: nat)
    requires IsLineStart(text, p)
    ensures LineStart(text, p) == p
  {
  }

  // ---- lines an edit does not touch ---------------------------------------------------

  /** A line of the new text that starts at or before the edit and does not reach it. */
  lemma LineBeforeEdit(text: seq<byte>, from: nat, to: nat, buf: seq<byte>, p: nat)
    requires from <= to <= |text|
    requires IsLineStart(Splice(text, from, to, buf), p) && p <= from && !InLine(Splice(text, from, to, buf), p, from)
    ensures IsLineStart(text, p) && !IsLastLine(text, p) && !IsLastLine(Splice(text, from, to, buf), p)
    ensures LineEnd(text, p) == LineEnd(Splice(text, from, to, buf), p) <= from
    ensures Splice(text, from, to, buf)[p..LineEnd(text, p)] == text[p..LineEnd(text, p)]
  {
    var edited := Splice(text, from, to, buf);
    EndOfLine(edited, p);
    var q := LineEnd(edited, p);
    assert forall k | 0 <= k < from :: edited[k] == text[k];
    LineEndIs(text, p, q);
  }

  /** Text that has been moved by `d` has the same lines, moved by `d`. */
  lemma {:induction false} MovedLine(a: seq<byte>, b: seq<byte>, d: int, i: nat)
    requires i <= |a| && 0 <= i + d && |b| == |a| + d
    requires forall k | i <= k < |a| :: b[k + d] == a[k]
    ensures LineEnd(b, i + d) == LineEnd(a, i) + d
    ensures IsLastLine(a, i) <==> IsLastLine(b, i + d)
    decreases |a| - i
  {
    if i < |a| {
      assert b[i + d] == a[i];
      if a[i] != NEWLINE {
        MovedLine(a, b, d, i + 1);
      }
    }
  }

  /** A line of the new text that starts behind the edit is a line of the old text, moved. */
  lemma LineBehindEdit(text: seq<byte>, from: nat, to: nat, buf: seq<byte>, p: nat)
    requires from <= to <= |text|
    requires IsLineStart(Splice(text, from, to, buf), p) && from + |buf| < p
    ensures var r, edited := p - |buf| + (to - from), Splice(text, from, to, buf);
            to < r && IsLineStart(text, r) &&
            LineEnd(edited, p) == LineEnd(text, r) + |buf| - (to - from) &&
            (IsLastLine(text, r) <==> IsLastLine(edited, p)) &&
            edited[p..LineEnd(edited, p)] == text[r..LineEnd(text, r)]
  {
    hide LineEnd, IsLastLine, Splice;
    var edited, d := Splice(text, from, to, buf), |buf| - (to - from);
    SpliceTail(text, from, to, buf);
    assert edited[p - 1] == text[p - d - 1];
    MovedLine(text, edited, d, p - d);
    MovedSlice(text, edited, d, p - d, LineEnd(text, p - d));
  }

  lemma SpliceTail(text: seq<byte>, from: nat, to: nat, buf: seq<byte>)
    requires from <= to <= |text|
    ensures |Splice(text, from, to, buf)| == |text| + |buf| - (to - from)
    ensures forall k | to <= k < |text| :: Splice(text, from, to, buf)[k + (|buf| - (to - from))] == text[k]
  {
  }

  lemma MovedSlice(a: seq<byte>, b: seq<byte>, d: int, i: nat, j: nat)
    requires i <= j <= |a| && 0 <= i + d && |b| == |a| + d
    requires forall k | i <= k < |a| :: b[k + d] == a[k]
    ensures b[i + d..j + d] == a[i..j]
  {
    forall n | 0 <= n < j - i ensures b[i + d..j + d][n] == a[i..j][n] {
      assert b[(i + n) + d] == a[i + n];
    }
  }
}
