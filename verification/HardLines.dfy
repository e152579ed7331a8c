/** `begin`, `eol`, `end`, `lines` and `convert`: lines found through the map of newlines. */
module HardLines {

  import opened Seqs
  import opened Utf8
  import opened Lines
  import opened IndexedMaps

  /** A line number and a column in bytes: `text::pos_t`. */
  datatype Pos = Pos(line: nat, column: nat)

  /** The map of newline positions that belongs to a text. */
  ghost function Newlines(text: seq<byte>): map<int, bool> {
    map k | 0 <= k < |text| && text[k] == NEWLINE :: true
  }

  ghost predicate Marks(e: seq<Entry<bool>>, text: seq<byte>) {
    Ascending(e) && Abs(e) == Newlines(text)
  }

  function LineCount(e: seq<Entry<bool>>): nat {
    |e| + 1
  }

  function Begin(e: seq<Entry<bool>>, n: nat): int
    requires n < LineCount(e)
  {
    if n == 0 then 0 else e[n - 1].key + 1
  }

  function Eol(e: seq<Entry<bool>>, size: nat, n: nat): int
    requires n < LineCount(e)
  {
    if n + 1 == LineCount(e) then size else e[n].key
  }

  function End(e: seq<Entry<bool>>, size: nat, n: nat): int
    requires n < LineCount(e)
  {
    if n + 1 == LineCount(e) then size else e[n].key + 1
  }

  function LineOf(e: seq<Entry<bool>>, i: int): (n: nat)
    requires Ascending(e)
    ensures n < LineCount(e)
  {
    LowerBound(e, i)
  }

  /** `convert` from a position, and back; a column behind the end of its line means the end. */
  function ToPos(e: seq<Entry<bool>>, i: int): Pos
    requires Ascending(e) && Begin(e, LineOf(e, i)) <= i
  {
    Pos(LineOf(e, i), i - Begin(e, LineOf(e, i)))
  }

  function ToIndex(e: seq<Entry<bool>>, size: nat, p: Pos): int {
    var n := if p.line < LineCount(e) - 1 then p.line else LineCount(e) - 1;
    if Begin(e, n) + p.column < Eol(e, size, n) then Begin(e, n) + p.column else Eol(e, size, n)
  }

  lemma MarkedNewline(e: seq<Entry<bool>>, text: seq<byte>, n: nat)
    requires Marks(e, text) && n < |e|
    ensures 0 <= e[n].key < |text| && text[e[n].key] == NEWLINE
  {
    AbsOfEntries(e);
  }

  lemma NewlineMarked(e: seq<Entry<bool>>, text: seq<byte>, k: nat) returns (n: nat)
    requires Marks(e, text) && k < |text| && text[k] == NEWLINE
    ensures n < |e| && e[n].key == k
  {
    AbsOfEntries(e);
    assert k in Newlines(text);
    n :| 0 <= n < |e| && e[n].key == k;
  }

  lemma NewlineAside(e: seq<Entry<bool>>, text: seq<byte>, n: nat, k: nat)
    requires Marks(e, text) && n <= |e| && k < |text| && text[k] == NEWLINE
    ensures (0 < n && k <= e[n - 1].key) || (n < |e| && e[n].key <= k)
  {
    var m := NewlineMarked(e, text, k);
    assert m < n ==> e[m].key <= e[n - 1].key;
    assert n <= m ==> e[n].key <= e[m].key;
  }

  /** No newline lies between two neighbouring marks, before the first or behind the last. */
  lemma NoneBetween(e: seq<Entry<bool>>, text: seq<byte>, n: nat)
    requires Marks(e, text) && n <= |e|
    ensures forall k | 0 <= k < |text| && (n == 0 || e[n - 1].key < k) &&
            (n == |e| || k < e[n].key) :: text[k] != NEWLINE
  {
    forall k | 0 <= k < |text| && (n == 0 || e[n - 1].key < k) && (n == |e| || k < e[n].key)
      ensures text[k] != NEWLINE
    {
      if text[k] == NEWLINE {
        NewlineAside(e, text, n, k);
      }
    }
  }

  /** The line with number `LineOf(i)` is the line position `i` is on. */
  lemma LineOfPosition(e: seq<Entry<bool>>, text: seq<byte>, i: nat)
    requires Marks(e, text) && i <= |text|
    ensures Begin(e, LineOf(e, i)) == LineStart(text, i)
    ensures End(e, |text|, LineOf(e, i)) == LineEnd(text, i)
    ensures LineOf(e, i) + 1 == LineCount(e) <==> IsLastLine(text, LineStart(text, i))
  {
    var n := LineOf(e, i);
    NoneBetween(e, text, n);
    if n > 0 {
      MarkedNewline(e, text, n - 1);
    }
    var p := Begin(e, n);
    assert LineStart(text, i) == p by {
      OneStart(text, p, i);
    }
    if n < |e| {
      MarkedNewline(e, text, n);
      LineEndIs(text, i, e[n].key + 1);
    }
  }

  lemma OneStart(text: seq<byte>, p: nat, i: nat)
    requires p <= i <= |text| && IsLineStart(text, p)
    requires forall k | p <= k < i :: text[k] != NEWLINE
    ensures LineStart(text, i) == p
  {
  }

  /** Line numbers name the lines of the text in order: together they are the whole text. */
  lemma LinesPartition(e: seq<Entry<bool>>, text: seq<byte>, n: nat)
    requires Marks(e, text) && n < LineCount(e)
    ensures 0 <= Begin(e, n) <= Eol(e, |text|, n) <= End(e, |text|, n) <= |text|
    ensures IsLineStart(text, Begin(e, n)) && End(e, |text|, n) == LineEnd(text, Begin(e, n))
    ensures n == 0 ==> Begin(e, n) == 0
    ensures n + 1 < LineCount(e) ==>
              Begin(e, n + 1) == End(e, |text|, n) == Eol(e, |text|, n) + 1 && text[Eol(e, |text|, n)] == NEWLINE
    ensures n + 1 == LineCount(e) ==> End(e, |text|, n) == Eol(e, |text|, n) == |text|
    ensures forall k | Begin(e, n) <= k < Eol(e, |text|, n) :: text[k] != NEWLINE
    ensures forall i | Begin(e, n) <= i <= Eol(e, |text|, n) :: LineOf(e, i) == n
  {
    NoneBetween(e, text, n);
    if n > 0 {
      MarkedNewline(e, text, n - 1);
    }
    if n < |e| {
      MarkedNewline(e, text, n);
    }
    forall i | Begin(e, n) <= i <= Eol(e, |text|, n) ensures LineOf(e, i) == n {
      var m := LineOf(e, i);
      assert n < |e| ==> i <= e[n].key;
      assert 0 < n ==> e[n - 1].key < i;
    }
    LineOfPosition(e, text, Begin(e, n));
    StartOfStart(text, Begin(e, n));
  }

  /** `convert` undoes itself. */
  lemma ConvertUndone(e: seq<Entry<bool>>, text: seq<byte>, i: nat)
    requires Marks(e, text) && i <= |text|
    ensures Begin(e, LineOf(e, i)) <= i && ToIndex(e, |text|, ToPos(e, i)) == i
  {
    var n := LineOf(e, i);
    LinesPartition(e, text, n);
  }

  /** Conversely, every line and column inside the text names a position of its own. */
  lemma ConvertBack(e: seq<Entry<bool>>, text: seq<byte>, p: Pos)
    requires Marks(e, text) && p.line < LineCount(e) && Begin(e, p.line) + p.column <= Eol(e, |text|, p.line)
    ensures Begin(e, LineOf(e, ToIndex(e, |text|, p))) <= ToIndex(e, |text|, p) && ToPos(e, ToIndex(e, |text|, p)) == p
  {
    LinesPartition(e, text, p.line);
  }

  /** A column behind the end of its line means the end, and a line behind the last means the last. */
  lemma ConvertOutside(e: seq<Entry<bool>>, text: seq<byte>, p: Pos)
    requires Marks(e, text)
    ensures p.line < LineCount(e) && Begin(e, p.line) + p.column > Eol(e, |text|, p.line) ==>
              ToIndex(e, |text|, p) == Eol(e, |text|, p.line)
    ensures p.line >= LineCount(e) ==> ToIndex(e, |text|, p) == ToIndex(e, |text|, Pos(LineCount(e) - 1, p.column))
    ensures 0 <= ToIndex(e, |text|, p) <= |text|
  {
    LinesPartition(e, text, if p.line < LineCount(e) then p.line else LineCount(e) - 1);
  }

  // ---- edits ------------------------------------------------------------------------------

  /** Moving the marks and marking the newlines of the new text is what an edit takes. */
  lemma EditedNewlines(text: seq<byte>, from: nat, to: nat, buf: seq<byte>, m: map<int, bool>)
    requires from <= to <= |text|
    requires forall k ::
               k in m <==>
                 k in Replaced(Newlines(text), from, to, |buf|, true) ||
                 (from <= k < from + |buf| && buf[k - from] == NEWLINE)
    requires forall k | k in m :: m[k]
    ensures m == Newlines(Splice(text, from, to, buf))
  {
    hide Replaced, Newlines, Splice;
    forall k ensures k in m <==> k in Newlines(Splice(text, from, to, buf)) {
      EditedNewline(text, from, to, buf, k);
    }
    forall k | k in m ensures m[k] == Newlines(Splice(text, from, to, buf))[k] {
      EditedNewline(text, from, to, buf, k);
    }
  }

  lemma EditedNewline(text: seq<byte>, from: nat, to: nat, buf: seq<byte>, k: int)
    requires from <= to <= |text|
    ensures k in Newlines(Splice(text, from, to, buf)) <==>
            k in Replaced(Newlines(text), from, to, |buf|, true) ||
                (from <= k < from + |buf| && buf[k - from] == NEWLINE)
    ensures k in Newlines(Splice(text, from, to, buf)) ==> Newlines(Splice(text, from, to, buf))[k]
  {
    hide Replaced;
    ReplacedAt(Newlines(text), from, to, |buf|, true, k);
  }
}
