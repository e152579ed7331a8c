/** `layout_t`, lengths only: one row for every line that its folds let see, kept so by every edit. */
module Layouts {

  import opened Seqs
  import opened Utf8
  import opened Lines
  import opened Rows
  import opened IndexedMaps
  import opened Folds
  import opened Hiding
  import HardLines
  import P = Paragraphs

  /** How text is taken apart into characters: any way that accounts for all bytes. */
  type Splitter = seq<byte> -> seq<P.Character>

  ghost predicate Sound(characters: Splitter) {
    forall s :: |P.KindsOf(characters(s))| == |s| &&
        forall c | c in characters(s) :: c.kind in {P.Text, P.Unprintable, P.Newline}
  }

  /** `eol` of the line that `pos` is on. */
  function EolOf(text: seq<byte>, pos: nat): nat
    requires pos <= |text|
  {
    if IsLastLine(text, pos) then |text| else LineEnd(text, pos) - 1
  }

  class Layout {
    const characters: Splitter
    const folds: Foldings
    var keys: seq<nat>
    var rows: seq<P.Paragraph>

    ghost predicate Valid()
      reads this, rows
    {
      Sound(characters) && |keys| == |rows| > 0 && (forall i, j | 0 <= i < j < |rows| :: rows[i] != rows[j]) &&
      forall k | 0 <= k < |rows| :: keys[k] == P.Total(rows[k].nodes)
    }

    /** The rows there are. */
    ghost function RowSet(): set<P.Paragraph>
      reads this`rows
    {
      set p | p in rows
    }

    ghost predicate FoldsKnown()
      reads folds, folds.legacy
    {
      folds.Valid() && Balanced(folds.folded)
    }

    /** There is a row for every line of what is shown, with its length. */
    ghost predicate Mirrors(shown: seq<byte>)
      reads this
    {
      keys == LineLengths(shown)
    }

    constructor (text: seq<byte>, characters: Splitter, folds: Foldings)
      requires Sound(characters) && folds.Valid() && Balanced(folds.folded) && Bounded(folds.folded, |text|)
      ensures Valid() && Mirrors(Hidden(text, folds.folded)) && this.characters == characters && this.folds == folds
      ensures fresh(RowSet())
    {
      this.characters := characters;
      this.folds := folds;
      var first := new P.Paragraph();
      keys, rows := [0], [first];
      new;
      EmptyText(text);
      RunsInside(folds.folded, |text|);
      ghost var n := DidInsert(text, 0, |text|, text);
      WholeShows(text, folds.folded, n);
    }

    /** `row_for_offset` */
    method RowForOffset(i: nat) returns (r: nat)
      requires keys != []
      ensures Holds(keys, r, i)
    {
      r := 0;
      var offset := 0;
      while r < |keys| && offset <= i
        invariant 0 <= r <= |keys| && offset == Offset(keys, r) && (r > 0 ==> Offset(keys, r - 1) <= i)
      {
        offset := offset + keys[r];
        r := r + 1;
      }
      if r != 0 {
        r := r - 1;
      }
    }

    /** `update_row` */
    method UpdateRow(r: nat)
      requires |keys| == |rows| && r < |rows|
      modifies this`keys
      ensures keys == old(keys)[r := P.Total(rows[r].nodes)]
    {
      var length := rows[r].Length();
      keys := keys[r := length];
    }

    /** Text goes into a row, `at` bytes behind its start. */
    method InsertInRow(r: nat, at: nat, s: seq<byte>)
      requires Valid() && r < |rows| && at <= keys[r]
      modifies this`keys, rows[r]
      ensures Valid() && rows == old(rows) && keys == old(keys)[r := old(keys)[r] + |s|]
    {
      hide P.Total, P.Kinds, P.Divisible, Splice;
      rows[r].Insert(at, characters(s));
      UpdateRow(r);
    }

    method EraseInRow(r: nat, from: nat, to: nat, bufferOffset: nat)
      requires Valid() && r < |rows| && bufferOffset <= from <= to <= bufferOffset + keys[r]
      modifies this`keys, rows[r]
      ensures Valid() && rows == old(rows) && keys == old(keys)[r := old(keys)[r] - (to - from)]
    {
      hide Sound, P.Total, P.Kinds;
      rows[r].Erase(from, to, bufferOffset);
      UpdateRow(r);
    }

    method AddRow(r: nat)
      requires Valid() && r <= |rows|
      modifies this`keys, this`rows
      ensures Valid() && fresh(RowSet() - old(RowSet())) &&
              keys == old(keys)[..r] + [0] + old(keys)[r..]
    {
      var row := new P.Paragraph();
      rows := rows[..r] + [row] + rows[r..];
      keys := keys[..r] + [0] + keys[r..];
    }

    /** The first bytes of row `q` go, and other text comes in their place. */
    method ReplacePrefix(q: nat, base: nat, prefixLenToErase: nat, s: seq<byte>)
      requires Valid() && q < |rows| && prefixLenToErase <= keys[q]
      modifies this`keys, rows[q]
      ensures Valid() && rows == old(rows) && keys == old(keys)[q := |s| + (old(keys)[q] - prefixLenToErase)]
    {
      hide P.Total, P.Kinds, P.Divisible, Splice, P.KindsOf;
      rows[q].Erase(base, base + prefixLenToErase, base);
      rows[q].Insert(0, characters(s));
      UpdateRow(q);
    }

    /** What is left of row `fromRow` goes before what is left of row `toRow`. */
    method MergeRows(fromRow: nat, toRow: nat, base: nat, prefixLenToErase: nat, s: seq<byte>)
      requires Valid() && fromRow < toRow < |rows| && prefixLenToErase <= keys[toRow]
      modifies this`keys, this`rows, rows[toRow]
      ensures Valid() && RowSet() <= old(RowSet())
      ensures keys == old(keys)[..fromRow] + [|s| + (old(keys)[toRow] - prefixLenToErase)] + old(keys)[toRow + 1..]
    {
      hide Sound;
      ReplacePrefix(toRow, base, prefixLenToErase, s);
      CutRows(fromRow, toRow);
    }

    /** `_rows.erase` */
    method CutRows(from: nat, to: nat)
      requires Valid() && from < to < |rows|
      modifies this`keys, this`rows
      ensures Valid() && RowSet() <= old(RowSet()) && keys == old(keys)[..from] + old(keys)[to..]
    {
      hide Sound;
      rows := rows[..from] + rows[to..];
      keys := keys[..from] + keys[to..];
    }

    /** `insert_folded` and `update_row` */
    method FoldInRow(r: nat, at: nat, len: nat)
      requires Valid() && r < |rows| && at <= keys[r]
      modifies this`keys, rows[r]
      ensures Valid() && rows == old(rows) && keys == old(keys)[r := old(keys)[r] + len]
    {
      hide Sound, P.Total, P.Kinds, P.Divisible, Splice;
      rows[r].InsertNode(P.Folding, at, len);
      UpdateRow(r);
    }

    /** `did_erase`: [from, to) goes from what the rows show.  Rows that become one are folded again,
        which can hide more.  It fails where the original asserts that a row has all that is to be erased. */
    method DidErase(text: seq<byte>, from: nat, to: nat, ghost shown: seq<byte>, ghost bound: nat)
      returns (ok: bool, ghost left: seq<byte>)
      requires Valid() && FoldsKnown() && Mirrors(shown) && from <= to && from <= |text| && from <= |shown|
      requires from <= bound && (ShowsNewline(shown, from, to) ==> RunsEnd(folds.folded, from, from, bound))
      modifies this`keys, this`rows, RowSet()
      ensures Valid() && FoldsKnown() && RowSet() <= old(RowSet()) && ok == CanErase(shown, folds.folded, from, to)
      ensures ok ==> Mirrors(left) && HidesMore(shown[..from] + shown[to..], left, folds.folded, bound)
      ensures ok && ShowsNewline(shown, from, to) ==> RunsHidden(left, folds.folded, from, from)
      decreases from, 1
    {
      hide LineLengths, Sound, Covered, Marked, Balanced, RunsHidden, ShowsNewline;
      left := [];
      if from == to {
        ThreeParts(shown, from, to);
        NothingBetween(shown, from);
        return true, shown[..from] + shown[to..];
      }
      var base, prefixLenToInsert, joined;
      ok, base, prefixLenToInsert, joined := EraseRows(text, from, to, shown);
      if ok {
        left := shown[..from] + shown[to..];
        if joined {
          RunsFromBase(folds.folded, base, from, bound);
          RunsFromBase(folds.folded, base, from, |left|);
          ok, left := RepairFolds(text, base, base + prefixLenToInsert, left, bound);
          if ok {
            HiddenFromBase(left, folds.folded, base, from);
          }
        }
      }
    }

    /** The rows of the range become one, unless it lies in one row. */
    method EraseRows(text: seq<byte>, from: nat, to: nat, ghost shown: seq<byte>)
      returns (ok: bool, base: nat, prefixLenToInsert: nat, joined: bool)
      requires Valid() && Mirrors(shown) && from < to && from <= |shown| && from <= |text|
      modifies this`keys, this`rows, RowSet()
      ensures Valid() && RowSet() <= old(RowSet()) && (ok <==> to <= |shown|)
      ensures ok ==> Mirrors(shown[..from] + shown[to..]) && base + prefixLenToInsert == from
      ensures ok ==> (joined <==> ShowsNewline(shown, from, to))
    {
      hide Offset, Holds, LineLengths, Sound;
      var fromRow := RowForOffset(from);
      var toRow := RowForOffset(to);
      EndOfRow(shown, toRow, to);
      joined := fromRow != toRow;
      base, prefixLenToInsert := 0, 0;
      if to > Offset(keys, toRow) + keys[toRow] {
        return false, base, prefixLenToInsert, joined;
      }
      ok := true;
      ThreeParts(shown, from, to);
      ErasedLines(shown[..from], shown[from..to], shown[to..], fromRow, toRow);
      RowsApart(shown[..from], shown[from..to], shown[to..], fromRow, toRow);
      NewlineInside(shown, from, to);
      base := Offset(keys, fromRow);
      prefixLenToInsert := from - base;
      assert rows[fromRow] in RowSet() && rows[toRow] in RowSet();
      if !joined {
        EraseInRow(fromRow, from, to, base);
      } else {
        var prefixLenToErase := to - Offset(keys, toRow);
        MergeRows(fromRow, toRow, base, prefixLenToErase, text[base..base + prefixLenToInsert]);
      }
    }

    /** `repair_folds`: all runs of folded positions that meet [from, to) are hidden. */
    method RepairFolds(text: seq<byte>, from: nat, to: nat, ghost shown: seq<byte>, ghost bound: nat)
      returns (ok: bool, ghost left: seq<byte>)
      requires Valid() && FoldsKnown() && Mirrors(shown) && to <= |text| && to <= |shown|
      requires RunsEnd(folds.folded, from, to, bound)
      modifies this`keys, this`rows, RowSet()
      ensures Valid() && FoldsKnown() && RowSet() <= old(RowSet())
      ensures ok <==> RunsEnd(folds.folded, from, to, |shown|)
      ensures ok ==> Mirrors(left) && HidesMore(shown, left, folds.folded, bound)
      ensures ok ==> RunsHidden(left, folds.folded, from, to)
      decreases (to), 0
    {
      hide Abs, LineLengths, Sound, Covered, Marked, Outlines, Balanced, Entries, MaximalRun, RunsHidden, RunsEnd,
           Ascending, Sorted, P.Total, Runs;
      OutlinesExactly(folds.folded, folds.legacy.Contents());
      var foldedRanges := FoldedRanges(Entries(folds.legacy.tree), folds.folded);
      left := shown;
      for k := 0 to |foldedRanges|
        invariant Valid() && FoldsKnown() && Mirrors(left) && RowSet() <= old(RowSet())
        invariant HidesMore(shown, left, folds.folded, bound)
        invariant forall q | 0 <= q < k && Meets(foldedRanges[q], from, to) ::
                    foldedRanges[q].1 <= |shown| && RangeHidden(left, foldedRanges[q])
      {
        var (first, last) := foldedRanges[k];
        RunAt(folds.folded, foldedRanges, k, from, to, bound);
        if !(last <= from || to <= first) {
          ghost var before := left;
          ok, left := FoldRange(text, first, last, left);
          if !ok {
            RunTooLong(folds.folded, first, last, from, to, |shown|);
            return;
          }
          HidesOn(shown, before, left, folds.folded, bound, last);
          StillHidden(before, left, folds.folded, foldedRanges, last);
        }
      }
      ok := true;
      AllRunsHidden(left, folds.folded, foldedRanges, from, to);
    }

    /** The body of its loop. */
    method FoldRange(text: seq<byte>, first: nat, last: nat, ghost shown: seq<byte>)
      returns (ok: bool, ghost left: seq<byte>)
      requires Valid() && FoldsKnown() && Mirrors(shown) && first <= |text| && first <= |shown| && first < last
      requires MaximalRun(folds.folded, first, last)
      modifies this`keys, this`rows, RowSet()
      ensures Valid() && FoldsKnown() && RowSet() <= old(RowSet()) && (ok <==> last <= |shown|)
      ensures ok ==> Mirrors(left) && HidesMore(shown, left, folds.folded, last) && RangeHidden(left, (first, last))
      decreases first, 2
    {
      hide LineLengths, Sound, Covered, Marked, HidesMore, RunsEnd, MaximalRun, ShowsNewline, Abs, Entries,
           Ascending, Sorted, Balanced, P.Total, FoldedIn, RangeHidden, RunsHidden;
      EarlierRuns(folds.folded, first, last, |shown| - (last - first));
      EarlierRuns(folds.folded, first, last, first);
      ghost var p;
      left := shown;
      ok, p := DidErase(text, first, last, shown, first);
      if ok {
        ErasedSize(shown, first, last, p, folds.folded, first);
        InsertFolded(first, last - first, p);
        left := FoldedIn(p, first, last - first);
        FoldedShows(shown, p, first, last, folds.folded);
      }
    }

    method InsertFolded(first: nat, len: nat, ghost p: seq<byte>)
      requires Valid() && Mirrors(p) && first <= |p|
      modifies this`keys, RowSet()
      ensures Valid() && Mirrors(FoldedIn(p, first, len)) && rows == old(rows)
    {
      hide LineLengths, Sound, Offset, Holds;
      Parts(p, first);
      var row := RowForOffset(first);
      LongerRow(p[..first], seq(len, _ => HIDDEN), p[first..], row);
      assert rows[row] in RowSet();
      FoldInRow(row, first - Offset(keys, row), len);
    }

    /** `did_insert`: the buffer, which holds `text` now, has got [first, last). */
    method DidInsert(text: seq<byte>, first: nat, last: nat, ghost shown: seq<byte>) returns (ghost left: seq<byte>)
      requires Valid() && FoldsKnown() && first <= last <= |text| == |shown| && shown[first..last] == text[first..last]
      requires Mirrors(shown[..first] + shown[last..]) && RunsEnd(folds.folded, 0, |text|, |text|)
      modifies this`keys, this`rows, RowSet()
      ensures Valid() && FoldsKnown() && Mirrors(left) && fresh(RowSet() - old(RowSet()))
      ensures HidesMore(shown, left, folds.folded, |shown|)
      ensures forall i | first <= i < last && Covered(folds.folded, i) :: left[i] == HIDDEN
    {
      hide LineLengths, Covered, Sound, Marked, Balanced, RunsHidden;
      left := shown;
      if first == last {
        ThreeParts(shown, first, last);
        return;
      }
      var suffixLen := InsertLines(text, first, last, shown);
      var ok;
      ok, left := RepairFolds(text, first, last + suffixLen, left, |shown|);
      CoveredHidden(left, folds.folded, first, last, last + suffixLen);
    }

    /** The row is divided where the new text has newlines. */
    method InsertLines(text: seq<byte>, first: nat, last: nat, ghost shown: seq<byte>) returns (suffixLen: nat)
      requires Valid() && first < last <= |text| == |shown| && shown[first..last] == text[first..last]
      requires Mirrors(shown[..first] + shown[last..])
      modifies this`keys, this`rows, RowSet()
      ensures Valid() && Mirrors(shown) && last + suffixLen <= |text|
      ensures fresh(RowSet() - old(RowSet()))
    {
      hide LineLengths, Offset, Sound, Filled, LineStart, EolOf, Holds, P.Total;
      var row: nat := RowForOffset(first);
      ghost var suffix := FirstRow(keys, row, shown, first, last);
      FillsRow(keys, row, shown, first, last, suffix);

      suffixLen := 0;
      if LineStart(text, first) != LineStart(text, last) {
        suffixLen := Offset(keys, row) + keys[row] - first;
        assert rows[row] in RowSet();
        EraseInRow(row, first, first + suffixLen, Offset(keys, row));
      }

      ghost var s := suffix - suffixLen;
      row := InsertChunks(text, first, last, row, shown, s);
      FillsRow(keys, row, shown, last, last, s);
      AllFilled(keys, row, shown, last, s, suffixLen);
      if suffixLen != 0 {
        assert rows[row] in RowSet();
        InsertInRow(row, last - Offset(keys, row), text[last..last + suffixLen]);
      }
    }

    method InsertChunks(text: seq<byte>, first: nat, last: nat, firstRow: nat, ghost shown: seq<byte>, ghost s: nat)
      returns (row: nat)
      requires Valid() && first <= last <= |text| == |shown| && shown[first..last] == text[first..last]
      requires Filled(keys, firstRow, shown, first, last, s) && firstRow < |rows|
      requires LineStart(text, first) != LineStart(text, last) ==> s == 0
      modifies this`keys, this`rows, RowSet()
      ensures Valid() && fresh(RowSet() - old(RowSet()))
      ensures Filled(keys, row, shown, last, last, s) && row < |rows|
    {
      hide LineLengths, Offset, Sound, Filled, LineStart, EolOf, P.Total, Chunked;
      SameChunk(text, shown, first, last);
      row := firstRow;
      var pos := first;
      while pos != last
        invariant Valid() && first <= pos <= last && Filled(keys, row, shown, pos, last, s) && row < |rows|
        invariant fresh(RowSet() - old(RowSet()))
        decreases last - pos
      {
        var eol := EolOf(text, pos);
        if last < eol {
          eol := last;
        }
        NextChunk(text, pos, last, eol);
        if eol != last {
          SeparateLines(text, first, last, eol);
        }
        FillsRow(keys, row, shown, pos, last, s);
        FillOn(keys, row, shown, pos, last, s, eol);
        InsertChunk(row, pos - Offset(keys, row), text[pos..if eol != last then eol + 1 else eol], eol != last);
        if eol != last {
          row := row + 1;
          eol := eol + 1;
        }
        pos := eol;
      }
    }

    /** A chunk goes into a row, and an empty row behind it if the chunk ends with a newline. */
    method InsertChunk(row: nat, at: nat, s: seq<byte>, more: bool)
      requires Valid() && row < |rows| && at <= keys[row]
      modifies this`keys, this`rows, RowSet()
      ensures Valid() && fresh(RowSet() - old(RowSet()))
      ensures keys == Chunked(old(keys), row, |s|, more)
    {
      hide Sound, P.Total;
      assert rows[row] in RowSet();
      InsertInRow(row, at, s);
      if more {
        AddRow(row + 1);
      }
    }

    /** `did_replace`: [from, to) of the text `before` has become `s`, and the folds have followed.
        Then there is a row for every line that the folds let see, if and only if every folded newline outside
        the edit was inside a fold that the edit does not cut into. */
    method DidReplace(text: seq<byte>, from: nat, to: nat, len: nat, ghost before: seq<byte>, ghost s: seq<byte>,
        ghost was: seq<Fold>)
      requires Valid() && FoldsKnown() && Mirrors(Hidden(before, was)) && Forward(was) && Bounded(was, |before|)
      requires from <= to <= |before| && len == |s| && text == Splice(before, from, to, s)
      requires multiset(folds.folded) == multiset(Edited(was, from, to, len))
      modifies this`keys, this`rows, RowSet()
      ensures Valid() && FoldsKnown() && fresh(RowSet() - old(RowSet()))
      ensures Mirrors(Hidden(text, folds.folded)) <==> SafelyFolded(before, was, from, to)
      ensures (forall f | f in was :: Uncut(f, from, to) || (from <= f.first && f.last <= to)) ==>
                Mirrors(Hidden(text, folds.folded))
    {
      hide LineLengths, Sound, Covered, Marked, Balanced, Hidden, Edited, RunsHidden, KeepsHidden, SafelyFolded, Uncut;
      ghost var m := Hidden(before, was);
      EditedRunsEnd(before, was, from, to, len, folds.folded);
      var ok;
      ghost var p;
      ok, p := DidErase(text, from, to, m, EditBound(|before|, from, to, len));
      ErasedShows(before, was, from, to, len, folds.folded, p);
      ghost var shown := m[..from] + s + m[to..];
      SpliceParts(before, from, to, s);
      SpliceParts(m, from, to, s);
      ghost var n := DidInsert(text, from, from + len, shown);
      EditedShows(before, was, from, to, s, folds.folded, n);
      EditedSafely(before, was, from, to, len, folds.folded);
    }

    /** `did_fold`: folds have come or gone inside [from, to).  There is a row then for every line that the
        folds let see, if and only if the range shows no newline, or no run of folded positions reaches over
        its start, or the run ends early enough and hides no newline behind the range. */
    method DidFold(text: seq<byte>, from: nat, to: nat, ghost was: seq<Fold>) returns (ok: bool)
      requires Valid() && FoldsKnown() && Mirrors(Hidden(text, was)) && from <= to <= |text|
      requires Bounded(folds.folded, |text|)
      requires forall x | !(from <= x < to) :: Covered(was, x) <==> Covered(folds.folded, x)
      modifies this`keys, this`rows, RowSet()
      ensures Valid() && FoldsKnown() && fresh(RowSet() - old(RowSet()))
      ensures ok <==> CanErase(Hidden(text, was), folds.folded, from, to)
      ensures ok && Mirrors(Hidden(text, folds.folded)) <==> FoldsCleanly(text, was, folds.folded, from, to)
    {
      hide LineLengths, Sound, Covered, Marked, Balanced, Hidden, HidesMore, RunsHidden, CanErase, FoldsCleanly;
      ghost var m, reach := Hidden(text, was), Reach(text, was, folds.folded, from, to);
      RunsInside(folds.folded, |text|);
      ReachBounds(text, was, folds.folded, from, to);
      ghost var p;
      ok, p := DidErase(text, from, to, m, reach);
      if ok {
        UnfoldedShows(text, from, to, was, folds.folded, p);
        ghost var shown := p[..from] + text[from..to] + p[from..];
        SpliceParts(p, from, from, text[from..to]);
        Parts(p, from);
        assert shown[from..to] == text[from..to];
        ghost var n := DidInsert(text, from, to, shown);
        RefoldedShows(text, from, to, was, folds.folded, p, n);
      } else {
        CannotEraseCleanly(text, was, folds.folded, from, to);
      }
    }
  }

  // ---- runs of edits ------------------------------------------------------------------------

  datatype Change = Change(from: nat, to: nat, s: seq<byte>)

  /** The text after some edits, those left out that do not fit. */
  function TextAfter(edits: seq<Change>): seq<byte> {
    if edits == [] then []
    else
      var text, e := TextAfter(edits[..|edits| - 1]), edits[|edits| - 1];
      if e.from <= e.to <= |text| then Splice(text, e.from, e.to, e.s) else text
  }

  /** There is a row for every line of the text: it begins where the line does, and its nodes are as long. */
  ghost predicate RowPerLine(layout: Layout, text: seq<byte>)
    reads layout, layout.rows
  {
    forall e, k | HardLines.Marks(e, text) && 0 <= k < HardLines.LineCount(e) :: RowIsLine(layout, text, e, k)
  }

  ghost predicate RowIsLine(layout: Layout, text: seq<byte>, e: seq<Entry<bool>>, k: nat)
    requires k < HardLines.LineCount(e)
    reads layout, layout.rows
  {
    |layout.rows| == |layout.keys| == HardLines.LineCount(e) && Offset(layout.keys, k) == HardLines.Begin(e, k) &&
    P.Total(layout.rows[k].nodes) == HardLines.End(e, |text|, k) - HardLines.Begin(e, k)
  }

  /** After any run of edits without folds the rows are exactly the lines. */
  method Perform(characters: Splitter, edits: seq<Change>) returns (layout: Layout)
    requires Sound(characters)
    ensures layout.Valid() && layout.Mirrors(TextAfter(edits)) && RowPerLine(layout, TextAfter(edits))
  {
    hide LineLengths, Sound, Covered, Marked, Balanced;
    var folds := new Foldings();
    ForwardIsBalanced([]);
    NothingHidden([], 0, 0, 0);
    layout := new Layout([], characters, folds);
    var text := [];
    for n := 0 to |edits|
      invariant layout.Valid() && layout.FoldsKnown() && layout.folds == folds && folds.folded == []
      invariant text == TextAfter(edits[..n]) && layout.Mirrors(text)
      invariant fresh(layout) && fresh(folds) && fresh(folds.legacy) && fresh(layout.RowSet())
    {
      assert edits[..n + 1][..n] == edits[..n];
      var e := edits[n];
      if e.from <= e.to <= |text| {
        var next := Splice(text, e.from, e.to, e.s);
        NothingHidden(text, e.from, e.to, |e.s|);
        NothingHidden(next, 0, 0, 0);
        folds.WillReplace(e.from, e.to, |e.s|, |text|);
        NoFolds(folds.folded);
        ForwardIsBalanced(folds.folded);
        layout.DidReplace(next, e.from, e.to, |e.s|, text, e.s, []);
        text := next;
      }
    }
    assert edits[..|edits|] == edits;
    RowsOfLines(layout, text);
  }

  lemma NoFolds(folds: seq<Fold>)
    requires multiset(folds) == multiset([])
    ensures folds == []
  {
    assert |multiset(folds)| == |folds|;
  }

  lemma RowsOfLines(layout: Layout, text: seq<byte>)
    requires layout.Valid() && layout.Mirrors(text)
    ensures RowPerLine(layout, text)
  {
    hide LineLengths;
    forall e, k | HardLines.Marks(e, text) && 0 <= k < HardLines.LineCount(e)
      ensures RowIsLine(layout, text, e, k)
    {
      RowsAreLines(text, e, 0);
      RowsAreLines(text, e, k);
    }
  }

  /** Row `row` holds what is before `pos` of its line, and `s` bytes that belong behind `last`. */
  ghost predicate Filled(keys: seq<nat>, row: nat, text: seq<byte>, pos: nat, last: nat, s: nat)
    requires pos <= last <= |text|
  {
    var l := LineLengths(text[..pos]);
    row == |l| - 1 && keys == l[..row] + [l[row] + s] + LineLengths(text[last..])[1..]
  }

  /** The row that the new text goes into. */
  lemma FirstRow(keys: seq<nat>, row: nat, text: seq<byte>, first: nat, last: nat) returns (s: nat)
    requires first <= last <= |text| && keys == LineLengths(text[..first] + text[last..]) && Holds(keys, row, first)
    ensures Filled(keys, row, text, first, last, s) && s == LineLengths(text[last..])[0] <= |text| - last
  {
    hide LineLengths, Glued, Offset;
    RowOfPosition(text[..first], text[last..], row);
    var l, m := LineLengths(text[..first]), LineLengths(text[last..]);
    s := m[0];
    SumOfLines(text[last..]);
    FirstFits(m);
    Assembled(keys, l[..row], l[row] + s, m[1..]);
  }

  /** With all of what was behind `last` on its line, the rows are the lines. */
  lemma AllFilled(keys: seq<nat>, row: nat, text: seq<byte>, last: nat, s: nat, more: nat)
    requires last <= |text| && Filled(keys, row, text, last, last, s) && s + more == LineLengths(text[last..])[0]
    ensures row < |keys| && keys[row := keys[row] + more] == LineLengths(text) &&
            (more == 0 ==> keys == LineLengths(text))
    ensures last + more <= |text|
  {
    hide LineLengths, Glued, Offset;
    LinesOfSum(text[..last], text[last..]);
    SumOfLines(text[last..]);
    Parts(text, last);
    var l, m := LineLengths(text[..last]), LineLengths(text[last..]);
    FirstFits(m);
    MoreInRow(keys, l, row, s, m, more);
  }

  lemma FillsRow(keys: seq<nat>, row: nat, text: seq<byte>, pos: nat, last: nat, s: nat)
    requires pos <= last <= |text| && Filled(keys, row, text, pos, last, s)
    ensures row < |keys| && Offset(keys, row) <= pos && Offset(keys, row) + keys[row] == pos + s
    ensures Filled(keys[row := keys[row] - s], row, text, pos, last, 0)
  {
    hide LineLengths, Offset;
    var l := LineLengths(text[..pos]);
    SumOfLines(text[..pos]);
    KeysApart(keys, l[..row], l[row] + s, LineLengths(text[last..])[1..], l[row] + 0);
    OffsetOfPrefix(l, keys, row);
    OffsetOfLast(l);
  }

  /** A chunk without a newline, and the newline behind it, if it does not end at `last`. */
  lemma NextChunk(text: seq<byte>, pos: nat, last: nat, eol: nat)
    requires pos < last <= |text| && eol == if last < EolOf(text, pos) then last else EolOf(text, pos)
    ensures pos <= eol <= last && (forall k | pos <= k < eol :: text[k] != NEWLINE) &&
            (eol < last ==> text[eol] == NEWLINE)
  {
    EndOfLine(text, pos);
  }

  /** Positions on both sides of a newline are not on the same line. */
  lemma SeparateLines(text: seq<byte>, first: nat, last: nat, k: nat)
    requires first <= k < last <= |text| && text[k] == NEWLINE
    ensures LineStart(text, first) != LineStart(text, last)
  {
    assert LineStart(text, first) <= first;
  }

  /** A row with more bytes, and an empty row behind it if there is to be one. */
  function Chunked(keys: seq<nat>, row: nat, n: nat, more: bool): (r: seq<nat>)
    requires row < |keys|
    ensures |r| == |keys| + if more then 1 else 0
  {
    var k := keys[row := keys[row] + n];
    if more then k[..row + 1] + [0] + k[row + 1..] else k
  }

  /** One more chunk in the row, and a new row behind it if the chunk ends with a newline. */
  lemma FillOn(keys: seq<nat>, row: nat, text: seq<byte>, pos: nat, last: nat, s: nat, eol: nat)
    requires pos <= eol <= last <= |text| && Filled(keys, row, text, pos, last, s) && row < |keys|
    requires (forall k | pos <= k < eol :: text[k] != NEWLINE) && (eol < last ==> text[eol] == NEWLINE && s == 0)
    ensures eol == last ==> Filled(Chunked(keys, row, eol - pos, false), row, text, last, last, s)
    ensures eol < last ==> Filled(Chunked(keys, row, eol + 1 - pos, true), row + 1, text, eol + 1, last, s)
  {
    hide LineLengths, Glued;
    var l, m, chunk := LineLengths(text[..pos]), LineLengths(text[last..])[1..], text[pos..eol];
    if eol == last {
      OpenLine(chunk);
      LinesOfSum(text[..pos], chunk);
      assert text[..pos] + chunk == text[..eol];
      GrownRow(keys, l, row, s, m, |chunk|);
    } else {
      ClosedLine(chunk);
      LinesOfSum(text[..pos], chunk + [NEWLINE]);
      assert text[..pos] + (chunk + [NEWLINE]) == text[..eol + 1];
      GrownRow(keys, l, row, 0, m, |chunk| + 1);
    }
  }

  lemma FirstFits(m: seq<nat>)
    requires m != []
    ensures m[0] <= Offset(m, |m|)
  {
    OffsetsGrow(m, 1, |m|);
    assert Offset(m, 1) == Offset(m, 0) + m[0];
  }

  lemma KeysApart(keys: seq<nat>, a: seq<nat>, x: nat, b: seq<nat>, y: nat)
    requires keys == a + [x] + b
    ensures |a| < |keys| && keys[..|a|] == a && keys[|a|] == x && keys[|a| := y] == a + [y] + b
  {
  }

  lemma OffsetOfLast(l: seq<nat>)
    requires l != []
    ensures Offset(l, |l|) == Offset(l, |l| - 1) + l[|l| - 1]
  {
  }

  lemma Assembled(keys: seq<nat>, a: seq<nat>, x: nat, b: seq<nat>)
    requires |a| < |keys| && keys[..|a|] == a && keys[|a|] == x && keys[|a| + 1..] == b
    ensures keys == a + [x] + b
  {
  }

  lemma MoreInRow(keys: seq<nat>, l: seq<nat>, row: nat, s: nat, m: seq<nat>, more: nat)
    requires row == |l| - 1 && m != [] && keys == l[..row] + [l[row] + s] + m[1..] && s + more == m[0]
    ensures row < |keys| && keys[row := keys[row] + more] == Glued(l, m) && (more == 0 ==> keys == Glued(l, m))
  {
    KeysApart(keys, l[..row], l[row] + s, m[1..], l[row] + m[0]);
  }

  lemma GrownRow(keys: seq<nat>, l: seq<nat>, row: nat, s: nat, m: seq<nat>, n: nat)
    requires row == |l| - 1 && keys == l[..row] + [l[row] + s] + m
    ensures Glued(l, [n]) == l[..row] + [l[row] + n] && keys[row := keys[row] + n] == l[..row] + [l[row] + n + s] + m
    ensures var k := keys[row := keys[row] + n]; s == 0 ==>
              Glued(l, [n, 0]) == l[..row] + [l[row] + n, 0] &&
                  k[..row + 1] + [0] + k[row + 1..] == l[..row] + [l[row] + n, 0] + m
  {
    var k := keys[row := keys[row] + n];
    assert k[..row + 1] == l[..row] + [l[row] + n + s];
    assert k[row + 1..] == m;
  }

  lemma SpliceParts(before: seq<byte>, from: nat, to: nat, s: seq<byte>)
    requires from <= to <= |before|
    ensures var t := before[..from] + s + before[to..];
            t[..from] == before[..from] && t[from + |s|..] == before[to..]
  {
  }

  /** What `did_erase` needs: the range, and every run of folded positions that reaches over its start if rows
      are to be joined, has to end inside what the rows show. */
  ghost predicate CanErase(shown: seq<byte>, folds: seq<Fold>, from: nat, to: nat) {
    to <= |shown| && (ShowsNewline(shown, from, to) ==> RunsEnd(folds, from, from, |shown| - (to - from)))
  }

  /** All maximal runs that begin before `to` and reach behind `from` are hidden. */
  ghost predicate RunsHidden(s: seq<byte>, folds: seq<Fold>, from: int, to: int) {
    forall a, b | MaximalRun(folds, a, b) && a < to && from < b :: RangeHidden(s, (a, b))
  }

  ghost predicate RangeHidden(s: seq<byte>, range: (int, int)) {
    forall i | range.0 <= i < range.1 && 0 <= i < |s| :: s[i] == HIDDEN
  }

  predicate Meets(range: (int, int), from: int, to: int) {
    range.0 < to && from < range.1
  }

  lemma RunAt(folds: seq<Fold>, ranges: seq<(int, int)>, k: nat, from: int, to: int, bound: int)
    requires Runs(folds, ranges) && k < |ranges| && RunsEnd(folds, from, to, bound)
    ensures MaximalRun(folds, ranges[k].0, ranges[k].1) && 0 <= ranges[k].0 < ranges[k].1
    ensures Meets(ranges[k], from, to) ==> ranges[k].1 <= bound
  {
    assert Covered(folds, ranges[k].0);
  }

  lemma RunTooLong(folds: seq<Fold>, a: int, b: int, from: int, to: int, size: int)
    requires MaximalRun(folds, a, b) && a < to && from < b && size < b
    ensures !RunsEnd(folds, from, to, size)
  {
  }

  lemma HidesOn(a: seq<byte>, b: seq<byte>, c: seq<byte>, folds: seq<Fold>, bound: nat, last: nat)
    requires HidesMore(a, b, folds, bound) && HidesMore(b, c, folds, last) && last <= bound
    ensures HidesMore(a, c, folds, bound)
  {
    hide Covered;
  }

  lemma StillHidden(b: seq<byte>, c: seq<byte>, folds: seq<Fold>, ranges: seq<(int, int)>, last: nat)
    requires HidesMore(b, c, folds, last)
    ensures forall q | 0 <= q < |ranges| && RangeHidden(b, ranges[q]) :: RangeHidden(c, ranges[q])
  {
    hide Covered;
  }

  lemma AllRunsHidden(s: seq<byte>, folds: seq<Fold>, ranges: seq<(int, int)>, from: int, to: int)
    requires Runs(folds, ranges)
    requires forall q | 0 <= q < |ranges| && Meets(ranges[q], from, to) :: RangeHidden(s, ranges[q])
    ensures RunsHidden(s, folds, from, to)
    ensures RunsEnd(folds, from, to, |s|) <==> forall q | 0 <= q < |ranges| &&
            Meets(ranges[q], from, to) :: ranges[q].1 <= |s|
  {
    forall a, b | MaximalRun(folds, a, b) && a < to && from < b
      ensures exists q :: 0 <= q < |ranges| && ranges[q] == (a, b)
    {
      RunIsRange(folds, ranges, a, b);
    }
  }

  lemma RunIsRange(folds: seq<Fold>, ranges: seq<(int, int)>, a: int, b: int)
    requires Runs(folds, ranges) && MaximalRun(folds, a, b)
    ensures exists q :: 0 <= q < |ranges| && ranges[q] == (a, b)
  {
    hide Covered;
    assert Covered(folds, a);
    var q :| 0 <= q < |ranges| && ranges[q].0 <= a < ranges[q].1;
    SameRun(folds, a, b, ranges[q].0, ranges[q].1);
  }

  /** Maximal runs that share a position are the same. */
  lemma SameRun(folds: seq<Fold>, a: int, b: int, c: int, d: int)
    requires MaximalRun(folds, a, b) && MaximalRun(folds, c, d) && c <= a < d
    ensures a == c && b == d
  {
    hide Covered;
    assert c < a ==> Covered(folds, a - 1);
    assert b < d ==> Covered(folds, b);
    assert d < b ==> Covered(folds, d);
  }

  lemma CoveredHidden(s: seq<byte>, folds: seq<Fold>, from: nat, mid: nat, to: nat)
    requires RunsHidden(s, folds, from, to) && from <= mid <= to && mid <= |s|
    ensures forall i | from <= i < mid && Covered(folds, i) :: s[i] == HIDDEN
  {
    forall i | from <= i < mid && Covered(folds, i) ensures s[i] == HIDDEN {
      var a, b := RunAround(folds, i);
      assert RangeHidden(s, (a, b));
    }
  }

  /** Every folded position is in a maximal run. */
  lemma RunAround(folds: seq<Fold>, i: nat) returns (a: nat, b: nat)
    requires Covered(folds, i)
    ensures MaximalRun(folds, a, b) && a <= i < b
  {
    hide Covered;
    a, b := i, i + 1;
    while a > 0 && Covered(folds, a - 1)
      invariant a <= i && forall x | a <= x <= i :: Covered(folds, x)
    {
      a := a - 1;
    }
    OutOfReach(folds, -1);
    while Covered(folds, b)
      invariant i < b && forall x | i <= x < b :: Covered(folds, x)
      decreases if b < EndOfAll(folds) then EndOfAll(folds) - b else 0
    {
      OutOfReach(folds, b);
      b := b + 1;
    }
  }

  lemma RunsFromBase(folds: seq<Fold>, base: nat, from: nat, bound: nat)
    requires base <= from <= bound
    ensures RunsEnd(folds, from, from, bound) <==> RunsEnd(folds, base, from, bound)
  {
    hide MaximalRun;
  }

  lemma HiddenFromBase(s: seq<byte>, folds: seq<Fold>, base: nat, from: nat)
    requires base <= from && RunsHidden(s, folds, base, from)
    ensures RunsHidden(s, folds, from, from)
  {
    hide MaximalRun, RangeHidden;
  }

  lemma NothingBetween(s: seq<byte>, from: nat)
    ensures !ShowsNewline(s, from, from)
  {
  }

  lemma NewlineInside(s: seq<byte>, from: nat, to: nat)
    requires from <= to <= |s|
    ensures (exists k :: 0 <= k < to - from && s[from..to][k] == NEWLINE) <==> ShowsNewline(s, from, to)
  {
    if k :| 0 <= k < to - from && s[from..to][k] == NEWLINE {
      assert s[from + k] == NEWLINE;
    }
    if ShowsNewline(s, from, to) {
      var k :| from <= k < to && s[k] == NEWLINE;
      assert s[from..to][k - from] == NEWLINE;
    }
  }

  /** A position behind the end of the row that holds it is behind all that is shown. */
  lemma EndOfRow(shown: seq<byte>, r: nat, i: nat)
    requires Holds(LineLengths(shown), r, i)
    ensures var keys := LineLengths(shown); r < |keys| && (i <= Offset(keys, r) + keys[r] <==> i <= |shown|)
  {
    hide LineLengths, Offset;
    var keys := LineLengths(shown);
    SumOfLines(shown);
    OffsetsGrow(keys, r + 1, |keys|);
    OffsetNext(keys, r);
  }

  lemma OffsetNext(keys: seq<nat>, r: nat)
    requires r < |keys|
    ensures Offset(keys, r + 1) == Offset(keys, r) + keys[r]
  {
  }

  lemma RunsInside(folds: seq<Fold>, size: nat)
    requires Bounded(folds, size)
    ensures RunsEnd(folds, 0, size, size)
  {
    forall a, b | MaximalRun(folds, a, b) ensures b <= size {
      assert Covered(folds, b - 1);
      CoveredInside(folds, size, b - 1);
    }
  }

  /** No other run reaches over the start of a maximal run. */
  lemma EarlierRuns(folds: seq<Fold>, first: nat, last: nat, bound: int)
    requires MaximalRun(folds, first, last)
    ensures RunsEnd(folds, first, first, bound)
  {
    forall a, b | MaximalRun(folds, a, b) && a < first ensures b <= first {
      hide Covered;
      assert !Covered(folds, first - 1);
    }
  }

  lemma WholeShows(text: seq<byte>, folds: seq<Fold>, n: seq<byte>)
    requires HidesMore(text, n, folds, |text|) && forall i | 0 <= i < |text| && Covered(folds, i) :: n[i] == HIDDEN
    ensures n == Hidden(text, folds)
  {
  }

  lemma Parts(s: seq<byte>, i: nat)
    requires i <= |s|
    ensures s[..i] + s[i..] == s
  {
  }

  lemma ErasedSize(shown: seq<byte>, first: nat, last: nat, p: seq<byte>, folds: seq<Fold>, bound: nat)
    requires first <= last <= |shown| && HidesMore(shown[..first] + shown[last..], p, folds, bound)
    ensures |p| == |shown| - (last - first)
  {
  }

  /** How far hidden bytes reach behind `from` when [from, to) has been erased. */
  ghost function Reach(text: seq<byte>, was: seq<Fold>, folds: seq<Fold>, from: nat, to: nat): nat {
    if ShowsNewline(Hidden(text, was), from, to) && exists a, b :: MaximalRun(folds, a, b) && a < from < b
    then var a, b :| MaximalRun(folds, a, b) && a < from < b; b
    else from
  }

  /** No run of folds reaches over the start of a range that shows a newline, or the run ends inside what is left
      without the range, and what it covers of that is hidden anyway or has no newline. */
  ghost predicate FoldsCleanly(text: seq<byte>, was: seq<Fold>, folds: seq<Fold>, from: nat, to: nat) {
    ShowsNewline(Hidden(text, was), from, to) ==>
      forall a, b | MaximalRun(folds, a, b) && a < from < b ::
        b <= |text| - (to - from) && !Uncovers(text, folds, to, to + (b - from))
  }

  ghost predicate Uncovers(text: seq<byte>, folds: seq<Fold>, from: int, to: int) {
    exists x :: from <= x < to && 0 <= x < |text| && text[x] == NEWLINE && !Covered(folds, x)
  }

  /** Folding or unfolding what lies inside a range changes nothing outside it. */
  lemma ChangedInside(was: seq<Fold>, folds: seq<Fold>, from: nat, to: nat, x: int)
    requires forall f | (f in was && f !in folds) || (f in folds && f !in was) :: from <= f.first && f.last <= to
    requires !(from <= x < to)
    ensures Covered(was, x) <==> Covered(folds, x)
  {
    if i :| 0 <= i < |was| && was[i].first <= x < was[i].last {
      assert was[i] in folds;
      var j :| 0 <= j < |folds| && folds[j] == was[i];
    }
    if i :| 0 <= i < |folds| && folds[i].first <= x < folds[i].last {
      assert folds[i] in was;
      var j :| 0 <= j < |was| && was[j] == folds[i];
    }
  }

  /** Two runs over the same position are one. */
  lemma OneRunAcross(folds: seq<Fold>, a: int, b: int, c: int, d: int, from: int)
    requires MaximalRun(folds, a, b) && MaximalRun(folds, c, d) && a < from < b && c < from < d
    ensures a == c && b == d
  {
    if a <= c {
      SameRun(folds, c, d, a, b);
    } else {
      SameRun(folds, a, b, c, d);
    }
  }

  lemma ReachBounds(text: seq<byte>, was: seq<Fold>, folds: seq<Fold>, from: nat, to: nat)
    ensures from <= Reach(text, was, folds, from, to)
    ensures ShowsNewline(Hidden(text, was), from, to) ==>
              RunsEnd(folds, from, from, Reach(text, was, folds, from, to)) &&
              forall a, b | MaximalRun(folds, a, b) && a < from < b :: b == Reach(text, was, folds, from, to)
  {
    hide MaximalRun;
    forall a, b | ShowsNewline(Hidden(text, was), from, to) && MaximalRun(folds, a, b) && a < from < b
      ensures b == Reach(text, was, folds, from, to)
    {
      var c :| exists d :: MaximalRun(folds, c, d) && c < from < d && d == Reach(text, was, folds, from, to);
      OneRunAcross(folds, a, b, c, Reach(text, was, folds, from, to), from);
    }
  }

  lemma CannotEraseCleanly(text: seq<byte>, was: seq<Fold>, folds: seq<Fold>, from: nat, to: nat)
    requires to <= |text| && !CanErase(Hidden(text, was), folds, from, to)
    ensures !FoldsCleanly(text, was, folds, from, to)
  {
    hide MaximalRun, Covered;
  }

  /** What is left without [from, to): what was shown, with hidden bytes up to where the run reaches. */
  lemma UnfoldedShows(text: seq<byte>, from: nat, to: nat, was: seq<Fold>, folds: seq<Fold>, p: seq<byte>)
    requires from <= to <= |text| && forall x | !(from <= x < to) :: Covered(was, x) <==> Covered(folds, x)
    requires var m := Hidden(text, was); HidesMore(m[..from] + m[to..], p, folds, Reach(text, was, folds, from, to))
    requires ShowsNewline(Hidden(text, was), from, to) ==> RunsHidden(p, folds, from, from)
    ensures |p| == |text| - (to - from)
    ensures forall i | 0 <= i < |p| ::
              p[i] == if from <= i < Reach(text, was, folds, from, to) then HIDDEN
                      else Hidden(text, was)[if i < from then i else i + (to - from)]
  {
    hide Covered, MaximalRun;
    var m, reach := Hidden(text, was), Reach(text, was, folds, from, to);
    var q := m[..from] + m[to..];
    forall i | 0 <= i < |p|
      ensures p[i] == if from <= i < reach then HIDDEN else m[if i < from then i else i + (to - from)]
    {
      assert q[i] == m[if i < from then i else i + (to - from)];
      if from <= i < reach {
        var a, b :| MaximalRun(folds, a, b) && a < from < b && b == reach;
        assert RangeHidden(p, (a, b));
      }
    }
  }

  /** With the range back, the rows show what the folds let see, but for newlines the run hides behind it. */
  lemma RefoldedShows(text: seq<byte>, from: nat, to: nat, was: seq<Fold>, folds: seq<Fold>, p: seq<byte>, n: seq<byte>)
    requires from <= to <= |text| && forall x | !(from <= x < to) :: Covered(was, x) <==> Covered(folds, x)
    requires |p| == |text| - (to - from)
    requires forall i | 0 <= i < |p| ::
               p[i] == if from <= i < Reach(text, was, folds, from, to) then HIDDEN
                       else Hidden(text, was)[if i < from then i else i + (to - from)]
    requires HidesMore(p[..from] + text[from..to] + p[from..], n, folds, |text|)
    requires forall i | from <= i < to && Covered(folds, i) :: n[i] == HIDDEN
    requires CanErase(Hidden(text, was), folds, from, to)
    ensures LineLengths(n) == LineLengths(Hidden(text, folds)) <==> FoldsCleanly(text, was, folds, from, to)
  {
    hide LineLengths, Covered, MaximalRun, ShowsNewline;
    var h, reach := Hidden(text, folds), Reach(text, was, folds, from, to);
    var shown := p[..from] + text[from..to] + p[from..];
    forall i | 0 <= i < |text|
      ensures n[i] == NEWLINE <==> h[i] == NEWLINE && !(to <= i < to + (reach - from))
    {
      assert shown[i] == if i < from then p[i] else if i < to then text[i] else p[i - (to - from)];
    }
    LinesTellNewlines(n, h);
    ReachBounds(text, was, folds, from, to);
    assert (exists i :: 0 <= i < |text| && h[i] == NEWLINE && n[i] != NEWLINE) <==>
           Uncovers(text, folds, to, to + (reach - from)) by {
      if i :| 0 <= i < |text| && h[i] == NEWLINE && n[i] != NEWLINE {
        assert text[i] == NEWLINE && !Covered(folds, i);
      }
      if Uncovers(text, folds, to, to + (reach - from)) {
        var x :| to <= x < to + (reach - from) && 0 <= x < |text| && text[x] == NEWLINE && !Covered(folds, x);
        assert h[x] == NEWLINE;
      }
    }
    CleanlyIs(text, was, folds, from, to);
  }

  lemma CleanlyIs(text: seq<byte>, was: seq<Fold>, folds: seq<Fold>, from: nat, to: nat)
    requires from <= to <= |text| && CanErase(Hidden(text, was), folds, from, to)
    ensures FoldsCleanly(text, was, folds, from, to) <==>
            !Uncovers(text, folds, to, to + (Reach(text, was, folds, from, to) - from))
  {
    hide Covered, MaximalRun;
    ReachBounds(text, was, folds, from, to);
    var reach := Reach(text, was, folds, from, to);
    if reach != from {
      var a, b :| MaximalRun(folds, a, b) && a < from < b && b == reach;
      assert RunsEnd(folds, from, from, |text| - (to - from));
    }
  }

  /** Folding a range right behind a fold: the joined run reaches behind what is left, or hides a newline behind
      the range. */
  lemma AdjacentFoldsBreak()
    ensures var text: seq<byte>, was, folds := [97, NEWLINE, 98, NEWLINE, 99, NEWLINE], [Fold(1, 3)],
            [Fold(1, 3), Fold(3, 5)];
            !CanErase(Hidden(text, was), folds, 3, 5) && !FoldsCleanly(text, was, folds, 3, 5)
    ensures var text: seq<byte>, was, folds := [97, NEWLINE, 98, NEWLINE, 99, NEWLINE, 100, 101], [Fold(1, 3)],
            [Fold(1, 3), Fold(3, 5)];
            CanErase(Hidden(text, was), folds, 3, 5) && !FoldsCleanly(text, was, folds, 3, 5)
  {
    var short: seq<byte>, long: seq<byte> := [97, NEWLINE, 98, NEWLINE, 99, NEWLINE],
        [97, NEWLINE, 98, NEWLINE, 99, NEWLINE, 100, 101];
    var was, folds := [Fold(1, 3)], [Fold(1, 3), Fold(3, 5)];
    assert folds[0].first <= 1 && folds[0].first <= 2 && folds[1].first <= 3 && folds[1].first <= 4;
    assert Covered(folds, 1) && Covered(folds, 2) && Covered(folds, 3) && Covered(folds, 4);
    assert !Covered(was, 3) && !Covered(folds, 0) && !Covered(folds, 5);
    assert MaximalRun(folds, 1, 5);
    assert Hidden(short, was)[3] == NEWLINE && Hidden(long, was)[3] == NEWLINE;
    forall a, b | MaximalRun(folds, a, b) && a < 3 < b ensures b == 5 {
      OneRunAcross(folds, a, b, 1, 5, 3);
    }
    assert short[5] == NEWLINE && long[5] == NEWLINE;
    assert Uncovers(long, folds, 5, 5 + (5 - 3));
  }

  /** So many hidden bytes are put in. */
  ghost function FoldedIn(p: seq<byte>, at: nat, len: nat): seq<byte>
    requires at <= |p|
  {
    p[..at] + seq(len, _ => HIDDEN) + p[at..]
  }

  lemma FoldedShows(shown: seq<byte>, p: seq<byte>, first: nat, last: nat, folds: seq<Fold>)
    requires first <= last <= |shown| && MaximalRun(folds, first, last)
    requires HidesMore(shown[..first] + shown[last..], p, folds, first)
    ensures first <= |p| && HidesMore(shown, FoldedIn(p, first, last - first), folds, last)
    ensures |FoldedIn(p, first, last - first)| == |shown| &&
            RangeHidden(FoldedIn(p, first, last - first), (first, last))
  {
    hide Covered;
    var n := last - first;
    var left, q := FoldedIn(p, first, n), shown[..first] + shown[last..];
    forall i | 0 <= i < |shown|
      ensures left[i] == shown[i] || (left[i] == HIDDEN && i < last && Covered(folds, i))
    {
      if i < first {
        assert q[i] == shown[i] && left[i] == p[i];
      } else if last <= i {
        assert q[i - n] == shown[i] && left[i] == p[i - n];
      }
    }
  }

  lemma SameChunk(text: seq<byte>, shown: seq<byte>, first: nat, last: nat)
    requires first <= last <= |text| == |shown| && shown[first..last] == text[first..last]
    ensures forall k | first <= k < last :: shown[k] == text[k]
  {
    forall k | first <= k < last ensures shown[k] == text[k] {
      assert shown[first..last][k - first] == text[first..last][k - first];
    }
  }

  lemma EmptyText(text: seq<byte>)
    ensures LineLengths(text[..0] + text[|text|..]) == [0]
  {
    assert text[..0] + text[|text|..] == [];
  }

  lemma ThreeParts(s: seq<byte>, from: nat, to: nat)
    requires from <= to <= |s|
    ensures s[..from] + s[from..to] + s[to..] == s
    ensures from == to ==> s[..from] + s[to..] == s
  {
  }
}
