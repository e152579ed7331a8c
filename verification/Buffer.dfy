/** `buffer_t`: the text with its four position maps, edited and parsed in place. */
module Buffers {

  import opened Seqs
  import opened Wrappers
  import opened Utf8
  import opened Lines
  import opened IndexedMaps
  import opened Storages
  import opened HardLines
  import opened Repair
  import opened RepairRuns
  import opened Protocol
  import opened Sets

  // ---- what iterators find, seen from the map they iterate -----------------------------

  /** The scope kept by an edit is the one of the last node that is not behind its end. */
  lemma KeptScope(e: seq<Entry<Scope>>, from: int, to: int)
    requires Ascending(e)
    ensures var it := IndexedMaps.UpperBound(e, to);
            var kept := it > 0 && from < e[it - 1].key && e[it - 1].value != "";
            (kept ==> KeepsScope(Abs(e), from, to, e[it - 1].key) && Abs(e)[e[it - 1].key] == e[it - 1].value) &&
            (forall k | KeepsScope(Abs(e), from, to, k) :: kept && k == e[it - 1].key)
  {
    hide Abs;
    AbsOfEntries(e);
    var it := IndexedMaps.UpperBound(e, to);
    forall k | IsLastUpTo(Abs(e), to, k) ensures it > 0 && k == e[it - 1].key {
      LastUpTo(e, to, k);
    }
    if it > 0 {
      forall j | j in Abs(e) && j <= to ensures j <= e[it - 1].key {
        var i :| 0 <= i < |e| && e[i].key == j;
      }
    }
  }

  lemma LastUpTo(e: seq<Entry<Scope>>, to: int, k: int)
    requires Ascending(e) && IsLastUpTo(Abs(e), to, k)
    ensures var it := IndexedMaps.UpperBound(e, to);
            it > 0 && k == e[it - 1].key
  {
    hide Abs;
    AbsOfEntries(e);
    var it := IndexedMaps.UpperBound(e, to);
    var i :| 0 <= i < |e| && e[i].key == k;
    assert i < it;
    assert e[it - 1].key in Abs(e);
  }

  lemma InRun<V>(e: seq<Entry<V>>, a: nat, b: nat, k: int)
    requires a <= b <= |e|
    ensures k in KeySet(e[a..b]) <==> exists i :: a <= i < b && e[i].key == k
  {
    var run := e[a..b];
    if k in KeySet(run) {
      var i :| 0 <= i < |run| && run[i].key == k;
      assert e[a + i].key == k;
    }
    if i :| a <= i < b && e[i].key == k {
      RunKeys(e, a, b, i);
    }
  }

  /** The keys from the lower bound of `p` up to that of `q`, or up to the end. */
  lemma RunOfKeys<V>(e: seq<Entry<V>>, p: int, q: int, toEnd: bool, k: int)
    requires Ascending(e) && p <= q
    ensures var last := if toEnd then |e| else LowerBound(e, q);
            LowerBound(e, p) <= last &&
                (k in Abs(e) ==> (k in KeySet(e[LowerBound(e, p)..last]) <==> p <= k && (toEnd || k < q)))
  {
    hide Abs, KeySet;
    var first, last := LowerBound(e, p), if toEnd then |e| else LowerBound(e, q);
    assert first > 0 ==> e[first - 1].key < p;
    assert last < |e| ==> q <= e[last].key;
    AbsOfEntries(e);
    InRun(e, first, last, k);
  }

  lemma FirstEntry<V>(e: seq<Entry<V>>)
    requires Ascending(e) && e != []
    ensures IsLeast(Abs(e).Keys, e[0].key) && Abs(e)[e[0].key] == e[0].value
  {
    AbsOfEntries(e);
    forall j | j in Abs(e) ensures e[0].key <= j {
      var i :| 0 <= i < |e| && e[i].key == j;
    }
  }

  lemma FoundEntry<V>(e: seq<Entry<V>>, k: int)
    requires Ascending(e)
    ensures Find(e, k) < |e| <==> k in Abs(e)
    ensures Find(e, k) < |e| ==> Abs(e)[k] == e[Find(e, k)].value
  {
    AbsOfEntries(e);
  }

  /** Cutting a run of nodes out leaves what is not on the line. */
  lemma CutLine<V>(e: seq<Entry<V>>, text: seq<byte>, p: nat)
    requires Ascending(e) && p <= |text|
    ensures var last := if IsLastLine(text, p) then |e| else LowerBound(e, LineEnd(text, p));
            LowerBound(e, p) <= last &&
            Abs(e) - KeySet(e[LowerBound(e, p)..last]) == map k | k in Abs(e) && !InLine(text, p, k) :: Abs(e)[k]
  {
    hide Abs, KeySet, IsLastLine;
    var toEnd, q := IsLastLine(text, p), LineEnd(text, p);
    RunOfKeys(e, p, q, toEnd, 0);
    forall k | k in Abs(e)
      ensures k in KeySet(e[LowerBound(e, p)..if toEnd then |e| else LowerBound(e, q)]) <==> InLine(text, p, k)
    {
      RunOfKeys(e, p, q, toEnd, k);
    }
  }

  /** The line that is repaired next, and the state before it, found through the maps. */
  lemma NextLine(d: Doc, g: Grammar, hard: seq<Entry<bool>>, marks: seq<Entry<bool>>, states: seq<Entry<Stack>>)
    requires Seeded(d, g) && Marks(hard, d.text)
    requires Ascending(marks) && Abs(marks) == d.dirty && Ascending(states) && Abs(states) == d.states
    ensures states != [] && (marks == [] <==> d.dirty == map[])
    ensures marks != [] ==>
              var n, p := LineOf(hard, marks[0].key), DirtyLine(d, g);
              var it := if Begin(hard, n) == 0 then 0 else Find(states, Begin(hard, n));
              Begin(hard, n) == p && End(hard, |d.text|, n) == LineEnd(d.text, p) &&
                  p <= LineEnd(d.text, p) <= |d.text| &&
              (it < |states| <==> HasStart(d, p)) && (it < |states| ==> states[it].value == Repair.Start(d, p))
  {
    hide Marks, LineOf, Abs;
    EmptyAbs(marks);
    EmptyAbs(states);
    if marks != [] {
      FirstEntry(marks);
      FirstEntry(states);
      assert FirstDirty(d) == marks[0].key;
      assert states[0].key == -1;
      LineOfPosition(hard, d.text, marks[0].key);
      OnOwnLine(d.text, marks[0].key);
      FoundEntry(states, DirtyLine(d, g));
    }
  }

  lemma UpdatedSeeded(d: Doc, g: Grammar, p: nat, r: Parsed)
    requires Seeded(d, g) && p <= |d.text|
    ensures Seeded(Updated(d, p, r), g)
  {
  }

  /** Taking out the line's scopes and setting the parser's is what `UpdatedScopes` says. */
  lemma SetScopes(d: Doc, p: nat, r: Parsed, m: map<int, Scope>)
    requires p <= |d.text|
    requires forall k {:trigger k in m} :: k in m <==>
             (k in d.scopes && !InLine(d.text, p, k)) || (InLine(d.text, p, k) && k - p in r.scopes)
    requires forall k | k in m :: m[k] == if InLine(d.text, p, k) then r.scopes[k - p] else d.scopes[k]
    ensures m == UpdatedScopes(d, p, r)
  {
    hide UpdatedScopes, InLine;
    forall k ensures k in m <==> k in UpdatedScopes(d, p, r) {
      UpdatedScopesAt(d, p, r, k);
    }
    forall k | k in m ensures m[k] == UpdatedScopes(d, p, r)[k] {
      UpdatedScopesAt(d, p, r, k);
    }
  }

  lemma EditKeepsPrimed(d: Doc, from: nat, to: nat, buf: seq<byte>)
    requires from <= to <= |d.text|
    ensures forall g | Seeded(d, g) :: Seeded(Edited(d, from, to, buf), g)
    ensures d.states == map[] ==> Edited(d, from, to, buf).states == map[]
  {
    forall g | Seeded(d, g) ensures Seeded(Edited(d, from, to, buf), g) {
      EditedSeeded(d, g, from, to, buf);
    }
  }

  lemma EditKeepsAllInv(d: Doc, from: nat, to: nat, buf: seq<byte>)
    requires from <= to <= |d.text|
    ensures forall g | Inv(d, g) :: Inv(Edited(d, from, to, buf), g)
  {
    hide Inv, Edited;
    forall g | Inv(d, g) ensures Inv(Edited(d, from, to, buf), g) {
      EditKeepsInv(d, g, from, to, buf);
    }
  }

  lemma EditedText(d: Doc, from: nat, to: nat, buf: seq<byte>)
    requires from <= to <= |d.text|
    ensures Edited(d, from, to, buf).text == Splice(d.text, from, to, buf)
  {
  }

  // ---- trimming an edit -----------------------------------------------------------------

  /** The first `left` and the last `right` bytes of the replaced range are those of `buf`. */
  ghost predicate SameEnds(text: seq<byte>, from: nat, to: nat, buf: seq<byte>, left: nat, right: nat) {
    from <= to <= |text| && left + right <= to - from && left + right <= |buf| &&
    (forall i | 0 <= i < left :: text[from + i] == buf[i]) &&
        (forall k | to - right <= k < to :: text[k] == buf[k - to + |buf|])
  }

  /** No more than `left` bytes could be left alone at the start without dividing a character. */
  ghost predicate NoLongerLeft(text: seq<byte>, from: nat, to: nat, buf: seq<byte>, left: nat) {
    forall i: nat | left < i && SameEnds(text, from, to, buf, i, 0) :: i < |buf| && Continues(buf[i])
  }

  /** Nor more than `right` at the end. */
  ghost predicate NoLongerRight(text: seq<byte>, from: nat, to: nat, buf: seq<byte>, left: nat, right: nat) {
    forall j: nat | right < j && SameEnds(text, from, to, buf, left, j) :: Continues(buf[|buf| - j])
  }

  lemma EndSlices(text: seq<byte>, from: nat, to: nat, buf: seq<byte>, left: nat, right: nat)
    requires SameEnds(text, from, to, buf, left, right)
    ensures text[from..from + left] == buf[..left] && text[to - right..to] == buf[|buf| - right..]
  {
    var t, b := text[to - right..to], buf[|buf| - right..];
    forall k | 0 <= k < |t| ensures t[k] == b[k] {
      assert text[to - right + k] == buf[(to - right + k) - to + |buf|];
    }
  }

  /** Leaving the common ends alone gives the same text. */
  lemma TrimmedSplice(text: seq<byte>, from: nat, to: nat, buf: seq<byte>, left: nat, right: nat)
    requires SameEnds(text, from, to, buf, left, right)
    ensures Splice(text, from + left, to - right, buf[left..|buf| - right]) == Splice(text, from, to, buf)
  {
    EndSlices(text, from, to, buf, left, right);
    assert text[..from + left] == text[..from] + buf[..left];
    assert text[to - right..] == buf[|buf| - right..] + text[to..];
    assert buf == buf[..left] + buf[left..|buf| - right] + buf[|buf| - right..];
  }

  lemma WholeBehind(range: seq<byte>, buf: seq<byte>, left: nat)
    requires left <= |range| && left <= |buf| && range[..left] == buf[..left]
    requires left == 0 || left == |buf| || !Continues(buf[left])
    requires Whole(range) && Whole(buf)
    ensures Whole(range[left..]) && Whole(buf[left..])
  {
    hide Whole;
    if left > 0 {
      SplitBetween(buf, left);
      WholeRest(range, left);
    } else {
      assert range[0..] == range && buf[0..] == buf;
    }
  }

  lemma WholeBefore(range: seq<byte>, buf: seq<byte>, right: nat)
    requires right <= |range| && right <= |buf| && range[|range| - right..] == buf[|buf| - right..]
    requires right == 0 || !Continues(buf[|buf| - right])
    requires Whole(range) && Whole(buf)
    ensures Whole(range[..|range| - right]) && Whole(buf[..|buf| - right])
  {
    hide Whole;
    if right > 0 {
      var i, j := |range| - right, |buf| - right;
      assert range[i] == range[i..][0] == buf[j..][0] == buf[j];
      SplitBetween(buf, j);
      SplitBetween(range, i);
    } else {
      assert range[..|range|] == range && buf[..|buf|] == buf;
    }
  }

  /** Ends between characters leave whole characters. */
  lemma TrimmedWhole(text: seq<byte>, from: nat, to: nat, buf: seq<byte>, left: nat, right: nat)
    requires SameEnds(text, from, to, buf, left, right)
    requires left == 0 || left == |buf| || !Continues(buf[left])
    requires right == 0 || !Continues(buf[|buf| - right])
    requires Whole(text[from..to]) && Whole(buf)
    ensures Whole(text[from + left..to - right]) && Whole(buf[left..|buf| - right])
  {
    hide Whole;
    EndSlices(text, from, to, buf, left, right);
    hide SameEnds;
    var range := text[from..to];
    assert range[..left] == text[from..from + left] && range[left..] == text[from + left..to];
    WholeBehind(range, buf, left);
    WholeMiddle(text, from + left, to, buf, left, right);
  }

  lemma WholeMiddle(text: seq<byte>, from: nat, to: nat, buf: seq<byte>, left: nat, right: nat)
    requires from <= to <= |text| && left + right <= |buf| && right <= to - from
    requires text[to - right..to] == buf[|buf| - right..]
    requires right == 0 || !Continues(buf[|buf| - right])
    requires Whole(text[from..to]) && Whole(buf[left..])
    ensures Whole(text[from..to - right]) && Whole(buf[left..|buf| - right])
  {
    hide Whole;
    var r, b := text[from..to], buf[left..];
    assert r[|r| - right..] == text[to - right..to] && b[|b| - right..] == buf[|buf| - right..];
    WholeBefore(r, b, right);
    assert r[..|r| - right] == text[from..to - right] && b[..|b| - right] == buf[left..|buf| - right];
  }

  /** A storage alone is a family. */
  lemma OnlyChild(s: Storage)
    ensures AllBlocks({s}) == s.Blocks()
    ensures Family({s}) <==> s.Valid() && Apart(s.Blocks())
  {
  }

  // ---- the buffer ---------------------------------------------------------------------------

  class Buffer {
    const storage: Storage
    const hardlines: IndexedMap<bool>
    const dirty: IndexedMap<bool>
    const scopes: IndexedMap<Scope>
    const states: IndexedMap<Stack>

    var grammar: Option<Grammar>
    var revision: nat
    var nextRevision: nat
    var asyncParsing: bool
    var parserRunning: bool
    var parserReference: nat
    var nextReference: nat
    var queue: seq<Job>

    ghost function Maps(): set<object> {
      {hardlines as object, dirty as object, scopes as object, states as object}
    }

    /** The maps are apart, and the hard lines are exactly the newlines of the text. */
    ghost predicate Structure()
      reads Maps(), storage, storage.Blocks(), DataOf(storage.Blocks())
    {
      storage.Valid() && Apart(storage.Blocks()) && hardlines != dirty && (scopes as object) != states &&
      hardlines.Valid() && dirty.Valid() && scopes.Valid() && states.Valid() &&
      hardlines.Contents() == Newlines(storage.Contents())
    }

    ghost function Text(): seq<byte>
      requires storage.Valid()
      reads storage, storage.Blocks(), DataOf(storage.Blocks())
    {
      storage.Contents()
    }

    ghost function AsDoc(): Doc
      requires storage.Valid()
      reads Maps(), storage, storage.Blocks(), DataOf(storage.Blocks())
    {
      Doc(storage.Contents(), dirty.Contents(), scopes.Contents(), states.Contents())
    }

    constructor ()
      ensures Structure() && storage.Blocks() == {} && grammar == None && !parserRunning && !asyncParsing
      ensures AsDoc() == Doc([], map[], map[-1 := "text"], map[]) && Primed() && Orderly(AsTasks()) && queue == []
      ensures fresh(storage) && fresh(hardlines) && fresh(dirty) && fresh(scopes) && fresh(states)
    {
      var root := new IndexedMap<Scope>();
      root.Set(-1, "text");
      scopes := root;
      storage := new Storage();
      hardlines := new IndexedMap();
      dirty := new IndexedMap();
      states := new IndexedMap();
      grammar := None;
      revision, nextRevision := 0, 1;
      asyncParsing, parserRunning := false, false;
      parserReference, nextReference := 0, 1;
      queue := [];
    }

    method ActualReplace(from: nat, to: nat, buf: seq<byte>, slack: nat) returns (end: nat)
      requires Structure() && from <= to <= storage.Size()
      modifies storage, storage.Blocks(), DataOf(storage.Blocks()), Maps()
      ensures Structure() && fresh(storage.Blocks() - old(storage.Blocks()))
      ensures to <= |old(Text())| && AsDoc() == Edited(old(AsDoc()), from, to, buf)
      ensures end == from + |buf|
    {
      hide EditedScopes, Replaced, Newlines, AllFit, Storages.Text, Offset, Entries, Abs, Ascending, Splice,
           DataOf, BlocksOf;
      ghost var text := Text();
      EditText(from, to, buf, slack);
      MoveMaps(text, from, to, buf);
      end := from + |buf|;
    }

    /** Changes of the maps leave the text alone. */
    method MoveMaps(ghost text: seq<byte>, from: nat, to: nat, buf: seq<byte>)
      requires storage.Valid() && Apart(storage.Blocks())
      requires hardlines != dirty && (scopes as object) != states
      requires hardlines.Valid() && dirty.Valid() && scopes.Valid() && states.Valid()
      requires hardlines.Contents() == Newlines(text) && from <= to <= |text|
      modifies hardlines, dirty, scopes, states
      ensures storage.Valid() && Apart(storage.Blocks()) && storage.Blocks() == old(storage.Blocks()) &&
              Text() == old(Text())
      ensures hardlines.Valid() && dirty.Valid() && scopes.Valid() && states.Valid()
      ensures hardlines.Contents() == Newlines(Splice(text, from, to, buf))
      ensures dirty.Contents() == Replaced(old(dirty.Contents()), from, to, |buf|, false)[from := true]
      ensures scopes.Contents() == EditedScopes(old(scopes.Contents()), from, to, |buf|)
      ensures states.Contents() == Replaced(old(states.Contents()), from, to, |buf|, false)
    {
      hide EditedScopes, Replaced, Newlines, AllFit, Storages.Text, Offset, Entries, Abs, Ascending, Splice;
      ghost var bs := storage.Blocks();
      EditMaps(text, from, to, buf);
      assert forall o: object | o == storage || o in bs || o in DataOf(bs) :: old(allocated(o)) && o !in Maps();
    }

    method EditText(from: nat, to: nat, buf: seq<byte>, slack: nat)
      requires storage.Valid() && Apart(storage.Blocks()) && from <= to <= storage.Size()
      modifies storage, storage.Blocks(), DataOf(storage.Blocks())
      ensures storage.Valid() && Apart(storage.Blocks()) && fresh(storage.Blocks() - old(storage.Blocks()))
      ensures to <= |old(storage.Contents())| && storage.Contents() == Splice(old(storage.Contents()), from, to, buf)
    {
      OnlyChild(storage);
      storage.Erase(from, to, {storage});
      storage.ContentsLength();
      OnlyChild(storage);
      storage.Insert(from, buf, slack, {storage});
      OnlyChild(storage);
    }

    method EditMaps(ghost text: seq<byte>, from: nat, to: nat, buf: seq<byte>)
      requires hardlines != dirty && (scopes as object) != states
      requires hardlines.Valid() && dirty.Valid() && scopes.Valid() && states.Valid()
      requires hardlines.Contents() == Newlines(text) && from <= to <= |text|
      modifies hardlines, dirty, scopes, states
      ensures hardlines.Valid() && dirty.Valid() && scopes.Valid() && states.Valid()
      ensures hardlines.Contents() == Newlines(Splice(text, from, to, buf))
      ensures dirty.Contents() == Replaced(old(dirty.Contents()), from, to, |buf|, false)[from := true]
      ensures scopes.Contents() == EditedScopes(old(scopes.Contents()), from, to, |buf|)
      ensures states.Contents() == Replaced(old(states.Contents()), from, to, |buf|, false)
    {
      hide EditedScopes, Replaced, Newlines;
      EditDirty(from, to, |buf|);
      hardlines.Replace(from, to, |buf|);
      EditScopes(from, to, |buf|);
      states.Replace(from, to, |buf|, false);
      MarkNewlines(text, from, to, buf);
    }

    method EditDirty(from: nat, to: nat, len: nat)
      requires dirty.Valid() && from <= to
      modifies dirty
      ensures dirty.Valid() && dirty.Contents() == Replaced(old(dirty.Contents()), from, to, len, false)[from := true]
    {
      dirty.Replace(from, to, len, false);
      dirty.Set(from, true);
    }

    method EditScopes(from: nat, to: nat, len: nat)
      requires scopes.Valid() && from <= to
      modifies scopes
      ensures scopes.Valid() && scopes.Contents() == EditedScopes(old(scopes.Contents()), from, to, len)
    {
      hide Replaced, Abs, Entries, Ascending;
      ghost var m := scopes.Contents();
      var e := Entries(scopes.tree);
      KeptScope(e, from, to);
      var it := IndexedMaps.UpperBound(e, to);
      var preserveScope := "";
      if it > 0 && from < e[it - 1].key {
        preserveScope := e[it - 1].value;
      }
      scopes.Replace(from, to, len);
      if preserveScope != "" {
        assert KeepsScope(m, from, to, e[it - 1].key);
        scopes.Set(from + len, preserveScope);
      }
    }

    /** The loop over the new text that ends `actual_replace`. */
    method MarkNewlines(ghost text: seq<byte>, from: nat, to: nat, buf: seq<byte>)
      requires hardlines.Valid() && from <= to <= |text|
      requires hardlines.Contents() == Replaced(Newlines(text), from, to, |buf|, true)
      modifies hardlines
      ensures hardlines.Valid() && hardlines.Contents() == Newlines(Splice(text, from, to, buf))
    {
      hide Replaced, Abs, Entries, Ascending, Splice;
      ghost var m := hardlines.Contents();
      forall k | k in m ensures m[k] {
        ReplacedAt(Newlines(text), from, to, |buf|, true, k);
      }
      for i := 0 to |buf|
        invariant hardlines.Valid()
        invariant forall k :: k in hardlines.Contents() <==>
                  k in m || (from <= k < from + i && buf[k - from] == NEWLINE)
        invariant forall k | k in hardlines.Contents() :: hardlines.Contents()[k]
      {
        if buf[i] == NEWLINE {
          hardlines.Set(from + i, true);
        }
      }
      EditedNewlines(text, from, to, buf, hardlines.Contents());
    }

    // ---- trimming ---------------------------------------------------------------------------

    /** How much `replace` trims off the left: never a part of a character of `buf`. */
    method TrimLeft(from: nat, to: nat, buf: seq<byte>) returns (shrinkLeft: nat)
      requires storage.Valid() && from <= to <= storage.Size()
      ensures storage.Valid() && Text() == old(Text()) && storage.Size() == old(storage.Size())
      ensures SameEnds(Text(), from, to, buf, shrinkLeft, 0)
      ensures shrinkLeft == 0 || shrinkLeft == |buf| || !Continues(buf[shrinkLeft])
      ensures NoLongerLeft(Text(), from, to, buf, shrinkLeft)
    {
      hide AllFit, Storages.Text, Offset;
      ghost var text, bs := storage.Contents(), storage.Blocks();
      storage.ContentsLength();
      shrinkLeft := 0;
      while from + shrinkLeft < to && shrinkLeft < |buf|
        invariant storage.Valid() && storage.Contents() == text && storage.Blocks() == bs && to <= storage.Size()
        invariant SameEnds(text, from, to, buf, shrinkLeft, 0)
      {
        var c := storage.At(from + shrinkLeft);
        assert forall o: object | o == storage || o in bs || o in DataOf(bs) :: old(allocated(o));
        if c != buf[shrinkLeft] {
          break;
        }
        shrinkLeft := shrinkLeft + 1;
      }
      assert forall i: nat | shrinkLeft < i :: !SameEnds(text, from, to, buf, i, 0);
      if shrinkLeft < |buf| {
        while shrinkLeft != 0 && Continues(buf[shrinkLeft])
          invariant shrinkLeft < |buf| && SameEnds(text, from, to, buf, shrinkLeft, 0)
          invariant NoLongerLeft(text, from, to, buf, shrinkLeft)
        {
          shrinkLeft := shrinkLeft - 1;
        }
      }
    }

    /** How much `replace` then trims off the right. */
    method TrimRight(from: nat, to: nat, buf: seq<byte>, shrinkLeft: nat) returns (shrinkRight: nat)
      requires storage.Valid() && to <= storage.Size() && |Text()| == storage.Size() &&
               SameEnds(Text(), from, to, buf, shrinkLeft, 0)
      ensures storage.Valid() && Text() == old(Text()) && storage.Size() == old(storage.Size())
      ensures SameEnds(Text(), from, to, buf, shrinkLeft, shrinkRight)
      ensures shrinkRight == 0 || !Continues(buf[|buf| - shrinkRight])
      ensures NoLongerRight(Text(), from, to, buf, shrinkLeft, shrinkRight)
    {
      hide AllFit, Storages.Text, Offset;
      ghost var text, bs := storage.Contents(), storage.Blocks();
      shrinkRight := 0;
      while from + shrinkLeft < to - shrinkRight && |buf| - shrinkLeft - shrinkRight != 0
        invariant storage.Valid() && storage.Contents() == text && storage.Blocks() == bs && to <= storage.Size()
        invariant SameEnds(text, from, to, buf, shrinkLeft, shrinkRight)
      {
        var c := storage.At(to - shrinkRight - 1);
        assert forall o: object | o == storage || o in bs || o in DataOf(bs) :: old(allocated(o));
        if c != buf[|buf| - shrinkRight - 1] {
          break;
        }
        shrinkRight := shrinkRight + 1;
      }
      assert forall j: nat | shrinkRight < j :: !SameEnds(text, from, to, buf, shrinkLeft, j);
      while shrinkRight != 0 && Continues(buf[|buf| - shrinkRight])
        invariant SameEnds(text, from, to, buf, shrinkLeft, shrinkRight)
        invariant NoLongerRight(text, from, to, buf, shrinkLeft, shrinkRight)
      {
        shrinkRight := shrinkRight - 1;
      }
    }

    /** `replace`: what the old and the new text have in common at both ends is left alone. */
    method Replace(from: nat, to: nat, buf: seq<byte>, slack: nat) returns (end: nat, ghost left: nat, ghost right: nat)
      requires Structure() && from <= to <= storage.Size()
      modifies storage, storage.Blocks(), DataOf(storage.Blocks()), Maps()
      ensures Structure() && fresh(storage.Blocks() - old(storage.Blocks()))
      ensures to <= |old(Text())| && Text() == Splice(old(Text()), from, to, buf)
      ensures end == from + |buf|
      ensures SameEnds(old(Text()), from, to, buf, left, right)
      ensures NoLongerLeft(old(Text()), from, to, buf, left) && NoLongerRight(old(Text()), from, to, buf, left, right)
      ensures AsDoc() == Edited(old(AsDoc()), from + left, to - right, buf[left..|buf| - right])
      ensures Whole(old(Text())[from..to]) && Whole(buf) ==>
                Whole(old(Text())[from + left..to - right]) && Whole(buf[left..|buf| - right])
      ensures forall g | Inv(old(AsDoc()), g) :: Inv(AsDoc(), g)
      ensures old(Primed()) ==> Primed()
    {
      hide Newlines, Abs, Entries, Whole, Splice, Edited, AllFit, Storages.Text, Offset, Inv, Seeded,
           NoLongerLeft, NoLongerRight;
      ghost var d := AsDoc();
      storage.ContentsLength();
      var shrinkLeft, shrinkRight := Trim(from, to, buf);
      left, right := shrinkLeft, shrinkRight;
      ghost var middle := buf[left..|buf| - right];
      EditKeepsPrimed(d, from + left, to - right, middle);
      EditKeepsAllInv(d, from + left, to - right, middle);
      EditedText(d, from + left, to - right, middle);
      end := ActualReplace(from + shrinkLeft, to - shrinkRight, buf[shrinkLeft..|buf| - shrinkRight], slack);
      if shrinkLeft != 0 || shrinkRight != 0 {
        end := from + |buf|;
      }
    }

    /** The four loops that come before the edit. */
    method Trim(from: nat, to: nat, buf: seq<byte>) returns (shrinkLeft: nat, shrinkRight: nat)
      requires Structure() && from <= to <= storage.Size()
      ensures Structure() && AsDoc() == old(AsDoc()) && AsTasks() == old(AsTasks()) && |Text()| == storage.Size()
      ensures storage.Size() == old(storage.Size()) && storage.Blocks() == old(storage.Blocks())
      ensures SameEnds(Text(), from, to, buf, shrinkLeft, shrinkRight)
      ensures NoLongerLeft(Text(), from, to, buf, shrinkLeft)
      ensures NoLongerRight(Text(), from, to, buf, shrinkLeft, shrinkRight)
      ensures Splice(Text(), from + shrinkLeft, to - shrinkRight, buf[shrinkLeft..|buf| - shrinkRight]) ==
              Splice(Text(), from, to, buf)
      ensures Whole(Text()[from..to]) && Whole(buf) ==>
                Whole(Text()[from + shrinkLeft..to - shrinkRight]) && Whole(buf[shrinkLeft..|buf| - shrinkRight])
    {
      hide Newlines, Abs, Entries, Whole, Splice, AllFit, Storages.Text, Offset, NoLongerLeft, NoLongerRight;
      ghost var text := Text();
      storage.ContentsLength();
      shrinkLeft := TrimLeft(from, to, buf);
      shrinkRight := TrimRight(from, to, buf, shrinkLeft);
      if Whole(text[from..to]) && Whole(buf) {
        TrimmedWhole(text, from, to, buf, shrinkLeft, shrinkRight);
      }
      TrimmedSplice(text, from, to, buf, shrinkLeft, shrinkRight);
    }

    // ---- lines ------------------------------------------------------------------------------

    function LineCount(): (n: nat)
      reads hardlines
    {
      HardLines.LineCount(Entries(hardlines.tree))
    }

    /** Line `n` begins behind the `n`th newline ... */
    function Begin(n: nat): (p: nat)
      requires Structure() && n < LineCount()
      reads Maps(), storage, storage.Blocks(), DataOf(storage.Blocks())
      ensures IsLineStart(Text(), p) && (n == 0 ==> p == 0)
    {
      LinesPartition(Entries(hardlines.tree), Text(), n);
      HardLines.Begin(Entries(hardlines.tree), n)
    }

    /** ... reaches up to the next one or the end of the text ... */
    function Eol(n: nat): (p: nat)
      requires Structure() && n < LineCount()
      reads Maps(), storage, storage.Blocks(), DataOf(storage.Blocks())
      ensures Begin(n) <= p <= |Text()| && (forall k | Begin(n) <= k < p :: Text()[k] != NEWLINE)
      ensures if n + 1 == LineCount() then p == |Text()| else p < |Text()| && Text()[p] == NEWLINE
    {
      LinesPartition(Entries(hardlines.tree), Text(), n);
      storage.ContentsLength();
      HardLines.Eol(Entries(hardlines.tree), storage.Size(), n)
    }

    /** ... and the next line begins where it ends. */
    function End(n: nat): (p: nat)
      requires Structure() && n < LineCount()
      reads Maps(), storage, storage.Blocks(), DataOf(storage.Blocks())
      ensures p == LineEnd(Text(), Begin(n))
      ensures p == if n + 1 == LineCount() then |Text()| else Begin(n + 1)
    {
      LinesPartition(Entries(hardlines.tree), Text(), n);
      LinesInOrder(n);
      storage.ContentsLength();
      HardLines.End(Entries(hardlines.tree), storage.Size(), n)
    }

    lemma LinesInOrder(n: nat)
      requires Structure() && n < LineCount()
      ensures n + 1 < LineCount() ==> Begin(n + 1) == HardLines.End(Entries(hardlines.tree), |Text()|, n)
    {
      LinesPartition(Entries(hardlines.tree), Text(), n);
    }

    /** `convert` from a position: the line it is on and its distance from the line's start. */
    function ToPos(i: nat): (pos: Pos)
      requires Structure() && i <= |Text()|
      reads Maps(), storage, storage.Blocks(), DataOf(storage.Blocks())
      ensures pos.line < LineCount() && Begin(pos.line) == LineStart(Text(), i)
      ensures ToIndex(pos) == i
    {
      LineOfPosition(Entries(hardlines.tree), Text(), i);
      ConvertUndone(Entries(hardlines.tree), Text(), i);
      storage.ContentsLength();
      HardLines.ToPos(Entries(hardlines.tree), i)
    }

    /** `convert` to a position. */
    function ToIndex(pos: Pos): (i: int)
      requires Structure()
      reads Maps(), storage, storage.Blocks(), DataOf(storage.Blocks())
      ensures var n := if pos.line < LineCount() then pos.line else LineCount() - 1;
              i == if Begin(n) + pos.column <= Eol(n) then Begin(n) + pos.column else Eol(n)
    {
      HardLines.ToIndex(Entries(hardlines.tree), storage.Size(), pos)
    }

    // ---- parsing --------------------------------------------------------------------------

    ghost function AsTasks(): Tasks
      reads this
    {
      Tasks(revision, nextRevision, parserRunning, parserReference, nextReference, queue)
    }

    ghost function AsSys(): Sys
      requires storage.Valid()
      reads this, Maps(), storage, storage.Blocks(), DataOf(storage.Blocks())
    {
      Sys(AsDoc(), AsTasks(), asyncParsing)
    }

    /** There are parser states exactly if there is a grammar, and the first is its seed. */
    ghost predicate Primed()
      requires storage.Valid()
      reads this, Maps(), storage, storage.Blocks(), DataOf(storage.Blocks())
    {
      match grammar
      case None => states.Contents() == map[]
      case Some(g) => Seeded(AsDoc(), g)
    }

    method Substr(from: nat, to: nat) returns (s: seq<byte>)
      requires Structure() && from <= to <= storage.Size()
      ensures Structure() && AsDoc() == old(AsDoc()) && AsTasks() == old(AsTasks())
      ensures to <= |Text()| && s == Text()[from..to]
    {
      hide Abs, Newlines, AllFit, Storages.Text, Offset, Ascending, Entries;
      ghost var bs := storage.Blocks();
      s := storage.Substr(from, to);
      assert forall o: object | o == storage || o in bs || o in DataOf(bs) || o in Maps() :: old(allocated(o));
      assert storage.Valid() && storage.Contents() == old(storage.Contents());
    }

    /** The first dirty line and the state before it, if both are known. */
    method NextRepair() returns (found: bool, from: nat, to: nat, line: seq<byte>, state: Stack)
      requires Structure() && Primed()
      ensures Structure() && AsDoc() == old(AsDoc())
      ensures found ==> grammar.Some?
      ensures grammar.Some? ==> (found <==> CanStep(AsDoc(), grammar.value))
      ensures found ==> IsNext(AsDoc(), grammar.value, from, to, line, state)
    {
      hide Abs, Newlines, AllFit, Storages.Text, Offset;
      found, from, to, line, state := false, 0, 0, [], [];
      ghost var d := AsDoc();
      var hard, marks, known := Entries(hardlines.tree), Entries(dirty.tree), Entries(states.tree);
      if grammar.Some? {
        NextLine(d, grammar.value, hard, marks, known);
      } else {
        EmptyAbs(known);
      }
      if marks != [] && known != [] {
        var n := LineOf(hard, marks[0].key);
        storage.ContentsLength();
        from, to := HardLines.Begin(hard, n), HardLines.End(hard, storage.Size(), n);
        var it := if from == 0 then 0 else Find(known, from);
        if it < |known| {
          line := Substr(from, to);
          found, state := true, known[it].value;
        }
      }
    }

    /** `parser_reference` makes an object if there is none. */
    method Enqueue(from: nat, to: nat, line: seq<byte>, state: Stack)
      requires grammar.Some?
      modifies this`parserRunning, this`parserReference, this`nextReference, this`queue
      ensures AsTasks() ==
              Dispatched(old(AsTasks()),
                  Job(FreshReference(old(AsTasks())), revision, from, to, line, state, grammar.value))
    {
      if parserReference == 0 {
        parserReference, nextReference := nextReference, nextReference + 1;
      }
      parserRunning := true;
      queue := queue + [Job(parserReference, revision, from, to, line, state, grammar.value)];
    }

    /** Hands a line to the background. */
    method Dispatch(from: nat, to: nat, line: seq<byte>, state: Stack)
      requires Structure() && grammar.Some?
      modifies this`parserRunning, this`parserReference, this`nextReference, this`queue
      ensures Structure() && AsDoc() == old(AsDoc())
      ensures AsTasks() ==
              Dispatched(old(AsTasks()),
                  Job(FreshReference(old(AsTasks())), revision, from, to, line, state, grammar.value))
    {
      hide Abs, Newlines, AllFit, Storages.Text, Offset, Ascending, Entries, Dispatched;
      ghost var bs := storage.Blocks();
      Enqueue(from, to, line, state);
      assert forall o: object | o == storage || o in bs || o in DataOf(bs) || o in Maps() ::
             old(allocated(o)) && o != this;
      assert storage.Valid() && storage.Contents() == old(storage.Contents());
    }

    method InitiateRepair()
      requires Structure() && Primed()
      modifies this`parserRunning, this`parserReference, this`nextReference, this`queue
      ensures Structure() && Primed()
      ensures AsSys() == if grammar.Some? then Initiated(old(AsSys()), grammar.value) else old(AsSys())
      ensures grammar.Some? && old(Inv(AsDoc(), grammar.value) && Orderly(AsTasks())) ==>
                StartsRepair(old(AsSys()), AsSys(), grammar.value)
    {
      hide Abs, Newlines, AllFit, Storages.Text, Offset, Inv, Orderly, StartsRepair, Dispatched, Seeded, Ascending,
           Entries, DirtyLine, HasStart,
           Repair.Start, Line, LineEnd, LineStart;
      if grammar.Some? && Inv(AsDoc(), grammar.value) && Orderly(AsTasks()) {
        InitiatedStarts(AsSys(), grammar.value);
      }
      if !asyncParsing || parserRunning {
        return;
      }
      var found, from, to, line, state := NextRepair();
      if found {
        Dispatch(from, to, line, state);
      }
    }

    /** `update_scopes`, without the bookkeeping of what is drawn again. */
    method UpdateScopes(first: nat, second: nat, newScopes: map<nat, Scope>, parserState: Stack)
      requires Structure() && Primed() && grammar.Some?
      requires IsLineStart(Text(), first) && second == LineEnd(Text(), first)
      modifies this`parserRunning, this`parserReference, this`nextReference, this`queue, scopes, dirty, states
      ensures Structure() && Primed() && first <= |old(Text())|
      ensures AsSys() == TakenOver(old(AsSys()), grammar.value, first, Parsed(parserState, newScopes))
    {
      hide Abs, Newlines, AllFit, Storages.Text, Offset, Seeded, Ascending, Entries, Updated, Initiated, LineEnd;
      UpdatedSeeded(AsDoc(), grammar.value, first, Parsed(parserState, newScopes));
      UpdateLine(first, second, newScopes, parserState);
      Disown();
      InitiateRepair();
    }

    method Disown()
      requires Structure()
      modifies this`parserRunning, this`parserReference
      ensures Structure() && AsDoc() == old(AsDoc())
      ensures AsTasks() == Disowned(old(AsTasks()))
    {
      hide Abs, Newlines, AllFit, Storages.Text, Offset, Ascending, Entries;
      ghost var bs := storage.Blocks();
      parserReference := 0;
      parserRunning := false;
      assert forall o: object | o == storage || o in bs || o in DataOf(bs) || o in Maps() ::
             old(allocated(o)) && o != this;
      assert storage.Valid() && storage.Contents() == old(storage.Contents());
    }

    method UpdateLine(first: nat, second: nat, newScopes: map<nat, Scope>, parserState: Stack)
      requires Structure() && IsLineStart(Text(), first) && second == LineEnd(Text(), first)
      modifies scopes, dirty, states
      ensures Structure() && first <= |old(Text())|
      ensures AsDoc() == Updated(old(AsDoc()), first, Parsed(parserState, newScopes))
    {
      hide Abs, Newlines, Updated, AllFit, Storages.Text, Offset;
      ghost var d := AsDoc();
      LineOfPosition(Entries(hardlines.tree), d.text, first);
      StartOfStart(d.text, first);
      var atEOF := LineOf(Entries(hardlines.tree), first) + 1 == HardLines.LineCount(Entries(hardlines.tree));
      UpdateDoc(atEOF, first, second, newScopes, parserState);
    }

    method UpdateDoc(atEOF: bool, first: nat, second: nat, newScopes: map<nat, Scope>, parserState: Stack)
      requires Structure() && first <= |Text()| && second == LineEnd(Text(), first) &&
               atEOF == IsLastLine(Text(), first)
      modifies scopes, dirty, states
      ensures Structure() && first <= |old(Text())|
      ensures AsDoc() == Updated(old(AsDoc()), first, Parsed(parserState, newScopes))
    {
      hide Abs, Newlines, Updated, AllFit, Storages.Text, Offset, LineEnd, IsLastLine;
      ghost var d, bs := AsDoc(), storage.Blocks();
      UpdateMaps(d, atEOF, first, second, newScopes, parserState);
      assert forall o: object | o == storage || o in bs || o in DataOf(bs) ::
          old(allocated(o)) && o != scopes && o != dirty && o != states;
      assert storage.Valid() && Apart(bs) && storage.Contents() == d.text;
    }

    method UpdateMaps(ghost d: Doc, atEOF: bool, first: nat, second: nat, newScopes: map<nat, Scope>,
        parserState: Stack)
      requires (scopes as object) != states && scopes.Valid() && dirty.Valid() && states.Valid()
      requires d.scopes == scopes.Contents() && d.dirty == dirty.Contents() && d.states == states.Contents()
      requires first <= |d.text| && second == LineEnd(d.text, first) && atEOF == IsLastLine(d.text, first)
      modifies scopes, dirty, states
      ensures scopes.Valid() && dirty.Valid() && states.Valid()
      ensures Doc(d.text, dirty.Contents(), scopes.Contents(), states.Contents()) ==
              Updated(d, first, Parsed(parserState, newScopes))
    {
      hide Abs, KeySet, IsLastLine, UpdatedScopes;
      UpdateScopeMap(d, atEOF, first, second, newScopes, parserState);
      CutLine(Entries(dirty.tree), d.text, first);
      var last := if atEOF then |dirty.tree| else LowerBound(Entries(dirty.tree), second);
      dirty.RemoveRange(LowerBound(Entries(dirty.tree), first), last);
      var known := Entries(states.tree);
      FoundEntry(known, second);
      var it := Find(known, second);
      if it == |known| || known[it].value != parserState {
        states.Set(second, parserState);
        if !atEOF {
          dirty.Set(second, true);
        }
      }
    }

    method UpdateScopeMap(ghost d: Doc, atEOF: bool, first: nat, second: nat, newScopes: map<nat, Scope>,
        parserState: Stack)
      requires scopes.Valid() && d.scopes == scopes.Contents()
      requires first <= |d.text| && second == LineEnd(d.text, first) && atEOF == IsLastLine(d.text, first)
      modifies scopes
      ensures scopes.Valid() && scopes.Contents() == UpdatedScopes(d, first, Parsed(parserState, newScopes))
    {
      hide Abs, KeySet, IsLastLine, UpdatedScopes, Entries;
      CutLine(Entries(scopes.tree), d.text, first);
      var last := if atEOF then |scopes.tree| else LowerBound(Entries(scopes.tree), second);
      scopes.RemoveRange(LowerBound(Entries(scopes.tree), first), last);
      ghost var rest := scopes.Contents();
      var todo := newScopes.Keys;
      while todo != {}
        invariant todo <= newScopes.Keys
        invariant scopes.Valid()
        invariant forall k {:trigger k in scopes.Contents()} :: k in scopes.Contents() <==>
                    k in rest || (InLine(d.text, first, k) && k - first in newScopes && k - first !in todo)
        invariant forall k | k in scopes.Contents() ::
                    scopes.Contents()[k] == if InLine(d.text, first, k) then newScopes[k - first] else d.scopes[k]
      {
        var pair :| pair in todo;
        todo := todo - {pair};
        if first + pair < second || atEOF {
          scopes.Set(first + pair, newScopes[pair]);
        }
      }
      SetScopes(d, first, Parsed(parserState, newScopes), scopes.Contents());
    }

    /** A change of a field that is neither text nor map changes nothing of the document. */
    method Bump()
      requires Structure()
      modifies this`revision, this`nextRevision
      ensures Structure() && AsDoc() == old(AsDoc()) && AsTasks() == Bumped(old(AsTasks()))
    {
      hide Abs, Newlines, AllFit, Storages.Text, Offset, Ascending, Entries;
      ghost var bs := storage.Blocks();
      revision, nextRevision := nextRevision, nextRevision + 1;
      assert forall o: object | o == storage || o in bs || o in DataOf(bs) || o in Maps() ::
             old(allocated(o)) && o != this;
      assert storage.Valid() && storage.Contents() == old(storage.Contents());
    }

    /** `bump_revision` */
    method BumpRevision()
      requires Structure() && Primed()
      modifies this`revision, this`nextRevision, this`parserRunning, this`parserReference,
               this`nextReference, this`queue
      ensures Structure() && Primed()
      ensures AsSys() == var s := old(AsSys()).(tasks := Bumped(old(AsSys()).tasks));
                         if grammar.Some? then Initiated(s, grammar.value) else s
      ensures revision == old(nextRevision) && nextRevision == revision + 1
      ensures grammar.Some? && old(Inv(AsDoc(), grammar.value) && Orderly(AsTasks())) ==>
                SysInv(AsSys(), grammar.value) && Busy(AsSys())
    {
      hide Abs, Newlines, AllFit, Storages.Text, Offset, Seeded, Ascending, Entries, Initiated, Inv, Orderly,
           Current, SysInv;
      if grammar.Some? {
        BumpedInv(AsSys(), grammar.value);
      }
      Bump();
      InitiateRepair();
    }

    method Return(i: nat)
      requires Structure() && i < |queue|
      modifies this`parserRunning, this`queue
      ensures Structure() && AsDoc() == old(AsDoc()) && AsTasks() == Returned(old(AsTasks()), i)
    {
      hide Abs, Newlines, AllFit, Storages.Text, Offset, Ascending, Entries;
      ghost var bs := storage.Blocks();
      if parserReference != 0 && queue[i].ref == parserReference {
        parserRunning := false;
      }
      queue := queue[..i] + queue[i + 1..];
      assert forall o: object | o == storage || o in bs || o in DataOf(bs) || o in Maps() ::
             old(allocated(o)) && o != this;
      assert storage.Valid() && storage.Contents() == old(storage.Contents());
    }

    /** The block that the run loop performs when the job at `i` has been parsed. */
    method FinishJob(i: nat)
      requires Structure() && Primed() && i < |queue|
      requires Wanted(AsTasks(), queue[i]) ==> grammar.Some? && Placed(queue[i], Text())
      modifies this`parserRunning, this`parserReference, this`nextReference, this`queue, scopes, dirty, states
      ensures Structure() && Primed()
      ensures AsSys() == if grammar.Some? then Finished(old(AsSys()), grammar.value, i)
                         else old(AsSys()).(tasks := Returned(old(AsTasks()), i))
      ensures grammar.Some? && Idle(grammar.value) && old(Inv(AsDoc(), grammar.value) && Orderly(AsTasks())) &&
              old(Harmless(AsTasks(), AsDoc(), grammar.value)) ==>
                Inv(AsDoc(), grammar.value) && Orderly(AsTasks()) && Harmless(AsTasks(), AsDoc(), grammar.value)
    {
      hide Abs, Newlines, AllFit, Storages.Text, Offset, Seeded, Ascending, Entries, Initiated, Returned, TakenOver,
           Inv, Idle, Orderly, Harmless;
      if grammar.Some? && Idle(grammar.value) && Inv(AsDoc(), grammar.value) && Orderly(AsTasks()) &&
         Harmless(AsTasks(), AsDoc(), grammar.value) {
        FinishedHarmless(AsSys(), grammar.value, i);
      }
      var job := queue[i];
      var alive := parserReference != 0 && job.ref == parserReference;
      Return(i);
      if alive {
        if job.revision == revision {
          var result := job.Result();
          UpdateScopes(job.from, job.to, result.scopes, result.state);
        } else {
          InitiateRepair();
        }
      }
    }

    method ResetMaps(loaded: Option<Grammar>, root: Scope)
      requires (scopes as object) != states
      modifies scopes, states, dirty
      ensures scopes.Valid() && states.Valid() && dirty.Valid() && scopes.Contents() == map[-1 := root]
      ensures loaded.Some? ==> states.Contents() == map[-1 := loaded.value.seed] && dirty.Contents() == map[0 := true]
      ensures loaded.None? ==> states.Contents() == map[] && dirty.Contents() == map[]
    {
      scopes.Clear();
      states.Clear();
      dirty.Clear();
      scopes.Set(-1, root);
      if loaded.Some? {
        states.Set(-1, loaded.value.seed);
        dirty.Set(0, true);
      }
    }

    /** Forgets all that was parsed; a grammar that could be loaded starts anew. */
    method Reload(loaded: Option<Grammar>, root: Scope)
      requires Structure()
      modifies scopes, states, dirty
      ensures Structure()
      ensures loaded.Some? ==> AsDoc() == Loaded(old(Text()), root, loaded.value)
      ensures loaded.None? ==> AsDoc() == Doc(old(Text()), map[], map[-1 := root], map[])
    {
      hide Abs, Newlines, AllFit, Storages.Text, Offset, Ascending, Entries;
      ghost var bs := storage.Blocks();
      ResetMaps(loaded, root);
      assert forall o: object | o == storage || o in bs || o in DataOf(bs) || o == hardlines ::
          old(allocated(o)) && o != scopes && o != states && o != dirty;
      assert storage.Valid() && Apart(bs) && storage.Contents() == old(storage.Contents());
    }

    method Adopt(loaded: Option<Grammar>)
      requires Structure()
      modifies this`grammar
      ensures Structure() && AsDoc() == old(AsDoc()) && grammar == loaded
    {
      hide Abs, Newlines, AllFit, Storages.Text, Offset, Ascending, Entries;
      ghost var bs := storage.Blocks();
      grammar := loaded;
      assert forall o: object | o == storage || o in bs || o in DataOf(bs) || o in Maps() ::
          old(allocated(o)) && o != this;
      assert storage.Valid() && storage.Contents() == old(storage.Contents());
    }

    /** `set_grammar`, for a grammar that could be loaded or could not. */
    method SetGrammar(loaded: Option<Grammar>, root: Scope) returns (ok: bool)
      requires Structure()
      modifies this`grammar, this`parserRunning, this`parserReference, this`nextReference, this`queue, scopes,
               states, dirty
      ensures Structure() && Primed() && grammar == loaded && ok == loaded.Some?
      ensures loaded.Some? ==>
                AsSys() == Initiated(Sys(Loaded(old(Text()), root, loaded.value), old(AsTasks()), asyncParsing),
                    loaded.value)
      ensures loaded.Some? &&
              old(Orderly(AsTasks()) && AllPlaced(AsTasks(), Text()) && NoneAtEdge(AsTasks(), Text())) ==>
                Inv(AsDoc(), loaded.value) && Orderly(AsTasks()) && Harmless(AsTasks(), AsDoc(), loaded.value)
      ensures scopes.Contents() == map[-1 := root] && Text() == old(Text())
      ensures loaded.Some? ==> states.Contents() == map[-1 := loaded.value.seed] && dirty.Contents() == map[0 := true]
      ensures loaded.Some? && asyncParsing && old(Orderly(AsTasks())) ==> parserRunning
      ensures loaded.None? ==>
                AsSys() == Sys(Doc(old(Text()), map[], map[-1 := root], map[]), old(AsTasks()), asyncParsing)
    {
      hide Abs, Newlines, AllFit, Storages.Text, Offset, Ascending, Entries, Initiated, Inv, Loaded, Orderly, Harmless,
           AllPlaced, NoneAtEdge;
      ghost var text, t := Text(), AsTasks();
      Reload(loaded, root);
      Adopt(loaded);
      if loaded.Some? {
        LoadedInv(text, root, loaded.value);
        SetHarmless(text, root, t, asyncParsing, loaded.value);
        InvPrimes(AsDoc(), loaded.value);
        InitiateRepair();
        ok := true;
      } else {
        ok := false;
      }
    }

    /** `wait_for_repair`: parses line after line until nothing is dirty. */
    method WaitForRepair()
      requires Structure() && Primed()
      modifies this`parserRunning, this`parserReference, this`nextReference, this`queue, scopes, dirty, states
      ensures Structure() && Primed()
      ensures AsSys() == if grammar.Some? then Waited(old(AsSys()), grammar.value) else old(AsSys())
      ensures grammar.Some? && Idle(grammar.value) && old(Inv(AsDoc(), grammar.value) && Orderly(AsTasks())) ==>
                SysInv(AsSys(), grammar.value) &&
                Text() == old(Text()) && dirty.Contents() == map[] && Right(AsDoc(), grammar.value)
    {
      hide Abs, Newlines, AllFit, Storages.Text, Offset, Ascending, Entries, Seeded, TakenOver, LineEnd, LineStart,
           Disowned, LinesLeft, CanStep, Swept, IsNext, Idle, Inv, Orderly, Current, Right;
      if grammar.None? {
        return;
      }
      var g := grammar.value;
      if Idle(g) && Inv(AsDoc(), g) && Orderly(AsTasks()) {
        WaitedRight(AsSys(), g);
      }
      Disown();
      ghost var s := AsSys();
      var found, from, to, line, state := NextRepair();
      while found
        invariant Structure() && Primed() && grammar == Some(g)
        invariant Swept(AsSys(), g) == Swept(s, g)
        invariant found <==> CanStep(AsDoc(), g)
        invariant found ==> IsNext(AsDoc(), g, from, to, line, state)
        decreases LinesLeft(AsDoc(), g)
      {
        SweepOneLine(AsSys(), g);
        NextIsLine(AsDoc(), g, from, to, line, state);
        var r := g.parse(line, state, from == 0);
        UpdateScopes(from, to, r.scopes, r.state);
        found, from, to, line, state := NextRepair();
      }
      SweepEnds(AsSys(), g);
    }
  }

  /** What is known about the line that is repaired next. */
  ghost predicate IsNext(d: Doc, g: Grammar, from: nat, to: nat, line: seq<byte>, state: Stack) {
    CanStep(d, g) && from == DirtyLine(d, g) && to == LineEnd(d.text, from) && line == Line(d.text, from) &&
        state == Repair.Start(d, from)
  }

  /** How far repair still has to go. */
  ghost function LinesLeft(d: Doc, g: Grammar): nat {
    if CanStep(d, g) then |d.text| + 1 - DirtyLine(d, g) else 0
  }

  lemma SweepOneLine(s: Sys, g: Grammar)
    requires CanStep(s.doc, g)
    ensures var p := DirtyLine(s.doc, g);
            var t := TakenOver(s, g, p, Parse(s.doc, g, p));
            LinesLeft(t.doc, g) < LinesLeft(s.doc, g) && Swept(t, g) == Swept(s, g)
  {
    hide Updated, Parse;
    StepMovesOn(s.doc, g);
  }

  lemma SweepEnds(s: Sys, g: Grammar)
    requires !CanStep(s.doc, g)
    ensures Swept(s, g) == s
  {
  }

  lemma NextIsLine(d: Doc, g: Grammar, from: nat, to: nat, line: seq<byte>, state: Stack)
    requires IsNext(d, g, from, to, line, state)
    ensures from <= |d.text| && IsLineStart(d.text, from) && to == LineEnd(d.text, from)
    ensures CanStep(d, g) && from == DirtyLine(d, g) && g.parse(line, state, from == 0) == Parse(d, g, from)
  {
  }

  lemma BumpedInv(s: Sys, g: Grammar)
    ensures var u := Initiated(s.(tasks := Bumped(s.tasks)), g);
            Inv(s.doc, g) && Orderly(s.tasks) ==> SysInv(u, g) && Busy(u)
    ensures Initiated(s.(tasks := Bumped(s.tasks)), g).tasks.revision == s.tasks.nextRevision
    ensures Initiated(s.(tasks := Bumped(s.tasks)), g).tasks.nextRevision == s.tasks.nextRevision + 1
  {
    hide Inv;
    if Inv(s.doc, g) && Orderly(s.tasks) {
      InitiatedBusyAfterBump(s, g);
      BumpedCurrent(s.tasks, s.doc, g);
      InitiatedInv(s.(tasks := Bumped(s.tasks)), g);
    }
  }

  lemma InitiatedBusyAfterBump(s: Sys, g: Grammar)
    requires Inv(s.doc, g) && Orderly(s.tasks)
    ensures Busy(Initiated(s.(tasks := Bumped(s.tasks)), g))
  {
    hide Inv, Initiated;
    BumpedCurrent(s.tasks, s.doc, g);
    InitiatedBusy(s.(tasks := Bumped(s.tasks)), g);
  }

  lemma SetHarmless(text: seq<byte>, root: Scope, t: Tasks, async_: bool, g: Grammar)
    ensures Orderly(t) && AllPlaced(t, text) && NoneAtEdge(t, text) ==>
              var u := Initiated(Sys(Loaded(text, root, g), t, async_), g);
              Inv(u.doc, g) && Orderly(u.tasks) && Harmless(u.tasks, u.doc, g)
    ensures var u := Initiated(Sys(Loaded(text, root, g), t, async_), g);
            u.doc == Doc(text, map[0 := true], map[-1 := root], map[-1 := g.seed]) &&
            (Orderly(t) && async_ ==> u.tasks.running)
  {
    hide Inv, Initiated, Orderly, Harmless, AllPlaced, NoneAtEdge;
    var s := Sys(Loaded(text, root, g), t, async_);
    LoadedInv(text, root, g);
    InitiatedKeepsDoc(s, g);
    if Orderly(t) {
      InitiatedBusy(s, g);
      assert 0 in s.doc.dirty;
    }
    if Orderly(t) && AllPlaced(t, text) && NoneAtEdge(t, text) {
      LoadedHarmless(s, g, root);
      InitiatedHarmless(s, g);
    }
  }

  lemma InvPrimes(d: Doc, g: Grammar)
    requires Inv(d, g)
    ensures Seeded(d, g)
  {
  }
}
