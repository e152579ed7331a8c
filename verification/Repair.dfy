/** Incremental parsing, on values: a document with its marks of dirty positions, its scopes
    and its parser states, what an edit does to it and what parsing one line again does. */
module Repair {

  import opened Seqs
  import opened Utf8
  import opened Lines
  import opened IndexedMaps

  /** A parser's stack of rules, and a scope. */
  type Stack = seq<nat>
  type Scope = string

  datatype Parsed = Parsed(state: Stack, scopes: map<nat, Scope>)

  /** `parse::parse` may be any function of a line, the state before it and whether the line
      is the first one. */
  datatype Grammar = Grammar(seed: Stack, parse: (seq<byte>, Stack, bool) -> Parsed)

  datatype Doc = Doc(text: seq<byte>, dirty: map<int, bool>, scopes: map<int, Scope>, states: map<int, Stack>)

  /** `set_grammar`: nothing is known but the seed, and everything is to be parsed. */
  function Loaded(text: seq<byte>, root: Scope, g: Grammar): Doc {
    Doc(text, map[0 := true], map[-1 := root], map[-1 := g.seed])
  }

  // ---- edits -----------------------------------------------------------------------------

  /** `k` is the last key of `m` that is not behind `to`. */
  ghost predicate IsLastUpTo<V>(m: map<int, V>, to: int, k: int) {
    k in m && k <= to && forall j | j in m && j <= to :: j <= k
  }

  /** The scope that held at the end of an edit, if it began inside it and is not the empty scope. */
  ghost predicate KeepsScope(scopes: map<int, Scope>, from: int, to: int, k: int) {
    IsLastUpTo(scopes, to, k) && from < k && scopes[k] != ""
  }

  ghost function EditedScopes(scopes: map<int, Scope>, from: int, to: int, len: nat): map<int, Scope> {
    var m := Replaced(scopes, from, to, len, true);
    if k :| KeepsScope(scopes, from, to, k) then m[from + len := scopes[k]] else m
  }

  /** `actual_replace` */
  ghost function Edited(d: Doc, from: nat, to: nat, buf: seq<byte>): Doc
    requires from <= to <= |d.text|
  {
    Doc(Splice(d.text, from, to, buf),
        Replaced(d.dirty, from, to, |buf|, false)[from := true],
        EditedScopes(d.scopes, from, to, |buf|),
        Replaced(d.states, from, to, |buf|, false))
  }

  /** What an edit does to marks and states: those up to its start stay, those inside it go, those behind it move
      along, and its start is marked. */
  lemma EditMoves(d: Doc, from: nat, to: nat, buf: seq<byte>, k: int)
    requires from <= to <= |d.text|
    ensures Edited(d, from, to, buf).text == d.text[..from] + buf + d.text[to..]
    ensures k in Edited(d, from, to, buf).dirty <==>
              k == from || (k < from && k in d.dirty) || (from + |buf| < k && k - |buf| + (to - from) in d.dirty)
    ensures k in Edited(d, from, to, buf).states <==>
              (k <= from && k in d.states) || (from + |buf| < k && k - |buf| + (to - from) in d.states)
    ensures k <= from && k in d.states ==> Edited(d, from, to, buf).states[k] == d.states[k]
    ensures from + |buf| < k && k - |buf| + (to - from) in d.states ==>
              Edited(d, from, to, buf).states[k] == d.states[k - |buf| + (to - from)]
  {
    ReplacedAt(d.dirty, from, to, |buf|, false, k);
    ReplacedAt(d.states, from, to, |buf|, false, k);
    hide Replaced, EditedScopes;
  }

  /** What is at `k` after an edit: what was there before it, what was moved along with the text behind it, nothing
      inside it, and at its end the scope that is kept. */
  ghost predicate KeyMoved(m: map<int, Scope>, e: map<int, Scope>, from: nat, to: nat, n: nat, k: int) {
    var j := k - n + (to - from);
    (k < from ==> (k in e <==> k in m) && (k in e ==> e[k] == m[k])) &&
    (from <= k < from + n ==> k !in e) &&
    (from + n < k ==> (k in e <==> j in m) && (k in e ==> e[k] == m[j])) &&
    (k == from + n ==>
       (forall p | IsLastUpTo(m, to, p) && from < p && m[p] != "" :: k in e && e[k] == m[p]) &&
       (to in m ==> k in e && e[k] == m[to]) &&
       (k in e ==> exists p :: IsLastUpTo(m, to, p) && (p == to || (from < p && m[p] != ""))))
  }

  lemma KeyIsMoved(m: map<int, Scope>, from: nat, to: nat, n: nat, k: int)
    requires from <= to
    ensures KeyMoved(m, EditedScopes(m, from, to, n), from, to, n, k)
  {
    ReplacedAt(m, from, to, n, true, k);
    hide Replaced, Source, InGap;
    if k == from + n {
      assert to in m ==> IsLastUpTo(m, to, to);
      forall p | IsLastUpTo(m, to, p) && from < p && m[p] != ""
        ensures k in EditedScopes(m, from, to, n) && EditedScopes(m, from, to, n)[k] == m[p]
      {
        assert KeepsScope(m, from, to, p);
        assert forall q | KeepsScope(m, from, to, q) :: q == p;
      }
    }
  }

  /** The scope at a position, given by the last key at or before it, is the same after an edit; only a position
      behind the edit whose scope began at its very start, or was the empty scope begun inside it, gets the scope
      that held before the edit. */
  lemma ScopesStay(d: Doc, from: nat, to: nat, buf: seq<byte>, x: int, k: int)
    requires from <= to <= |d.text| && IsLastUpTo(d.scopes, x, k)
    ensures var e := Edited(d, from, to, buf).scopes;
            x < from ==> IsLastUpTo(e, x, k) && e[k] == d.scopes[k]
    ensures var e, y := Edited(d, from, to, buf).scopes, x - (to - from) + |buf|;
            to <= x && (k < from || to <= k || (from < k && d.scopes[k] != "")) ==>
              exists l :: IsLastUpTo(e, y, l) && e[l] == d.scopes[k]
    ensures var e, y := Edited(d, from, to, buf).scopes, x - (to - from) + |buf|;
            to <= x && from <= k < to && (k == from || d.scopes[k] == "") ==>
              forall l | IsLastUpTo(d.scopes, from - 1, l) :: IsLastUpTo(e, y, l) && e[l] == d.scopes[l]
  {
    var m, n, e := d.scopes, |buf|, Edited(d, from, to, buf).scopes;
    var y := x - (to - from) + n;
    forall j ensures KeyMoved(m, e, from, to, n, j) {
      KeyIsMoved(m, from, to, n, j);
    }
    hide EditedScopes, KeyMoved;
    if x < from {
      ScopeBefore(m, e, from, to, n, x, k);
    } else if to <= x && to <= k {
      ScopeBehind(m, e, from, to, n, x, k);
      assert IsLastUpTo(e, y, k - (to - from) + n);
    } else if to <= x && k < from {
      ScopeAcross(m, e, from, to, n, x, k, k);
      assert IsLastUpTo(e, y, k);
    } else if to <= x && from < k && m[k] != "" {
      ScopeKept(m, e, from, to, n, x, k);
      assert IsLastUpTo(e, y, from + n);
    } else if to <= x {
      forall l | IsLastUpTo(m, from - 1, l) ensures IsLastUpTo(e, y, l) && e[l] == m[l] {
        ScopeAcross(m, e, from, to, n, x, k, l);
      }
    }
  }

  /** Inserted text has the scope that holds before it. */
  lemma InsertedScope(d: Doc, from: nat, to: nat, buf: seq<byte>, y: int, l: int)
    requires from <= to <= |d.text| && from <= y < from + |buf| && IsLastUpTo(d.scopes, from - 1, l)
    ensures var e := Edited(d, from, to, buf).scopes; IsLastUpTo(e, y, l) && e[l] == d.scopes[l]
  {
    var m, e := d.scopes, Edited(d, from, to, buf).scopes;
    KeyIsMoved(m, from, to, |buf|, l);
    hide EditedScopes;
    forall j | j in e && j <= y ensures j <= l {
      KeyIsMoved(m, from, to, |buf|, j);
    }
  }

  lemma ScopeBefore(m: map<int, Scope>, e: map<int, Scope>, from: nat, to: nat, n: nat, x: int, k: int)
    requires from <= to && (forall j :: KeyMoved(m, e, from, to, n, j)) && IsLastUpTo(m, x, k) && x < from
    ensures IsLastUpTo(e, x, k) && e[k] == m[k]
  {
    assert KeyMoved(m, e, from, to, n, k);
    forall j | j in e && j <= x ensures j <= k {
      assert KeyMoved(m, e, from, to, n, j);
    }
  }

  lemma ScopeBehind(m: map<int, Scope>, e: map<int, Scope>, from: nat, to: nat, n: nat, x: int, k: int)
    requires from <= to && (forall j :: KeyMoved(m, e, from, to, n, j)) && IsLastUpTo(m, x, k) && to <= k
    ensures IsLastUpTo(e, x - (to - from) + n, k - (to - from) + n) && e[k - (to - from) + n] == m[k]
  {
    var d := n - (to - from);
    assert KeyMoved(m, e, from, to, n, k + d);
    forall l | l in e && l <= x + d ensures l <= k + d {
      assert KeyMoved(m, e, from, to, n, l);
    }
  }

  lemma ScopeKept(m: map<int, Scope>, e: map<int, Scope>, from: nat, to: nat, n: nat, x: int, k: int)
    requires from <= to && (forall j :: KeyMoved(m, e, from, to, n, j)) && IsLastUpTo(m, x, k)
    requires to <= x && from < k < to && m[k] != ""
    ensures IsLastUpTo(e, x - (to - from) + n, from + n) && e[from + n] == m[k]
  {
    assert IsLastUpTo(m, to, k);
    assert KeyMoved(m, e, from, to, n, from + n);
    forall l | l in e && l <= x - (to - from) + n ensures l <= from + n {
      assert KeyMoved(m, e, from, to, n, l);
    }
  }

  /** No key at all is left between `l` and the moved position. */
  lemma ScopeAcross(m: map<int, Scope>, e: map<int, Scope>, from: nat, to: nat, n: nat, x: int, k: int, l: int)
    requires from <= to && (forall j :: KeyMoved(m, e, from, to, n, j)) && IsLastUpTo(m, x, k)
    requires to <= x && k < to && (k <= from || m[k] == "")
    requires IsLastUpTo(m, from - 1, l)
    ensures IsLastUpTo(e, x - (to - from) + n, l) && e[l] == m[l]
  {
    assert KeyMoved(m, e, from, to, n, l);
    assert forall i | IsLastUpTo(m, to, i) :: i == k;
    forall j | j in e && j <= x - (to - from) + n ensures j <= l {
      assert KeyMoved(m, e, from, to, n, j);
    }
  }

  lemma EditedScopesAt(scopes: map<int, Scope>, from: nat, to: nat, len: nat, k: int)
    requires from <= to && (k < from || from + len < k)
    ensures k in EditedScopes(scopes, from, to, len) <==> Source(k, from, to, len, true) in scopes
    ensures k in EditedScopes(scopes, from, to, len) ==>
              EditedScopes(scopes, from, to, len)[k] == scopes[Source(k, from, to, len, true)]
  {
    ReplacedAt(scopes, from, to, len, true, k);
  }

  // ---- parsing a line again -----------------------------------------------------------------

  ghost predicate HasStart(d: Doc, p: int) {
    if p == 0 then -1 in d.states else p in d.states
  }

  /** The state at the start of the line at `p`; the seed is kept under the key -1. */
  ghost function Start(d: Doc, p: int): Stack
    requires HasStart(d, p)
  {
    if p == 0 then d.states[-1] else d.states[p]
  }

  function Line(text: seq<byte>, p: nat): seq<byte>
    requires p <= |text|
  {
    text[p..LineEnd(text, p)]
  }

  ghost function Parse(d: Doc, g: Grammar, p: nat): Parsed
    requires p <= |d.text| && HasStart(d, p)
  {
    g.parse(Line(d.text, p), Start(d, p), p == 0)
  }

  /** The scopes with those of the line at `p` replaced by the parser's. */
  ghost function UpdatedScopes(d: Doc, p: nat, r: Parsed): map<int, Scope>
    requires p <= |d.text|
  {
    map k | k in d.scopes.Keys + (set j | j in r.scopes.Keys :: p + j) &&
            (if InLine(d.text, p, k) then k - p in r.scopes else k in d.scopes)
          :: if InLine(d.text, p, k) then r.scopes[k - p] else d.scopes[k]
  }

  lemma UpdatedScopesAt(d: Doc, p: nat, r: Parsed, k: int)
    requires p <= |d.text|
    ensures InLine(d.text, p, k) ==> (k in UpdatedScopes(d, p, r) <==> k - p in r.scopes)
    ensures InLine(d.text, p, k) && k - p in r.scopes ==> UpdatedScopes(d, p, r)[k] == r.scopes[k - p]
    ensures !InLine(d.text, p, k) ==> (k in UpdatedScopes(d, p, r) <==> k in d.scopes)
    ensures !InLine(d.text, p, k) && k in d.scopes ==> UpdatedScopes(d, p, r)[k] == d.scopes[k]
  {
    if InLine(d.text, p, k) && k - p in r.scopes {
      var j := k - p;
      assert p + j == k;
    }
  }

  /** The state behind the line at `p` is already the one that parsing it gives. */
  ghost predicate Agrees(d: Doc, p: nat, r: Parsed)
    requires p <= |d.text|
  {
    LineEnd(d.text, p) in d.states && d.states[LineEnd(d.text, p)] == r.state
  }

  /** `update_scopes` for the line at `p`. */
  ghost function Updated(d: Doc, p: nat, r: Parsed): Doc
    requires p <= |d.text|
  {
    var q := LineEnd(d.text, p);
    var rest := map k | k in d.dirty && !InLine(d.text, p, k) :: d.dirty[k];
    d.(scopes := UpdatedScopes(d, p, r),
       states := if Agrees(d, p, r) then d.states else d.states[q := r.state],
       dirty := if Agrees(d, p, r) || IsLastLine(d.text, p) then rest else rest[q := true])
  }

  // ---- what every edit and every repair keeps -----------------------------------------------------

  /** What `update_scopes` does to states and marks: the state behind the line is the parser's, and the next line is
      marked if and only if that is news; so repair stops where nothing changes any more. */
  lemma UpdateDoes(d: Doc, p: nat, r: Parsed, k: int)
    requires p <= |d.text|
    ensures var e, q := Updated(d, p, r), LineEnd(d.text, p);
            e.text == d.text && q in e.states && e.states[q] == r.state &&
            (k != q ==> (k in e.states <==> k in d.states)) && (k != q && k in d.states ==> e.states[k] == d.states[k])
    ensures var e, q := Updated(d, p, r), LineEnd(d.text, p);
            k in e.dirty <==>
              (k in d.dirty && !InLine(d.text, p, k)) ||
              (k == q && !IsLastLine(d.text, p) && !(q in d.states && d.states[q] == r.state))
    ensures var e := Updated(d, p, r);
            InLine(d.text, p, k) ==>
              (k in e.scopes <==> k - p in r.scopes) &&
              (k in e.scopes ==> e.scopes[k] == r.scopes[k - p])
    ensures var e := Updated(d, p, r);
            !InLine(d.text, p, k) ==>
              (k in e.scopes <==> k in d.scopes) &&
              (k in e.scopes ==> e.scopes[k] == d.scopes[k])
  {
    UpdatedScopesAt(d, p, r, k);
  }

  ghost predicate Clean(d: Doc, p: nat)
    requires p <= |d.text|
  {
    forall k | k in d.dirty :: !InLine(d.text, p, k)
  }

  ghost predicate ScopesMatch(d: Doc, p: nat, r: Parsed)
    requires p <= |d.text|
  {
    forall k {:trigger k in d.scopes} | InLine(d.text, p, k) ::
      (k in d.scopes <==> k - p in r.scopes) && (k in d.scopes ==> d.scopes[k] == r.scopes[k - p])
  }

  /** Parsing the line at `p` would change nothing. */
  ghost predicate Settled(d: Doc, g: Grammar, p: nat)
    requires p <= |d.text| && HasStart(d, p)
  {
    Agrees(d, p, Parse(d, g, p)) && ScopesMatch(d, p, Parse(d, g, p))
  }

  /** A line that is not marked dirty and whose start state is known is settled. */
  ghost predicate Consistent(d: Doc, g: Grammar, p: int) {
    IsLineStart(d.text, p) && HasStart(d, p) && Clean(d, p) ==> Settled(d, g, p)
  }

  ghost predicate Seeded(d: Doc, g: Grammar) {
    -1 in d.states && d.states[-1] == g.seed && (forall k | k in d.states :: -1 <= k) &&
    (forall k | k in d.dirty :: 0 <= k <= |d.text|)
  }

  // ---- parsing from scratch --------------------------------------------------------------------------

  /** `t` is made of complete lines. */
  predicate EndsLine(t: seq<byte>) {
    t == [] || t[|t| - 1] == NEWLINE
  }

  /** The parser state behind complete lines, parsed one after the other from the seed. */
  function Scratch(g: Grammar, t: seq<byte>): Stack
    requires EndsLine(t)
  {
    if t == [] then g.seed else
      var p := LineStart(t, |t| - 1);
      g.parse(t[p..], Scratch(g, t[..p]), p == 0).state
  }

  /** What parsing the whole text from the seed gives for the line at `p`. */
  function ScratchLine(g: Grammar, text: seq<byte>, p: nat): Parsed
    requires IsLineStart(text, p)
  {
    g.parse(Line(text, p), Scratch(g, text[..p]), p == 0)
  }

  /** The invariant of all runs. */
  ghost predicate Inv(d: Doc, g: Grammar) {
    Seeded(d, g) && forall p {:trigger Consistent(d, g, p)} :: Consistent(d, g, p)
  }

  /** Parsing an empty last line leaves the state as it was: it has only one key to store
      both the state before it and the state behind it under. */
  ghost predicate Idle(g: Grammar) {
    forall t | EndsLine(t) && t != [] :: g.parse([], Scratch(g, t), false).state == Scratch(g, t)
  }

  lemma LoadedInv(text: seq<byte>, root: Scope, g: Grammar)
    ensures Inv(Loaded(text, root, g), g)
  {
    var d := Loaded(text, root, g);
    forall p ensures Consistent(d, g, p) {
      if IsLineStart(text, p) && HasStart(d, p) {
        assert p == 0;
        OnOwnLine(text, 0);
        assert InLine(text, 0, 0);
      }
    }
  }

  // ---- edits keep the invariant ----------------------------------------------------------------------------

  /** The line at `p` of the edited text is the line at `r` of the old one, moved. */
  ghost predicate SameLine(text: seq<byte>, r: nat, edited: seq<byte>, p: nat) {
    IsLineStart(text, r) && IsLineStart(edited, p) && (r == 0 <==> p == 0) && Line(text, r) == Line(edited, p) &&
    LineEnd(edited, p) - p == LineEnd(text, r) - r && (IsLastLine(edited, p) <==> IsLastLine(text, r))
  }

  /** A line of the edited text that does not hold the edit's start, and does not begin in
      the new text, is an old line. */
  lemma UntouchedLine(text: seq<byte>, from: nat, to: nat, buf: seq<byte>, p: nat)
    requires from <= to <= |text|
    requires var edited := Splice(text, from, to, buf);
             IsLineStart(edited, p) && !InLine(edited, p, from) && !InGap(p, from, |buf|, false)
    ensures var r := Source(p, from, to, |buf|, false);
            0 <= r && SameLine(text, r, Splice(text, from, to, buf), p) &&
            if p <= from then LineEnd(text, r) <= from && !IsLastLine(text, r) else to < r
  {
    hide LineEnd, IsLastLine, Splice;
    if p <= from {
      LineBeforeEdit(text, from, to, buf, p);
    } else {
      LineBehindEdit(text, from, to, buf, p);
    }
  }

  /** ... and the positions on it are those that the edit has moved along. */
  lemma UntouchedPosition(text: seq<byte>, from: nat, to: nat, buf: seq<byte>, p: nat, k: int)
    requires from <= to <= |text|
    requires var edited := Splice(text, from, to, buf);
             IsLineStart(edited, p) && !InLine(edited, p, from) && !InGap(p, from, |buf|, false)
    ensures var r, edited := Source(p, from, to, |buf|, false), Splice(text, from, to, buf);
            0 <= r <= |text| && (InLine(text, r, k - p + r) <==> InLine(edited, p, k)) &&
            (InLine(edited, p, k) ==> (k < from || from + |buf| < k) && Source(k, from, to, |buf|, true) == k - p + r)
  {
    hide LineEnd, IsLastLine;
    UntouchedLine(text, from, to, buf, p);
  }

  /** Which lines of an edited document are clean and have a start state. */
  lemma EditedLine(d: Doc, from: nat, to: nat, buf: seq<byte>, p: nat) returns (r: nat)
    requires from <= to <= |d.text|
    requires var e := Edited(d, from, to, buf);
             IsLineStart(e.text, p) && HasStart(e, p) && Clean(e, p)
    ensures r == Source(p, from, to, |buf|, false) && !InGap(p, from, |buf|, false)
    ensures IsLineStart(d.text, r) && HasStart(d, r) && Clean(d, r) && !InLine(Edited(d, from, to, buf).text, p, from)
    ensures Start(d, r) == Start(Edited(d, from, to, buf), p)
  {
    hide LineEnd, IsLastLine, InLine;
    var e, len := Edited(d, from, to, buf), |buf|;
    assert from in e.dirty;
    EditedStart(d, from, to, buf, p);
    UntouchedLine(d.text, from, to, buf, p);
    r := Source(p, from, to, len, false);
    forall k | k in d.dirty ensures !InLine(d.text, r, k) {
      EditedMark(d, from, to, buf, p, k);
    }
  }

  lemma EditedStart(d: Doc, from: nat, to: nat, buf: seq<byte>, p: nat)
    requires from <= to <= |d.text|
    requires HasStart(Edited(d, from, to, buf), p)
    ensures !InGap(p, from, |buf|, false) && HasStart(d, Source(p, from, to, |buf|, false))
    ensures Source(p, from, to, |buf|, false) == 0 <==> p == 0
    ensures Start(d, Source(p, from, to, |buf|, false)) == Start(Edited(d, from, to, buf), p)
  {
    hide Replaced;
    ReplacedAt(d.states, from, to, |buf|, false, p);
    ReplacedAt(d.states, from, to, |buf|, false, -1);
  }

  lemma EditedMark(d: Doc, from: nat, to: nat, buf: seq<byte>, p: nat, k: int)
    requires from <= to <= |d.text| && k in d.dirty
    requires var e := Edited(d, from, to, buf);
             IsLineStart(e.text, p) && Clean(e, p) && !InGap(p, from, |buf|, false)
    ensures var r := Source(p, from, to, |buf|, false);
            0 <= r <= |d.text| && !InLine(d.text, r, k)
  {
    hide Replaced, InLine;
    var e, len := Edited(d, from, to, buf), |buf|;
    assert from in e.dirty;
    var r := Source(p, from, to, len, false);
    UntouchedLine(d.text, from, to, buf, p);
    UntouchedPosition(d.text, from, to, buf, p, k - r + p);
    ReplacedAt(d.dirty, from, to, len, false, k - r + p);
  }

  lemma EditedConsistent(d: Doc, g: Grammar, from: nat, to: nat, buf: seq<byte>, p: int)
    requires from <= to <= |d.text| && Inv(d, g)
    ensures Consistent(Edited(d, from, to, buf), g, p)
  {
    var e := Edited(d, from, to, buf);
    if IsLineStart(e.text, p) && HasStart(e, p) && Clean(e, p) {
      var r := EditedLine(d, from, to, buf, p);
      assert Consistent(d, g, r);
      UntouchedLine(d.text, from, to, buf, p);
      EditedSettled(d, g, from, to, buf, p, r);
    }
  }

  lemma EditedSettled(d: Doc, g: Grammar, from: nat, to: nat, buf: seq<byte>, p: nat, r: nat)
    requires from <= to <= |d.text|
    requires var e := Edited(d, from, to, buf);
             IsLineStart(e.text, p) && HasStart(e, p) && !InLine(e.text, p, from) && !InGap(p, from, |buf|, false)
    requires r == Source(p, from, to, |buf|, false) && SameLine(d.text, r, Edited(d, from, to, buf).text, p)
    requires HasStart(d, r) && Start(d, r) == Start(Edited(d, from, to, buf), p) && Settled(d, g, r)
    ensures Settled(Edited(d, from, to, buf), g, p)
  {
    hide Replaced, InLine, EditedScopes;
    var e, len := Edited(d, from, to, buf), |buf|;
    assert Parse(d, g, r) == Parse(e, g, p);
    var q := LineEnd(e.text, p);
    UntouchedLine(d.text, from, to, buf, p);
    ReplacedAt(d.states, from, to, len, false, q);
    assert Agrees(e, p, Parse(e, g, p));
    forall k {:trigger k in e.scopes} | InLine(e.text, p, k)
      ensures (k in e.scopes <==> k - p in Parse(e, g, p).scopes) &&
              (k in e.scopes ==> e.scopes[k] == Parse(e, g, p).scopes[k - p])
    {
      UntouchedPosition(d.text, from, to, buf, p, k);
      EditedScopesAt(d.scopes, from, to, len, k);
    }
  }

  /** Whatever is edited, every line stays consistent, unknown or marked. */
  lemma EditKeepsInv(d: Doc, g: Grammar, from: nat, to: nat, buf: seq<byte>)
    requires from <= to <= |d.text| && Inv(d, g)
    ensures Inv(Edited(d, from, to, buf), g)
  {
    var e := Edited(d, from, to, buf);
    forall p ensures Consistent(e, g, p) {
      EditedConsistent(d, g, from, to, buf, p);
    }
    EditedSeeded(d, g, from, to, buf);
  }

  lemma EditedSeeded(d: Doc, g: Grammar, from: nat, to: nat, buf: seq<byte>)
    requires from <= to <= |d.text| && Seeded(d, g)
    ensures Seeded(Edited(d, from, to, buf), g)
  {
    hide Replaced;
    var e, len := Edited(d, from, to, buf), |buf|;
    ReplacedAt(d.states, from, to, len, false, -1);
    forall k | k in e.states ensures -1 <= k {
      ReplacedAt(d.states, from, to, len, false, k);
    }
    forall k | k in e.dirty ensures 0 <= k <= |e.text| {
      ReplacedAt(d.dirty, from, to, len, false, k);
    }
  }

  // ---- repairs keep the invariant ---------------------------------------------------------------------

  /** Two lines end at the same place only if one is the empty last line behind the other. */
  lemma SameEnd(text: seq<byte>, p: nat, r: nat)
    requires IsLineStart(text, p) && IsLineStart(text, r) && r != p && LineEnd(text, r) == LineEnd(text, p)
    ensures if p < r then r == LineEnd(text, p) && !IsLastLine(text, p) else p == |text|
  {
    EndOfLine(text, p);
    EndOfLine(text, r);
    var q := LineEnd(text, p);
    if p < q {
      StartOfEnd(text, p);
    }
    if r < q {
      StartOfEnd(text, r);
    }
  }

  lemma StartOfEnd(text: seq<byte>, p: nat)
    requires IsLineStart(text, p) && p < LineEnd(text, p)
    ensures LineStart(text, LineEnd(text, p) - 1) == p
  {
    var q := LineEnd(text, p);
    OnOwnLine(text, q - 1);
    OneLine(text, p, LineStart(text, q - 1), q - 1);
  }

  lemma UpdatedLine(d: Doc, g: Grammar, p: nat)
    requires IsLineStart(d.text, p) && HasStart(d, p)
    requires p > 0 && p == |d.text| ==> Parse(d, g, p).state == Start(d, p)
    ensures var e := Updated(d, p, Parse(d, g, p));
            HasStart(e, p) && Start(e, p) == Start(d, p) && Settled(e, g, p) && Clean(e, p)
  {
    var r := Parse(d, g, p);
    var e := Updated(d, p, r);
    EndOfLine(d.text, p);
    assert Parse(e, g, p) == r;
    forall k {:trigger k in e.scopes} | InLine(e.text, p, k)
      ensures (k in e.scopes <==> k - p in r.scopes) && (k in e.scopes ==> e.scopes[k] == r.scopes[k - p])
    {
      UpdatedScopesAt(d, p, r, k);
    }
  }

  /** Parsing the line at `p` again leaves every other line as consistent as it was: the
      next line is marked if the state before it changed. */
  lemma UpdatedOther(d: Doc, g: Grammar, p: nat, o: nat)
    requires IsLineStart(d.text, p) && HasStart(d, p) && o != p
    requires p > 0 && p == |d.text| ==> Parse(d, g, p).state == Start(d, p)
    requires Consistent(d, g, o)
    ensures Consistent(Updated(d, p, Parse(d, g, p)), g, o)
  {
    hide UpdatedScopes;
    var r := Parse(d, g, p);
    var e := Updated(d, p, r);
    if IsLineStart(e.text, o) && HasStart(e, o) && Clean(e, o) {
      UpdatedOtherWasClean(d, g, p, o);
      assert Parse(e, g, o) == Parse(d, g, o);
      UpdatedOtherAgrees(d, g, p, o);
      forall k {:trigger k in e.scopes} | InLine(e.text, o, k)
        ensures (k in e.scopes <==> k - o in Parse(e, g, o).scopes) &&
                (k in e.scopes ==> e.scopes[k] == Parse(e, g, o).scopes[k - o])
      {
        OtherLine(d.text, p, o, k);
        UpdatedScopesAt(d, p, r, k);
      }
    }
  }

  lemma OtherLine(text: seq<byte>, p: nat, o: nat, k: int)
    requires IsLineStart(text, p) && IsLineStart(text, o) && o != p && InLine(text, o, k)
    ensures !InLine(text, p, k)
  {
    if InLine(text, p, k) {
      OneLine(text, p, o, k);
    }
  }

  lemma UpdatedOtherWasClean(d: Doc, g: Grammar, p: nat, o: nat)
    requires IsLineStart(d.text, p) && HasStart(d, p) && o != p
    requires p > 0 && p == |d.text| ==> Parse(d, g, p).state == Start(d, p)
    requires var e := Updated(d, p, Parse(d, g, p));
             IsLineStart(e.text, o) && HasStart(e, o) && Clean(e, o)
    ensures HasStart(d, o) && Clean(d, o) && Start(d, o) == Start(Updated(d, p, Parse(d, g, p)), o)
  {
    hide UpdatedScopes, InLine;
    var r := Parse(d, g, p);
    var e, q := Updated(d, p, r), LineEnd(d.text, p);
    StartIsInLine(d.text, o);
    EndOfLine(d.text, p);
    if o == q && o > 0 && !Agrees(d, p, r) {
      StartAtEnd(d.text, p, o);
      assert false;
    }
    forall k | k in d.dirty ensures !InLine(d.text, o, k) {
      if InLine(d.text, o, k) {
        OtherLine(d.text, p, o, k);
      }
    }
  }

  lemma StartIsInLine(text: seq<byte>, p: nat)
    requires IsLineStart(text, p)
    ensures InLine(text, p, p)
  {
    EndOfLine(text, p);
  }

  /** A last line's end is no other line's start. */
  lemma StartAtEnd(text: seq<byte>, p: nat, o: nat)
    requires IsLineStart(text, p) && IsLineStart(text, o) && o != p && o == LineEnd(text, p)
    ensures !IsLastLine(text, p)
  {
    EndOfLine(text, p);
    assert p < o;
  }

  lemma UpdatedOtherAgrees(d: Doc, g: Grammar, p: nat, o: nat)
    requires IsLineStart(d.text, p) && HasStart(d, p) && o != p && IsLineStart(d.text, o)
    requires p > 0 && p == |d.text| ==> Parse(d, g, p).state == Start(d, p)
    requires var e := Updated(d, p, Parse(d, g, p));
             HasStart(e, o) && Clean(e, o)
    requires HasStart(d, o) && Agrees(d, o, Parse(d, g, o))
    ensures Agrees(Updated(d, p, Parse(d, g, p)), o, Parse(d, g, o))
  {
    hide UpdatedScopes, InLine;
    var r := Parse(d, g, p);
    var e, q := Updated(d, p, r), LineEnd(d.text, p);
    if LineEnd(d.text, o) == q && !Agrees(d, p, r) {
      SameEnd(d.text, p, o);
      StartIsInLine(d.text, o);
      assert false;
    }
  }

  /** Parsing from scratch goes on line by line. */
  lemma ScratchOfSum(g: Grammar, t: seq<byte>, line: seq<byte>)
    requires EndsLine(t) && line != [] && line[|line| - 1] == NEWLINE
    requires forall k | 0 <= k < |line| - 1 :: line[k] != NEWLINE
    ensures EndsLine(t + line) && Scratch(g, t + line) == g.parse(line, Scratch(g, t), t == []).state
  {
    var u := t + line;
    var p := LineStart(u, |u| - 1);
    assert p == |t| by {
      assert forall k | |t| <= k < |u| - 1 :: u[k] == line[k - |t|];
      assert t != [] ==> u[|t| - 1] == NEWLINE;
    }
    assert u[p..] == line && u[..p] == t;
  }

  /** What parsing from scratch gives for a line: the parser's result for it and the state behind all lines before
      it, with the first line told apart. */
  lemma ScratchLineOfSum(g: Grammar, t: seq<byte>, line: seq<byte>)
    requires EndsLine(t) && forall k | 0 <= k < |line| - 1 :: line[k] != NEWLINE
    ensures IsLineStart(t + line, |t|) && ScratchLine(g, t + line, |t|) == g.parse(line, Scratch(g, t), t == [])
  {
    var u, p := t + line, |t|;
    assert u[..p] == t && u[p..] == line;
    var q := LineEnd(u, p);
    assert p < q ==> u[q - 1] == line[q - 1 - p];
    assert q == |u|;
    assert u[p..q] == line;
  }

  /** Parsing a line again keeps the invariant; an empty last line must leave the state alone. */
  lemma UpdateKeepsInv(d: Doc, g: Grammar, p: nat)
    requires Inv(d, g) && IsLineStart(d.text, p) && HasStart(d, p)
    requires p > 0 && p == |d.text| ==> Parse(d, g, p).state == Start(d, p)
    ensures Inv(Updated(d, p, Parse(d, g, p)), g)
  {
    hide UpdatedScopes;
    var e := Updated(d, p, Parse(d, g, p));
    forall o ensures Consistent(e, g, o) {
      assert Consistent(d, g, o);
      if IsLineStart(d.text, o) {
        if o == p {
          UpdatedLine(d, g, p);
        } else {
          UpdatedOther(d, g, p, o);
        }
      }
    }
  }
}
