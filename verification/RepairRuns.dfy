/** Runs of edits and repairs: when nothing is dirty any more, everything is as if the
    whole text had been parsed from the seed; and exactly when a grammar guarantees that. */
module RepairRuns {

  import opened Utf8
  import opened Lines
  import opened Repair
  import opened Sets

  // ---- the first dirty line ------------------------------------------------------------

  ghost function FirstDirty(d: Doc): (k: int)
    requires d.dirty != map[]
    ensures IsLeast(d.dirty.Keys, k)
  {
    assert d.dirty.Keys != {};
    LeastExists(d.dirty.Keys);
    var k :| IsLeast(d.dirty.Keys, k);
    k
  }

  /** The start of the line that is repaired next. */
  ghost function DirtyLine(d: Doc, g: Grammar): nat
    requires d.dirty != map[] && Seeded(d, g)
  {
    LineStart(d.text, FirstDirty(d))
  }

  /** Up to the first dirty line, every line has a start state: the one from scratch. */
  lemma {:induction false} StartsFromScratch(d: Doc, g: Grammar, p: nat)
    requires Inv(d, g) && IsLineStart(d.text, p)
    requires forall k | k in d.dirty :: p <= k
    ensures HasStart(d, p) && Start(d, p) == Scratch(g, d.text[..p])
    decreases p
  {
    hide LineStart, IsLastLine;
    if p > 0 {
      var r := LineStart(d.text, p - 1);
      LineBeforeStart(d.text, p);
      StartsFromScratch(d, g, r);
      assert Consistent(d, g, r);
      assert d.text[..r] + d.text[r..p] == d.text[..p];
      ScratchOfSum(g, d.text[..r], d.text[r..p]);
    }
  }

  /** The line of the first dirty mark has a start state: repair is never stuck. */
  lemma DirtyLineHasStart(d: Doc, g: Grammar)
    requires Inv(d, g) && d.dirty != map[]
    ensures HasStart(d, DirtyLine(d, g))
  {
    StartsFromScratch(d, g, DirtyLine(d, g));
  }

  /** The line that is repaired next is never an empty last line that would change the state. */
  lemma IdleHere(d: Doc, g: Grammar)
    requires Inv(d, g) && Idle(g) && d.dirty != map[]
    ensures var p := DirtyLine(d, g);
            HasStart(d, p) && (p > 0 && p == |d.text| ==> Parse(d, g, p).state == Start(d, p))
  {
    var p := DirtyLine(d, g);
    StartsFromScratch(d, g, p);
    if p > 0 && p == |d.text| {
      assert d.text[..p] == d.text && Line(d.text, p) == [];
    }
  }

  // ---- runs --------------------------------------------------------------------------------

  datatype Event = Edit(from: nat, to: nat, buf: seq<byte>) | Repair

  /** One turn of `wait_for_repair`. */
  ghost function Step(d: Doc, g: Grammar): Doc {
    if d.dirty != map[] && Seeded(d, g) && HasStart(d, DirtyLine(d, g))
    then Updated(d, DirtyLine(d, g), Parse(d, g, DirtyLine(d, g)))
    else d
  }

  ghost function Apply(d: Doc, g: Grammar, e: Event): Doc {
    match e
    case Edit(from, to, buf) => if from <= to <= |d.text| then Edited(d, from, to, buf) else d
    case Repair => Step(d, g)
  }

  ghost function Run(d: Doc, g: Grammar, es: seq<Event>): Doc {
    if es == [] then d else Apply(Run(d, g, es[..|es| - 1]), g, es[|es| - 1])
  }

  /** Every reachable document satisfies the invariant. */
  lemma {:induction false} RunKeepsInv(d: Doc, g: Grammar, es: seq<Event>)
    requires Inv(d, g) && Idle(g)
    ensures Inv(Run(d, g, es), g)
  {
    if es != [] {
      RunKeepsInv(d, g, es[..|es| - 1]);
      EventKeepsInv(Run(d, g, es[..|es| - 1]), g, es[|es| - 1]);
    }
  }

  lemma EventKeepsInv(d: Doc, g: Grammar, e: Event)
    requires Inv(d, g) && Idle(g)
    ensures Inv(Apply(d, g, e), g)
  {
    hide Inv, Idle;
    match e
    case Edit(from, to, buf) =>
      if from <= to <= |d.text| {
        EditKeepsInv(d, g, from, to, buf);
      }
    case Repair =>
      if d.dirty != map[] && Seeded(d, g) && HasStart(d, DirtyLine(d, g)) {
        IdleHere(d, g);
        UpdateKeepsInv(d, g, DirtyLine(d, g));
      }
  }

  /** All start states and all scopes are what parsing the whole text from the seed gives. */
  ghost predicate Right(d: Doc, g: Grammar) {
    forall p: nat | IsLineStart(d.text, p) ::
      HasStart(d, p) && Start(d, p) == Scratch(g, d.text[..p]) && ScopesMatch(d, p, ScratchLine(g, d.text, p))
  }

  /** A document at rest is right. */
  lemma AtRestIsRight(d: Doc, g: Grammar)
    requires Inv(d, g) && d.dirty == map[]
    ensures Right(d, g)
  {
    forall p: nat | IsLineStart(d.text, p)
      ensures HasStart(d, p) && Start(d, p) == Scratch(g, d.text[..p]) && ScopesMatch(d, p, ScratchLine(g, d.text, p))
    {
      StartsFromScratch(d, g, p);
      assert Consistent(d, g, p);
    }
  }

  // ---- repair comes to rest ---------------------------------------------------------------------

  lemma StartsInOrder(text: seq<byte>, q: nat, k: nat)
    requires IsLineStart(text, q) && q <= k <= |text|
    ensures q <= LineStart(text, k)
  {
  }

  /** The first dirty line moves on with every repair, until nothing is dirty. */
  lemma StepMovesOn(d: Doc, g: Grammar)
    requires Seeded(d, g) && d.dirty != map[] && HasStart(d, DirtyLine(d, g))
    ensures Step(d, g).text == d.text && Seeded(Step(d, g), g)
    ensures Step(d, g).dirty != map[] ==> DirtyLine(d, g) < DirtyLine(Step(d, g), g)
  {
    var p := DirtyLine(d, g);
    var e, q := Step(d, g), LineEnd(d.text, p);
    EndOfLine(d.text, p);
    if e.dirty != map[] {
      var k := FirstDirty(e);
      if k in d.dirty && !InLine(d.text, p, k) {
        assert p <= FirstDirty(d) <= k;
      }
      StartsInOrder(d.text, q, k);
    }
  }

  /** Repairs alone bring any document of a run to rest, and to what parsing gives. */
  lemma {:induction false} ComesToRest(d: Doc, g: Grammar) returns (n: nat)
    requires Inv(d, g) && Idle(g)
    ensures var e := Run(d, g, seq(n, _ => Repair));
            e.text == d.text && e.dirty == map[] && Right(e, g)
    decreases if d.dirty == map[] then 0 else |d.text| + 1 - DirtyLine(d, g)
  {
    hide Idle, Right, Updated, Parse, Consistent;
    if d.dirty == map[] {
      n := 0;
      AtRestIsRight(d, g);
    } else {
      DirtyLineHasStart(d, g);
      StepMovesOn(d, g);
      IdleHere(d, g);
      UpdateKeepsInv(d, g, DirtyLine(d, g));
      var m := ComesToRest(Step(d, g), g);
      n := m + 1;
      RunFromStep(d, g, m);
    }
  }

  lemma {:induction false} RunFromStep(d: Doc, g: Grammar, m: nat)
    ensures Run(d, g, seq(m + 1, _ => Repair)) == Run(Step(d, g), g, seq(m, _ => Repair))
  {
    hide Run, Step;
    var es, fs := seq(m + 1, _ => Repair), seq(m, _ => Repair);
    assert es[..m] == fs;
    OneMoreEvent(d, g, es);
    if m == 0 {
      NoEvents(d, g);
      NoEvents(Step(d, g), g);
    } else {
      RunFromStep(d, g, m - 1);
      assert fs[..m - 1] == seq(m - 1, _ => Repair);
      OneMoreEvent(Step(d, g), g, fs);
    }
  }

  lemma NoEvents(d: Doc, g: Grammar)
    ensures Run(d, g, []) == d
  {
  }

  lemma OneMoreEvent(d: Doc, g: Grammar, es: seq<Event>)
    requires es != []
    ensures Run(d, g, es) == Apply(Run(d, g, es[..|es| - 1]), g, es[|es| - 1])
  {
  }

  // ---- exactly which grammars guarantee it ----------------------------------------------------------

  /** However a buffer is edited and repaired: whenever nothing is dirty, it is right. */
  ghost predicate AlwaysRight(g: Grammar) {
    forall text: seq<byte>, root: Scope, es: seq<Event> ::
      var d := Run(Loaded(text, root, g), g, es);
      d.dirty == map[] ==> Right(d, g)
  }

  /** Parsing complete lines one after the other has come to the line at `p`. */
  ghost predicate Sweeping(d: Doc, g: Grammar, p: nat) {
    Inv(d, g) && IsLineStart(d.text, p) && d.dirty.Keys == {p} && (forall k | k in d.states :: k <= p)
  }

  lemma SweepAt(d: Doc, g: Grammar, p: nat)
    requires Sweeping(d, g, p)
    ensures d.dirty != map[] && DirtyLine(d, g) == p && HasStart(d, p) && Start(d, p) == Scratch(g, d.text[..p])
  {
    assert p in d.dirty.Keys;
    assert FirstDirty(d) in d.dirty.Keys;
    StartOfStart(d.text, p);
    StartsFromScratch(d, g, p);
  }

  lemma SweepOn(d: Doc, g: Grammar, p: nat)
    requires Sweeping(d, g, p) && p < |d.text| && EndsLine(d.text)
    ensures p < LineEnd(d.text, p) && Sweeping(Step(d, g), g, LineEnd(d.text, p)) && Step(d, g).text == d.text
  {
    SweepAt(d, g, p);
    EndOfLine(d.text, p);
    assert d.text[|d.text| - 1] == NEWLINE;
    UpdateKeepsInv(d, g, p);
    StartIsInLine(d.text, p);
    var e, q := Step(d, g), LineEnd(d.text, p);
    assert q !in d.states;
    assert forall k | k in e.dirty :: k == q;
    assert q in e.dirty;
  }

  lemma {:induction false} Sweep(d: Doc, g: Grammar, p: nat) returns (n: nat)
    requires Sweeping(d, g, p) && EndsLine(d.text)
    ensures var e := Run(d, g, seq(n, _ => Repair));
            e.text == d.text && Sweeping(e, g, |d.text|)
    decreases |d.text| - p
  {
    if p == |d.text| {
      n := 0;
    } else {
      SweepOn(d, g, p);
      var m := Sweep(Step(d, g), g, LineEnd(d.text, p));
      n := m + 1;
      RunFromStep(d, g, m);
    }
  }

  /** A grammar that changes the state on an empty last line goes wrong: load complete
      lines that lead to such a state, and let them be parsed. */
  lemma NotIdleGoesWrong(g: Grammar, t: seq<byte>, root: Scope) returns (es: seq<Event>)
    requires EndsLine(t) && t != [] && g.parse([], Scratch(g, t), false).state != Scratch(g, t)
    ensures var d := Run(Loaded(t, root, g), g, es);
            d.text == t && d.dirty == map[] && HasStart(d, |t|) && Start(d, |t|) != Scratch(g, t)
  {
    var d := Loaded(t, root, g);
    LoadedInv(t, root, g);
    assert Sweeping(d, g, 0);
    var n := Sweep(d, g, 0);
    var e := Run(d, g, seq(n, _ => Repair));
    SweepAt(e, g, |t|);
    assert t[..|t|] == t && Line(t, |t|) == [];
    es := seq(n, _ => Repair) + [Repair];
    assert es[..|es| - 1] == seq(n, _ => Repair);
    var f := Step(e, g);
    StartIsInLine(t, |t|);
    assert forall k | k in e.dirty.Keys :: InLine(t, |t|, k);
    assert forall k | k in f.dirty :: k in e.dirty;
  }

  /** All buffers with a grammar are always right if and only if the grammar never changes
      the state on an empty last line. */
  lemma ExactlyIdleGrammars(g: Grammar)
    ensures AlwaysRight(g) <==> Idle(g)
  {
    if Idle(g) {
      forall text: seq<byte>, root: Scope, es: seq<Event>
        ensures var d := Run(Loaded(text, root, g), g, es);
                d.dirty == map[] ==> Right(d, g)
      {
        LoadedInv(text, root, g);
        RunKeepsInv(Loaded(text, root, g), g, es);
        var d := Run(Loaded(text, root, g), g, es);
        if d.dirty == map[] {
          AtRestIsRight(d, g);
        }
      }
    } else {
      var t :| EndsLine(t) && t != [] && g.parse([], Scratch(g, t), false).state != Scratch(g, t);
      var es := NotIdleGoesWrong(g, t, "");
      var d := Run(Loaded(t, "", g), g, es);
      assert IsLineStart(d.text, |t|) && d.text[..|t|] == t;
      assert !Right(d, g);
    }
  }
}
