/** The background parser: jobs that were handed to another thread and come back later, a
    reference that tells whether the buffer still wants them, and revision numbers. */
module Protocol {

  import opened Seqs
  import opened Utf8
  import opened Lines
  import opened Repair
  import opened RepairRuns

  /** A line handed to the background with all it takes to parse it. `ref` stands for the
      weak pointer, `revision` for the buffer's revision at that time. */
  datatype Job = Job(ref: nat, revision: nat, from: nat, to: nat, line: seq<byte>, state: Stack, grammar: Grammar)
  {
    function Result(): Parsed {
      grammar.parse(line, state, from == 0)
    }
  }

  /** `_parser_reference` is 0 while it points to nothing; every new object gets a new number. */
  datatype Tasks = Tasks(revision: nat, nextRevision: nat, running: bool, reference: nat, nextReference: nat,
      queue: seq<Job>)

  /** The weak pointer of a job still leads to an object. */
  predicate Alive(t: Tasks, j: Job) {
    t.reference != 0 && j.ref == t.reference
  }

  /** The job is going to be taken over if it comes back now. */
  predicate Wanted(t: Tasks, j: Job) {
    Alive(t, j) && j.revision == t.revision
  }

  /** At most one job in the queue is alive; there is one exactly while a parser is said to run. */
  ghost predicate Orderly(t: Tasks) {
    t.reference < t.nextReference && t.revision < t.nextRevision &&
    (forall i | 0 <= i < |t.queue| :: 0 < t.queue[i].ref < t.nextReference && t.queue[i].revision < t.nextRevision) &&
    (forall i, k | 0 <= i < k < |t.queue| && Alive(t, t.queue[i]) :: !Alive(t, t.queue[k])) &&
    (t.running <==> exists i :: 0 <= i < |t.queue| && Alive(t, t.queue[i]))
  }

  /** The job was made from exactly this text and this state, and for the line that is to
      be repaired next. */
  ghost predicate Matches(j: Job, d: Doc, g: Grammar) {
    j.grammar == g && d.dirty != map[] && Seeded(d, g) && j.from == DirtyLine(d, g) && HasStart(d, j.from) &&
    j.to == LineEnd(d.text, j.from) && j.line == Line(d.text, j.from) && j.state == Start(d, j.from)
  }

  /** A job that would be applied if it came back now matches the document. */
  ghost predicate Current(t: Tasks, d: Doc, g: Grammar) {
    forall i | 0 <= i < |t.queue| && Wanted(t, t.queue[i]) ::
      Matches(t.queue[i], d, g)
  }

  /** Handing a job to the background: `parser_reference` makes an object if there is none. */
  function Dispatched(t: Tasks, j: Job): Tasks {
    t.(running := true, reference := j.ref,
       nextReference := if t.reference == 0 then t.nextReference + 1 else t.nextReference,
       queue := t.queue + [j])
  }

  function FreshReference(t: Tasks): nat {
    if t.reference == 0 then t.nextReference else t.reference
  }

  lemma DispatchOrderly(t: Tasks, j: Job)
    requires Orderly(t) && !t.running && j.ref == FreshReference(t) && j.revision == t.revision
    ensures Orderly(Dispatched(t, j))
  {
    var u := Dispatched(t, j);
    assert forall i | 0 <= i < |t.queue| :: !Alive(u, t.queue[i]);
    assert u.queue[|t.queue|] == j && Alive(u, j);
  }

  lemma DispatchCurrent(t: Tasks, j: Job, d: Doc, g: Grammar)
    requires Orderly(t) && !t.running && j.ref == FreshReference(t) && Matches(j, d, g)
    ensures Current(Dispatched(t, j), d, g)
  {
    var u := Dispatched(t, j);
    assert forall i | 0 <= i < |t.queue| :: !Alive(u, t.queue[i]);
  }

  /** Resetting the reference disowns whatever is in the queue. */
  function Disowned(t: Tasks): Tasks {
    t.(running := false, reference := 0)
  }

  lemma DisownedOrderly(t: Tasks, d: Doc, g: Grammar)
    requires Orderly(t)
    ensures Orderly(Disowned(t)) && Current(Disowned(t), d, g)
  {
  }

  /** The job at `i` comes back; if it is still wanted, no parser runs any more. */
  function Returned(t: Tasks, i: nat): Tasks
    requires i < |t.queue|
  {
    t.(queue := t.queue[..i] + t.queue[i + 1..], running := if Alive(t, t.queue[i]) then false else t.running)
  }

  lemma ReturnedOrderly(t: Tasks, i: nat)
    requires Orderly(t) && i < |t.queue|
    ensures Orderly(Returned(t, i))
  {
    var u := Returned(t, i);
    forall k | 0 <= k < |u.queue|
      ensures var j := if k < i then k else k + 1;
                u.queue[k] == t.queue[j] &&
                (Alive(u, u.queue[k]) <==> Alive(t, t.queue[j]))
    {
    }
    if t.running && !Alive(t, t.queue[i]) {
      var k :| 0 <= k < |t.queue| && Alive(t, t.queue[k]);
      assert u.queue[if k < i then k else k - 1] == t.queue[k];
    }
  }

  lemma ReturnedCurrent(t: Tasks, i: nat, d: Doc, g: Grammar)
    requires Current(t, d, g) && i < |t.queue|
    ensures Current(Returned(t, i), d, g)
  {
    var u := Returned(t, i);
    assert forall k | 0 <= k < |u.queue| :: u.queue[k] == t.queue[if k < i then k else k + 1];
  }

  /** A new revision outdates every job in the queue, whatever has been edited. */
  function Bumped(t: Tasks): Tasks {
    t.(revision := t.nextRevision, nextRevision := t.nextRevision + 1)
  }

  lemma BumpedCurrent(t: Tasks, d: Doc, g: Grammar)
    requires Orderly(t)
    ensures Orderly(Bumped(t)) && Current(Bumped(t), d, g)
  {
    var u := Bumped(t);
    assert forall i | 0 <= i < |t.queue| :: Alive(t, t.queue[i]) <==> Alive(u, t.queue[i]);
    if t.running {
      var k :| 0 <= k < |t.queue| && Alive(t, t.queue[k]);
      assert Alive(u, u.queue[k]);
    }
  }

  // ---- the buffer and its background parser as one system -----------------------------------

  datatype Sys = Sys(doc: Doc, tasks: Tasks, async_: bool)

  /** `initiate_repair` */
  ghost function Initiated(s: Sys, g: Grammar): Sys {
    if s.async_ && !s.tasks.running && s.doc.dirty != map[] && Seeded(s.doc, g) && HasStart(s.doc, DirtyLine(s.doc, g))
    then s.(tasks := Dispatched(s.tasks, NextJob(s, g)))
    else s
  }

  ghost function NextJob(s: Sys, g: Grammar): Job
    requires s.doc.dirty != map[] && Seeded(s.doc, g) && HasStart(s.doc, DirtyLine(s.doc, g))
  {
    var p := DirtyLine(s.doc, g);
    Job(FreshReference(s.tasks), s.tasks.revision, p, LineEnd(s.doc.text, p), Line(s.doc.text, p), Start(s.doc, p), g)
  }

  /** `update_scopes`: take over what parsing the line at `p` gave, disown the queue, go on. */
  ghost function TakenOver(s: Sys, g: Grammar, p: nat, r: Parsed): Sys
    requires p <= |s.doc.text|
  {
    Initiated(s.(doc := Updated(s.doc, p, r), tasks := Disowned(s.tasks)), g)
  }

  /** The job at `i` comes back: taken over if it is alive and of the buffer's revision,
      repair starts anew if it is only alive, and nothing happens if it is not. */
  ghost function Finished(s: Sys, g: Grammar, i: nat): Sys
    requires i < |s.tasks.queue|
  {
    var j, t := s.tasks.queue[i], s.(tasks := Returned(s.tasks, i));
    if !Alive(s.tasks, j) then t
    else if j.revision == s.tasks.revision && j.from <= |s.doc.text| then TakenOver(t, g, j.from, j.Result())
    else Initiated(t, g)
  }

  ghost predicate CanStep(d: Doc, g: Grammar) {
    d.dirty != map[] && Seeded(d, g) && HasStart(d, DirtyLine(d, g))
  }

  /** The loop of `wait_for_repair`. */
  ghost function Swept(s: Sys, g: Grammar): Sys
    decreases if s.doc.dirty == map[] || !Seeded(s.doc, g) then 0 else |s.doc.text| + 1 - DirtyLine(s.doc, g)
  {
    if CanStep(s.doc, g) then
      StepMovesOn(s.doc, g);
      var p := DirtyLine(s.doc, g);
      Swept(TakenOver(s, g, p, Parse(s.doc, g, p)), g)
    else s
  }

  /** `wait_for_repair` */
  ghost function Waited(s: Sys, g: Grammar): Sys {
    Swept(s.(tasks := Disowned(s.tasks)), g)
  }

  // ---- what holds in every reachable state -----------------------------------------------------

  ghost predicate SysInv(s: Sys, g: Grammar) {
    Inv(s.doc, g) && Orderly(s.tasks) && Current(s.tasks, s.doc, g)
  }

  lemma InitiatedInv(s: Sys, g: Grammar)
    requires SysInv(s, g)
    ensures SysInv(Initiated(s, g), g) && Initiated(s, g).doc == s.doc
  {
    hide Inv;
    if s.async_ && !s.tasks.running && CanStep(s.doc, g) {
      DispatchOrderly(s.tasks, NextJob(s, g));
      DispatchCurrent(s.tasks, NextJob(s, g), s.doc, g);
    }
  }

  /** `u` is `s` with one more job: for the line of the first dirty position, with its text and the state before
      it, of the buffer's revision and alive. */
  ghost predicate OneStarted(s: Sys, u: Sys, g: Grammar) {
    var t, v := s.tasks, u.tasks;
    |v.queue| == |t.queue| + 1 && v.queue[..|t.queue|] == t.queue && v.running && v.revision == t.revision &&
    u.doc == s.doc && u.async_ == s.async_ &&
    var j := v.queue[|t.queue|];
    Alive(v, j) && j.revision == v.revision && j.Result() == g.parse(j.line, j.state, j.from == 0) && j.grammar == g &&
    exists k | k in s.doc.dirty ::
      (forall l | l in s.doc.dirty :: k <= l) && 0 <= k <= |s.doc.text| && j.from == LineStart(s.doc.text, k) &&
      j.to == LineEnd(s.doc.text, k) && j.line == s.doc.text[j.from..j.to] &&
      var key := if j.from == 0 then -1 else j.from;
      key in s.doc.states && j.state == s.doc.states[key]
  }

  /** What `initiate_repair` is for. */
  ghost predicate StartsRepair(s: Sys, u: Sys, g: Grammar) {
    if s.async_ && !s.tasks.running && s.doc.dirty != map[] then OneStarted(s, u, g) else u == s
  }

  lemma InitiatedStarts(s: Sys, g: Grammar)
    requires Inv(s.doc, g) && Orderly(s.tasks)
    ensures StartsRepair(s, Initiated(s, g), g)
  {
    if s.async_ && !s.tasks.running && s.doc.dirty != map[] {
      DirtyLineHasStart(s.doc, g);
      var k := FirstDirty(s.doc);
      assert k in s.doc.dirty.Keys;
      OnOwnLine(s.doc.text, k);
    }
  }

  /** While repair is done in the background, it is under way as long as there is something to repair. */
  predicate Busy(s: Sys) {
    s.async_ && s.doc.dirty != map[] ==> s.tasks.running
  }

  lemma InitiatedBusy(s: Sys, g: Grammar)
    requires Inv(s.doc, g) && Orderly(s.tasks)
    ensures Busy(Initiated(s, g))
  {
    hide Inv, Initiated;
    InitiatedStarts(s, g);
  }

  lemma TakenOverInv(s: Sys, g: Grammar, p: nat)
    requires Idle(g) && Inv(s.doc, g) && Orderly(s.tasks)
    requires s.doc.dirty != map[] && p == DirtyLine(s.doc, g) && HasStart(s.doc, p)
    ensures SysInv(TakenOver(s, g, p, Parse(s.doc, g, p)), g)
    ensures TakenOver(s, g, p, Parse(s.doc, g, p)).doc == Updated(s.doc, p, Parse(s.doc, g, p))
  {
    hide Inv, Idle, Updated;
    IdleHere(s.doc, g);
    UpdateKeepsInv(s.doc, g, p);
    var t := s.(doc := Updated(s.doc, p, Parse(s.doc, g, p)), tasks := Disowned(s.tasks));
    DisownedOrderly(s.tasks, t.doc, g);
    InitiatedInv(t, g);
  }

  /** A background result is taken over only if the text of its line and the state before it
      are exactly those it was computed from: it is what parsing that line now would give. */
  lemma OnlyCurrentResults(s: Sys, g: Grammar, i: nat)
    requires SysInv(s, g) && i < |s.tasks.queue|
    ensures var j := s.tasks.queue[i];
            Finished(s, g, i).doc == s.doc ||
            (Alive(s.tasks, j) && j.revision == s.tasks.revision && Matches(j, s.doc, g) &&
             j.Result() == Parse(s.doc, g, j.from) &&
                 Finished(s, g, i).doc == Updated(s.doc, j.from, Parse(s.doc, g, j.from)))
  {
    hide Inv, Updated;
  }

  lemma FinishedInv(s: Sys, g: Grammar, i: nat)
    requires Idle(g) && SysInv(s, g) && i < |s.tasks.queue|
    ensures SysInv(Finished(s, g, i), g)
  {
    hide Inv, Idle;
    var j, t := s.tasks.queue[i], s.(tasks := Returned(s.tasks, i));
    ReturnedOrderly(s.tasks, i);
    ReturnedCurrent(s.tasks, i, s.doc, g);
    if Alive(s.tasks, j) {
      if j.revision == s.tasks.revision && j.from <= |s.doc.text| {
        assert Matches(j, s.doc, g);
        TakenOverInv(t, g, j.from);
      } else {
        InitiatedInv(t, g);
      }
    }
  }

  /** `wait_for_repair` never gets stuck: it ends with nothing dirty and everything as if
      the whole text had been parsed from the seed. */
  lemma {:induction false} SweptRight(s: Sys, g: Grammar)
    requires Idle(g) && SysInv(s, g)
    ensures SysInv(Swept(s, g), g) && Swept(s, g).doc.text == s.doc.text
    ensures Swept(s, g).doc.dirty == map[] && Right(Swept(s, g).doc, g)
    decreases if s.doc.dirty == map[] || !Seeded(s.doc, g) then 0 else |s.doc.text| + 1 - DirtyLine(s.doc, g)
  {
    hide Idle, Right;
    if s.doc.dirty == map[] {
      AtRestIsRight(s.doc, g);
    } else {
      DirtyLineHasStart(s.doc, g);
      StepMovesOn(s.doc, g);
      var p := DirtyLine(s.doc, g);
      TakenOverInv(s, g, p);
      SweptRight(TakenOver(s, g, p, Parse(s.doc, g, p)), g);
    }
  }

  /** Waiting needs nothing to be known about the jobs: they are all disowned.  So a buffer may be
      waited for right after an edit, before it has a new revision. */
  lemma WaitedRight(s: Sys, g: Grammar)
    requires Idle(g) && Inv(s.doc, g) && Orderly(s.tasks)
    ensures SysInv(Waited(s, g), g) && Waited(s, g).doc.text == s.doc.text
    ensures Waited(s, g).doc.dirty == map[] && Right(Waited(s, g).doc, g)
  {
    DisownedOrderly(s.tasks, s.doc, g);
    SweptRight(s.(tasks := Disowned(s.tasks)), g);
  }

  // ---- the background alone brings the document to rest --------------------------------------------

  lemma FinishedBusy(s: Sys, g: Grammar, i: nat)
    requires Idle(g) && Inv(s.doc, g) && Orderly(s.tasks) && Harmless(s.tasks, s.doc, g) &&
             i < |s.tasks.queue| && Busy(s)
    ensures Busy(Finished(s, g, i)) && Finished(s, g, i).async_ == s.async_
    ensures Finished(s, g, i).doc.text == s.doc.text
  {
    hide Inv, Idle, Initiated, Harmless, Orderly;
    var j, t := s.tasks.queue[i], s.(tasks := Returned(s.tasks, i));
    ReturnedOrderly(s.tasks, i);
    if Alive(s.tasks, j) {
      if j.revision == s.tasks.revision && j.from <= |s.doc.text| {
        var u := t.(doc := Updated(s.doc, j.from, j.Result()), tasks := Disowned(t.tasks));
        FinishedHarmless(s, g, i);
        InitiatedKeepsDoc(u, g);
        DisownedOrderly(t.tasks, u.doc, g);
        InitiatedBusy(u, g);
      } else {
        InitiatedKeepsDoc(t, g);
        InitiatedBusy(t, g);
      }
    }
  }

  lemma InitiatedKeepsDoc(s: Sys, g: Grammar)
    ensures Initiated(s, g).doc == s.doc && Initiated(s, g).async_ == s.async_
  {
  }

  /** A job that comes back and is wanted takes repair on to a later line; one that is outdated is followed by one
      that is wanted. */
  lemma FinishedMovesOn(s: Sys, g: Grammar, i: nat)
    requires Idle(g) && SysInv(s, g) && i < |s.tasks.queue| && Alive(s.tasks, s.tasks.queue[i])
    ensures var u := Finished(s, g, i);
            if Wanted(s.tasks, s.tasks.queue[i])
            then s.doc.dirty != map[] && (u.doc.dirty == map[] || DirtyLine(s.doc, g) < DirtyLine(u.doc, g))
            else u.doc == s.doc && (s.async_ && u.doc.dirty != map[] ==> LiveIsWanted(u.tasks))
  {
    hide Inv, Idle;
    var j, t := s.tasks.queue[i], s.(tasks := Returned(s.tasks, i));
    if Wanted(s.tasks, j) {
      assert Matches(j, s.doc, g);
      StepMovesOn(s.doc, g);
    } else {
      ReturnedOrderly(s.tasks, i);
      NoneAliveNow(t.tasks);
      InvSeeds(s.doc, g);
      hide Initiated;
      InitiatedStarts(t, g);
      InitiatedKeepsDoc(t, g);
      if s.async_ && s.doc.dirty != map[] {
        var u := Initiated(t, g);
        assert OneStarted(t, u, g);
        var n := |t.tasks.queue|;
        ReturnedCurrent(s.tasks, i, s.doc, g);
        InitiatedInv(t, g);
        assert forall k | 0 <= k < |u.tasks.queue| && Alive(u.tasks, u.tasks.queue[k]) :: k == n;
      }
    }
  }

  lemma InvSeeds(d: Doc, g: Grammar)
    requires Inv(d, g)
    ensures Seeded(d, g)
  {
  }

  lemma NoneAliveNow(t: Tasks)
    requires Orderly(t) && !t.running
    ensures forall k | 0 <= k < |t.queue| :: !Alive(t, t.queue[k])
  {
  }

  predicate LiveIsWanted(t: Tasks) {
    forall k | 0 <= k < |t.queue| && Alive(t, t.queue[k]) :: Wanted(t, t.queue[k])
  }

  /** The jobs with the given places in the queue come back one after the other. */
  ghost function ComingBack(s: Sys, g: Grammar, places: seq<nat>): Sys
    decreases |places|
  {
    if places == [] || places[0] >= |s.tasks.queue| then s
    else ComingBack(Finished(s, g, places[0]), g, places[1..])
  }

  /** Nothing but jobs that come back is needed: parsing in the background always gets done. */
  lemma {:induction false} BackgroundComesToRest(s: Sys, g: Grammar) returns (places: seq<nat>)
    requires Idle(g) && SysInv(s, g) && s.async_ && Busy(s)
    ensures var u := ComingBack(s, g, places);
            u.doc.text == s.doc.text && u.doc.dirty == map[] && Right(u.doc, g)
    decreases if s.doc.dirty == map[] || !Seeded(s.doc, g) then 0 else |s.doc.text| + 1 - DirtyLine(s.doc, g),
              if LiveIsWanted(s.tasks) then 0 else 1
  {
    hide Idle, Right, Inv, Finished, Current;
    if s.doc.dirty == map[] {
      places := [];
      AtRestIsRight(s.doc, g);
    } else {
      var i :| 0 <= i < |s.tasks.queue| && Alive(s.tasks, s.tasks.queue[i]);
      InvSeeds(s.doc, g);
      FinishedMovesOn(s, g, i);
      FinishedInv(s, g, i);
      CurrentIsHarmless(s, g);
      FinishedBusy(s, g, i);
      InvSeeds(Finished(s, g, i).doc, g);
      assert forall k | 0 <= k < |s.tasks.queue| && Alive(s.tasks, s.tasks.queue[k]) :: k == i;
      var rest := BackgroundComesToRest(Finished(s, g, i), g);
      places := [i] + rest;
      assert places[1..] == rest;
    }
  }

  // ---- a change of grammar while a line is being parsed -----------------------------------------

  /** The job is for a line strictly inside the text, of which nothing but the seed is known: its result
      may be wrong, but everything is going to be parsed anyway. */
  ghost predicate Spare(j: Job, d: Doc) {
    d.states.Keys == {-1} && Placed(j, d.text) && 0 < j.from < |d.text|
  }

  /** The job is for a line of this text. */
  ghost predicate Placed(j: Job, text: seq<byte>) {
    j.from <= |text| && IsLineStart(text, j.from) && j.to == LineEnd(text, j.from)
  }

  ghost predicate AllPlaced(t: Tasks, text: seq<byte>) {
    forall i | 0 <= i < |t.queue| && Wanted(t, t.queue[i]) :: Placed(t.queue[i], text)
  }

  /** A job that would be taken over now matches the document or is spare. */
  ghost predicate Harmless(t: Tasks, d: Doc, g: Grammar) {
    forall i | 0 <= i < |t.queue| && Wanted(t, t.queue[i]) ::
      Matches(t.queue[i], d, g) || Spare(t.queue[i], d)
  }

  /** No job that would be taken over now is for the first line or for an empty last line. */
  ghost predicate NoneAtEdge(t: Tasks, text: seq<byte>) {
    forall i | 0 <= i < |t.queue| && Wanted(t, t.queue[i]) ::
      0 < t.queue[i].from < |text|
  }

  /** Whatever is taken over for a line behind the first, that line is not known before, and the next
      one is marked. */
  lemma SpareKeepsInv(d: Doc, g: Grammar, p: nat, r: Parsed)
    requires Inv(d, g) && d.states.Keys == {-1} && 0 < p < |d.text| && IsLineStart(d.text, p)
    ensures Inv(Updated(d, p, r), g)
  {
    hide UpdatedScopes;
    var e, q := Updated(d, p, r), LineEnd(d.text, p);
    EndOfLine(d.text, p);
    FirstStaysMarked(d, g, p, r);
    if !IsLastLine(d.text, p) {
      StartIsInLine(d.text, q);
      assert q in e.dirty;
    }
    assert forall o | IsLineStart(d.text, o) && HasStart(e, o) :: o == 0 || o == q;
    assert Consistent(e, g, 0) && Consistent(e, g, q);
  }

  /** The first line is marked as long as no state is known, and a mark on it is on no later line. */
  lemma FirstStaysMarked(d: Doc, g: Grammar, p: nat, r: Parsed)
    requires Inv(d, g) && d.states.Keys == {-1} && 0 < p <= |d.text| && IsLineStart(d.text, p)
    ensures !Clean(Updated(d, p, r), 0)
  {
    hide UpdatedScopes;
    assert LineEnd(d.text, 0) !in d.states.Keys;
    assert Consistent(d, g, 0);
    var k :| k in d.dirty && InLine(d.text, 0, k);
    NotHere(d.text, p, k);
    assert k in Updated(d, p, r).dirty;
  }

  /** A position on the first line is on no later one. */
  lemma NotHere(text: seq<byte>, p: nat, k: int)
    requires 0 < p <= |text| && IsLineStart(text, p) && InLine(text, 0, k)
    ensures !InLine(text, p, k)
  {
    hide LineEnd, IsLastLine;
    assert InLine(text, p, k) ==> p <= k;
    if p <= k {
      NoStartInside(text, 0, p, k);
    }
  }

  lemma FinishedHarmless(s: Sys, g: Grammar, i: nat)
    requires Idle(g) && Inv(s.doc, g) && Orderly(s.tasks) && Harmless(s.tasks, s.doc, g) && i < |s.tasks.queue|
    ensures var u := Finished(s, g, i);
            Inv(u.doc, g) && Orderly(u.tasks) && Harmless(u.tasks, u.doc, g) &&
                (Alive(s.tasks, s.tasks.queue[i]) ==> SysInv(u, g))
  {
    hide Inv, Idle, Updated;
    var j, t := s.tasks.queue[i], s.(tasks := Returned(s.tasks, i));
    ReturnedOrderly(s.tasks, i);
    if !Alive(s.tasks, j) {
      ReturnedHarmless(s.tasks, i, s.doc, g);
    } else if j.revision == s.tasks.revision {
      if Matches(j, s.doc, g) {
        TakenOverInv(t, g, j.from);
      } else {
        SpareKeepsInv(s.doc, g, j.from, j.Result());
        var u := t.(doc := Updated(s.doc, j.from, j.Result()), tasks := Disowned(t.tasks));
        DisownedOrderly(t.tasks, u.doc, g);
        InitiatedInv(u, g);
      }
    } else {
      NoneAliveCurrent(t.tasks, t.doc, g);
      InitiatedInv(t, g);
    }
  }

  lemma ReturnedHarmless(t: Tasks, i: nat, d: Doc, g: Grammar)
    requires Harmless(t, d, g) && i < |t.queue|
    ensures Harmless(Returned(t, i), d, g)
  {
    var u := Returned(t, i);
    assert forall k | 0 <= k < |u.queue| :: u.queue[k] == t.queue[if k < i then k else k + 1];
  }

  lemma NoneAliveCurrent(t: Tasks, d: Doc, g: Grammar)
    requires Orderly(t) && !t.running
    ensures Current(t, d, g)
  {
  }

  /** What is left when the job at `i` has come back after a change of grammar and all has been waited for. */
  ghost function AfterChange(text: seq<byte>, root: Scope, t: Tasks, async_: bool, g: Grammar, i: nat): Doc
    requires i < |t.queue|
  {
    Waited(Finished(Sys(Loaded(text, root, g), t, async_), g, i), g).doc
  }

  /** A grammar that keeps every state and gives other scopes than `r`. */
  function Adverse(r: Parsed): Grammar {
    var scopes: map<nat, Scope> := if 0 in r.scopes then map[] else map[0 := ""];
    Grammar(r.state, (line: seq<byte>, state: Stack, first: bool) => Parsed(state, scopes))
  }

  /** No line is marked that could change what is known of the line at `x`. */
  ghost predicate Passed(d: Doc, x: nat, z: Stack) {
    x <= |d.text| && IsLineStart(d.text, x) && (forall k | k in d.dirty :: !InLine(d.text, x, k)) &&
    (forall k | k in d.states :: d.states[k] == z) && (x == 0 || x in d.states)
  }

  lemma StepPasses(d: Doc, r: Parsed, x: nat)
    requires Passed(d, x, r.state) && CanStep(d, Adverse(r))
    ensures var e := Step(d, Adverse(r)); Passed(e, x, r.state) && (x in e.scopes <==> x in d.scopes)
  {
    var g := Adverse(r);
    var p, k := DirtyLine(d, g), FirstDirty(d);
    OnOwnLine(d.text, k);
    assert p != x;
    var q := LineEnd(d.text, p);
    EndOfLine(d.text, p);
    StartIsInLine(d.text, x);
    OtherLine(d.text, p, x, x);
    UpdatedScopesAt(d, p, Parse(d, g, p), x);
    if InLine(d.text, x, q) && !IsLastLine(d.text, p) {
      StartIsInLine(d.text, q);
      OneLine(d.text, x, q, q);
    }
  }

  lemma {:induction false} SweepPasses(s: Sys, r: Parsed, x: nat)
    requires Passed(s.doc, x, r.state)
    ensures var e := Swept(s, Adverse(r)).doc; e.text == s.doc.text && (x in e.scopes <==> x in s.doc.scopes)
    decreases var g := Adverse(r);
              if s.doc.dirty == map[] || !Seeded(s.doc, g) then 0 else |s.doc.text| + 1 - DirtyLine(s.doc, g)
  {
    var g := Adverse(r);
    if CanStep(s.doc, g) {
      StepMovesOn(s.doc, g);
      StepPasses(s.doc, r, x);
      var p := DirtyLine(s.doc, g);
      SweepPasses(TakenOver(s, g, p, Parse(s.doc, g, p)), r, x);
    }
  }

  /** Nobody marks the first line, or an empty last line, again: for a grammar that gives it other scopes the
      document stays wrong. */
  lemma EdgeStaysWrong(text: seq<byte>, root: Scope, t: Tasks, async_: bool, i: nat)
    requires i < |t.queue| && Wanted(t, t.queue[i]) && Placed(t.queue[i], text)
    requires t.queue[i].from == 0 || t.queue[i].from == |text|
    ensures var g := Adverse(t.queue[i].Result()); Idle(g) && !Right(AfterChange(text, root, t, async_, g, i), g)
  {
    var j := t.queue[i];
    var r, x := j.Result(), j.from;
    var g := Adverse(r);
    var d := Loaded(text, root, g);
    var e := Updated(d, x, r);
    StartIsInLine(text, x);
    UpdatedScopesAt(d, x, r, x);
    EndOfLine(text, x);
    assert Passed(e, x, r.state);
    var u := Finished(Sys(d, t, async_), g, i);
    assert u.doc == e;
    SweepPasses(u.(tasks := Disowned(u.tasks)), r, x);
    var f := AfterChange(text, root, t, async_, g, i);
    var due := ScratchLine(g, f.text, x);
    assert (x in f.scopes) != (0 in due.scopes) && InLine(f.text, x, x);
    assert !ScopesMatch(f, x, due);
  }

  /** When the grammar changes while a line is being parsed and the buffer keeps its revision, the document
      comes out right, for every grammar, if and only if the line is neither the first nor an empty last. */
  lemma GrammarChangeExactly(text: seq<byte>, root: Scope, t: Tasks, async_: bool, i: nat)
    requires Orderly(t) && i < |t.queue| && Wanted(t, t.queue[i])
    requires Placed(t.queue[i], text)
    ensures (forall g | Idle(g) ::
               AfterChange(text, root, t, async_, g, i).dirty == map[] &&
                   Right(AfterChange(text, root, t, async_, g, i), g)) <==>
            0 < t.queue[i].from < |text|
  {
    var j := t.queue[i];
    hide Right, Idle, Inv, Updated;
    if 0 < j.from < |text| {
      forall g | Idle(g)
        ensures AfterChange(text, root, t, async_, g, i).dirty == map[] &&
                Right(AfterChange(text, root, t, async_, g, i), g)
      {
        var s := Sys(Loaded(text, root, g), t, async_);
        LoadedInv(text, root, g);
        assert forall k | 0 <= k < |t.queue| && Alive(t, t.queue[k]) :: k == i;
        assert Spare(j, s.doc);
        FinishedHarmless(s, g, i);
        WaitedRight(Finished(s, g, i), g);
      }
    } else {
      EdgeStaysWrong(text, root, t, async_, i);
    }
  }

  // ---- every interleaving ---------------------------------------------------------------------------

  /** `edited` from an edit up to its new revision or to a wait.  Both come in one turn of the run
      loop, so no job comes back in between; anything else may happen.  `paused` from the time that parsing in
      the background is allowed again up to the next start. */
  datatype Session = Session(sys: Sys, grammar: Grammar, edited: bool, paused: bool)

  datatype Action =
    | Edit(from: nat, to: nat, buf: seq<byte>)
    | Bump
    | Initiate
    | Finish(i: nat)
    | Wait
    | SetAsync(flag: bool)
    | SetGrammar(grammar: Grammar, root: Scope)

  /** A grammar is set if no job that would still be taken over is for the first line or an empty last one. */
  ghost function Act(x: Session, a: Action): Session {
    var s, g := x.sys, x.grammar;
    match a
    case Edit(from, to, buf) =>
      if from <= to <= |s.doc.text| then x.(sys := s.(doc := Edited(s.doc, from, to, buf)), edited := true) else x
    case Bump => x.(sys := Initiated(s.(tasks := Bumped(s.tasks)), g), edited := false, paused := false)
    case Initiate => x.(sys := Initiated(s, g), paused := false)
    case Finish(i) => if !x.edited && i < |s.tasks.queue| then x.(sys := Finished(s, g, i)) else x
    case Wait => x.(sys := Waited(s, g), edited := false, paused := false)
    case SetAsync(flag) => x.(sys := s.(async_ := flag), paused := x.paused || (flag && !s.async_))
    case SetGrammar(h, root) =>
      if x.edited || NoneAtEdge(s.tasks, s.doc.text)
      then x.(sys := Initiated(s.(doc := Loaded(s.doc.text, root, h)), h), grammar := h, paused := false)
      else x
  }

  ghost function Acts(x: Session, a: seq<Action>): Session {
    if a == [] then x else Act(Acts(x, a[..|a| - 1]), a[|a| - 1])
  }

  /** Only between an edit and its new revision a job may be about to bring a result that does harm, or there
      may be something to repair and nobody at it. */
  ghost predicate SessionInv(x: Session) {
    Idle(x.grammar) && Inv(x.sys.doc, x.grammar) && Orderly(x.sys.tasks) &&
    (!x.edited ==> Harmless(x.sys.tasks, x.sys.doc, x.grammar)) && (!x.edited && !x.paused ==> Busy(x.sys))
  }

  ghost predicate AllIdle(a: seq<Action>) {
    forall i | 0 <= i < |a| && a[i].SetGrammar? :: Idle(a[i].grammar)
  }

  /** In every interleaving of edits, new revisions, repairs that start, come back and are waited for, and
      changes of grammar, the invariant holds; so whenever nothing is dirty, everything is right. */
  lemma {:induction false} EveryInterleaving(x: Session, a: seq<Action>)
    requires SessionInv(x) && AllIdle(a)
    ensures SessionInv(Acts(x, a))
    ensures Acts(x, a).sys.doc.dirty == map[] ==> Right(Acts(x, a).sys.doc, Acts(x, a).grammar)
  {
    hide Idle, Right, Inv, Act, Harmless, Orderly;
    if a != [] {
      assert forall i | 0 <= i < |a| - 1 :: a[..|a| - 1][i] == a[i];
      EveryInterleaving(x, a[..|a| - 1]);
      ActInv(Acts(x, a[..|a| - 1]), a[|a| - 1]);
    }
    if Acts(x, a).sys.doc.dirty == map[] {
      AtRestIsRight(Acts(x, a).sys.doc, Acts(x, a).grammar);
    }
  }

  lemma ActInv(x: Session, a: Action)
    requires SessionInv(x) && (a.SetGrammar? ==> Idle(a.grammar))
    ensures SessionInv(Act(x, a))
  {
    hide Idle, Inv, Right, Current, Orderly, Initiated, Finished, Waited, Bumped, Edited, Harmless, Loaded,
         NoneAtEdge;
    var s, g := x.sys, x.grammar;
    match a
    case Edit(from, to, buf) =>
      if from <= to <= |s.doc.text| {
        EditKeepsInv(s.doc, g, from, to, buf);
      }
    case Bump =>
      BumpedCurrent(s.tasks, s.doc, g);
      InitiatedInv(s.(tasks := Bumped(s.tasks)), g);
      CurrentIsHarmless(Act(x, a).sys, g);
      InitiatedBusy(s.(tasks := Bumped(s.tasks)), g);
    case Initiate =>
      InitiatedHarmless(s, g);
      InitiatedBusy(s, g);
    case Finish(i) =>
      if !x.edited && i < |s.tasks.queue| {
        FinishedHarmless(s, g, i);
        if !x.paused {
          FinishedBusy(s, g, i);
        }
      }
    case Wait =>
      WaitedRight(s, g);
      CurrentIsHarmless(Act(x, a).sys, g);
    case SetAsync(flag) =>
    case SetGrammar(h, root) =>
      if x.edited || NoneAtEdge(s.tasks, s.doc.text) {
        LoadedInv(s.doc.text, root, h);
        if !x.edited {
          HarmlessIsPlaced(s.tasks, s.doc, g);
          LoadedHarmless(s, h, root);
        }
        InitiatedHarmless(s.(doc := Loaded(s.doc.text, root, h)), h);
        InitiatedBusy(s.(doc := Loaded(s.doc.text, root, h)), h);
      }
  }

  lemma CurrentIsHarmless(s: Sys, g: Grammar)
    ensures Current(s.tasks, s.doc, g) ==> Harmless(s.tasks, s.doc, g)
  {
  }

  lemma HarmlessIsPlaced(t: Tasks, d: Doc, g: Grammar)
    requires Harmless(t, d, g)
    ensures AllPlaced(t, d.text)
  {
  }

  lemma LoadedHarmless(s: Sys, h: Grammar, root: Scope)
    requires AllPlaced(s.tasks, s.doc.text) && NoneAtEdge(s.tasks, s.doc.text)
    ensures Harmless(s.tasks, Loaded(s.doc.text, root, h), h)
  {
    var d := Loaded(s.doc.text, root, h);
    forall i | 0 <= i < |s.tasks.queue| && Wanted(s.tasks, s.tasks.queue[i]) ensures Spare(s.tasks.queue[i], d) {
      assert Placed(s.tasks.queue[i], s.doc.text);
    }
  }

  lemma InitiatedHarmless(s: Sys, g: Grammar)
    requires Inv(s.doc, g) && Orderly(s.tasks)
    ensures var u := Initiated(s, g);
            u.doc == s.doc && Orderly(u.tasks) && (Harmless(s.tasks, s.doc, g) ==> Harmless(u.tasks, u.doc, g))
  {
    hide Inv;
    if s.async_ && !s.tasks.running && CanStep(s.doc, g) {
      NoneAliveCurrent(s.tasks, s.doc, g);
      InitiatedInv(s, g);
      CurrentIsHarmless(Initiated(s, g), g);
    }
  }

  /** As long as the grammar stays the same, no result is taken over but of jobs that match. */
  lemma {:induction false} FixedGrammar(x: Session, a: seq<Action>)
    requires SessionInv(x) && (!x.edited ==> Current(x.sys.tasks, x.sys.doc, x.grammar))
    requires forall i | 0 <= i < |a| :: !a[i].SetGrammar?
    ensures var y := Acts(x, a);
            SessionInv(y) && y.grammar == x.grammar && (!y.edited ==> Current(y.sys.tasks, y.sys.doc, y.grammar))
  {
    hide Idle, Right, Inv, Act, Current, Orderly, Harmless;
    if a != [] {
      assert forall i | 0 <= i < |a| - 1 :: a[..|a| - 1][i] == a[i];
      FixedGrammar(x, a[..|a| - 1]);
      ActInv(Acts(x, a[..|a| - 1]), a[|a| - 1]);
      ActKeepsCurrent(Acts(x, a[..|a| - 1]), a[|a| - 1]);
    }
  }

  lemma ActKeepsCurrent(x: Session, a: Action)
    requires SessionInv(x) && (!x.edited ==> Current(x.sys.tasks, x.sys.doc, x.grammar)) && !a.SetGrammar?
    ensures var y := Act(x, a); y.grammar == x.grammar && (!y.edited ==> Current(y.sys.tasks, y.sys.doc, y.grammar))
  {
    hide Idle, Inv, Right, Current, Orderly, Initiated, Finished, Waited, Bumped, Edited, Harmless;
    var s, g := x.sys, x.grammar;
    match a
    case Edit(from, to, buf) =>
    case Bump =>
      BumpedCurrent(s.tasks, s.doc, g);
      InitiatedInv(s.(tasks := Bumped(s.tasks)), g);
    case Initiate =>
      if !x.edited {
        InitiatedInv(s, g);
      }
    case Finish(i) =>
      if !x.edited && i < |s.tasks.queue| {
        FinishedInv(s, g, i);
      }
    case Wait => WaitedRight(s, g);
    case SetAsync(flag) =>
  }
}
