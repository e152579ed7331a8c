# TextMate's text buffer and the structures that agree with it

The text of a document in TextMate is a tree of slices into shared, append-only blocks of
memory. Line breaks, marks of what has to be parsed again, scopes and parser states live in
maps whose keys are relative and move with every edit. A background parser works on copies of
single lines while the text goes on changing. Layout rows and folds follow every edit. This
project models these structures as the classes they are, proves each against the plain thing it
stands for (a byte sequence, a map from position to value, the lines of a text), and then proves
what the plain things promise over whole runs. Four algorithms beside the buffer are treated the
same way: streaming search, property-list deltas, paths, and two graph algorithms.

`dafny verify dfyconfig.toml` checks everything.

| file | what it models |
|---|---|
| `Storage.dfy` | `storage_t` and `memory_t`: any number of storages that share blocks |
| `IndexedMap.dfy` | `indexed_map_t` |
| `Utf8.dfy`, `Lines.dfy`, `HardLines.dfy` | characters, lines by position, lines by number |
| `Repair.dfy`, `RepairRuns.dfy` | incremental parsing on values, and all runs of it |
| `Protocol.dfy` | the background parser: every interleaving of edits, jobs and repairs |
| `Buffer.dfy` | `buffer_t`: the class that does all this in place |
| `Rows.dfy`, `Paragraph.dfy` | lines as a list of lengths, nodes of a row |
| `Hiding.dfy`, `Layout.dfy` | what folds let see of a text, and rows that mirror it |
| `Folds.dfy` | folds and their boundary list |
| `Search.dfy` | `regular_find_t` and `find_t` |
| `KeyPaths.dfy`, `Plists.dfy`, `Delta.dfy` | key paths, what is at them, `create_delta` and `merge_delta` |
| `PathText.dfy`, `Paths.dfy`, `RelativePaths.dfy` | `normalize`, `relative_to`, `join` |
| `Disambiguate.dfy` | `disambiguate` |
| `Graphs.dfy`, `RemoveCycles.dfy`, `DependencyGraph.dfy` | `remove_cycles`, `touch`, `topological_order` |
| `Seqs.dfy`, `Sets.dfy`, `Wrappers.dfy` | splicing; least elements; a value that may be missing |

Some things one would expect of the code are not quite true of it. For these the exact condition
is proved:

- Repairing a buffer line by line gives what parsing the whole text gives, for all texts and all
  runs, if and only if the grammar leaves the state alone on an empty last line: that line keeps
  its start and its end state under one key (`RepairRuns.ExactlyIdleGrammars`).
- If the grammar changes while a line is being parsed and the buffer keeps its revision, the result
  for the old grammar is taken over. The document comes out right all the same, for every grammar, if
  and only if that line is neither the first nor an empty last one (`Protocol.GrammarChangeExactly`).
- After an edit the rows of a layout are the lines that the folds let see, if and only if every folded
  newline outside the edit was inside a fold that lies before the edit, behind it or around it; so they
  are after every edit that cuts into no fold (`Layouts.Layout.DidReplace`, `Hiding.KeepsHiddenExactly`).
  An edit that cuts into a fold from outside removes the fold and leaves its newlines hidden
  (`Hiding.CutFoldStaysHidden`).
- After a range is folded or unfolded the rows are the lines that the folds let see, if and only if the
  range showed no newline, or no run of folds reaches over its start, or that run ends inside what is
  left without the range and hides no newline behind it (`Layouts.Layout.DidFold`). Folding a range
  right behind a fold can fail an assertion or hide a line too many (`Layouts.AdjacentFoldsBreak`).
- The boundary list of the folds is that of their union if and only if the folds are balanced, which
  they are if none ends before it begins (`Folds.OutlinesExactly`, `Folds.BackwardFoldShows`).
- A delta merged onto the dictionary it was made from gives the new dictionary if and only if the
  old one has no `isDelta` key or the new one is empty (`Delta.RoundTrip`, `Delta.MarkedOriginIsLost`).
- Joining `b` with `relative_to(p, b)` gives `normalize(p)` if and only if `p` is absolute, is not
  made of dots alone, and `b` does not climb above the root further than `p`, unless `p` does not
  climb (`RelativePaths.JoinUndoesRelative`, `RelativePaths.NotJoinedAgain`).
- `normalize` gives an empty text for absolute paths of dots alone, such as `/.`. For relative ones,
  such as `./.`, it throws, because it cuts two characters off one (`Paths.Fails`, `Paths.DotsAlone`).
  A single `.` stays. All other paths become their resolved components.
- The level that `disambiguate` gives a path is the least number of parents that tells it from all others,
  for paths that begin with a slash and have no two slashes in a row (`Disambiguate.LevelTellsApart`).
- A list of dependencies can be ordered completely if and only if every dependency is a node and
  there is no cycle (`DependencyGraphs.CompleteExactly`).

## Model

| member | source | states |
|---|---|---|
| Storages.GrowthIsInvisible | Frameworks/buffer/src/storage.h:11-57 | whoever appends to shared blocks, every slice that others hold reads the same bytes |
| Storages.Block.Append | Frameworks/buffer/src/storage.h:27-32 | the bytes in use are the old ones followed by the new ones |
| Storages.Storage.Copy | Frameworks/buffer/src/storage.h:92-95 | a copy shares all blocks, has the same contents and joins the family, whose members read as before |
| Storages.FoundPiece | Frameworks/buffer/src/storage.cc:29-35 | every position up to the end lies inside the piece that `find_pos` gives, strictly inside unless it is the end of the text |
| Storages.Storage.SplitAt | Frameworks/buffer/src/storage.cc:37-53 | contents of this and all sharing storages stay; the returned piece begins exactly at the split; no empty piece arises |
| Storages.ExtendText | Frameworks/buffer/src/storage.cc:65-76 | appending to the block of a piece that ends where its block ends inserts behind that piece, and only there |
| Storages.AddText | Frameworks/buffer/src/storage.cc:78-78 | a piece with a block of its own inserts exactly its bytes |
| Storages.Storage.Insert | Frameworks/buffer/src/storage.cc:55-79 | contents become the plain insertion while every other storage of the family keeps its contents; no empty piece arises |
| Storages.Storage.Erase | Frameworks/buffer/src/storage.cc:81-92 | contents become the plain deletion while every other storage keeps its contents |
| Storages.Storage.At | Frameworks/buffer/src/storage.cc:94-99 | the byte of the plain contents, however they are split |
| Storages.Storage.Equals | Frameworks/buffer/src/storage.cc:101-133 | true if and only if the plain contents are equal |
| Storages.Storage.Substr | Frameworks/buffer/src/storage.cc:135-151 | the slice of the plain contents |
| Storages.Perform | Frameworks/buffer/src/storage.h:92-110 | after any run of creating, copying, inserting and erasing, each of the storages, which share blocks, reads as its own plain byte sequence |
| Utf8.PartOfCharacter | Frameworks/text/src/utf8.h:175-176 | the two tests together tell the bytes 10xxxxxx that continue a character, which no character can begin with |
| IndexedMaps.BumpEntries | Frameworks/buffer/src/indexed_map.h:25-29 | lengthening one node moves its key and all later keys by as much, no earlier one |
| IndexedMaps.LowerBound | Frameworks/buffer/src/indexed_map.h:83-83 | all keys before the result are less than the position, all others are not |
| IndexedMaps.UpperBound | Frameworks/buffer/src/indexed_map.h:84-84 | all keys before the result are at most the position, all others are greater |
| IndexedMaps.Find | Frameworks/buffer/src/indexed_map.h:82-82 | the entry with the key, or the end exactly if no entry has it |
| IndexedMaps.IndexedMap.Set | Frameworks/buffer/src/indexed_map.h:87-111 | the map gets one entry and no other key moves; keys stay strictly increasing, negative ones included |
| IndexedMaps.IndexedMap.Remove | Frameworks/buffer/src/indexed_map.h:113-128 | the map loses one key and no other key moves |
| IndexedMaps.IndexedMap.RemoveRange | Frameworks/buffer/src/indexed_map.h:31-38 | exactly the keys between the two iterators are lost |
| IndexedMaps.IndexedMap.Replace | Frameworks/buffer/src/indexed_map.h:135-154 | the map becomes `Replaced`, for both ways to bind |
| IndexedMaps.ReplacedAt | Frameworks/buffer/src/indexed_map.h:135-154 | key by key, which keys an edit drops, keeps and shifts: [from, to) and keys from `to` on, or (from, to] and keys behind `to` |
| IndexedMaps.ReplaceAbs | Frameworks/buffer/src/indexed_map.h:135-154 | moving the entries behind the edit and cutting out those inside it is exactly that map, in ascending order |
| IndexedMaps.AbsUnique | Frameworks/buffer/src/indexed_map.h:28-29 | one map has only one ascending list of entries, so iteration depends on the map alone |
| HardLines.LineOfPosition | Frameworks/buffer/src/buffer.h:119-119 | the line number found through the marks is the line the position is on, with its start and end |
| HardLines.LinesPartition | Frameworks/buffer/src/buffer.h:111-114 | lines in the order of their numbers, each up to its newline, together are the whole text without gap or overlap |
| HardLines.ConvertUndone | Frameworks/buffer/src/buffer.h:118-119 | converting a position to line and column and back gives the position, for all positions up to the size |
| HardLines.ConvertBack | Frameworks/buffer/src/buffer.h:118-119 | every line and column inside the text comes back as well |
| HardLines.ConvertOutside | Frameworks/buffer/src/buffer.h:118-118 | a column behind the end of a line gives that end, and a line behind the last is the last line |
| HardLines.EditedNewlines | Frameworks/buffer/src/buffer.cc:163-175 | moved marks together with the newlines of the new text are exactly the newlines of the edited text |
| Repair.LoadedInv | Frameworks/buffer/src/buffer.cc:189-204 | right after a grammar is set the invariant holds |
| Repair.EditMoves | Frameworks/buffer/src/buffer.cc:157-169 | key by key, which marks and states an edit keeps, drops and moves, and that its start is marked |
| Repair.ScopesStay | Frameworks/buffer/src/buffer.cc:164-168 | the scope at a position, that of the last key at or before it, stays the same through an edit; only behind an edit, where it began at the edit's very start, or as the empty scope inside it, the scope before the edit goes on |
| Repair.InsertedScope | Frameworks/buffer/src/buffer.cc:164-168 | inserted text has the scope that holds before it |
| Repair.EditedLine | Frameworks/buffer/src/buffer.cc:157-169 | a line that is clean and has a start state after an edit is an untouched line of before, with the same start state |
| Repair.EditKeepsInv | Frameworks/buffer/src/buffer.cc:152-175 | whatever is edited, every line stays locally consistent, unknown or marked |
| Repair.UpdateDoes | Frameworks/buffer/src/parsing.cc:83-99 | the line's scopes and the state behind it are the parser's, its marks go, and the next line is marked if and only if that state is news |
| Repair.UpdatedOther | Frameworks/buffer/src/parsing.cc:83-99 | parsing one line again leaves every other line consistent or marks it |
| Repair.UpdateKeepsInv | Frameworks/buffer/src/parsing.cc:83-99 | the invariant survives `update_scopes`, given that an empty last line leaves the state alone |
| Repair.ScratchLineOfSum | Frameworks/buffer/src/parsing.cc:17-22 | parsing from scratch goes from line to line, each with the state behind all lines before it, the first one told apart |
| RepairRuns.StartsFromScratch | Frameworks/buffer/src/parsing.cc:131-147 | up to the first dirty mark every line has a start state, and it is the one that parsing from the seed gives |
| RepairRuns.DirtyLineHasStart | Frameworks/buffer/src/parsing.cc:137-141 | the branch "No parser state" is never reached |
| RepairRuns.RunKeepsInv | Frameworks/buffer/src/parsing.cc:83-147 | the invariant holds after any run of edits and repairs |
| RepairRuns.AtRestIsRight | Frameworks/buffer/src/parsing.cc:131-147 | once nothing is dirty, all states and scopes are those of parsing the whole text |
| RepairRuns.StepMovesOn | Frameworks/buffer/src/parsing.cc:131-147 | every repair moves the first dirty line strictly on |
| RepairRuns.ComesToRest | Frameworks/buffer/src/parsing.cc:131-147 | so finitely many repairs bring every document to rest, and to what parsing gives |
| RepairRuns.NotIdleGoesWrong | Frameworks/buffer/src/parsing.cc:94-99 | for a grammar that changes the state on an empty last line there is a run that ends clean and wrong |
| RepairRuns.ExactlyIdleGrammars | Frameworks/buffer/src/parsing.cc:83-147 | all buffers with a grammar are right whenever they are clean if and only if the grammar never does that |
| Protocol.DispatchOrderly | Frameworks/buffer/src/buffer.h:212-221 | at most one job in the queue is alive, and one is exactly while a parser is said to run |
| Protocol.InitiatedStarts | Frameworks/buffer/src/parsing.cc:29-54 | exactly if parsing is in the background, no parser runs and something is dirty, one job is added: alive, of the buffer's revision and grammar, for the line of the first dirty position, with its text and the state before it |
| Protocol.BumpedCurrent | Frameworks/buffer/src/buffer.h:91-93 | a new revision outdates every job, whatever was edited |
| Protocol.OnlyCurrentResults | Frameworks/buffer/src/parsing.cc:56-72 | while the grammar stays the same, a background result changes the document only if line, text and start state are exactly those it was computed from |
| Protocol.FinishedInv | Frameworks/buffer/src/parsing.cc:56-72 | a job that comes back, alive or not, outdated or not, keeps the invariant |
| Protocol.FinishedBusy | Frameworks/buffer/src/parsing.cc:56-113 | whatever job comes back, repair is under way again as long as something is dirty |
| Protocol.FinishedMovesOn | Frameworks/buffer/src/parsing.cc:56-72 | a wanted result moves the first dirty line strictly on; an outdated one changes nothing and is followed by a job that is wanted |
| Protocol.BackgroundComesToRest | Frameworks/buffer/src/parsing.cc:29-114 | jobs that come back are all it takes: there is a finite run of them after which nothing is dirty and the document is right |
| Protocol.WaitedRight | Frameworks/buffer/src/parsing.cc:116-151 | waiting ends clean and right even right after an edit, before its new revision |
| Protocol.SpareKeepsInv | Frameworks/buffer/src/parsing.cc:83-99 | with nothing known but the seed, whatever result is taken over for a line strictly inside the text keeps the invariant |
| Protocol.FinishedHarmless | Frameworks/buffer/src/parsing.cc:56-72 | a job for an earlier grammar that comes back does no harm if its line is strictly inside the text |
| Protocol.EdgeStaysWrong | Frameworks/buffer/src/parsing.cc:83-99 | for any result for the first or an empty last line there is a grammar with which the document stays wrong, because nobody marks that line again |
| Protocol.GrammarChangeExactly | Frameworks/buffer/src/buffer.cc:184-209 | after a change of grammar during a background parse the document comes out right, for every grammar, if and only if the line is neither the first nor an empty last one |
| Protocol.SweptRight | Frameworks/buffer/src/parsing.cc:131-147 | the synchronous loop ends with nothing dirty and everything as parsed from the seed, although each turn may start a job |
| Protocol.EveryInterleaving | Frameworks/buffer/src/parsing.cc:29-151 | in every interleaving of edits, new revisions, jobs that start and come back, waiting, switching to the background and back, and changes of grammar under that condition, the invariant holds, a clean buffer is right, and once parsing in the background has been started a job is under way whenever something is dirty; only between an edit and its revision no job comes back |
| Protocol.FixedGrammar | Frameworks/buffer/src/parsing.cc:56-72 | while the grammar stays the same, every job that would be taken over was made from exactly the present text and state |
| Buffers.Buffer.constructor | Frameworks/buffer/src/buffer.cc:11-17 | an empty text with the scope "text", no grammar and no parser running: all that the other operations require |
| Buffers.Buffer.ActualReplace | Frameworks/buffer/src/buffer.cc:152-182 | storage and all four maps in place become exactly the edited document, of which `Repair.EditMoves` and `Repair.ScopesStay` say what stays, goes and moves; marks are the newlines of the new text |
| Buffers.KeptScope | Frameworks/buffer/src/buffer.cc:164-168 | the scope that an edit preserves is that of the last key up to the end of the edit, if it lies inside it and is not empty |
| Buffers.TrimmedSplice | Frameworks/buffer/src/buffer.cc:127-148 | leaving common ends alone gives the same text |
| Buffers.TrimmedWhole | Frameworks/buffer/src/buffer.cc:133-143 | between whole characters, trimming cuts no character |
| Buffers.Buffer.Replace | Frameworks/buffer/src/buffer.cc:125-150 | text and result are those of the plain replacement; trimming takes all that the two ends have in common, but for characters it would cut; the trimmed range and bytes are whole characters if the given ones are; the parsing invariant is kept for every grammar, and so is what parsing requires of the buffer |
| Buffers.Buffer.Begin | Frameworks/buffer/src/buffer.h:111-111 | a line start of the current text, 0 for the first line |
| Buffers.Buffer.Eol | Frameworks/buffer/src/buffer.h:112-112 | no newline from the line's begin up to it; there is one there, or the text ends |
| Buffers.Buffer.End | Frameworks/buffer/src/buffer.h:113-113 | the next line's begin, or the size |
| Buffers.Buffer.ToPos | Frameworks/buffer/src/buffer.h:118-119 | the line the position is on; converting back gives the position |
| Buffers.Buffer.ToIndex | Frameworks/buffer/src/buffer.h:118-118 | the position of a column of a line, the line's end for a column behind it, and the last line for a line behind it |
| Buffers.Buffer.NextRepair | Frameworks/buffer/src/parsing.cc:34-47 | finds, through the maps, exactly the line to repair next and the state before it |
| Buffers.Buffer.InitiateRepair | Frameworks/buffer/src/parsing.cc:29-81 | adds the job of `StartsRepair` to the queue exactly if parsing is in the background, no parser runs and something is dirty, and changes nothing else |
| Buffers.Buffer.UpdateScopes | Frameworks/buffer/src/parsing.cc:83-114 | scopes, marks and states of one line are replaced, all jobs disowned, repair started anew |
| Buffers.Buffer.FinishJob | Frameworks/buffer/src/parsing.cc:56-72 | the block run when a job comes back does what the protocol says, also for an earlier grammar's, and keeps the invariant |
| Buffers.Buffer.BumpRevision | Frameworks/buffer/src/buffer.h:93-93 | a new revision makes the protocol invariant hold again after any edit, and repair is under way if something is dirty |
| Buffers.Buffer.SetGrammar | Frameworks/buffer/src/buffer.cc:184-209 | the scope at -1, the seed and the mark at 0 are all that is known, and in the background a parser runs; the invariant holds if no line in the background that would be taken over is the first or an empty last one |
| Buffers.Buffer.WaitForRepair | Frameworks/buffer/src/parsing.cc:116-151 | terminates; then nothing is dirty, the text is unchanged, and all states and scopes are those of parsing it from the seed, whatever jobs there are |
| Rows.RowsAreLines | Frameworks/layout/src/layout.cc:453-523 | row k starts at `begin(k)` and is as long as `end(k) - begin(k)`, and there are as many rows as lines |
| Rows.LinesOfSum | Frameworks/layout/src/layout.cc:484-519 | the lines of two texts in a row, one of them shared |
| Rows.RowOfPosition | Frameworks/layout/src/layout.cc:214-220 | the row that `row_for_offset` finds, cut at the position |
| Rows.ErasedLines | Frameworks/layout/src/layout.cc:459-479 | erasing joins the first part of one row with the last part of another, and removes the rows between |
| Hiding.LinesTellNewlines | Frameworks/layout/src/layout.cc:453-523 | with fewer newlines shown, the rows are the same if and only if none is missing |
| Hiding.LongerRow | Frameworks/layout/src/layout.cc:441-444 | folded bytes make the row longer that they go into, and change no other |
| Hiding.RowsApart | Frameworks/layout/src/layout.cc:459-463 | the two ends of a range are in different rows if and only if it shows a newline |
| Hiding.EditedCovered | Frameworks/layout/src/folds.cc:238-252 | what is folded after an edit was folded before it |
| Hiding.EditedRunsEnd | Frameworks/layout/src/folds.cc:238-252 | if the edited range shows a newline, no run of folds reaches across the place of the edit |
| Hiding.EditedShows | Frameworks/layout/src/layout.cc:423-447 | the rows show the edited text as its folds do, if and only if no newline outside the edit stays hidden by a fold that is gone |
| Hiding.KeepsHiddenExactly | Frameworks/layout/src/folds.cc:238-252 | no newline comes to light if and only if every folded newline outside the edit was inside a fold that the edit does not cut into; so none does if every fold is left whole or swallowed whole |
| Hiding.CutFoldStaysHidden | Frameworks/layout/src/folds.cc:242-251 | an edit that cuts into a fold leaves a newline hidden |
| Layouts.Layout.RowForOffset | Frameworks/layout/src/layout.cc:214-220 | the last row that starts at or before the offset |
| Layouts.Layout.constructor | Frameworks/layout/src/layout.cc:39-59 | there is a row for every line that the given folds let see |
| Layouts.Layout.DidErase | Frameworks/layout/src/layout.cc:453-482 | when its assertions hold; then rows show the text without the range, folding the joined rows again hides only what is folded, and runs over the joint are hidden; terminates though it calls itself through `repair_folds` |
| Layouts.Layout.RepairFolds | Frameworks/layout/src/layout.cc:423-447 | fails if and only if a run that it meets ends behind what is shown; else all runs that it meets are hidden, nothing else is, and no length is lost |
| Layouts.Layout.DidInsert | Frameworks/layout/src/layout.cc:484-523 | rows show the text with the new range, and what is folded of it is hidden |
| Layouts.FillOn | Frameworks/layout/src/layout.cc:497-510 | one turn of the loop: one more chunk in its row and a new row behind its newline |
| Layouts.Layout.DidReplace | Frameworks/layout/src/layout.cc:44-44 | after an edit there is a row for every line that the folds let see, with its length, and the nodes of each row add up to it, if and only if every folded newline outside the edit was inside a fold that is not cut; so always if the edit cuts into no fold |
| Layouts.Layout.DidFold | Frameworks/layout/src/layout.cc:204-208 | after folds came or went inside a range there is a row for every line that they let see, if and only if `FoldsCleanly`; when an assertion fails |
| Layouts.RefoldedShows | Frameworks/layout/src/layout.cc:204-208 | what the rows show then differs from what the folds let see by exactly the newlines that a run over the start hides behind the range |
| Layouts.AdjacentFoldsBreak | Frameworks/layout/src/layout.cc:204-208 | two texts in which folding a range right behind a fold goes wrong, by an assertion and by a line too few |
| Layouts.ChangedInside | Frameworks/layout/src/layout.cc:888-898 | folding and unfolding ranges inside a range changes what is folded nowhere else |
| Layouts.Perform | Frameworks/layout/src/layout.cc:44-59 | after any run of edits without folds, row k starts at `begin(k)`, its nodes are as long as `end(k) - begin(k)`, and there are as many rows as lines |
| Paragraphs.Paragraph.Length | Frameworks/layout/src/paragraph.cc:516-522 | the sum of the node lengths |
| Paragraphs.KindOfByte | Frameworks/layout/src/paragraph.cc:447-464 | every byte of a line has the kind of the node it lies in |
| Paragraphs.KindOfCharacter | Frameworks/layout/src/paragraph.cc:231-263 | every byte of the characters that are inserted has the kind of its character |
| Paragraphs.Paragraph.IteratorAt | Frameworks/layout/src/paragraph.cc:447-464 | the node that begins at the position, after dividing a text node if needed; no byte changes its kind |
| Paragraphs.Paragraph.InsertText | Frameworks/layout/src/paragraph.cc:466-480 | byte by byte, text goes in at the position and all else stays; the first text node there gets longer, unless it ends there and is full, when there is one node more |
| Paragraphs.Paragraph.Insert | Frameworks/layout/src/paragraph.cc:231-263 | byte by byte, the kinds of all characters go in at the position, in order, however they are grouped into nodes |
| Paragraphs.EraseStep | Frameworks/layout/src/paragraph.cc:275-288 | what one turn of the loop leaves, whether the node lies before, inside or behind the range |
| Paragraphs.Paragraph.Erase | Frameworks/layout/src/paragraph.cc:271-301 | exactly the bytes of the range are gone, and only nodes without bytes are removed |
| Folds.Foldings.SetFolded | Frameworks/layout/src/folds.cc:83-111 | the folds are kept in order, and the boundary list is that of their union, if and only if they are balanced |
| Folds.LevelStep | Frameworks/layout/src/folds.cc:98-110 | the running level is the number of folds that have begun by a position, less those that have ended |
| Folds.OutlinesExactly | Frameworks/layout/src/folds.cc:98-110 | where the level leaves 0 upwards or comes back to 0 are the ends of the union, if and only if the folds are balanced |
| Folds.BackwardFoldShows | Frameworks/layout/src/folds.cc:98-110 | one fold that ends before it begins spoils the list |
| Folds.EditedTidy | Frameworks/layout/src/folds.cc:238-252 | folds that are not empty, inside the text, and nested or disjoint stay so |
| Folds.EditedExactly | Frameworks/layout/src/folds.cc:238-252 | in order, each fold of the edited text is what one of before becomes, moved, stretched or as it was, and every fold that becomes anything is there once |
| Folds.Foldings.WillReplace | Frameworks/layout/src/folds.cc:238-252 | the folds are, with as many of each, what the edit makes of those before; tidy folds stay tidy, boundaries stay those of the union |
| Folds.FoldedRanges | Frameworks/layout/src/layout.cc:423-434 | the counter decodes the boundary list to exactly the maximal runs of positions inside folds, in order |
| Folds.NestedRanges | Frameworks/layout/src/folds.cc:318-330 | the kept ranges are pairwise nested or disjoint, come from the input, and whatever is left out crosses the end of a kept one |
| Searches.LeftmostUnique | Frameworks/regexp/src/find.cc:448-473 | there is only one list of leftmost non-overlapping occurrences, so cutting the input into chunks cannot matter |
| Searches.NodesAt | Frameworks/regexp/src/find.cc:196-220 | all bytes of one position lead to the nodes of the next, and no nodes are left behind the last |
| Searches.FallBack | Frameworks/regexp/src/find.cc:266-286 | matching what was matched again, without its first byte, gives the longest match that can still be continued |
| Searches.RegularFind.Retry | Frameworks/regexp/src/find.cc:266-286 | the recursion terminates, with less matched than before and no occurrence lost |
| Searches.RegularFind.Match | Frameworks/regexp/src/find.cc:230-289 | stops right behind the first place where an occurrence ends, counting what came in earlier chunks, or takes all |
| Searches.Found | Frameworks/regexp/src/find.cc:448-458 | an occurrence found at the end of a chunk is the next leftmost one |
| Searches.NotFound | Frameworks/regexp/src/find.cc:448-458 | a chunk in which nothing is found adds no occurrence |
| Searches.Finder.EachMatch | Frameworks/regexp/src/find.cc:448-473 | after any chunks, what has been reported is exactly the list of leftmost occurrences in the concatenated input, at absolute offsets; if the callback asks to stop, that of the input up to the end of its match |
| KeyPaths.ParseKeyPath | Frameworks/plist/src/delta.cc:76-97 | the loop computes `Parsed` |
| KeyPaths.KeyPathUndone | Frameworks/plist/src/delta.cc:30-40 | parsing an encoded and joined path gives its keys back, whatever characters they have |
| KeyPaths.KeyPathInjective | Frameworks/plist/src/delta.cc:50-56 | different paths are written differently |
| KeyPaths.EncodedLength | Frameworks/plist/src/delta.cc:30-40 | encoding costs one character for each dot and each backslash, and leaves all other keys alone |
| KeyPaths.PlainKeys | Frameworks/plist/src/delta.cc:76-97 | a dot divides two keys, and a backslash makes a key's character of what follows it |
| Plists.ErasedReads | Frameworks/plist/src/delta.cc:126-156 | as read at every path: nothing is at the erased path, an array on the way loses its first string that is the next key, and every path beside it reads as before |
| Plists.UpdatedReads | Frameworks/plist/src/delta.cc:158-192 | as read at every path: the value is at the path, with dictionaries on the way, unless something else is in the way; an array in the way gets the next key; every path beside it reads as before |
| Plists.EraseKeyPath | Frameworks/plist/src/delta.cc:126-156 | the walk with its pointer erases the parsed path and nothing else, a string from an array included |
| Plists.UpdateKeyPath | Frameworks/plist/src/delta.cc:158-192 | the walk with its pointer sets the parsed path and nothing else, or adds a string to an array |
| Delta.DifferencesRead | Frameworks/plist/src/delta.cc:42-74 | as read at the paths: deleted is what is in the old list alone, changed is what is not the same in the new one, below dictionaries of both |
| Delta.DeltaHelper | Frameworks/plist/src/delta.cc:42-74 | lists exactly the deleted paths and exactly the changed paths with their values, at any depth |
| Delta.CreateDelta | Frameworks/plist/src/delta.cc:101-118 | the result holds the mark, the identifier and all differences, and nothing else |
| Delta.ErasedBetween | Frameworks/plist/src/delta.cc:126-156 | erasing one deleted path settles that difference and no other, whatever is pending |
| Delta.UpdatedBetween | Frameworks/plist/src/delta.cc:158-192 | updating one changed path settles that difference and no other |
| Delta.AppliedGivesNew | Frameworks/plist/src/delta.cc:204-222 | a delta applied to the old dictionary gives the new one, in whatever order its entries are taken |
| Delta.MergeDelta | Frameworks/plist/src/delta.cc:196-230 | the lists are taken from last to first; without one that is no delta the result is empty |
| Delta.MergedErasing | Frameworks/plist/src/delta.cc:204-213 | a delta written by hand that deletes one key path erases it, and changes nothing else |
| Delta.MergedUpdating | Frameworks/plist/src/delta.cc:215-220 | a delta written by hand that changes one key path sets it, and changes nothing else |
| Delta.SettingDeleted | Frameworks/plist/src/delta.cc:141-154 | a deleted setting goes from the list of settings where it stands first, and nothing else changes |
| Delta.SettingChanged | Frameworks/plist/src/delta.cc:184-185 | a changed setting is added to the list of settings by its name, whatever its value, and nothing else changes |
| Delta.MergedGivesLast | Frameworks/plist/src/delta.cc:196-230 | stacked deltas compose: merged onto the first version they give the last, with the exact condition |
| Delta.RoundTrip | Frameworks/plist/src/delta.cc:196-230 | merging a delta with the dictionary it was made from gives the new one, if and only if the old one is not marked as a delta or the new one is empty |
| Delta.MarkedOriginIsLost | Frameworks/plist/src/delta.cc:204-229 | for one dictionary that is marked as a delta the round trip fails |
| PathText.SameFromRight | Frameworks/io/src/path.cc:86-103 | reading components from the right with a counter gives the same as resolving them from the left with a stack |
| PathText.JoinOfParts | Frameworks/io/src/path.cc:18-31 | the components of a text, joined with slashes, are the text |
| Paths.OutputStep | Frameworks/io/src/path.cc:44-61 | one step of the first pass, for any path read so far |
| Paths.RemoveCurrentDir | Frameworks/io/src/path.cc:40-63 | in place, components that are empty or "." are gone; exactly when it fails |
| Paths.ScanEnds | Frameworks/io/src/path.cc:89-91 | scanning up to the next slash of the reversed text reads exactly one component |
| Paths.RemoveParentDir | Frameworks/io/src/path.cc:75-109 | in place, the components are resolved |
| Paths.Normalize | Frameworks/io/src/path.cc:111-116 | any path, absolute or not, becomes its resolved components, except where it fails or has only dots |
| Paths.DotsAlone | Frameworks/io/src/path.cc:62-62 | `./.` fails, `/.` becomes empty and `.` stays |
| RelativePaths.Split | Frameworks/io/src/path.cc:18-31 | the components, without the empty one behind a last slash |
| RelativePaths.RelativeTo | Frameworks/io/src/path.cc:254-283 | computes `Relative`; fails exactly where normalising does |
| RelativePaths.JoinPaths | Frameworks/io/src/path.cc:217-220 | computes `Joined`; fails exactly where normalising does |
| RelativePaths.JoinUndoesRelative | Frameworks/io/src/path.cc:254-283 | joining a base with a relative path gives back the normal form, with the exact condition |
| RelativePaths.NotJoinedAgain | Frameworks/io/src/path.cc:254-283 | a base that climbs too far, and a path of dots alone, for which the round trip fails |
| Disambiguate.CountSlashes | Frameworks/io/src/path.cc:484-495 | there is a common suffix that cannot be made longer, and the result is the number of slashes in it |
| Disambiguate.BetweenSharesMore | Frameworks/io/src/path.cc:502-514 | what lies between two texts in reversed order shares at least their common suffix with each |
| Disambiguate.NeighboursDecide | Frameworks/io/src/path.cc:517-533 | comparing with the two neighbours gives the maximum over all different paths |
| Disambiguate.Levels | Frameworks/io/src/path.cc:497-536 | each path gets exactly the most slashes in a longest common suffix with a path that is not the same |
| Disambiguate.LevelTellsApart | Frameworks/io/src/path.cc:462-483 | the name and `l` parents tell a path from all that are not the same, if and only if `l` is at least its level; all paths begin with a slash and have no two in a row |
| RemoveCycles.BackEdges | Frameworks/bundles/src/load.cc:28-28 | the edges taken out lie on cycles, and the way that led here stays |
| RemoveCycles.Rerouted | Frameworks/bundles/src/load.cc:22-32 | whatever could be reached through a removed edge is reached without it |
| RemoveCycles.MenuIndex.RemoveCycles | Frameworks/bundles/src/load.cc:22-32 | terminates; only cycle edges go, nothing unreachable changes, and the lists of all menus that are being iterated stay as they are |
| RemoveCycles.MenuIndex.RemoveCyclesFrom | Frameworks/bundles/src/load.cc:136-136 | no walk from the root meets a menu twice; the same menus are reached; every removed edge closed a cycle |
| DependencyGraphs.DependencyGraph.AddEdge | Frameworks/regexp/src/dependency_graph.h:16-19 | one dependency more and no other |
| DependencyGraphs.PushedOn | Frameworks/regexp/src/dependency_graph.h:27-41 | a node may wait on the stack twice; taken again it adds nothing |
| DependencyGraphs.DependencyGraph.Touch | Frameworks/regexp/src/dependency_graph.h:22-44 | terminates and gives exactly the node and all that depends on it transitively |
| DependencyGraphs.DependencyGraph.TopologicalOrder | Frameworks/regexp/src/dependency_graph.h:47-76 | no duplicates, dependencies first, nothing left out that could be done |
| DependencyGraphs.CompleteExactly | Frameworks/regexp/src/dependency_graph.h:46-47 | all nodes are listed if and only if every dependency is a node and there is no cycle |

## Left out

- Buffers.Buffer.SetGrammar: says nothing of the document if a line in the background is the first or an empty last one; then it can stay wrong, as `Protocol.EdgeStaysWrong` shows.
- Buffers.Buffer.FinishJob: a job that is still wanted after a grammar could not be loaded is left out: the original goes on with no grammar at all.
- Buffers.Buffer.BumpRevision: the revision is always a new one; setting an old revision again, as undo does, is not part of this model.
- Buffers.Buffer.Replace: callbacks and hooks that are told about an edit are not part of the class; the layout and the folds, which are such callbacks, are modelled beside it.
- Buffers.Buffer.UpdateScopes: which part of the screen is drawn again (`limit_redraw`, `batch_start`, `did_parse`) is dropped.
- Buffers.Buffer.FinishJob: the thread that parses is not modelled; a job is a value in a queue that may come back at any time and in any order.
- Buffers.Buffer.ActualReplace: that snapshots of a buffer's storage keep their text is proved for `Storages.Storage` with any family of copies; the buffer itself is taken with its own storage alone.
- Repair.EditKeepsInv: `parse::parse` is any function of the line, the state and whether it is the first line; its internals, and parser stacks as shared objects, are not part of this model.
- Storages.Storage.Insert: how much more room the allocator gives than was asked for is a parameter.
- Storages.Storage.At: positions inside the text only; reading at the very end is undefined in the original.
- IndexedMaps.IndexedMap.Replace: the balanced tree of `basic_tree.h` is taken as its sequence of nodes, so offsets are sums and balancing is not modelled; this holds for the storage tree and the row tree as well.
- Searches.Finder.EachMatch: a search that was stopped is not continued; backwards search, ignored whitespace, case folding, multi-byte variants and regular expressions are left out, so every position of the needle allows single bytes.
- Searches.RegularFind.constructor: nodes with the same children are not merged, since all bytes of a position already lead to the same nodes.
- Delta.DeltaHelper: dictionaries are maps, so keys are taken in any order; nothing is promised about the order of the deleted paths.
- Plists.EraseKeyPath: the dictionaries above the pointer are put back when the walk ends, since dictionaries are values here.
- RelativePaths.RelativeTo: the base is absolute, as the original asserts; the text that stands for no path is the empty one.
- Disambiguate.LevelTellsApart: what `display_name` shows is taken as the last components of the path; localized names, normalising and how they are put together are left out.
- Disambiguate.Levels: `std::sort` is any method that puts the indices in order; characters are compared by their code.
- Folds.Foldings.WillReplace: the kept fold levels of lines are not part of the model, and no fold ends before it begins.
- Folds.NestedRanges: the collected ranges are any list; how markers and indentation are read from lines is left out.
- Layouts.Layout.DidErase: lengths only; geometry, soft wrapping and refreshing are left out.
- Layouts.Layout.DidFold: what the rows are once an assertion has failed is left open.
- Layouts.Layout.constructor: the given folds are balanced and end inside the text.
- Layouts.Layout.DidReplace: no fold ends before it begins or behind the text.
- Layouts.Layout.DidInsert: how bytes make up characters is any function that accounts for all of them.
- DependencyGraphs.DependencyGraph.Touch: nodes are visited in any order, as the order of a map does not matter here.
- Undo, marks, spelling, symbols, clipboard, bundles, file access and everything drawn are not part of this model.
