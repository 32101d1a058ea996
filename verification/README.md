# Verified models of the edit log, the code point sets, the segmenter and the command queue

Dafny models of the parts of the repository whose correctness is hard to see from the code, with proofs that
hold for every input, every state or every run. `dafny verify dfyconfig.toml` checks everything.

**Edit log** (`IcuLib/edits.cpp`). An `Edits` object packs a list of spans (unchanged text, or a replacement of m units by
n) into 16-bit units.
- `EditSpans.dfy` is the meaning: span lists, positions, looking up an index, joining adjacent spans.
- `EditUnits.dfy` is the packed form, and shows that units determine what they stand for.
- `EditLog.dfy` is the writer, with its growing array, and `mergeAndAppend`.
- `EditCursor.dfy` and `EditIterator.dfy` are the two-way iterator with its random access.
- `EditMerge.dfy` is the merge loop on span lists, one iteration at a time, and why it composes.
- `EditCuts.dfy` is where the merged edits begin and end, and why nothing about the result is left open.
- `EditTally.dfy` is what recording does to a log's spans, length difference, unit count and error.
- `EditRoundTrip.dfy` puts writer and reader together.

The central notions: `Edits.Fine()` and `Iterator.Spans()` are the span lists that a log and an iterator stand for. `Gap()`
is the number of spans that lie behind an iterator, `On(c)` says that it shows span c with the exact prefix sums as its
indexes. The iterator's lengths and indexes are 32-bit, so it serves a log whose two texts are within 32 bits
(`EditUnits.TextFits`). `EditMerge.Image(spans, i)` is where unit i of the source survives in the destination, or -1.
`EditCuts.Cut(spans, i, k)` says that positions i and k are opposite each other, as span boundaries or within unchanged
text.

**Sets of code points** (`IcuLib/bmpset.cpp`). `InversionList.dfy` has plain membership, `BmpSet.dfy` the lookup tables built
from it, `BmpSpan.dfy` the spans over UTF-16 and UTF-8 text, `BmpSpanBack.dfy` the span backwards through UTF-8, `Utf.dfy`
the encodings (section 3 of RFC 3629, section 2.1 of RFC 2781).

**Segmentation** (`IcuLib/dictbe.cpp`). `CjkTable.dfy` is the dynamic program that divides Chinese and Japanese text, as a
function of the text and of what the dictionary matches, and why its result has the least cost; `CjkSegmenter.dfy` has the
loops that compute it and push the breaks; `CjkPlainText.dfy` says what comes of text that the dictionary does not know, in
terms of the text alone.

**Commands** (`CommanderLib/Commander.cpp`). `CommandQueue.dfy` is the protocol between client and worker thread, `UndoRedo.dfy`
the worker's undo and redo stacks, `CommanderRuns.dfy` both together, `AcidCommands.dfy` the trees of commands that are to
be done as a whole or not at all.

**Canonical iteration** (`IcuLib/caniter.cpp`). `CanonicalIterator.dfy` is the odometer over the pieces,
`CanonicalPermute.dfy` the constrained permutations.

**Byte sinks** (`IcuLib/bytestream.cpp`, `IcuLib/bytesinkutil.cpp`). `ByteSinks.dfy` is chunked UTF-8 output into any sink.

Where what one would expect is false of the code, the condition under which it holds is proved, and an input that fails:
- What was written without an error can be read back in 32-bit lengths and indexes if and only if both texts are within 32
  bits (`EditRoundTrip.WalksFit`, `EditRoundTrip.WriteThenRead`; failing: `EditRoundTrip.WrittenButNotReadable`).
- Undoing k times and redoing k times, where nothing fails harmfully, restores a type's state and stacks if and only if there
  were k commands to undo or none to redo (`UndoRedo.UndoThenRedoInRun`, and through the queue `CommanderRuns.CallsUndoneAndRedone`; failing:
  `UndoRedo.SurplusUndo`).
- A command made of any number of bijective parts is taken back by `UndoSubItems`, which runs forwards, if and only if doing
  the parts forwards is the same as doing them backwards (`UndoRedo.PartsUndo`; failing: `UndoRedo.PartsThatDoNotCommute`).
- In runs in which commands may fail when they are done or redone, and are put on the undo stack all the same, a type's state
  is the replay of that stack at every moment if and only if every failure is harmless: success would not have changed the
  state (`UndoRedo.StateIsReplay`, and through the queue `CommanderRuns.AlwaysReplay`; failing: `UndoRedo.FailedDoUndone`,
  `UndoRedo.FailedRedo`).
- No command below an ACID parent is ever undone (`AcidCommands.NeverUndone`), so a rollback succeeds if and only if there
  is nothing to roll back (`AcidCommands.AcidOutcome`; failing: `AcidCommands.PartialEffect`).
- The segmenter's table is the one that is meant, which leads to a segmentation of least cost, if and only if every position
  is handled as it is meant (`CjkTable.TablesExact`). A Katakana word behind a supplementary character is, if and only if
  neither the entry meant nor the one reached by mistake would be improved (`CjkTable.UpdateExact`); without such words a
  text always is (`CjkTable.AlignedAgree`). Failing: `CjkTable.LostWordNotOptimal`, cut at more than twice the least cost.

## Model

| member | source | states |
|---|---|---|
| `EditUnits.DecodingUnique` | IcuLib/edits.cpp:16-33 | a sequence of units encodes at most one sequence of records |
| `EditUnits.EncodingUnique` | IcuLib/edits.cpp:16-33 | two readings of the same units agree record by record and on where each record starts |
| `EditUnits.EncodesAppend` | IcuLib/edits.cpp:207-211 | writing a record's units behind an encoding appends exactly that record |
| `EditUnits.EncodesDrop` | IcuLib/edits.cpp:117-127 | the last record's units are the last units, and without them the other records are encoded |
| `EditUnits.ReadLenInverse` | IcuLib/edits.cpp:403-420 | reading a length's head field and trail units gives back the length, for every length up to 2^31-1 |
| `EditUnits.RecordShape` | IcuLib/edits.cpp:480-540 | what head and trail units of every record look like: the number ranges tell unchanged text, short and long changes apart |
| `EditUnits.Layout` | IcuLib/edits.cpp:16-33 | the bit layout of every kind of record: unchanged text up to 4096, up to 512 short changes of 1 to 6 by 0 to 7, and long changes with their head fields and further units |
| `EditLog.Edits.constructor` | IcuLib/unicode/edits.h:39-41 | an empty log in the built-in buffer |
| `EditLog.Edits.Reset` | IcuLib/edits.cpp:106-109 | the log stands for nothing again, without error, in the same buffer |
| `EditLog.Edits.AddUnchanged` | IcuLib/edits.cpp:111-137 | the span list becomes the old one with the stretch joined to it; exactly how many units that takes; an error if and only if they do not fit or the length is negative; no effect after an error |
| `EditLog.Edits.MergeUnchanged` | IcuLib/edits.cpp:117-127 | a last unchanged record takes as much as it has room for; together with the rest the span list is the one asked for |
| `EditLog.Edits.AppendStretch` | IcuLib/edits.cpp:128-136 | one more unit of a stretch keeps the span list that the whole call is to reach |
| `EditLog.Edits.AddReplace` | IcuLib/edits.cpp:139-205 | the change is added as the last span, with exactly the units that takes: none if it is counted into an equal last record; delta is the exact sum; an index error if and only if the sum leaves int32 or the units do not fit; which fields change in each error case |
| `EditLog.UnchangedUnits` | IcuLib/edits.cpp:128-136 | unchanged text on its own takes one unit for every 4096 or part of them |
| `EditLog.Edits.AppendShort` | IcuLib/edits.cpp:160-173 | a short change, counted into an equal last record or appended, adds one span |
| `EditLog.Edits.AppendLong` | IcuLib/edits.cpp:175-204 | a long change in any of its forms adds one span, or fails without effect if and only if its units may not fit |
| `EditLog.Edits.WriteTrails` | IcuLib/edits.cpp:182-191 | head field and trail units of one length, without touching earlier units |
| `EditLog.Edits.WriteLong` | IcuLib/edits.cpp:180-203 | the whole long record behind the earlier units |
| `EditLog.Edits.Append` | IcuLib/edits.cpp:207-211 | one more unit behind the old ones, or the index error if and only if the log has the largest possible length |
| `EditLog.Edits.GrowArray` | IcuLib/edits.cpp:213-242 | keeps all units, gains room for at least five more, fails only at the largest capacity |
| `EditRoundTrip.WriteThenRead` | IcuLib/edits.cpp:111-242 | any sequence of calls on a new log is read back, if both texts are within 32 bits, as that sequence with empty ones dropped and adjacent unchanged spans joined; otherwise some walk of what was written would show a length or index outside int32; delta is the sum; as long as the units fit, an error if and only if some prefix sum of new minus old leaves int32 |
| `EditRoundTrip.WrittenButNotReadable` | IcuLib/edits.cpp:480-488 | two calls recorded without an error whose one joined span has length 2^31 |
| `EditRoundTrip.WalksFit` | IcuLib/unicode/edits.h:326-327 | every length and index that every walk shows is within 32 bits if and only if both texts are |
| `EditRoundTrip.TotalsKept` | IcuLib/edits.cpp:111-205 | the spans that come out cover exactly the text that went in |
| `EditTally.RecordedConcat` | IcuLib/edits.cpp:139-205 | the exact law of spans, delta, units and overflow for one list of spans and then another is that law for both together |
| `EditTally.RecordedExactly` | IcuLib/edits.cpp:148-158 | with units enough there is an error if and only if delta would leave int32, and then exactly the spans before the first one that makes it do so are recorded |
| `EditTally.FittingNets` | IcuLib/edits.cpp:148-158 | texts within 32 bits never lead a delta of 0 out of 32 bits |
| `EditRoundTrip.ReadAll` | IcuLib/edits.cpp:446-540 | fine iteration delivers exactly the span list that the log stands for, for all texts within 32 bits |
| `EditRoundTrip.Walk` | IcuLib/edits.cpp:446-649 | for all texts within 32 bits, every interleaving of next and previous, fine or coarse, shows what the same walk on the plain span list shows: the same spans, the same exact positions, the same ends |
| `EditRoundTrip.WalkWith` | IcuLib/edits.cpp:446-649 | the same from every state that the iterator can be in |
| `EditRoundTrip.TurnRound` | IcuLib/edits.cpp:452-468 | turning round, either way, shows the same span again at the same place |
| `EditRoundTrip.ForwardShows` | IcuLib/edits.cpp:446-540 | going forwards shows every span of the list in turn at its own place |
| `EditRoundTrip.Move` | IcuLib/edits.cpp:446-649 | from every state, one call acts as one step of the plain walk; turning round delivers the same span again |
| `EditRoundTrip.CoarseSpans` | IcuLib/edits.cpp:526-538 | a log's coarse spans are its fine spans with adjacent changes merged |
| `EditSpans.CoarseOfFine` | IcuLib/edits.cpp:526-538 | joining coarsely after joining finely is joining coarsely |
| `EditSpans.JoinIsJoined` | IcuLib/edits.cpp:480-538 | a joined list has no two adjacent spans left that belong together |
| `EditSpans.JoinConcat` | IcuLib/edits.cpp:480-538 | where nothing merges across a boundary, the two sides are joined independently, so a reader may start there |
| `EditSpans.JoinLeft` | IcuLib/edits.cpp:117-127 | joining what was written before makes no difference to the whole |
| `EditSpans.AtRepeated` | IcuLib/edits.cpp:682-727 | n equal spans advance all three indexes by n times one of them |
| `EditSpans.AtTotals` | IcuLib/edits.cpp:422-436 | the three indexes of a position are the sums of old lengths, of new lengths of changes, and of all new lengths before it |
| `EditSpans.LocateUnique` | IcuLib/edits.cpp:651-736 | a linear scan finds span d if and only if d is the one span that holds the index, and none if and only if the index is at or past the end, zero-length spans included |
| `EditSpans.MapIndexMonotone` | IcuLib/edits.cpp:738-774 | both index maps are monotone |
| `EditSpans.MapIndexRoundTrip` | IcuLib/edits.cpp:738-774 | there and back never moves an index left, and is exact from anywhere in unchanged text, in both directions |
| `EditSpans.MapIndexAt` | IcuLib/edits.cpp:738-774 | the start of a span goes to its start on the other side, the inside of a change to its end, unchanged text one to one |
| `EditSpans.MapIndexOutside` | IcuLib/edits.cpp:738-774 | what is at or past the end goes to the end, a negative index to 0 |
| `EditSpans.MapIndexStartRoundTrip` | IcuLib/edits.cpp:738-774 | there and back is exact from the start of every span that is not empty on either side |
| `EditCursor.RunIsSpan` | IcuLib/edits.cpp:480-538 | a maximal run of records of one kind is one span of the list, with the summed lengths |
| `EditCursor.RecordIsSpans` | IcuLib/edits.cpp:501-517 | a compressed record is that many equal spans of the fine list |
| `EditCursor.ListWellFormed` | IcuLib/edits.cpp:480-540 | every span list of a log is one that the index laws apply to |
| `EditIterator.Iterator.constructor` | IcuLib/edits.cpp:397-401 | before the first span, at position 0, for any log; ready to move for every log whose texts are within 32 bits |
| `EditIterator.Iterator.ReadLength` | IcuLib/edits.cpp:403-420 | the length that a head field and the units at the index stand for, and the index after them |
| `EditIterator.Iterator.UpdateNextIndexes` | IcuLib/edits.cpp:422-428 | the position after the current span |
| `EditIterator.Iterator.UpdatePreviousIndexes` | IcuLib/edits.cpp:430-436 | the position from which the current span leads to the old one |
| `EditIterator.Iterator.NoNext` | IcuLib/edits.cpp:438-444 | no span, neither direction |
| `EditIterator.Iterator.Next` | IcuLib/edits.cpp:446-540 | from every reachable state: shows the span after the gap (with onlyChanges the next change) with exact indexes, or is past the end if and only if there is none; no 32-bit value overflows |
| `EditIterator.Iterator.NextSpan` | IcuLib/unicode/edits.h:172-172 | the same for the kind of span that the iterator was made for |
| `EditIterator.Iterator.TargetIsFirst` | IcuLib/edits.cpp:490-500 | for changes only, the span shown is the first change from the gap on |
| `EditIterator.Iterator.ContinueForward` | IcuLib/edits.cpp:470-477 | the next copy in a compressed record is the next span, or the record is left |
| `EditIterator.Iterator.ScanUnchanged` | IcuLib/edits.cpp:480-489 | a run of unchanged records is read as exactly the next span |
| `EditIterator.Iterator.ScanFineChange` | IcuLib/edits.cpp:501-517 | a change record is read as the first of its equal spans, with the number still to come |
| `EditIterator.Iterator.ScanCoarseChange` | IcuLib/edits.cpp:502-538 | a run of change records is read as exactly the next coarse span |
| `EditIterator.Iterator.Previous` | IcuLib/edits.cpp:542-649 | from every reachable state: shows the span before the gap with exact indexes, or is before the start if and only if there is none; no 32-bit value overflows |
| `EditIterator.Iterator.ContinueBack` | IcuLib/edits.cpp:565-575 | the copy before in a compressed record is the span before, or the record is left |
| `EditIterator.Iterator.ScanFineChangeBack` | IcuLib/edits.cpp:594-609 | a change record is read as the last of its equal spans |
| `EditIterator.Iterator.ScanUnchangedBack` | IcuLib/edits.cpp:579-591 | a run of unchanged records is read backwards as exactly the previous span |
| `EditIterator.Iterator.ReadChangeBack` | IcuLib/edits.cpp:594-626 | from behind its trail units a record's head is found and the record read |
| `EditIterator.Iterator.ScanCoarseChangeBack` | IcuLib/edits.cpp:632-646 | a run of change records is read backwards as exactly the previous coarse span |
| `EditIterator.Iterator.FindIndex` | IcuLib/edits.cpp:651-736 | whatever the iterator did before: on the one span that a linear scan finds, with 0, or past the end with 1 if and only if the index is; -1 without any effect on an error or a negative index; no 32-bit sum or product overflows |
| `EditIterator.Iterator.FindBackward` | IcuLib/edits.cpp:661-697 | an index before the gap is found going back |
| `EditIterator.Iterator.FindInRecordBack` | IcuLib/edits.cpp:673-695 | the division finds the right copy in a compressed record; otherwise the whole record is skipped and the index lies before it |
| `EditIterator.Iterator.StepBackTo` | IcuLib/edits.cpp:680-689 | the division leads to the copy that holds the index |
| `EditIterator.Iterator.SkipBack` | IcuLib/edits.cpp:690-694 | all earlier copies are left behind at once |
| `EditIterator.Iterator.StepBack` | IcuLib/edits.cpp:682-688 | n copies back in a record is n spans back in the list |
| `EditIterator.Iterator.ResetToStart` | IcuLib/edits.cpp:698-700 | nothing lies behind the iterator |
| `EditIterator.Iterator.FindForward` | IcuLib/edits.cpp:705-735 | an index not before the gap is found going forward, or is at or past the end |
| `EditIterator.Iterator.FindInRecord` | IcuLib/edits.cpp:717-733 | the division finds the right copy in a compressed record; otherwise the whole record is skipped and the index does not lie in it |
| `EditIterator.Iterator.StepForward` | IcuLib/edits.cpp:722-727 | n copies on in a record is n spans on in the list |
| `EditIterator.Iterator.LeaveRecord` | IcuLib/edits.cpp:729-732 | the scaled lengths make the next call continue behind the record |
| `EditIterator.Iterator.DestinationIndexFromSourceIndex` | IcuLib/edits.cpp:738-755 | the value of the source to destination map, whose value at every index MapIndexAt and MapIndexOutside give; 0 on an error |
| `EditIterator.Iterator.SourceIndexFromDestinationIndex` | IcuLib/edits.cpp:757-774 | the value of the destination to source map, likewise; 0 on an error |
| `EditMerge.StepKeepsInv` | IcuLib/edits.cpp:263-389 | after every iteration at most one side has a remainder, and a pending change comes with exactly one, which is a remainder of a change; every iteration fetches a span, so the merge terminates |
| `EditMerge.StepFinishes` | IcuLib/edits.cpp:263-389 | if a span list does to every unit what is left after an iteration, then what the iteration emits followed by it does what was left before |
| `EditMerge.RunComposes` | IcuLib/edits.cpp:263-389 | from any state of the loop, the rest of a successful run emits spans that do what is left of a->b and then b->c |
| `EditMerge.StepBalance` | IcuLib/edits.cpp:263-389 | every iteration accounts for exactly the text of a and c that it emits and takes the same amount of b from both sides |
| `EditMerge.RunBalance` | IcuLib/edits.cpp:293-325 | the run succeeds if and only if both sides have the same amount of b left, and then emits all that is left of a and c |
| `EditMerge.MergeComposes` | IcuLib/edits.cpp:251-395 | the merge succeeds if and only if ab's new total is bc's old total; then its totals are ab's old and bc's new one, and every unit goes where ab and then bc send it |
| `EditCuts.CutMeans` | IcuLib/edits.cpp:422-428 | positions are opposite each other if and only if they are the start or end of some span on both sides, or at the same distance within unchanged text |
| `EditCuts.StepCuts` | IcuLib/edits.cpp:263-389 | every iteration cuts exactly where cuts are due, counted from the start of the pending change |
| `EditCuts.MergeCuts` | IcuLib/edits.cpp:251-395 | the merge puts positions of a and c opposite each other if and only if both are opposite the same position of b and, where ab deletes and bc inserts there, the insertions come first |
| `EditCuts.Determined` | IcuLib/edits.cpp:251-395 | two span lists without empty or adjacent unchanged spans that cut in the same places and keep the same text are equal |
| `EditCuts.MergeDetermined` | IcuLib/edits.cpp:251-395 | so whatever list keeps the text that both logs keep, and cuts where both cut, is the result of the merge |
| `EditCuts.CutJoin` | IcuLib/edits.cpp:117-127 | joining adjacent unchanged text moves no cut |
| `EditCuts.AppendedMergeCuts` | IcuLib/edits.cpp:251-395 | behind earlier edits the cuts are the same, counted from their end |
| `EditMerge.NothingLeft` | IcuLib/edits.cpp:307-311 | when both iterators are done together, no change is pending |
| `EditMerge.ImageJoin` | IcuLib/edits.cpp:117-127 | joining adjacent spans changes no unit's image |
| `EditMerge.AppendedMergeComposes` | IcuLib/edits.cpp:251-395 | behind earlier edits the composition is shifted by their totals, and earlier text keeps its image |
| `EditLog.Edits.MergeAndAppend` | IcuLib/edits.cpp:251-395 | appends the true composition of the two logs, cut exactly where both logs can be cut at the same position of b, with bc insertions before ab deletions; with units enough, an overflow if and only if some prefix of the appended edits leads delta out of int32, keeping exactly the edits before it, which never happens to a delta of 0; otherwise an illegal-argument error if and only if the logs disagree on the length of b; earlier edits keep their meaning; unchanged on an earlier error |
| `EditLog.Edits.MergeLoop` | IcuLib/edits.cpp:255-395 | the loop over the two compressed logs emits what the merge of their span lists does |
| `EditLog.Edits.MergeStep` | IcuLib/edits.cpp:263-389 | one iteration over iterators is one step on span lists |
| `EditLog.Edits.HandleInsertion` | IcuLib/edits.cpp:280-289 | an insertion is flushed with the pending change, or joins it within a change of ab |
| `EditLog.Edits.HandleDeletion` | IcuLib/edits.cpp:297-306 | a deletion is flushed with the pending change, or joins it within a change of bc |
| `EditLog.Edits.CombineUnchanged` | IcuLib/edits.cpp:334-346 | text unchanged on both sides goes through behind the pending change; the longer side keeps its remainder |
| `EditLog.Edits.CombineCurrent` | IcuLib/edits.cpp:334-388 | two overlapping spans are cut, flushed or accumulated as the step on span lists says |
| `InversionList.IndexUnique` | IcuLib/bmpset.cpp:257-289 | the index of a code point is the only place where the list passes it |
| `InversionList.RangeMembers` | IcuLib/bmpset.cpp:125-139 | members lie between an even list index and the next, none before it |
| `BmpSet.OrRows` | IcuLib/bmpset.cpp:89-117 | the bits are set in exactly the rows given |
| `BmpSet.Set32x64Bits` | IcuLib/bmpset.cpp:70-119 | exactly the numbers from start to limit are added to the vertical bit table, for every rectangle shape |
| `BmpSet.BMPSet.constructor` | IcuLib/bmpset.cpp:29-52 | tables that answer as the list does, for every list that ends in 0x110000 |
| `BmpSet.BMPSet.Build` | IcuLib/bmpset.cpp:34-52 | from empty tables to right ones |
| `BmpSet.BMPSet.InitStarts` | IcuLib/bmpset.cpp:42-47 | each entry is the list index of its 4k block's start |
| `BmpSet.BMPSet.NextRange` | IcuLib/bmpset.cpp:127-132 | the next range with its limit, the last one limited by 0x110000 |
| `BmpSet.BMPSet.InitLatin1` | IcuLib/bmpset.cpp:124-139 | every Latin-1 byte is the membership of its code point |
| `BmpSet.BMPSet.FirstRange` | IcuLib/bmpset.cpp:141-156 | the first range at or after U+0080, clipped there, with no member between |
| `BmpSet.BMPSet.InitTable7FF` | IcuLib/bmpset.cpp:158-172 | bit x is set if and only if x is a member from U+0080 on |
| `BmpSet.BMPSet.AddRange` | IcuLib/bmpset.cpp:181-206 | all 64-blocks up to the range's end are settled: zero, one or mixed, as their members say |
| `BmpSet.BMPSet.AddAligned` | IcuLib/bmpset.cpp:192-205 | the same for the part of a range from a block boundary on |
| `BmpSet.BMPSet.MarkMixed` | IcuLib/bmpset.cpp:184-190 | one more block is settled, as mixed |
| `BmpSet.BMPSet.MarkOnes` | IcuLib/bmpset.cpp:192-198 | blocks that lie in the set are settled, as ones |
| `BmpSet.BMPSet.InitBlocks` | IcuLib/bmpset.cpp:174-218 | every block from U+0800 to U+FFFF is mixed, or its bit is the membership of all its 64 code points |
| `BmpSet.BMPSet.OverrideIllegal` | IcuLib/bmpset.cpp:229-255 | what non-shortest forms and surrogates read is the membership of U+FFFD; every legal entry keeps its meaning |
| `BmpSet.BMPSet.FindCodePoint` | IcuLib/bmpset.cpp:257-289 | the smallest index in the given bounds whose entry exceeds the code point |
| `BmpSet.BMPSet.ContainsSlow` | IcuLib/bmpset.h:158-160 | plain membership, if the bounds enclose the code point's index |
| `BmpSet.BMPSet.SearchBounds` | IcuLib/bmpset.cpp:298-313 | the starts of the 4k blocks enclose the index of every code point between them |
| `BmpSet.BMPSet.Contains` | IcuLib/bmpset.cpp:292-316 | plain membership, for every integer |
| `BmpSet.BMPSet.TwoByte` | IcuLib/bmpset.cpp:295-296 | plain membership from the bit table |
| `BmpSet.BMPSet.ContainsBmp` | IcuLib/bmpset.cpp:298-307 | plain membership from the block table, or from a search restricted to a 4k block |
| `BmpSpan.LookUp` | IcuLib/bmpset.cpp:329-364 | the membership of the code point at a position, and whether it takes a surrogate pair |
| `BmpSpan.Span` | IcuLib/bmpset.cpp:322-408 | the longest prefix of code points that match, for any UTF-16 text; never ends inside a pair |
| `BmpSpan.LookUpBack` | IcuLib/bmpset.cpp:418-453 | the membership of the code point that ends at a position, which starts at a boundary again |
| `BmpSpan.SpanBack` | IcuLib/bmpset.cpp:412-503 | the longest suffix of code points that match, for any UTF-16 text; never starts inside a pair |
| `BmpSpan.SpanUtf8` | IcuLib/bmpset.cpp:509-665 | for any bytes, the end of the longest prefix of items that match, where an item is a first byte with the trail bytes it asks for or a byte alone, and stands for U+FFFD unless it is the UTF-8 form of a code point; for the UTF-8 form of any code points, the number of bytes that encode the longest prefix that matches |
| `BmpSpan.SpanEndWellFormed` | IcuLib/bmpset.cpp:509-665 | in well-formed text the items are the code points, so the span ends after the encoded longest prefix |
| `BmpSpan.CheckEnd` | IcuLib/bmpset.cpp:537-573 | the end is moved before a truncated sequence, and the other limit is where the span ends once it gets there |
| `BmpSpan.EndLimitSafe` | IcuLib/bmpset.cpp:549-573 | before that end, the trail bytes that any lead byte calls for exist |
| `BmpSpan.CutOff` | IcuLib/bmpset.cpp:541-573 | no item reaches across that end, and behind it every byte is an item that reads as U+FFFD |
| `BmpSpan.CutOffSpan` | IcuLib/bmpset.cpp:545-548 | a truncated sequence is in the span as a whole or not at all, as U+FFFD decides |
| `BmpSpan.SpanAscii` | IcuLib/bmpset.cpp:577-600 | runs on over matching ASCII without changing where the span ends; a mismatch is the end of the span |
| `BmpSpan.MultiByte` | IcuLib/bmpset.cpp:601-661 | the membership of what the item at a position stands for, and the position after it, for any bytes |
| `BmpSpan.ThreeByte` | IcuLib/bmpset.cpp:603-625 | for every three-byte sequence its code point's membership, or that of U+FFFD for non-shortest forms and surrogates |
| `Utf.EncodeShape` | IcuLib/bmpset.cpp:601-661 | the lead byte tells the length, and the other bytes are trail bytes |
| `Utf.Decode2` | IcuLib/bmpset.cpp:645-657 | lead and trail bits give back a two-byte code point |
| `Utf.Decode3` | IcuLib/bmpset.cpp:603-625 | lead and trail bits give back a three-byte code point |
| `Utf.Decode4` | IcuLib/bmpset.cpp:626-644 | lead and trail bits give back a four-byte code point |
| `Utf.EncodeOrder` | IcuLib/bytesinkutil.cpp:42-42 | UTF-8 forms are in the order of their code points, byte by byte (section 1 of RFC 3629) |
| `Utf.SupplementaryOrder` | IcuLib/bmpset.cpp:352-361 | surrogate pairs count through the supplementary code points from U+10000 on |
| `Utf.ItemOfEncoding` | IcuLib/bmpset.cpp:601-661 | the UTF-8 form of a code point, wherever it stands, is read as one item that stands for it |
| `Utf.EncodingOfItem` | IcuLib/bmpset.cpp:601-661 | an item that stands for another code point than U+FFFD is the UTF-8 form of that code point |
| `BmpSpanBack.Lead3Exact` | IcuLib/unicode/utf8.h:90-97 | the table of valid lead and first trail bytes admits exactly the three-byte forms of code points |
| `BmpSpanBack.Lead4Exact` | IcuLib/unicode/utf8.h:107-114 | the same for four-byte forms |
| `BmpSpanBack.EndsShape` | IcuLib/utf_impl.cpp:236-297 | how a reader going back sees each length of a character that ends at a byte |
| `BmpSpanBack.PrevChar` | IcuLib/utf_impl.cpp:236-297 | for any bytes: the code point whose UTF-8 form ends at the byte and where it starts; otherwise U+FFFD from the start of the form that was begun there and not completed; otherwise U+FFFD for the byte alone |
| `BmpSpanBack.TruncatedShape` | IcuLib/utf_impl.cpp:284-294 | bytes that begin a form and do not complete it look as the table lookups ask |
| `BmpSpanBack.TruncatedByShape` | IcuLib/utf_impl.cpp:284-294 | and bytes that look so begin the form of some code point |
| `BmpSpanBack.LastItem` | IcuLib/bmpset.cpp:702-708 | in well-formed text the last item before a boundary is the last code point before it |
| `BmpSpanBack.SpanStartWellFormed` | IcuLib/bmpset.cpp:674-739 | so the span starts after the encoded code points before the longest suffix that matches |
| `BmpSpanBack.SpanBackAscii` | IcuLib/bmpset.cpp:684-706 | runs back over matching ASCII without changing where the span starts; a mismatch is the start of the span |
| `BmpSpanBack.LookUpMultiByte` | IcuLib/bmpset.cpp:714-736 | plain membership from the tables |
| `BmpSpanBack.SpanBackUtf8` | IcuLib/bmpset.cpp:674-739 | for any bytes, the start of the longest suffix of items that match, as they are read going back; for the UTF-8 form of any code points, where the longest suffix of code points that match starts |
| `CjkTable.KatakanaCost` | IcuLib/dictbe.cpp:1084-1089 | a Katakana word costs between 204 and 8192 |
| `CjkPlainText.CostShape` | IcuLib/dictbe.cpp:1084-1089 | the costs fall strictly up to four characters, rise strictly from four to eight, and are the largest beyond |
| `CjkPlainText.CandidateCosts` | IcuLib/dictbe.cpp:1084-1089 | a candidate that the dictionary does not have costs 255 as a single character, or what the table says for its length |
| `CjkPlainText.RunAgainstSingles` | IcuLib/dictbe.cpp:1084-1089 | a run is cheaper as one word than as single characters if and only if it has two to eight characters |
| `CjkPlainText.PlainTable` | IcuLib/dictbe.cpp:1245-1334 | the table of a text that the dictionary does not know, entry by entry |
| `CjkPlainText.PlainBoundary` | IcuLib/dictbe.cpp:1245-1354 | such a text is cut everywhere but within runs of two to eight Katakana characters |
| `CjkPlainText.KatakanaOnly` | IcuLib/dictbe.cpp:1309-1333 | a text of Katakana only is one word if it has two to eight characters, and cut after every character otherwise |
| `CjkPlainText.HangulStaysTogether` | IcuLib/dictbe.cpp:1289-1298 | Hangul that the dictionary does not know is not cut |
| `CjkPlainText.DictionaryWordsOnly` | IcuLib/dictbe.cpp:1289-1298 | where the dictionary has the single character its own cost counts, not that of last resort |
| `CjkTable.UseKeeps` | IcuLib/dictbe.cpp:1300-1307 | using a candidate keeps the table right and makes its end at most as dear as the candidate |
| `CjkTable.MatchesKeep` | IcuLib/dictbe.cpp:1294-1307 | so does using all dictionary words and, where the dictionary has none, the single character |
| `CjkTable.HandledKeeps` | IcuLib/dictbe.cpp:1282-1333 | after a position is handled as it is meant, all candidates that start there have been used |
| `CjkTable.TableFilled` | IcuLib/dictbe.cpp:1245-1334 | in the table that is meant every candidate of every reachable position has been used, and every reached position has a back-pointer with its exact cost |
| `CjkTable.TableShaped` | IcuLib/dictbe.cpp:1245-1334 | for every text, back-pointers lead back, so that following them ends |
| `CjkTable.NoneCheaper` | IcuLib/dictbe.cpp:1245-1334 | no sequence of candidate words is cheaper than the table's entry |
| `CjkTable.BackIsChain` | IcuLib/dictbe.cpp:1348-1354 | the back-pointers lead down to 0 along candidate words whose total is the table's entry |
| `CjkTable.BoundaryOptimal` | IcuLib/dictbe.cpp:1245-1354 | where every position is handled as it is meant, the boundaries found are those of a segmentation of least cost among all |
| `CjkTable.BoundaryOfNone` | IcuLib/dictbe.cpp:1343-1347 | only the end of the text if there is no segmentation |
| `CjkTable.ChainReaches` | IcuLib/dictbe.cpp:1278-1280 | what a sequence of candidates leads to is reachable |
| `CjkTable.ReachableByChain` | IcuLib/dictbe.cpp:1278-1280 | what is reachable has a sequence of candidates leading to it |
| `CjkTable.EndsAscend` | IcuLib/dictbe.cpp:1348-1354 | the word ends of any segmentation ascend strictly to the end |
| `CjkTable.WithoutHangul` | IcuLib/dictbe.cpp:1278-1298 | without Hangul every position is reachable, and a Katakana word starts exactly where a run starts |
| `CjkTable.UnitIndexAgrees` | IcuLib/dictbe.cpp:1318-1330 | code unit and code point index agree if and only if no supplementary character comes before |
| `CjkTable.UnitIndexIncreases` | IcuLib/dictbe.cpp:1228-1242 | different code points have different code unit indexes, in the same order |
| `CjkTable.UpdateExact` | IcuLib/dictbe.cpp:1325-1330 | an update whose cost and back-pointer have different indexes does what is meant if and only if neither index would be improved |
| `CjkTable.TablesExact` | IcuLib/dictbe.cpp:1245-1334 | the segmenter's table is the one that is meant, at every position, if and only if every position it handles is handled as it is meant |
| `CjkTable.AlignedAgree` | IcuLib/dictbe.cpp:1318-1330 | that is so for every text in which no supplementary character comes before a Katakana word |
| `CjkTable.NotAlignedButAgrees` | IcuLib/dictbe.cpp:1325-1330 | and for a text in which one does |
| `CjkTable.KatakanaUpdateExact` | IcuLib/dictbe.cpp:1325-1330 | a cheaper Katakana word is entered at its end, with cost and back-pointer, if and only if no supplementary character comes before |
| `CjkTable.LostWordNotOptimal` | IcuLib/dictbe.cpp:1325-1330 | a text of four characters that is cut into singles at a cost of 1020 where 495 is possible |
| `CjkSegmenter.Relax` | IcuLib/dictbe.cpp:1300-1307 | one 32-bit comparison and update of the table, also where the cost's index lies outside it |
| `CjkSegmenter.RelaxMatches` | IcuLib/dictbe.cpp:1282-1307 | the dictionary's words in order, and the single character where needed |
| `CjkSegmenter.RunLength` | IcuLib/dictbe.cpp:1316-1324 | the length of the Katakana run, up to the group limit |
| `CjkSegmenter.HandlePosition` | IcuLib/dictbe.cpp:1282-1333 | the step of the table at a position, for every text |
| `CjkSegmenter.FillTable` | IcuLib/dictbe.cpp:1245-1334 | the table, for every text |
| `CjkSegmenter.WalkBack` | IcuLib/dictbe.cpp:1348-1354 | the positions on the way back from the end |
| `CjkSegmenter.BestBoundary` | IcuLib/dictbe.cpp:1245-1354 | the boundaries of the table's segmentation, for every text |
| `CjkSegmenter.InputMap` | IcuLib/dictbe.cpp:1216-1243 | made if and only if there is a supplementary character, and then the code unit index of each code point from the start of the range on |
| `CjkSegmenter.PushBreaks` | IcuLib/dictbe.cpp:1365-1385 | exactly the boundaries, as positions in the original text, strictly ascending, with their number |
| `CjkSegmenter.DivideUpDictionaryRange` | IcuLib/dictbe.cpp:1216-1390 | for every text the boundaries found, as strictly ascending code unit positions with the count returned, after the start of the range unless there is a break already; those of a least-cost segmentation where every position is handled as it is meant |
| `CommandQueue.StepKeeps` | CommanderLib/Commander.cpp:46-153 | every step of client or worker keeps the invariant: first in first out, the count, the type ids, the kill command last |
| `CommandQueue.ExecuteKeeps` | CommanderLib/Commander.cpp:463-495 | the command that is run is the oldest one not yet run, for the type id that was asked for |
| `CommandQueue.RunKeeps` | CommanderLib/Commander.cpp:443-516 | every state of every run meets the invariant |
| `CommandQueue.Order` | CommanderLib/Commander.cpp:443-496 | in every run commands are run in the order submitted, each once, and the count is exactly the synchronous ones queued, in execution or being submitted |
| `CommandQueue.AfterWait` | CommanderLib/Commander.cpp:46-89 | when a call has returned, every synchronous command made so far and all before it have been run, in order |
| `CommandQueue.AllSynchronous` | CommanderLib/Commander.cpp:111-153 | a client that makes only synchronous calls finds all of them run |
| `CommandQueue.AfterEnd` | CommanderLib/Commander.cpp:498-516 | after the end everything submitted has been run and the worker has stopped |
| `UndoRedo.Worker.ClipRedos` | CommanderLib/Commander.cpp:518-527 | empties one type's redo stack and no other |
| `UndoRedo.Worker.AddUndo` | CommanderLib/Commander.cpp:529-543 | pushes on one type's undo stack |
| `UndoRedo.Worker.AddRedo` | CommanderLib/Commander.cpp:545-556 | pushes on one type's redo stack |
| `UndoRedo.Worker.TryUndo` | CommanderLib/Commander.cpp:558-574 | the type's last command is taken back and can be redone; other types are untouched; nothing if there is none |
| `UndoRedo.Worker.TryRedo` | CommanderLib/Commander.cpp:576-592 | the type's last undone command is done again and can be undone; other types are untouched |
| `UndoRedo.Worker.DoNew` | CommanderLib/Commander.cpp:479-484 | the command is attempted and, whatever comes of it, can be undone, and nothing of its type can be redone |
| `UndoRedo.Worker.TryDo` | CommanderLib/Commander.cpp:212-217 | a command that fails has no effect and is not reported |
| `UndoRedo.StepExact` | CommanderLib/Commander.cpp:558-592 | one do, undo or redo, successful or not, keeps the state the replay of the undo stack if and only if it is harmless |
| `UndoRedo.FailedDoUndone` | CommanderLib/Commander.cpp:212-217 | a counter whose failed increment is taken back to -1 |
| `UndoRedo.FailedRedo` | CommanderLib/Commander.cpp:588-589 | a counter whose failed redo leaves 0 where the undo stack says 1 |
| `UndoRedo.Worker.Execute` | CommanderLib/Commander.cpp:471-484 | one turn of the worker affects one type only, as that type's step says |
| `UndoRedo.ExecuteAll` | CommanderLib/Commander.cpp:463-495 | after any sequence of operations, each type is where its own operations alone would have brought it |
| `UndoRedo.StateIsReplay` | CommanderLib/Commander.cpp:463-592 | in every run over all types, failures included, a type's state is the replay of its undo stack at every moment if and only if every operation of the type is harmless where it happens |
| `UndoRedo.WithoutFailure` | CommanderLib/Commander.cpp:463-592 | in particular where nothing of the type fails |
| `UndoRedo.UndoTimesStacks` | CommanderLib/Commander.cpp:558-574 | k undos move the top of one stack reversed onto the other, surplus ones do nothing |
| `UndoRedo.UndoThenRedo` | CommanderLib/Commander.cpp:558-592 | k undos and k redos restore state and stacks if and only if there were k commands to undo or none to redo |
| `UndoRedo.UndoThenRedoInRun` | CommanderLib/Commander.cpp:558-592 | the same after any run without harmful failures, with any operations of other types in between |
| `UndoRedo.SurplusUndo` | CommanderLib/Commander.cpp:558-592 | a command done and undone; one more undo and its redo do the command again |
| `UndoRedo.NothingToRedo` | CommanderLib/Commander.cpp:479-484 | once a command of a type was done there is nothing of that type to redo |
| `CommanderRuns.LocalsFollow` | CommanderLib/Commander.cpp:443-495 | at every moment of every interleaving of client and worker, with any executions failing, each type is where the requests executed so far bring it |
| `CommanderRuns.WorldStepExact` | CommanderLib/Commander.cpp:463-495 | one step of client or worker keeps a type's state the replay of its undo stack if and only if what it executes for the type is harmless |
| `CommanderRuns.AlwaysReplay` | CommanderLib/Commander.cpp:443-592 | in every interleaving, with any executions failing, that holds at every moment if and only if everything executed for the type is harmless where it happens |
| `CommanderRuns.SubmittedGrows` | CommanderLib/Commander.cpp:46-153 | no request is ever withdrawn |
| `CommanderRuns.NothingOpen` | CommanderLib/Commander.cpp:111-153 | when an undo or redo call of a type has returned and no call for that type followed, all requests for the type have been executed |
| `CommanderRuns.CallsUndoneAndRedone` | CommanderLib/Commander.cpp:111-153 | whatever the interleaving, after k undo calls and k redo calls that succeed for a type, among any calls for others, and without harmful failures before, the client finds the type as all calls before left it, if and only if k commands could be undone or none redone |
| `UndoRedo.PartsUndo` | CommanderLib/Commander.cpp:276-286 | any number of bijective parts is taken back by undoing them in the order they were done if and only if doing them in that order is doing them in reverse |
| `UndoRedo.CommutingPartsUndo` | CommanderLib/Commander.cpp:276-286 | so parts that commute are taken back |
| `UndoRedo.TwoPartsUndo` | CommanderLib/Commander.cpp:276-286 | two bijective parts are taken back in that order if and only if they commute |
| `UndoRedo.PartsThatDoNotCommute` | CommanderLib/Commander.cpp:276-286 | two parts that are not |
| `AcidCommands.NeverUndone` | CommanderLib/Commander.cpp:221-238 | below an ACID parent, undo returns false and changes nothing, for every tree |
| `AcidCommands.LeafByFate` | CommanderLib/Commander.cpp:240-256 | a leaf is done if and only if its attempt succeeds, or fails with a retry asked for that succeeds; it takes two attempts if and only if the first fails so |
| `AcidCommands.AttemptsByFate` | CommanderLib/Commander.cpp:240-256 | leaves in turn are done up to the first that is not, each with its own attempts |
| `AcidCommands.AcidByFate` | CommanderLib/Commander.cpp:288-351 | an ACID command returns true if and only if every leaf in turn succeeds, false if and only if the first does not, and otherwise leaves in place exactly what was done before the first that does not |
| `AcidCommands.LeavesInOrder` | CommanderLib/Commander.cpp:288-293 | the leaves of parts that follow each other follow each other |
| `AcidCommands.BlocksInOrder` | CommanderLib/Commander.cpp:276-280 | so do the blocks of plain parts |
| `AcidCommands.AcidOutcome` | CommanderLib/Commander.cpp:288-351 | a tree of any depth attempts its leaves in order until one fails for good: true if none does, false if the first one does, a rollback failure otherwise |
| `AcidCommands.NoPartialEffect` | CommanderLib/Commander.cpp:200-256 | true with every leaf done once in order, false with nothing done, a rollback failure if and only if some but not all leaves were done; at most two attempts a leaf |
| `AcidCommands.PartialEffect` | CommanderLib/Commander.cpp:288-351 | two leaves of which the second fails: the rollback fails and the first one stays done |
| `AcidCommands.PlainOutcome` | CommanderLib/Commander.cpp:206-217 | outside an ACID parent a command of any depth runs through its leaves and ACID parts one after the other, whatever comes of each, until a rollback fails |
| `AcidCommands.BlocksDone` | CommanderLib/Commander.cpp:276-280 | what ends up done is whole leaves and whole ACID parts, in order; only where a rollback fails, also a proper part of the one it stops in |
| `AcidCommands.Attempts` | CommanderLib/Commander.cpp:240-256 | leaf by leaf: what is done is a prefix of the leaves, with one or two attempts each |
| `AcidCommands.Commander.Leaf` | CommanderLib/Commander.cpp:240-256 | a leaf is attempted once, and once more if the handler asks for it |
| `AcidCommands.Commander.Do` | CommanderLib/Commander.cpp:200-219 | acts as the outcome function, whose result for ACID trees is given above |
| `AcidCommands.Commander.DoSubItems` | CommanderLib/Commander.cpp:276-280 | acts as the outcome function, whose result for plain trees PlainOutcome and BlocksDone give |
| `AcidCommands.Commander.DoAcidSubItems` | CommanderLib/Commander.cpp:288-351 | the loop with its rollback acts as the outcome function |
| `AcidCommands.Commander.Undo` | CommanderLib/Commander.cpp:221-238 | acts as the outcome function |
| `AcidCommands.Commander.UndoAcidSubItems` | CommanderLib/Commander.cpp:353-416 | the loop with its roll-forward acts as the outcome function |
| `CanonicalIterator.Iterator.Reset` | IcuLib/caniter.cpp:121-126 | every index 0, not done |
| `CanonicalIterator.Iterator.Next` | IcuLib/caniter.cpp:132-162 | yields the current combination and moves to the next one, or is done for good |
| `CanonicalIterator.Iterator.Append` | IcuLib/caniter.cpp:145-147 | the pieces' current strings in order |
| `CanonicalIterator.CombineInOrder` | IcuLib/caniter.cpp:145-147 | the string of more pieces is that of the earlier ones followed by that of the later ones |
| `CanonicalIterator.CombineAt` | IcuLib/caniter.cpp:145-147 | the string chosen from each piece stands behind those of the pieces before it and before those of the pieces behind it |
| `CanonicalIterator.Iterator.Step` | IcuLib/caniter.cpp:152-160 | the loop with its carry computes the next combination |
| `CanonicalIterator.AdvanceValue` | IcuLib/caniter.cpp:152-160 | the next combination's position is one more; after the last one all indexes are 0 |
| `CanonicalIterator.DigitsOfValue` | IcuLib/caniter.cpp:152-160 | a combination is determined by its position |
| `CanonicalIterator.ValueOfDigits` | IcuLib/caniter.cpp:152-160 | every position below the product belongs to a combination |
| `CanonicalIterator.ValueOrder` | IcuLib/caniter.cpp:152-160 | the order of positions is the lexicographic order of combinations |
| `CanonicalIterator.CollectFrom` | IcuLib/caniter.cpp:121-162 | from a reset: every combination once, in lexicographic order, as many as the product of the lengths; then done, with every index 0 |
| `CanonicalIterator.Collect` | IcuLib/caniter.cpp:121-162 | the strings of a whole iteration: one for each combination, in lexicographic order |
| `CanonicalPermute.Prefix` | IcuLib/caniter.cpp:322-336 | exactly the strings that start with the character and go on with one of the table's |
| `CanonicalPermute.Permute` | IcuLib/caniter.cpp:267-339 | adds exactly what the recursive definition collects |
| `CanonicalPermute.PermutedExactly` | IcuLib/caniter.cpp:267-339 | that is a string if and only if some permutation makes it which, with skipZeros, keeps every character of combining class 0 behind all its original predecessors |
| `CanonicalPermute.PermutedSound` | IcuLib/caniter.cpp:267-339 | the permutation that makes a given result |
| `CanonicalPermute.PermutedComplete` | IcuLib/caniter.cpp:267-339 | what an allowed permutation makes is a result |
| `ByteSinks.CheckedArrayByteSink.constructor` | IcuLib/bytestream.cpp:31-34 | an empty sink; a negative capacity is 0 |
| `ByteSinks.CheckedArrayByteSink.Reset` | IcuLib/bytestream.cpp:38-42 | an empty sink again |
| `ByteSinks.CheckedArrayByteSink.Append` | IcuLib/bytestream.cpp:44-64 | the array holds the first min(capacity, total) bytes of all received ones, overflowed if and only if total > capacity, for totals within int32; beyond that overflowed with the count saturated |
| `ByteSinks.CheckedArrayByteSink.Keep` | IcuLib/bytestream.cpp:54-63 | the same for what can still be counted |
| `ByteSinks.CheckedArrayByteSink.Store` | IcuLib/bytestream.cpp:60-62 | the bytes stand behind those kept before, copied or already there |
| `ByteSinks.CheckedArrayByteSink.GetAppendBuffer` | IcuLib/bytestream.cpp:66-83 | a buffer with the capacity asked for, whose own-array form starts at the free part; none if and only if the request or the scratch buffer is too small |
| `ByteSinks.ScratchBuffer` | IcuLib/bytestream.cpp:17-27 | the scratch buffer if it is large enough for a sensible request |
| `ByteSinks.ByteSink.GetAppendBuffer` | IcuLib/bytestream.cpp:17-27 | any sink offers room for a character |
| `ByteSinks.ByteSink.Append` | IcuLib/bytestream.cpp:44-64 | any sink receives exactly the bytes |
| `ByteSinks.AppendChange` | IcuLib/bytesinkutil.cpp:19-55 | the sink receives exactly the UTF-8 form of the text whatever buffers it offers, and the log gets one change with that many bytes, none if it is empty, or exactly the error that adding it sets; an error if and only if the bytes exceed int32, and then the sink has whole characters from the start and the log is unchanged |
| `ByteSinks.SendText` | IcuLib/bytesinkutil.cpp:24-50 | chunk after chunk, the whole text and its byte count |
| `ByteSinks.SendBuffer` | IcuLib/bytesinkutil.cpp:26-49 | one buffer of whole characters |
| `ByteSinks.FillBuffer` | IcuLib/bytesinkutil.cpp:38-43 | at least one character, never more bytes than the buffer has, exactly the UTF-8 form of the units consumed |
| `ByteSinks.WriteUtf8` | IcuLib/bytesinkutil.cpp:42-42 | the bytes of one code point at their place |

## Left out

- EditIterator.Iterator.Next: moving is for logs whose two texts are within 32 bits; beyond that the source overflows, which is undefined (`WalksFit` shows that it cannot be avoided). The iterator reads a snapshot of the units, so writing to a log while iterating over it is not modelled. Previous does not skip unchanged text, as in the source.
- EditLog.Edits.MergeAndAppend: asks that both logs are distinct from the target and, as the iterators do, that their texts are within 32 bits. When the units themselves run out, near 2^31 of them, only the error is stated. The flush of a pending change after the loop is not part of the model because it is shown that nothing can be pending there.
- EditLog.Edits.AddReplace: the number of changes is unbounded; the source counts them in int32 without a check.
- EditLog.Edits.GrowArray: allocation does not fail; the refusal to grow by fewer than five units is shown unreachable. Copying and moving a log are not modelled.
- EditRoundTrip.WriteThenRead: the calls have lengths from 0 to 2^31-1; what negative lengths do is stated by AddUnchanged and AddReplace.
- BmpSet.Set32x64Bits: a 32-bit word is the set of its one bits, and the shifts and masks are set operations.
- BmpSet.BMPSet.constructor: the copy constructor of a set is not modelled.
- CjkSegmenter.DivideUpDictionaryRange: the text is one UTF-16 chunk that is normalized already, and the dictionary is what it matches at each position, within the text. For the least cost its matches come in increasing length, as a trie finds them, with costs small enough that no sum reaches the uint32 sentinel. With Hangul in the text, a Katakana word may also start within a run, after the last reachable position; the candidate words say so.
- CommandQueue.StepKeeps: safety only: waits are guards, and wake-ups and liveness are not modelled. One client thread. `DoAcid`, whose queued command carries the negated synchronous flag, is not among the calls. The count is unbounded.
- CommanderRuns.LocalsFollow: an undo does not fail, since the source does not catch what it raises. ACID commands are not among those of these runs, since they are never undone.
- AcidCommands.Commander.Do: a leaf succeeds or fails with a `KnownError` and no effect; other exceptions are not modelled. The handlers around the calls in the ACID loops are left out because the leaf's own handler catches every known error first, and a rollback failure is thrown as a pointer, which none of them catches.
- CanonicalPermute.Permute: the source string is a sequence of code points, the combining class any function of them.
- ByteSinks.AppendChange: valid UTF-16 only, as for the unchecked macros of the source; the hint for the desired capacity is not passed on. The other overloads are thin wrappers.
- The bogus mark that `CanonicalIterator::next` puts on its buffer when done is the false result here; `getEquivalents`, `extract` and `setSource` rest on normalizer data.
- Thai, Lao, Burmese and Khmer break engines, bytes tries, logging, listeners, the updater and the user interface: no simple specification, or only easy members.
