# Verified model of OpenSCADA's histories and redundancy

This project models the parts of OpenSCADA that keep and move history, and proves what they promise.

* **Value buffers** (`src/tarchval.cpp`). One container with three forms behind the same reads and writes: a ring of
  cells (hard grid), a ring of changes (soft grid) and a list sorted by time (flow). Each form is proved against a plain
  history or map, the compressed form is proved to be indistinguishable from the plain one, and the conditions under
  which it is not are given exactly.
* **Consolidation** (`TVArchEl::setVals`). The loop that makes one value of each archive period, sample by sample and over
  many calls, is proved to write the mean, the minimum or the maximum of exactly the period's samples, and to write the
  same in any number of calls, from a source that grows and drops old cells between them, as in one.
* **Packed transfer** of values between stations: sender and receiver, with the round trip and the bound on the error.
* **Message buffer** (`src/tarchives.cpp`): the ring, its readers, reading by time and resizing, and the delivery to
  archivers as a system of steps that interleave in any way.
* **Redundancy** (`src/tdaqs.cpp`, the same code in `src/tarchives.cpp`, `src/tsys.cpp`): what a station knows and plans,
  the election of the running stations as a system of steps, and requests to other stations.
* **Smaller cores**: ordered children, the assignment of functions, seeking in tables page by page.

## Layout

| module | contents |
|---|---|
| `Series`, `Ring`, `RunLength`, `Flow` | time and cell arithmetic, histories and what a read may answer; rings; lists of changes; sorted lists as maps |
| `BufSpec`, `ValBuf` | what the buffer does, on values; the class `TBuf` |
| `Refinement`, `Limits` | feeding buffers with whole series of writes; where the compressed buffer departs from the plain one |
| `GridIO`, `CopyCourse`, `BufferCopy` | reading and writing cell by cell; what a copy reads round by round, whether it ends; copying between buffers of any form |
| `Aggregate`, `Consolidation`, `ArchEl` | the combination of samples; the values of the periods of a pass; the archiving loop and the class `Element` |
| `DmPack` | the packed transfer |
| `MessRing`, `MessDelivery` | the message ring and the class `MessBuf`; delivery over all interleavings |
| `Redundancy`, `Election` | the classes `Stations` and `Objects`; the election |
| `FunctionIO`, `Children`, `TableSeek` | the smaller cores |

Times are integers in the source's unit, periods and sizes are not bounded, and values of buffers are of any type with
equality; consolidation works on reals with a separate missing value.

## Findings

Where the code does not do what it is for, a member states exactly when it does.

* Sending a request to all stations that serve an object (`TMArchivator::put` of a master, `src/tarchives.cpp:1529-1532`) asks
  for the next station after each answer, but `TSYS::rdStRequest` looks at the station it is given only when scanning, and
  the callers do not scan (`src/tsys.h:322`). Every request goes to the first live station, and the loop does not end if that
  one serves the object and another after it does too: `Redundancy.FanOutIsRightIff`.
* `TSYS::rdStRequest` puts the name of the station in front of the request's path and leaves it there
  (`src/tsys.cpp:2126`, `src/tsys.cpp:2141`). The scan that forwards commands to all stations (`src/tcntrnode.cpp:224`)
  sends one request on and on: it goes to each live station that answers, but from the second one on with a path that begins
  with the stations before, where that station has no node: its answer is an error, and counts as one. The scan does what it
  is for exactly if not more than one station answers: `Redundancy.Stations.ScanAll`, `Redundancy.ScanIsRightIff`.
* The receiver of packed values takes every reply for an incomplete one, because it starts with a missing value:
  `DmPack.Unpack` (`evalOk`). It then asks again (`src/tarchval.cpp:2666`), and like the sending to all stations this
  comes to the first live station each time: `Redundancy.GatherEndsIff` states when it ends.
* A percentage of rounding makes a missing value and a large negative one equal: `DmPack.MissingIsKeptIff` with
  `DmPack.CloseToMissing`, and an instance in `DmPack.MissingIsTakenForValue`.
* A copy goes on from the time of the sample that it has read. A soft grid whose entries do not cover it answers the time 0
  before its oldest entry; a copy that meets it again from there never ends, and writes a missing value for the current
  time in every round: `CopyCourse.CopyEndsIff`, `CopyCourse.CirclesFromBeginIff`, `CopyCourse.CircleExample`.
* A reader of the message buffer is right after a commit exactly if less than a ring of messages came meanwhile, or one less
  than a multiple of it: `MessDelivery.CommitIsRightIff`.
* Resizing the message buffer does not move the readers' heads with their slots; a reader can lose pending messages on
  shrinking and gets some again on growing: `MessRing.ResizeKeepsPendingIff`. One that starts in a ring that has grown misses
  the older part; a full ring may grow by one slot, unless its head is at the end: `MessRing.StartedAfterGrowthIff`.
* In the soft grid an entry whose time is not a multiple of the period can swallow the next cell, and a ring with one entry
  to overwrite loses its begin: `Limits.MergeIsRightIff`, `Limits.CoverIsKeptIff`. Its count of missing values drifts:
  `Limits.DriftOfWrite`.
* An archive element that finds a single sample writes what it carries, in the period of its last sample or of the current
  time, instead of a value of the sample's period: `ArchEl.PassIsRightIff`. A moving average that is read again is
  disturbed by missing samples at the start of its period: `Aggregate.ReReadIsSameIff`, `Aggregate.CarryIsHarmlessIff`.
* After the configuration node of one parameter the first row of a table is left out: `TableSeek.EnumeratedIsAllIff`. Since
  that row would have set the page of the session, one that holds a later page answers from that page:
  `TableSeek.StaleIsRightIff`, `TableSeek.StaleExample`.
* The assignment of a function leaves every id twice that the list had twice: `FunctionIO.AssignIsRightIff`.
* An ordered group cannot number more than 65536 children: `Children.Group.ChldAdd`.

## Model

| member | source | states |
|---|---|---|
| ValBuf.TBuf.constructor | src/tarchval.cpp:413-420 | a new buffer of any form is empty |
| ValBuf.TBuf.Set | src/tarchval.cpp:608-850 | for grids, cell by cell: which values are refused, in times; else the value is in the cell that takes it, kept cells keep theirs, and cells skipped have no value, or the last one before if the buffer fills with that (soft grid: as long as its entries cover the history); for the flow form a map update with the least key dropped over the limit; a refused write changes nothing |
| ValBuf.TBuf.Get | src/tarchval.cpp:485-606 | a read answers the nearest cell or stored time on the asked side, with its time, and nothing beyond the ends |
| ValBuf.TBuf.SetHard | src/tarchval.cpp:615-655 | the same cell by cell for an opened hard grid: in the window one cell changes, after it fillers and the value are appended and the oldest cells dropped, too old a value changes nothing |
| ValBuf.TBuf.GetHard | src/tarchval.cpp:493-498 | the ring index found by truncating division is that of the nearest cell |
| ValBuf.TBuf.AppendHard | src/tarchval.cpp:632-654 | appending keeps the ring the newest part of all cells written, with begin and end |
| ValBuf.TBuf.SetSoft | src/tarchval.cpp:658-735 | a write leaves the entries of the unlimited list of changes, less those pushed out |
| ValBuf.TBuf.GetSoft | src/tarchval.cpp:500-529 | half divider and scan find the newest entry that is not after the cell, or none; the time answered is the entry's inside its own cell, and else the cell's |
| ValBuf.TBuf.HalfDivide | src/tarchval.cpp:503-513 | the half divider never steps over an entry that can answer |
| ValBuf.TBuf.SetFlow | src/tarchval.cpp:813-850 | the list stays strictly ascending, a write is a map update followed by dropping the least key over the limit |
| ValBuf.TBuf.GetFlow | src/tarchval.cpp:561-582 | the greatest stored time not after the asked one, or the least not before it |
| ValBuf.TBuf.Clear | src/tarchval.cpp:429-437 | the buffer is empty, its form stays |
| ValBuf.TBuf.MakeBuf | src/tarchval.cpp:447-483 | enlarging keeps the whole content; any other change of form empties the buffer; the period an old grid takes for 0 |
| ValBuf.TBuf.EvalCountIsExact | src/tarchval.cpp:617-655 | in every reachable state of a hard grid the running count is the number of cells without a value |
| Series.AnswerIsUnique | src/tarchval.cpp:485-498 | the contract of reads allows one answer only |
| Series.StoreIsPointwise | src/tarchval.cpp:608-655 | a store changes one cell and gives skipped cells the filler |
| Ring.PutIsShift | src/tarchval.cpp:636-645 | a write into a ring adds the newest element and drops the oldest one exactly if the cursor is inside |
| Ring.DroppedKeepsSize | src/tarchval.cpp:636-645 | a ring that was never limited under its contents keeps exactly the newest elements |
| RunLength.StoredRefines | src/tarchval.cpp:658-735 | the entries after a write stand for the history after the store, whatever is skipped and filled |
| RunLength.StoredInOrder | src/tarchval.cpp:658-735 | entries stay in ascending cells |
| BufSpec.KeptRefines | src/tarchval.cpp:684-735 | with a limit the entries kept stand for the history from the begin the code computes |
| BufSpec.SoftOutcome | src/tarchval.cpp:658-735 | any write to the soft grid, seen from outside |
| BufSpec.InsertedFlow | src/tarchval.cpp:829-847 | an insertion into the sorted list is the map update with the eviction |
| Flow.NearestAnswers | src/tarchval.cpp:561-582 | neighbours in the sorted list are nearest keys of the map |
| Refinement.RecordedCell | src/tarchval.cpp:608-656 | the full history of timely writes in terms of the writes: a cell has the value of the last write that is not after it, if that one is for the cell or the last value fills, and else none |
| Refinement.FeedHard | src/tarchval.cpp:608-656 | after any series of timely writes a hard grid holds the newest cells of the full history, as many as its size allows |
| Refinement.FeedSoft | src/tarchval.cpp:658-735 | after the same a soft grid without limit holds the full history, one with room for two or more holds it from its begin on |
| Refinement.SameAnswers | src/tarchval.cpp:485-529 | compressed refines plain: no read of value and time, in either order, tells the two grids apart |
| Refinement.KeptAnswers | src/tarchval.cpp:500-529 | a limited soft grid answers from the full history at and after its begin |
| Refinement.DropReads | src/tarchval.cpp:485-529 | forgetting old cells does not change reads inside what is kept |
| Refinement.RecordedEnds | src/tarchval.cpp:610-612 | the full history goes from the first write's cell to the last one's |
| Limits.MergeIsRightIff | src/tarchval.cpp:671 | a value taken for the cell before is right exactly if the run before has the value of the newest entry |
| Limits.MergeExample | src/tarchval.cpp:671 | an instance in which it is not |
| Limits.CoverIsKeptIff | src/tarchval.cpp:684-735 | a write keeps the entries covering exactly if the ring does not hold one entry to overwrite, or the write adds none to it: for the last cell, the entry is of that cell; for a later one, the value and the filler are its value |
| Limits.DriftOfWrite | src/tarchval.cpp:689-696 | when the running count of the soft grid leaves the real one, and by how much |
| BufferCopy.GetVals | src/tarchval.cpp:372-406 | between buffers of any form: which ranges copy nothing, in times; else what is written is the course of the copy from the asked begin or the source's, back to the start of a longer period of the other buffer, to the asked end or the source's, each value as a write to the other buffer takes it, up to one that is refused |
| BufferCopy.CopyLoop | src/tarchval.cpp:383-403 | the loop follows the course round by round, and has ended exactly if it is past the end or refused |
| BufferCopy.CopyGrid | src/tarchval.cpp:372-403 | a hard grid copied into an empty unlimited one: the first cell is the first one at or after the asked begin, the last one the first at or after the asked end or the last of the source, all between are the source's, and the copy ends; if the range does not meet the source nothing is copied |
| CopyCourse.ReadUp | src/tarchval.cpp:485-582 | value and time of a read in up order from a buffer of any form |
| CopyCourse.ReadsForward | src/tarchval.cpp:388-395 | a read inside the source comes to a time not before the asked one, or to the time 0 if it comes to cells before the oldest entry of a soft grid |
| CopyCourse.CopyEndsIff | src/tarchval.cpp:383-403 | a copy from a buffer of any form, with any step, ends exactly if it does not come to a hole twice |
| CopyCourse.CirclesFromBeginIff | src/tarchval.cpp:383-403 | a buffer copied from its begin on makes the copy circle exactly if it is a soft grid whose entries do not cover it |
| CopyCourse.CircleExample | src/tarchval.cpp:684-735 | an instance: a ring of one entry |
| CopyCourse.CopyIsSamples | src/tarchval.cpp:383-403 | a copy with the step 1 reads every sample, in turn and once, from the first one at or after the begin to the first one at or after the end, for all three forms |
| CopyCourse.StridedTrace | src/tarchval.cpp:379-403 | with any step, from a hard or a soft grid, a round reads the sample of the cell that is a step on from the sample before, as long as the copy has not ended |
| CopyCourse.HardStride | src/tarchval.cpp:379-403 | in a hard grid those are the same number of cells each time, the periods that the step begins |
| CopyCourse.SoftStride | src/tarchval.cpp:379-403 | in a soft grid the same, or one more after a sample inside its cell |
| Aggregate.MovAverIsMean | src/tarchval.cpp:2743-2748 | the step-by-step moving average from a period's start is the mean of its samples, whatever is carried in |
| Aggregate.ExtremeOfSamples | src/tarchval.cpp:2749-2750 | minimum and maximum are those of exactly the samples that have a value |
| Aggregate.MovAverIsBetween | src/tarchval.cpp:2739-2748 | with missing samples a fresh average lies between the least and the greatest real one |
| Aggregate.CarryIsHarmlessIff | src/tarchval.cpp:2739-2748 | for all samples, carried values and places in the period: a carried value changes the moving average unless it is missing, or a real sample begins the period, or it equals the first real one |
| Aggregate.ReReadIsSameIff | src/tarchval.cpp:2693-2757 | reading a period again from its first samples' value gives the value of one reading exactly if the mode is not the moving average, or the carried value is missing, begun by a real sample or the first real one |
| Consolidation.ResumedIsSameIff | src/tarchval.cpp:2706-2757 | a resumed pass gives a period the value of one uninterrupted pass exactly if it is not the resumed period or that one is not disturbed |
| Consolidation.ClosedPeriodMean | src/tarchval.cpp:2743-2756 | a closed period's value is the mean of exactly its samples |
| Consolidation.FreshPeriodValue | src/tarchval.cpp:2736-2756 | a fresh period's value is missing exactly if all its cells read are, else it lies between two of them; a minimum is not greater than any of them, a maximum not less |
| ArchEl.Turn | src/tarchval.cpp:2735-2759 | one turn of the loop: what is carried on and what is written |
| ArchEl.Combine | src/tarchval.cpp:2700-2763 | from any state that is carried, the output buffer holds exactly what the pass writes: one value for each period that it has to write, each of exactly its samples, before them the carried one of the period before |
| ArchEl.OutputSeen | src/tarchval.cpp:2735-2763 | what a pass writes, in numbers: the first and the last period, the value of each, and when the carried value is written and where |
| ArchEl.CombineLast | src/tarchval.cpp:2732-2733 | the last-value mode takes the sample at the same place of every period |
| ArchEl.PassIsRightIff | src/tarchval.cpp:2735-2757 | exactly when a pass has written the value of each of its periods: if it carries the first period on, or has two samples or more, or carries that one sample for the current time |
| ArchEl.Element.SetVals | src/tarchval.cpp:2675-2771 | from any state that is carried, what the pass writes is taken over, nothing else in the store changes, and the element's state follows; a refusal changes nothing |
| ArchEl.Element.First | src/tarchval.cpp:2675-2771 | the first call starts the invariant of archiving |
| ArchEl.Element.Next | src/tarchval.cpp:2405-2430 | every further call, with a source that may have grown and dropped cells, keeps it, if the period read again is not disturbed: the store is that of one uninterrupted pass |
| ArchEl.Element.Chunks | src/tarchval.cpp:2405-2430 | any number of calls, refused or not, with a source that grows and drops cells between them, keeps it |
| ArchEl.ChunkedIsUninterrupted | src/tarchval.cpp:2675-2771 | chunking invariance: in the end the store is what one call on the whole source writes; of the samples of the moving average only the first ones of the periods have to be there |
| DmPack.PackedInOrder | src/tarchval.cpp:1893-1960 | lines have ascending positions from 0 on |
| DmPack.NoDrift | src/tarchval.cpp:1940-1947 | every value taken from the lines is close to the one there, however long nothing was sent |
| DmPack.ExactRoundTrip | src/tarchval.cpp:1893-1960 | without a percentage every value is the one there |
| DmPack.CloseIff | src/tarchval.cpp:1934-1935 | when two values are close, in numbers |
| DmPack.SignAndPercent | src/tarchval.cpp:1940-1947 | with one, its sign is kept and the difference is within the percentage |
| DmPack.MissingIsKeptIff | src/tarchval.cpp:1940-1947 | whatever is sent of some values and missing ones, missing stays missing and real stays real exactly if no real one is close to the missing one |
| DmPack.CloseToMissing | src/tarchval.cpp:1940-1947 | in numbers: the negative integers within the percentage of the missing one |
| DmPack.MissingIsTakenForValue | src/tarchval.cpp:1940-1947 | an instance in which one is |
| DmPack.Pack | src/tarchval.cpp:1893-1960 | the sender's loop, with the value held back and the last one flushed: lines ascend from the first position, each has the value there, the values up to the next line are close to it, and that of the next line is not |
| DmPack.Unpack | src/tarchval.cpp:2617-2661 | the receiver's loop writes the value taken at every position and leaves missing ones; its flags |
| DmPack.Transfer | src/tarchval.cpp:2617-2661 | sender and receiver together: real cells come over, missing ones stay as they were, nothing else changes |
| MessRing.PendingIsNewest | src/tarchives.cpp:872-875 | a reader's slots are the newest of the ring |
| MessRing.PutPending | src/tarchives.cpp:491-498 | a new message is pending for every reader, and pushes out the oldest one only of a reader with all other slots pending |
| MessRing.MessBuf.constructor | src/tarchives.cpp:107 | a new buffer is blank |
| MessRing.MessBuf.Put | src/tarchives.cpp:489-500 | the ring shifts by one message, for the ring and for every reader |
| MessRing.MessBuf.Take | src/tarchives.cpp:863-876 | a reader, also one that starts, takes its pending messages in order |
| MessRing.MessBuf.Commit | src/tarchives.cpp:885-886 | only that reader's head moves |
| MessRing.MessBuf.SetLen | src/tarchives.cpp:809-824 | the length is the asked one between 500 and 100000; the newest records stay in order, blanks come before the oldest; exactly which started readers keep their messages, from the ring's head, theirs and the lengths |
| MessRing.ShrunkPending | src/tarchives.cpp:813-820 | what taking out one slot does to each reader |
| MessRing.ShrunkByPending | src/tarchives.cpp:813-820 | what taking out any number of slots does to a reader: the same messages exactly as long as its slots stay together, less from then on |
| MessRing.GrownByPending | src/tarchives.cpp:821 | what putting in any number of slots does to a reader |
| MessRing.ResizeKeepsPendingIff | src/tarchives.cpp:809-824 | for any new length: exactly when a reader keeps its messages |
| MessRing.StartedAfterGrowthIff | src/tarchives.cpp:866 | for any number of blank slots and any growth: exactly when a reader that starts gets all the messages that can be pending |
| MessRing.MessBuf.Get | src/tarchives.cpp:543-559 | of each record as many as there are slots with it, if it is written, in the times, of the level or above and of the category, and none else; in a stable sort by time |
| MessRing.InsertByTime | src/tarchives.cpp:551-555 | insertion from the end keeps the sort stable |
| MessRing.StableSortIsPermutation | src/tarchives.cpp:551-555 | nothing is lost or doubled |
| MessRing.StableSortIsUnique | src/tarchives.cpp:551-555 | the contract allows one result only |
| MessDelivery.StartedCount | src/tarchives.cpp:866 | a reader that starts has what one that was there from the beginning would have |
| MessDelivery.RunKeeps | src/tarchives.cpp:489-500 | the invariant of ring, readers and delivery over every interleaving |
| MessDelivery.NeverRepeated | src/tarchives.cpp:863-887 | in every run messages are got in order, none twice |
| MessDelivery.NothingMissed | src/tarchives.cpp:863-887 | with less than a ring of messages during one put every message was got or written over while pending, and the newest others are pending |
| MessDelivery.ExactlyOnce | src/tarchives.cpp:863-887 | a reader that is never a ring behind gets what was put, exactly once |
| MessDelivery.CommitIsRightIff | src/tarchives.cpp:885-886 | exactly when moving the head leaves the right messages pending |
| Redundancy.Req.Send | src/ttransports.cpp:485-528 | the station in front of the path gets the request with the rest; the path is put back after an answer |
| Redundancy.Stations.Request | src/tsys.cpp:2123-2153 | the first live station that answers gets the request, those asked before it are dead and without a level, the others stay; only a scan starts after a station; the name of the station that answers stays in front of the path |
| Redundancy.Stations.ScanAll | src/tcntrnode.cpp:224 | a scan ends and reaches every live station that answers once, in order, each with the path behind the stations before it |
| Redundancy.ScanIsRightIff | src/tcntrnode.cpp:222-224 | every station that answers gets the request with the path it was meant with exactly if not more than one answers |
| Redundancy.Objects.Receive | src/tdaqs.cpp:522-530 | a reply replaces what its station told, and nothing else |
| Redundancy.Objects.State | src/tdaqs.cpp:637-651 | the reply has the started objects and which of them run |
| Redundancy.Objects.Exchange | src/tdaqs.cpp:522-530 | after an exchange a station knows which objects the other one runs |
| Redundancy.Objects.Plan | src/tdaqs.cpp:532-588 | a started object is left to others exactly if it is redundant and a live station of a higher level, of a lower one, or of the set name, has told that it runs it; nothing else changes |
| Redundancy.Objects.PlanLevel | src/tdaqs.cpp:550-563 | the working level decides exactly that, for the highest and the lowest level |
| Redundancy.Objects.PlanNamed | src/tdaqs.cpp:578-584 | the search decides that for a named station |
| Redundancy.Objects.Request | src/tdaqs.cpp:593-624 | only stations that told that they serve the object, or run it, are asked; the request reaches the first station that answers at all, whose name is then in front of its path; if none answers those asked are forgotten, and the object, and nothing else, is not left to others any more |
| Redundancy.Objects.FanOut | src/tarchives.cpp:1529-1532 | what the loop over all stations sends, with which paths, and whether it ends |
| Redundancy.FanOutIsRightIff | src/tarchives.cpp:1529-1532 | exactly when every answering station that serves the object gets the request once, with its path |
| Redundancy.Objects.Gather | src/tarchval.cpp:2606-2666 | what the loop of requests for missing values asks, each made anew, and whether it ends, for any stations that answer incompletely |
| Redundancy.GatherEndsIff | src/tarchval.cpp:2666 | exactly when it ends |
| Election.PlanIsDecision | src/tdaqs.cpp:547-563 | a decision step is what the planning of a station does |
| Election.TopIsOver | src/tdaqs.cpp:550-563 | any top station has the preference over every other station |
| Election.SomeTop | src/tdaqs.cpp:550-584 | if a station is live there is a top one |
| Election.TopRuns | src/tdaqs.cpp:550-584 | a top station that has decided runs forever |
| Election.OtherStops | src/tdaqs.cpp:550-584 | another one that was told so stops and stays stopped |
| Election.TopIff | src/tdaqs.cpp:550-584 | top are the live stations of the greatest level, of the least one, or the named one, and all if that one is not live |
| Election.SettledRuns | src/tdaqs.cpp:550-584 | settled: exactly the live stations of the greatest level run, of the least one, or the named one, and one does |
| Election.SettledIsClosed | src/tdaqs.cpp:522-624 | no further step leaves the settled state |
| Election.Converges | src/tdaqs.cpp:522-588 | from any state, whatever steps come between, decide, ask and decide settles the group: then exactly the live stations of the greatest level run, of the least one, or the named one |
| Election.TakeOverIsStep | src/tdaqs.cpp:618 | the taking over of an object that nobody answers for is the step of the election |
| FunctionIO.Function.IoId | src/tfunction.cpp:106-112 | the first entry with the id |
| FunctionIO.Function.IoIns | src/tfunction.cpp:138-149 | insertion, at the end for a place outside |
| FunctionIO.Function.IoDel | src/tfunction.cpp:151-159 | removal, refused outside |
| FunctionIO.Function.IoMove | src/tfunction.cpp:161-172 | two entries change places, the others stay |
| FunctionIO.Function.Assign | src/tfunction.cpp:54-80 | any list to any other: the assignment succeeds exactly if the function is in use or the source has no more entries over its ids than the list has for them; each id of the source is then there, the list has as many entries over its ids as before, and the entries of a source without an id twice are all there, in their places unless in use; when it fails only the list has changed |
| FunctionIO.AssignIsRightIff | src/tfunction.cpp:54-80 | a source without an id twice is always taken; the list is then the source's, or in use has its entries, exactly if none of its ids was twice in the list |
| FunctionIO.TakenIff | src/tfunction.cpp:71-74 | for a list without such an id: exactly when a source is taken |
| FunctionIO.PlaceIsThere | src/tfunction.cpp:71-74 | the place after the end of the list is come to exactly if the source has more entries over its ids than the list had |
| Children.AddedIsNumbered | src/tcntrnode.cpp:552-560 | insertion keeps the places a one-to-one numbering |
| Children.DeletedIsNumbered | src/tcntrnode.cpp:582-590 | removal does |
| Children.Group.ChldAdd | src/tcntrnode.cpp:534-566 | insertion into the order, as long as 16 bits number the children; a child that is there is only enabled |
| Children.Group.ChldDel | src/tcntrnode.cpp:580-590 | removal from the order |
| Children.Group.ChldList | src/tcntrnode.cpp:505-519 | the names in order, all or the enabled ones, without holes |
| TableSeek.Table.FieldSeek | src/tbds.cpp:1459-1485 | which row a session answers, and which page it holds afterwards |
| TableSeek.Table.ReadAll | src/tbds.cpp:1459-1485 | rows asked for in turn are all rows, with a session, stale or not, and without |
| TableSeek.SessionIsRightIff | src/tbds.cpp:1462 | exactly when a session answers right for any row |
| TableSeek.ConfSeek | src/tbds.cpp:230-267 | a level below the number of matches is that match, the others go on to the table |
| TableSeek.Table.DataSeek | src/tbds.cpp:195-321 | the record or row of a level |
| TableSeek.Table.Enumerate | src/tbds.cpp:195-321 | levels in turn, whatever the session was used for before, give the matches and then the rows, after a single parameter node without the first one and with those up to the next page taken from the page held |
| TableSeek.EnumeratedIsAllIff | src/tbds.cpp:267 | exactly when none is left out |
| TableSeek.StaleIsRightIff | src/tbds.cpp:267 | exactly when the page held before makes no difference: there is no single parameter node, or it is the first page |
| TableSeek.StaleExample | src/tbds.cpp:267 | an instance in which it does: 150 rows and the second page |

## Left out

- ValBuf.TBuf.Get: an empty soft grid asked in down order reads outside its vector in the source; the contract does not cover that read.
- BufferCopy.GetVals: the loop of the source has no bound; the model stops after a given number of rounds and says whether it had ended. An empty destination has a period that is not longer than the source's first time, and the clock stands still.
- ValBuf.TBuf.Set: the first value of a grid must not be before the end of the first period, since 0 stands for an empty buffer; `int` narrowing of cell distances and 64-bit overflow are not modelled.
- ArchEl.Combine: the source's period divides the archive's.
- ArchEl.Element.SetVals: for a hard-grid source with a shorter period than the archive's, which it divides, from the archive's second period on; what is carried is not older than an archive period and not after the pass. The branches that copy into the archive's own buffer or pass the source on unchanged are not modelled.
- ArchEl.Element.Chunks: the archiver takes over whole output buffers or refuses them; what is read again is still in the source.
- DmPack.Transfer: for integers and Booleans; the lines are positions and values, not text, and the receiver's window contains the sender's.
- FunctionIO.Function.Assign: users of the function that block changes, and assignment of a function to itself, are not modelled.
- BufferCopy.CopyLoop: bounded by the same number of rounds.
- Redundancy.Objects.FanOut: the loop of the source has no bound; the model stops after a given number of rounds and says whether it had ended.
- Redundancy.Objects.Gather: the same.
- Redundancy.Stations.ScanAll: what a station does with a request is not modelled, only the path that it gets.
- MessDelivery.ExactlyOnce: messages have a time other than 0, the buffer is not resized meanwhile and archivers are not stopped and started again.
- Low-resolution forms of the buffer: they repeat the high-resolution ones on seconds.
- Real and string values in the packed transfer: reals are compared as integers are, strings with blanks do not come over.
- Rounding of real numbers: the moving average is modelled on reals, and the truncation of consolidated Booleans to 0 and 1 is not modelled.
- The mode `<optimal>` of the election, levels and liveness that change during it, and failed requests to live stations.
- Names of stations: they are numbers in the order of the names; maps of children keep their order by name in the place the caller gives.
- Locks and the life of objects: methods are atomic, and the delivery and the election are systems of atomic steps.
- Archives, alarms and archivers behind the message buffer, and the parts of `messGet` that ask them.
- Control pages, images, XML, loading and saving, and the text of SQL requests and of configuration records.
- The key check of `fieldSQLSeek` on row 0 and the choice of columns.
