# Verification of libshdata's shared ring of samples

libshdata keeps the last `nb_samples` timestamped samples of one producer in a shared
memory section. Any number of consumers search and copy them without a lock. This
project models the protocol and the library calls in Dafny and proves what a consumer
can rely on, in every interleaving, and where the guarantees stop.

Check it with `dafny verify dfyconfig.toml --resource-limit 2000000 --verification-time-limit 0`.

## How the model is organised

- `Index.dfy`: the index helpers, and the arithmetic that relates a position in the
  history of samples to its slot (`SlotOf`, the remainder) and its lap (`LapOf`, the
  quotient). `Hits(r, s, n)` counts how often slot `s` was chosen by `r` reservations.
- `Ring.dfy`: `Holds`, the relation between the slots and the history of committed
  samples that every part of the project shares.
- `Protocol.dfy`, `ProtocolInvariant.dfy`, `ProtocolSafety.dfy`: the protocol as a
  transition system. One action is one load or store of shared memory, by the creator
  of the section, by any number of producer contexts (which may die anywhere) and by a
  consumer. The invariant is proved for every action, and the guarantees for every run.
- `ProtocolCalls.dfy`: what single calls rely on and leave behind over whole runs: opening,
  the slot a producer remembers across creations, attempts to write, a refused end of read.
- `ProtocolRuns.dfy`, `ProtocolLimits.dfy`, `ProtocolExact.dfy`, `ProtocolExamples.dfy`: how
  runs continue, the reads that are accepted outside the guarantees, the exact condition of
  torn-read freedom, and runs, for every ring size, in which each of these reads occurs.
- `Search.dfy`, `SearchProperties.dfy`: the search methods with their loops, and their
  meaning in terms of the history. Position `c` (the next sample) stands for "no match",
  a position below zero for a slot that was never written.
- `Window.dfy`, `Selection.dfy`: the reading window and the copy loop, and what each search
  method of a request selects.
- `Section.dfy`: the mapped section, producer and consumer contexts as classes, one call
  at a time.
- `Layout.dfy`: sizes and offsets of the mapped section.

The main results are these.

- **Torn reads.** If the window holds committed samples, none being replaced, when its
  first counter is sampled, and the end-of-read check succeeds for an even revision, then
  the copied cells form a contiguous run of the history and no slot of the window changed
  (`TornReadFreedom`, `WindowUnchanged`). Exactly when reads are untorn in every
  continuation is `TornFreeExactly`: the window shows a run of samples as it stands when its
  counter is sampled, and no producer can store into one of its rows before it reserves the
  start slot. It fails when the first slot is being written, also by a producer that died,
  when it was never written, and when a sample was published over it between the search and
  the sampling of the counter, after which nobody needs to write any more
  (`RepublishedStartIsTorn`). `TornReadHappens` is such a run for every ring size.
- **End of read.** The check succeeds exactly when no creation has begun since the revision
  was read at open, and the start slot was not reserved in the session, although creations
  reset every counter (`EndReadIsExact`, `StartNotReserved`). The revision is loaded twice
  at open. The first load refuses a section that is being rewritten (`OpeningNeedsRest`);
  the kept revision is odd only if a creation begins between the two (`KeptRevision`), and
  with it a cell can be accepted that the creation erased (`ErasedCellIsAccepted`). The
  accepted session ran on a section at rest exactly when the kept revision is even.
- **Ring and sessions.** Ring contents, counters and published index are determined by
  the history in every reachable state; at most one context is in a write session; foreign
  samples of a revision are noticed exactly when their number is not a multiple of the ring
  size. A context that survives a creation is judged by the slot it published last
  (`LastSlotDecides`).
- **Search.** Binary and naive search agree except on a single sample before the date.
  First-after and closest meet their specification exactly when the ring is full or has a
  sample before the date that the search can find. The overwrite check is sound for any
  number of commits, and exact for fewer than a ring. While a sample is being written, a
  search takes its slot for the oldest sample; a result elsewhere stands (`FoundStands`),
  for the binary search from three slots on (`BinaryFoundStands`, `BinaryOnTwo`).
- **Bytes.** A quantity not overlapped by a later write of its sample is what any window
  with that sample gives back for the same byte range (`WrittenIsReadBack`), and a sequence
  of calls from reservation to end of read gives back the bytes written (`WriteThenRead`).

Modelling decisions.

- A timespec is a number of nanoseconds. Loads and stores are sequentially consistent,
  the add-and-fetch primitive is atomic, and `nb_writes` and `nb_creations` do not wrap.
- The ring has between 2 and 2^30 samples; a ring of one sample is covered by
  `SingleSlotRing`. Every re-creation keeps the number of samples and the sample size.
- The section lock is the phase of the transition system: a creation starts when no live
  producer is inside a write session, runs without other producers, and completes, as it
  always can (`CreationCompletes`). A
  creator that dies leaves an odd revision; the next creation then clears the section under
  an even one, and leaves an odd one with -EFAULT, as the contract of
  `Sections.Section.Recreate` says.
- A search runs on one image of the slots, in which a sample may be half written.
  `Window.Set` takes a second image for the moment of the overwrite check, so that commits
  in between are covered.
- In `Protocol.dfy` a search is any choice of window, so the guarantees hold for every
  search method.

Differences between the code and its comments, where the model follows the code:

- src/shd_sync.c:217 says that the revision should be odd after the update; the code
  requires it to be even.
- src/shd_search.c:244 and src/shd_window.c:103 take the slot after the newest sample for
  the oldest one; on a partly filled ring it was never written.
- include/libshdata.h describes the samples of `SHD_FIRST_AFTER` and `SHD_FIRST_BEFORE` as
  immediately after and before the date; the code takes a sample at the date as after it.
- src/shd_window.h promises -EPERM for resetting an empty window, and
  `shd_data_end_read` (src/shd_data.c:333-346) drops it and returns 0.

## Model

| member | source | states |
|---|---|---|
| Index.IndexIsUnsignedRemainder | src/shd_utils.h:64-72 | the model's index helpers equal the mixed int/uint32_t remainder expressions on every range the library uses |
| Index.IntervalOfSlots | src/shd_utils.h:56-62 | the interval between the slots of two history positions is their distance modulo the ring size |
| Index.AfterSlot | src/shd_utils.h:64-67 | moving k slots forward from a position's slot gives the slot of the k-th next position |
| Index.BeforeSlot | src/shd_utils.h:69-72 | moving k slots back from a position's slot gives the slot of the k-th previous position |
| Index.HitsStill | src/shd_sync.c:109-110 | the count of reservations of a slot never falls, and stands still exactly while the slot is not reserved |
| Index.NextSlot | src/shd_sync.c:253-260 | the slot after the published index is that of the next sample, also on an empty ring where the index is -1 |
| Index.UnexpectedIsRemainder | src/shd_sync.c:114-125 | with k foreign samples since the last own one, the reservation is faulted exactly when k is not a multiple of the ring size |
| Index.SingleSlotRing | src/shd_sync.c:114-125 | on a ring of one slot the second write is faulted |
| Ring.ReserveKeeps | src/shd_sync.c:109-110 | bumping the next slot's counter keeps the ring in step with the history and one more reservation |
| Ring.StoreKeeps | src/shd_data.c:101-138 | storing into the reserved slot changes no committed sample that is still readable |
| Ring.CommitKeeps | src/shd_sync.c:140 | publishing the reserved slot appends its content to the history |
| Ring.SlotHoldsNewest | src/shd_data.c:73-148 | each slot not being written holds the newest history entry congruent to it, with that entry's lap as counter, and -1 if none |
| Ring.CounterTellsReservation | src/shd_sync.c:158-180 | a slot counter equals the one sampled after r0 reservations exactly when the slot was not reserved since |
| ProtocolInvariant.StepInv | src/shd_sync.c:76-180 | every single load or store by creator, producers or consumer keeps the protocol invariant |
| ProtocolInvariant.RunInv | src/shd_sync.c:76-243 | the invariant holds in every state of every run |
| ProtocolInvariant.WriterKeepsSession | src/shd_sync.c:76-145 | producer steps keep at most one session holder and the meaning of nb_ongoing_writes, although refused entrants never decrement it |
| ProtocolInvariant.LoadIsGood | src/shd_window.c:175-183 | a cell copied before the start slot is reserved again is the cell of the history at that place of the window |
| ProtocolInvariant.UnchangedCounter | src/shd_sync.c:158-180 | an unchanged counter means that the start slot was not reserved since the counter was sampled |
| ProtocolInvariant.CreationEnds | src/shd.c:117-133 | from any prior ring, a completed creation leaves an empty history and a free section, whose index is -1 |
| ProtocolSafety.RingRefinesHistory | src/shd_sync.c:97-145 | in every reachable state the index, contents and counters are those of the history; only the slot of the next sample may differ, only while a session is open, and its counter is then the lap of that sample |
| ProtocolSafety.UnwrittenSlotIsZero | src/shd_data.c:59-71 | in a section at rest a slot that no sample of the revision has reached holds zeros, whatever it held before |
| ProtocolSafety.CreationForgets | src/shd.c:117-133 | after a creation the history is the sequence of the samples published since, in order, and the index is -1 until the first |
| ProtocolRuns.CreationCompletes | src/shd.c:117-133 | every creation that has begun can be completed from any prior contents, and leaves an empty history and a new producer context |
| ProtocolSafety.MutualExclusion | src/shd_sync.c:76-95 | at most one context is inside a write session, and nb_ongoing_writes is 0 exactly when none is |
| ProtocolSafety.NextStepExists | src/shd_data.c:73-148 | a live producer, also one that survived a creation, and a consumer in a session can always take their next step, with its slot in range |
| ProtocolSafety.RefusalNamesHolder | src/shd_sync.c:76-95 | a context enters exactly when nobody is inside; otherwise -EALREADY means it is inside itself and -EPERM that another context is |
| ProtocolSafety.ForeignWritesDetected | src/shd_sync.c:97-131 | a reservation returns -EFAULT exactly when the samples committed by others since the context's last one in this revision are not a multiple of the ring size; a fresh context is never faulted |
| ProtocolCalls.LastSlotDecides | src/shd_sync.c:114-142 | in every run, whatever creations come in between, a reservation succeeds exactly when the next slot is the one just after the slot the context published last |
| ProtocolCalls.NewcomerIsNotFaulted | src/shd_sync.c:118-125 | a context that has never published is never faulted |
| ProtocolCalls.AttemptsAreCounted | src/shd_sync.c:76-95 | nb_ongoing_writes counts every attempt, refused or not, until 0 is stored into it |
| ProtocolCalls.CommitSucceeds | src/shd_sync.c:133-145 | a commit leaves nobody inside a write session and reports success |
| ProtocolCalls.DeadNeverActs | src/shd_sync.c:76-145 | a producer that dies inside a call takes no further step |
| ProtocolSafety.SoleProducerNeverFails | src/shd.c:280-314 | in every run in which only the context made by a creation writes, it always enters, reserves the next slot, and is never faulted |
| ProtocolSafety.RevisionParity | src/shd_sync.c:198-223 | the revision number is odd exactly while the section is rewritten and counts completed creations twice |
| ProtocolSafety.RevisionGrows | src/shd_sync.c:198-223 | once created, the revision number never decreases in a run |
| ProtocolCalls.OpeningNeedsRest | src/shd_sync.c:225-230 | opening passes the look at the revision number exactly when the section is at rest, and is refused while it is being rewritten |
| ProtocolCalls.KeptRevision | src/shd_sync.c:228-233 | the revision kept at open is odd exactly when the section is being rewritten at the second load, which takes a creation that began between the two loads; without one it is the even number of the first |
| ProtocolCalls.SelectionNeedsSample | src/shd_data.c:157-159 | nothing is selected in a section at rest before its first sample |
| ProtocolCalls.ClosedMustReopen | src/shd.c:232-245 | a closed section is opened again, with a new revision, before anything is selected in it |
| ProtocolSafety.NoCreationSinceOpen | src/shd_data.c:311-331 | after a successful check no creation has begun since the revision was loaded, and the section was at rest throughout exactly when that revision is even |
| ProtocolSafety.RevisionCheckIsExact | src/shd_sync.c:225-243 | the section has the even revision read at open exactly when no creation has begun since |
| ProtocolSafety.CounterCheckIsExact | src/shd_sync.c:147-180 | in the same revision the counter is found unchanged exactly when the start slot was not reserved since it was sampled |
| ProtocolSafety.EndReadIsExact | src/shd_data.c:311-331 | for an even revision the check succeeds exactly when no creation has begun since open and the start slot was not reserved in the session |
| ProtocolCalls.RefusedAgain | src/shd_sync.c:167-176 | after a refused check of the counter, another one without a new selection is refused too, unless the start slot is invalid |
| ProtocolCalls.ChangedRevisionEndsSession | src/shd.c:444-450 | after a changed revision nothing can be read or checked before a new selection |
| ProtocolSafety.StartNotReserved | src/shd_data.c:311-331 | an accepted read, of whatever window, means that the start slot was not reserved between the two looks at its counter |
| ProtocolSafety.TornReadFreedom | src/shd_data.c:150-180 | a window of committed samples, none being replaced at the snapshot, is copied without tearing whenever the check succeeds for an even revision, and its start was not reserved meanwhile |
| ProtocolSafety.WindowUnchanged | src/shd_data.c:311-331 | in every state of such a session up to the counter check the window's slots hold the same samples |
| ProtocolRuns.WriterProceeds | src/shd_data.c:73-99 | from every reachable state a live context that no other one keeps from writing gets the next slot, and no sample changes until then |
| ProtocolLimits.ProtectedExactly | src/shd_data.c:175-178 | the window is committed when its counter is sampled exactly when its start slot is not in flight, was written, and is followed by enough samples |
| ProtocolLimits.ProtectedByRow | src/shd_data.c:175-178 | that is, when the start slot was written and the next sample does not go to a row of the window without a new reservation of the start |
| ProtocolExact.TornFreeExactly | src/shd_data.c:150-180 | a window is read untorn in every continuation in which the read is accepted exactly when it shows a run of samples as it stands when its counter is sampled, and no producer can store into one of its rows before it reserves the start slot |
| ProtocolExact.ProtectedMeetsCondition | src/shd_data.c:175-178 | a window of committed samples, none being replaced, meets that condition |
| ProtocolLimits.WritableRowIsTorn | src/shd_sync.c:109-110 | if the next sample goes to a row of the window unnoticed, as when the start slot is in flight, a producer can store a cell, let it be copied, and replace it before publication, and the read is accepted |
| ProtocolLimits.WholeWindowIsAccepted | src/shd_sync.c:158-180 | what stands in the window, written or not, is copied whole and accepted while nobody writes |
| ProtocolLimits.StaleWindowIsTorn | src/shd_window.c:175-183 | a window that reaches past the newest sample, and whose first sample has a value of its own in some cell, is copied from the newest samples and then the oldest, and accepted, although nobody writes |
| ProtocolLimits.RepublishedStartIsTorn | src/shd_window.c:116-137 | a window committed when chosen, over whose start a sample is published before the counter is sampled, is read torn and accepted with no write in flight |
| ProtocolLimits.ErasedCellIsAccepted | src/shd_sync.c:225-234 | a creation that begins between the two loads of the revision lets a consumer accept an erased cell in place of the one it selected |
| ProtocolExamples.AcceptedReadHappens | src/shd.c:316-463 | for every ring size and number of samples there is a run, from a section never created, in which every cell of the newest sample is read and the read accepted |
| ProtocolExamples.TornReadHappens | src/shd_data.c:150-180 | for every ring size there is a run in which a torn read is accepted at an even revision with no write in flight |
| ProtocolExamples.ErasedReadHappens | src/shd_sync.c:225-234 | for every ring size there is a reachable state in which an erased cell of the newest sample was accepted |
| Search.MaxDepth | src/shd_search.c:40-62 | the depth is the whole ring if the newest slot was rewritten, else the length of the run of valid slots back from it |
| Search.DepthIsCommits | src/shd_search.c:40-62 | the depth is the number of samples in the ring, except when only the last slot is missing and is being written |
| Search.RingGivesView | src/shd_search.c:321-331 | the slots back from the start index of a search are the samples back from the newest, the content of a slot being written in place of the oldest |
| Search.FoundStands | src/shd_search.c:64-89 | a sample whose slot is not being written is found in the ring as it is seen exactly when it is the newest one before the date |
| Search.BinaryFoundStands | src/shd_search.c:91-149 | in a full ring of three slots or more with a sample being written, the binary search finds the newest settled sample before the date, if the settled ones are sorted and the oldest of them is before it |
| Search.SearchNaive | src/shd_search.c:64-89 | finds the newest sample strictly before the date, with the number of samples examined, whatever the order of timestamps |
| Search.Bisect | src/shd_search.c:109-125 | the loop ends on the target of the halving, after at most the rounded-up logarithm of the depth, in whatever order the timestamps are |
| Search.SearchBinary | src/shd_search.c:91-149 | finds `BinaryReference` whatever the order of timestamps, -1 on one sample; 2 to the rounds is below twice the depth |
| Search.BinaryReference | src/shd_search.c:91-149 | the sample found is before the date and its successor is not; if none is found the oldest, and from three samples on the second oldest, is not before the date |
| Search.BinaryIsNaive | src/shd_search.c:91-149 | on two or more sorted samples, also with an oldest one out of order if a later one of three or more is before the date, the binary search finds what the naive one finds |
| Search.BinaryOnTwo | src/shd_search.c:91-149 | on two samples the binary search finds what the naive one finds, except when only the newer one is before the date |
| Search.SearchReference | src/shd_search.c:169-190 | the hint selects the search, and the result is its `Reference` |
| Search.SearchOldest | src/shd_search.c:207-221 | the very first sample while the ring is not full, the second oldest of the ring once it is, also while a sample is being written |
| Search.FirstMatchAfter | src/shd_search.c:223-256 | returns the slot of `AfterPosition`: the successor of the sample the search finds, -1 when that is the newest one |
| Search.FirstMatchBefore | src/shd_search.c:258-279 | returns the slot of `BeforePosition`: the sample the search finds, -1 when it finds none |
| Search.ClosestMatch | src/shd_search.c:281-319 | returns the slot of `ClosestPosition` |
| SearchProperties.HintsAgree | src/shd_search.c:109-143 | on samples sorted as a binary search needs, the hints differ exactly for the binary search on a single sample before the date |
| SearchProperties.FirstBeforeMeetsSpec | src/shd_search.c:258-279 | no match exactly when no sample of the ring is before the date; otherwise the newest such sample; for the binary search on two or more samples sorted as it needs |
| SearchProperties.FirstAfterMeetsSpec | src/shd_search.c:223-256 | gives the oldest sample not before the date, or none if all are before, exactly when the ring is full or a sample before the date is found |
| SearchProperties.ClosestIsArgmin | src/shd_search.c:281-319 | no sample of the ring is closer to the date, exactly under the same condition |
| SearchProperties.ClosestTieGoesToEarlier | src/shd_sample.c:68-95 | the later neighbour of the date is chosen only if strictly closer |
| SearchProperties.OverwriteCheckIsRemainder | src/shd_search.c:333-370 | after k commits the check compares the distance to the window start with k modulo the ring size; the counter condition never spoils it |
| SearchProperties.CounterTells | src/shd_search.c:367-369 | a slot rewritten since the search started counts at least as much as the newest slot did |
| SearchProperties.OverwriteCheckIsExact | src/shd_search.c:333-370 | a positive check means that the window start was rewritten; for fewer commits than the ring size it is positive exactly then |
| SearchProperties.LappedLooksUntouched | src/shd_search.c:348-350 | after a whole number of rings of commits the check is negative although the start was rewritten |
| SearchProperties.NegativeCheckKeepsWindow | src/shd_window.c:116-136 | after a negative check within one ring the window's samples are still there, unless the write in progress is replacing the first |
| Windows.WindowIsClipped | src/shd_window.c:98-136 | the window is the interval around the reference clipped to the ring, never larger than the ring or the request |
| Windows.WindowIsCommitted | src/shd_window.c:103-114 | all of the window was committed exactly when the ring is full or enough samples precede the reference |
| Windows.SeenIsHistory | src/shd_window.c:66-90 | latest and oldest, and first-before when the sample found is not being replaced, are the same while a sample is being written |
| Selection.LatestAndOldest | src/shd_window.c:67-72 | latest selects the newest sample; oldest the first one until the ring is full, then the one with exactly one older sample in the ring |
| Selection.ClosestSelects | src/shd_window.c:73-76 | closest selects an argmin of the distance, exactly when the ring is full or a sample before the date is found, and the earlier neighbour of the date unless the later is strictly closer |
| Selection.FirstAfterSelects | src/shd_window.c:77-80 | first-after selects the oldest sample not before the date, or nothing if all are before it, exactly under the same condition |
| Selection.FirstBeforeSelects | src/shd_window.c:81-84 | first-before selects the newest sample before the date, nothing exactly when there is none |
| Selection.SelectedInRing | src/shd_window.c:66-90 | in a ring without a write in progress the window is set around the position these statements are about |
| Windows.SingleSampleIsCommitted | src/shd_window.c:66-90 | latest, oldest and first-before alone never designate a slot without a committed sample |
| Windows.RowsAreHistory | src/shd_window.c:175-183 | walking the window slot by slot walks the history sample by sample |
| Windows.IntervalRow | src/shd_window.c:175-183 | row j of the copy is the j-th sample, in consecutive chunks of equal size |
| Windows.Window.constructor | src/shd_window.c:188-199 | a new window is empty |
| Windows.Window.Reset | src/shd_window.c:201-214 | empties the window, -EPERM if it was already empty |
| Windows.Window.FindReference | src/shd_window.c:66-90 | the slot of the reference sample for each search method, -1 if there is none, also while a sample is being written |
| Windows.Window.Clip | src/shd_window.c:98-137 | -EFAULT with an empty window if the start was overwritten, else the clipped window |
| Windows.Window.Set | src/shd_window.c:47-157 | each error exactly in its case, leaving an empty window; otherwise the clipped window around the reference |
| Windows.Window.CopyIsHistory | src/shd_data.c:182-211 | reading a committed window gives a contiguous interval of the history, and start-to-reference distance selects the reference sample |
| Windows.Window.WindowMeetsRequest | src/shd_window.c:98-136 | the window has the reference, as many slots before and after it as were asked for or are in the ring, and its three indices and count say so |
| Windows.Window.CopyEndsOnEnd | src/shd_window.c:175-183 | the last slot copied is the end slot |
| Windows.Window.SetOnStillRing | src/shd_window.c:47-157 | without a publication in between the search is never reported as overwritten |
| Windows.Window.Read | src/shd_window.c:159-186 | fills consecutive chunks with the window's slots, oldest first, and leaves the rest of the buffer alone |
| Sections.LastWriteWins | src/shd_sample.c:53-60 | each byte of a sample is that of the last write covering it, or what the slot held before |
| Sections.WrittenIsRead | src/shd_data.c:118-138 | a quantity not overlapped by a later write of the sample is read back as written |
| Sections.WrittenIsReadBack | src/shd_data.c:237-262 | such a quantity is what any committed window with the sample gives back for the same byte range, in the row of the sample |
| Sections.OwnResult | src/shd_sync.c:114-125 | a context's next reservation is faulted exactly when the samples since its own last are not a multiple of the ring size |
| Sections.Section.Recreate | src/shd.c:117-133 | from any contents: empty history, free section, revision raised by 2, -EFAULT only if the revision was odd |
| Sections.Section.ClearSection | src/shd_data.c:59-71 | every slot is zeroed and invalid |
| Sections.Section.ReserveWrite | src/shd_data.c:73-99 | refuses, naming the holder, exactly while a session is open; otherwise bumps the next slot and faults exactly when the foreign samples are no multiple of the ring size; a faulted session stays open |
| Sections.Section.WriteMetadata | src/shd_data.c:101-116 | changes the metadata of the reserved slot only; -EPERM without one |
| Sections.Section.WriteQuantity | src/shd_data.c:118-138 | changes the given byte range of the reserved slot only; -EPERM without one |
| Sections.Section.WriteQuantities | src/shd.c:262-270 | the calls for one sample, in order, leave all of them in the reserved slot, and every other slot and counter unchanged |
| Sections.Section.EndWrite | src/shd_data.c:140-148 | appends the reserved slot's content to the history and closes the session; -EPERM without one |
| Sections.Section.WriteSample | src/shd.c:247-278 | the whole error table; on success exactly one sample is appended, with the bytes of the writes in order; otherwise the history stays, and the session is open only after a fault |
| Sections.Section.WriteNewBlob | src/shd.c:280-314 | the whole error table of the call; on success exactly one sample is appended, and a sole producer always succeeds |
| Sections.GuardIsExact | src/shd_data.c:164-166 | the size guard lets through requests for at most n samples, and those whose uint32_t sum wraps |
| Sections.Consumer.Find | src/shd_data.c:150-180 | -EAGAIN on an empty history, -EINVAL for too many samples, otherwise the window of the search, and a counter that is the number of reservations of its start so far, less one |
| Sections.Consumer.EndRead | src/shd.c:435-463 | -EFAULT exactly when the start slot was reserved since its counter was sampled, each other error in its case; the window is kept only after -EFAULT and -EPERM |
| Sections.Consumer.ReadQuantity | src/shd_data.c:213-262 | errors before any copy, otherwise the byte range of each sample of the window, oldest first |
| Sections.Consumer.ReadMetadata | src/shd_data.c:182-211 | the metadata of each slot of the window in order and, as result, the row of the reference sample, below the number of matches |
| Sections.WindowMetadata | src/shd_data.c:199-201 | for a committed window these are the metadata of consecutive samples of the history |
| Sections.Consumer.SelectSamples | src/shd.c:316-345 | the whole error table of the call; on success the number of samples, the index of the reference and the metadata of the samples around it |
| Sections.ReadLatest | src/shd.c:316-366 | open, select the latest sample, read a byte range and end the read all succeed between two calls of producers, also while a write session is open, and give the metadata and the bytes of the newest sample |
| Sections.WriteThenRead | src/shd.c:247-463 | a sample written in several quantities and committed is read back with its metadata, and with the bytes of a quantity that no later one overlaps |
| Layout.Mapping.GetOffsets | src/shd_section.c:57-69 | the mapping has the size requested at creation, and its regions are in order, aligned, and no more than 3 bytes apart |
| Layout.Mapping.SlotsDisjoint | src/shd_data.c:51-57 | slots are aligned, inside the data region, large enough for a blob and disjoint |
| Layout.SlotsAreContiguous | src/shd_data.c:51-57 | the slots follow each other without gaps from the start of the data region to its end |
| Layout.SampleSize | src/shd_sample.c:39-42 | the smallest multiple of 4 that holds the sample header and the blob |
| Layout.AlignShift | src/shd_section.c:202-211 | aligning the sum equals the aligned sum, so both size computations agree |

## Left out

- Backends, mapping, file locks, section lookup, logging, allocation failure, NULL-argument checks and hooks: operating system and configuration.
- Weak memory ordering, counter wrap-around, and size_t overflow in the layout: not modelled.
- A creator that dies during a creation: every creation of the transition system completes.
- A creation in the middle of another live producer's write session, and a late first creation racing with a second one: outside what the protocol covers.
- A creation that changes the number or size of samples: a consumer's view of the geometry is fixed at open.
- Searches on slots that change during the search: results hold on one image; concurrency is covered by the overwrite check and the read session.
- Sections.Consumer.Find: requires that the sum of the counts does not wrap; `GuardIsExact` gives the wrapped requests.
- Windows.Window.Set: requires counts below 2^31, which the guard of a search ensures unless the sum wraps.
- Windows.Window.Clip: requires counts below 2^31, like `Windows.Window.Set`.
- Sections.Consumer.ReadQuantity: one byte range at a time, the loop over several quantities of `shd_data_read_quantity_sample` only repeats it.
- Sections.SyncCtx.UpdateLocalRevision: one call at a time; its two loads are separate actions in `Protocol.dfy`.
- Reading the section header and the blob metadata header: plain copies behind the same revision check.
