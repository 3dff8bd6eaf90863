# A verified model of the TSN edge switch driver

This project models the table-keeping core of the Linux driver for a TSN
Ethernet switch (`tsn_sw_base.edge-lkm`) and proves what the driver promises
about it. The driver keeps software tables and mirrors them into hardware
tables step by step, and it does exact time arithmetic for gate schedules.
`dafny verify dfyconfig.toml` checks everything.

## Components

| file | component |
|---|---|
| `PsfpSpec.dfy`, `PsfpFilters.dfy` | PSFP stream filters (IEEE Std 802.1Q-2018, section 8.6.5.1): number tree, (stream, PCP) subtrees, cache of effective filters, hardware rows, virtual counters |
| `SchedTime.dfy` | rational cycle times, next start, config change time, splitting of long waits (section 8.6.9.3) |
| `SchedList.dfy` | gate control lists: encoder and read-back decoder |
| `SchedTwin.dfy` | the older scheduler's encoder, and that both put the same schedule into the hardware |
| `SchedSpec.dfy`, `SchedMachine.dfy` | the IDLE / PENDING / PENDING_DELAYED machine, on values and in place over two hardware tables |
| `StreamIdent.dfy` | stream identification v2 (IEEE Std 802.1CB-2017, clause 6): three trees and a hash table in hardware |
| `VlanSpec.dfy`, `VlanAlloc.dfy` | VID to FID to spanning tree allocation (IEEE Std 802.1Q, section 8.8.8) |
| `StaticFdb.dfy` | the static forwarding database, a four-column hash table |
| `DmaRing.dfy` | the DMA descriptor ring shared with the hardware |
| `GateDelay.dfy` | stream gate delays and the common schedule retard |
| `Common.dfy`, `Arith.dfy` | shared types and non-linear arithmetic |

## Approach

What the driver changes in place is a class: kernel arrays and hardware tables
are arrays, red-black trees are maps keyed as in the driver, linked lists are
sequences. One locked operation is one method. Every method is proved against
a specification on values (the effective filter of a history, the schedule
that a request decides on, the items that are configured, the VIDs that are
allocated, the forwarding map, an unbounded queue), and the methods named
`Run`, `...After`, `Deploy`, `WriteThenRead` and `Align` state the result for
every history of requests and hardware events, starting from initialisation.

What the tables mean is stated apart from how they are computed: which frames
a row lets pass, hits or forwards, which gates it opens, and, for each value a
user can set, that it is the one last asked for.

The hardware is an environment: it looks frames up in the rows that their
hashes name, counts them, switches a pending schedule table to in use and
releases the other one, and completes DMA descriptors in order. Clock readings, schedule offsets, link latencies, allocation results,
failing transfers and DMA mapping results are parameters. Arithmetic that the
driver does in 32 or 64 bits is written with its wrap-around.

## What the proofs found

- The delayed-work handler of the scheduler never submits: `conf_change` was
  cleared when the wait began, so the config change it re-enters returns at
  once (`SchedSpec.TimerDrops`). A schedule is pending after a request and the
  timer exactly if no wait was needed (`SchedSpec.PendingOnlyWithoutWait`); a
  list 100 seconds ahead is accepted and lost (`SchedSpec.LongLeadIsLost`).
- A schedule is submitted with a wrong seconds field exactly if its start lies
  in a second before the current one, which a negative offset can cause
  (`SchedTime.SubmittedField`, `SchedTime.FieldMissesPastStart`).
- The 64-bit time arithmetic is safe for all cycle times exactly up to
  differences of 2^32 seconds (`SchedTime.FutureTimeSafeIff`).
- Moving the null VID to a FID, or a FID to the tree id 0xFFF, corrupts the
  allocation exactly when a slot is free (`VlanAlloc.BrVlan.SetVid2Fid`,
  `VlanAlloc.BrVlan.SetFid2Msti`). The source comment that an empty FID is
  always left then no longer holds (`VlanAlloc.NullVidExhaustsFids`), and a FID
  is filed on a tree that does not exist (`VlanAlloc.FidOnFreeTree`).
- The list of a FID's VIDs skips every other entry of the part of the buffer it
  should fill with the invalid VID (`VlanAlloc.BrVlan.Fid2Vid`).
- Keys of stream identification entries collide from VID 2^14 on, exactly
  (`StreamIdent.KeysDistinctIff`), and an ordinal is then filed under an
  identification it did not ask for (`StreamIdent.SecondVidIsMistaken`).
- The greedy choice of slots for tag "all" could refuse an entry that fits; with
  the driver's hash it never does (`StreamIdent.PlacedIff`,
  `StreamIdent.TagBitSpoilsNothing`).
- On a stream identification table whose rows bit 5 of the hash does not tell
  apart, rows for untagged frames are hit by tagged ones
  (`StreamIdent.SmallTableConfuses`); on all larger ones every row is hit by
  exactly the frames it is for (`StreamIdent.RowFindsFrames`).
- When all VIDs are in use a port cannot join an existing one either
  (`VlanSpec.JoinRefusedWhenFull`).
- A filter that is not effective on its own row reads back with the oversize
  bit of the one that is (`PsfpSpec.ReadsAsWritten`).
- A failing row transfer during read-back is reported as success. The window
  read is then the list exactly if all its transfers have succeeded
  (`SchedList.ReadWhileFailing`).
- `max_sdu + 12` wraps in u32: a nearly unlimited SDU becomes a frame limit
  below twelve bytes (`PsfpSpec.FrameLimit`).
- A list longer than 65535 granules is accepted, but reads back wrong
  (`SchedList.RoundTripIff`, `SchedList.TwoLongIntervals`).
- The read-back decoder leaves the buffer entry right at the list end
  untouched, and a window that starts inside a hold begins with an extra HOLD
  (`SchedList.GetOperCtrlList`, `SchedList.AdjacentWindows`).

## Model

| member | source | states |
|---|---|---|
| `PsfpSpec.Eff` | tsn_sw_base.edge-lkm/edge_psfp.c:453-487 | The effective filter of a row is the lowest-numbered filter whose pattern covers it; none exactly when no filter does |
| `PsfpSpec.EffAfterAdd` | tsn_sw_base.edge-lkm/edge_psfp.c:1716-1795 | Adding a filter changes the winner of a row only where the new filter matches and undercuts the old winner |
| `PsfpSpec.EffAfterDelete` | tsn_sw_base.edge-lkm/edge_psfp.c:1840-1889 | Deleting a filter leaves the winner of every row on which it was not effective |
| `PsfpSpec.RowRoundTrip` | tsn_sw_base.edge-lkm/edge_psfp.c:565-659 | Field by field what a row gives back of accepted data: gate and block bits always, the SDU limit if and only if it is at most 1506 (or so large that the u32 sum wraps and wraps back), the flow meter if and only if there is one |
| `PsfpSpec.ReadsAsWritten` | tsn_sw_base.edge-lkm/edge_psfp.c:1670-1713 | A filter reads back as written if and only if it is a wildcard filter or the filter effective on its row has the same oversize-block bit |
| `PsfpSpec.ShadowedReadsOther` | tsn_sw_base.edge-lkm/edge_psfp.c:1691-1705 | Witness: a filter that is not effective on its own row reads back with the other filter's bit |
| `PsfpSpec.FrameLimit` | tsn_sw_base.edge-lkm/edge_psfp.c:565-616 | The frame limit in hardware is the capped SDU limit plus 12 if and only if `max_sdu + 12` does not wrap; when it wraps the limit is below 12 bytes |
| `PsfpSpec.UnfilteredPass` | tsn_sw_base.edge-lkm/edge_psfp.c:565-583 | On a row without a filter frames pass up to 1518 bytes, whatever gates and meters do, and never change the row |
| `PsfpSpec.FilteredPass` | tsn_sw_base.edge-lkm/edge_psfp.c:584-616 | On a row with a filter frames pass exactly by its gate, its meter, its limit and its block bit; an oversize frame blocks all that follow exactly if the filter enables that |
| `PsfpSpec.FilterIff` | tsn_sw_base.edge-lkm/edge_psfp.c:1716-1889 | After any history a filter is configured with a definition if and only if an accepted add gave it that and no delete has taken it since |
| `PsfpSpec.FlipTwice` | tsn_sw_base.edge-lkm/edge_psfp.c:690-697 | Flipping a counter reference twice at the same counter value restores it |
| `PsfpSpec.BumpActive` | tsn_sw_base.edge-lkm/edge_psfp.c:690-737 | While a filter is active its virtual count follows the hardware counter modulo 2^32 |
| `PsfpSpec.UserCntIsAmount` | tsn_sw_base.edge-lkm/edge_psfp.c:699-737 | Each of the six reported numbers is the counted amount modulo 2^32, the two derived ones as differences |
| `PsfpFilters.AgreeAfterLink` | tsn_sw_base.edge-lkm/edge_psfp.c:329-351 | Number tree and (stream, PCP) subtrees agree after an insertion |
| `PsfpFilters.AgreeAfterUnlink` | tsn_sw_base.edge-lkm/edge_psfp.c:1840-1889 | ... and after an erase; an emptied subtree goes away, so no subtree is ever empty |
| `PsfpFilters.FilterTable.WinnerIsEffective` | tsn_sw_base.edge-lkm/edge_psfp.c:453-487 | The lowest of four subtree heads is the lowest of all matching filters |
| `PsfpFilters.FilterTable.FirstSub` | tsn_sw_base.edge-lkm/edge_psfp.c:437-451 | The lowest-numbered linked filter with exactly the pattern, none if there is no such filter |
| `PsfpFilters.FilterTable.FindEffSub` | tsn_sw_base.edge-lkm/edge_psfp.c:453-487 | The search returns the effective filter of a row |
| `PsfpFilters.FilterTable.UpdCnt` | tsn_sw_base.edge-lkm/edge_psfp.c:913-947 | Activation and deactivation flip the counter references of the old and the new winner, and no filter's virtual count changes |
| `PsfpFilters.FilterTable.UpdHwIter` | tsn_sw_base.edge-lkm/edge_psfp.c:949-963 | One row is rewritten for its winner, cache and references with it |
| `PsfpFilters.FilterTable.ForEachWc` | tsn_sw_base.edge-lkm/edge_psfp.c:804-835 | The four row iterations refresh every row that the changed pattern covers and touch no other (here: both sides wildcards) |
| `PsfpFilters.FilterTable.UpdHw` | tsn_sw_base.edge-lkm/edge_psfp.c:965-974 | After a refresh every row under the pattern is up to date; all other rows and all virtual counts are unchanged |
| `PsfpFilters.FilterTable.Add` | tsn_sw_base.edge-lkm/edge_psfp.c:1716-1838 | Every row and counter is what the extended history asks for, although rows are refreshed only if the filter heads its subtree; error codes |
| `PsfpFilters.FilterTable.Delete` | tsn_sw_base.edge-lkm/edge_psfp.c:1840-1889 | The same for a deletion; a deleted filter is cached nowhere |
| `PsfpFilters.FilterTable.GetCnt` | tsn_sw_base.edge-lkm/edge_psfp.c:976-1011 | A counter reads the frames of exactly the periods in which its filter was effective |
| `PsfpFilters.FilterTable.ReadFilter` | tsn_sw_base.edge-lkm/edge_psfp.c:1670-1713 | A filter read returns what was written, with the oversize-block bit of the effective filter for exact filters; error codes |
| `PsfpFilters.RowAfter` | tsn_sw_base.edge-lkm/edge_psfp.c:760-974 | After any history every hardware row holds the data of the lowest-numbered matching filter or the default, and the cache names that filter |
| `PsfpFilters.AdmitAfter` | tsn_sw_base.edge-lkm/edge_psfp.c:565-974 | After any history a frame on a row that no filter matches passes if and only if it has at most 1518 bytes; otherwise exactly by gate, meter, limit and block bit of the lowest-numbered matching filter |
| `PsfpFilters.ReadAfter` | tsn_sw_base.edge-lkm/edge_psfp.c:1670-1713 | What a filter reads back as after any history |
| `PsfpFilters.CountAfter` | tsn_sw_base.edge-lkm/edge_psfp.c:913-1011 | After any history a report is the sum of the increments while the filter was effective, modulo 2^32; zero for wildcards |
| `SchedTime.SplitQuotient` | tsn_sw_base.edge-lkm/edge_sched.c:771-828 | Dividing seconds and nanoseconds separately gives the quotient of the whole |
| `SchedTime.DiffToCyclesExact` | tsn_sw_base.edge-lkm/edge_sched.c:795-828 | Below 2^32 seconds the split computation is exactly the ceiling or floor of delta * denom / num, and each of its products and sums fits in 64 bits |
| `SchedTime.CountFits` | tsn_sw_base.edge-lkm/edge_sched.c:830-864 | The cycle count times the numerator stays below 2^64 for differences below 2^32 seconds |
| `SchedTime.AdvanceExact` | tsn_sw_base.edge-lkm/edge_sched.c:847-854 | An advance that fits is floor(N * cycle) in ns, and the scaled remainder fits in 64 bits |
| `SchedTime.FutureTimeIsNextStart` | tsn_sw_base.edge-lkm/edge_sched.c:830-864 | The computed time is base + floor(N * cycle) for the smallest N that is not in the past; truncation never yields a past start |
| `SchedTime.FutureTimeFits` | tsn_sw_base.edge-lkm/edge_sched.c:795-854 | On the way to the next start no product and no sum wraps, neither in the count nor in the advance |
| `SchedTime.FutureTimeSafeIff` | tsn_sw_base.edge-lkm/edge_sched.c:795-864 | The result is never in the past for all cycle times if and only if the base lies less than 2^32 seconds back; a wrapping cycle time exists for every larger difference |
| `SchedTime.WaitsConverge` | tsn_sw_base.edge-lkm/edge_sched.c:896-908 | Iterating the delay rule as arithmetic ends, never overshoots, and leaves a lead of 32 to 64 seconds |
| `SchedTime.FieldIdentifiesStart` | tsn_sw_base.edge-lkm/edge_sched.c:896-908 | With a lead that the iterated rule leaves, an 8-bit seconds field would determine the start second |
| `SchedTime.FieldOnSubmission` | tsn_sw_base.edge-lkm/edge_sched.c:288-324 | Where no wait is needed, which is where the field is written, it determines the start second if and only if that is not before the current second |
| `SchedTime.SubmittedField` | tsn_sw_base.edge-lkm/edge_sched.c:866-909 | The same in terms of change time and offset: if and only if their sum is not before the full current second |
| `SchedTime.FieldMissesPastStart` | tsn_sw_base.edge-lkm/edge_sched.c:886-909 | Witness: a negative offset puts the start into the previous second, and the field names one 255 seconds ahead |
| `SchedTime.CcTimeIsNextStart` | tsn_sw_base.edge-lkm/edge_sched.c:866-909 | Config change time and hardware start: base time if ahead, else next cycle start; bounds on the delay |
| `SchedTime.RationalToNsecExact` | tsn_sw_base.edge-lkm/edge_sched.c:693-709 | Nanoseconds and 2^-32 fractions of a rational cycle time, truncated, without wrap |
| `SchedList.CyclicHold` | tsn_sw_base.edge-lkm/edge_st_fscr.c:461-495 | The two loops' hold state is the cyclic one: nearest HOLD or RELEASE at or before an entry, around the cycle |
| `SchedList.MaskedBits` | tsn_sw_base.edge-lkm/edge_st_fscr.c:792-810 | The gate mask keeps the bit of every queue of the port and clears all others |
| `SchedList.RowBits` | tsn_sw_base.edge-lkm/edge_st_fscr.c:446-495 | Bit by bit a row has the gate of every queue as in its entry, and the hold of the cycle right above |
| `SchedList.RowCycles` | tsn_sw_base.edge-lkm/edge_st_fscr.c:446-476 | For an accepted list of at most 65535 granules a row carries the end of its entry in granules |
| `SchedList.StopRowBits` | tsn_sw_base.edge-lkm/edge_st_fscr.c:481-486 | The row behind the list has the last gates and the last time, and releases the hold |
| `SchedList.WriteRows` | tsn_sw_base.edge-lkm/edge_st_fscr.c:461-479 | The first loop writes every row with the hold state folded from the list start; success exactly with enough transfers |
| `SchedList.WriteLeading` | tsn_sw_base.edge-lkm/edge_st_fscr.c:488-495 | Where the second loop stops all rows carry the cyclic hold bits; success exactly with enough transfers |
| `SchedList.PrepareConfig` | tsn_sw_base.edge-lkm/edge_st_fscr.c:446-501 | The encoding of a list: cumulative times, gate states and cyclic hold bits of all rows, plus the row on which the hardware stops; success if and only if as many transfers succeed as the list takes |
| `SchedList.GetOperCtrlList` | tsn_sw_base.edge-lkm/edge_st_fscr.c:812-860 | The decoder, entry by entry, for any number of transfers that succeed: what it leaves in the buffer where a transfer fails, at the list end and past it, and its error codes |
| `SchedList.ReadWhileFailing` | tsn_sw_base.edge-lkm/edge_st_fscr.c:812-860 | Reading a window of a written list with failing transfers: the status, and that a read which succeeds has returned the list's own intervals and gate states if and only if every transfer of the window has succeeded (positive intervals; a one-entry read made of uninitialised values excepted) |
| `SchedList.WindowRoundTrip` | tsn_sw_base.edge-lkm/edge_st_fscr.c:812-846 | Any window of an accepted list of at most 65535 granules reads back its intervals and gate states |
| `SchedList.RoundTripIff` | tsn_sw_base.edge-lkm/edge_st_fscr.c:446-476 | An accepted list reads back its own intervals if and only if its total fits in 65535 granules |
| `SchedList.TwoLongIntervals` | tsn_sw_base.edge-lkm/edge_st_fscr.c:446-476 | Witness: two intervals of 65535 granules are accepted and the second reads back wrong |
| `SchedList.WindowHold` | tsn_sw_base.edge-lkm/edge_st_fscr.c:836-855 | Folding the decoded operations of a window gives the hold bits of its rows |
| `SchedList.FoldReproducesHold` | tsn_sw_base.edge-lkm/edge_st_fscr.c:836-855 | Folding the decoded operations of any window reproduces the cyclic hold state of the original list |
| `SchedList.AdjacentWindows` | tsn_sw_base.edge-lkm/edge_st_fscr.c:812-860 | Adjacent windows agree with one large window on intervals and gates, and are equal to it if and only if the row before the seam does not hold |
| `SchedList.WriteThenRead` | tsn_sw_base.edge-lkm/edge_st_fscr.c:446-860 | Writing a list and reading a window back returns the list's own entries, whatever table and buffer held before |
| `SchedTwin.WriteIntervals` | tsn_sw_base.edge-lkm/edge_st_fsc.c:1014-1059 | The older driver's loops write the intervals and the cyclic hold bits of all rows, plus the zero row on which the hardware stops |
| `SchedTwin.StopIsCyclic` | tsn_sw_base.edge-lkm/edge_st_fsc.c:1050-1059 | Where its second loop stops, exactly the rows before have inherited the hold of the cycle end |
| `SchedTwin.SameSchedule` | tsn_sw_base.edge-lkm/edge_st_fsc.c:1029-1059 | For an accepted list of at most 65535 granules both drivers' tables have the same gate and hold bits, and the newer one's times are the sums of the older one's intervals |
| `SchedSpec.AfterOk` | tsn_sw_base.edge-lkm/edge_sched.c:982-1100 | After any history: pending in hardware implies state Pending, not idle implies gate enabled and no open request, at most one table runs and at most one other waits |
| `SchedSpec.WaitingWasSubmitted` | tsn_sw_base.edge-lkm/edge_sched.c:911-940 | What waits in hardware is the admin list as it was when one request submitted it, and has waited untouched since |
| `SchedSpec.RunningWasSubmitted` | tsn_sw_base.edge-lkm/edge_sched.c:911-1052 | What runs is the admin list as it was when one request submitted it; it waited, neither replaced nor withdrawn, until the hardware switched to it, and has run ever since |
| `SchedSpec.TimerDrops` | tsn_sw_base.edge-lkm/edge_sched.c:1090-1100 | When the timer fires after any history nothing is submitted, nothing waits and no request is left open |
| `SchedSpec.RequestServed` | tsn_sw_base.edge-lkm/edge_sched.c:1004-1052 | After any history, enabling the gate and requesting a change: reply in the order of the checks, state, what waits with which start, errors counted; the request is closed and what runs is not touched |
| `SchedSpec.DisableWithdraws` | tsn_sw_base.edge-lkm/edge_sched.c:1079-1088 | Disabling the gate after any history withdraws whatever waits; what runs, the admin list and an open request stay |
| `SchedSpec.RequestRemembered` | tsn_sw_base.edge-lkm/edge_sched.c:1013-1026 | A request made while the gate is disabled is answered Ok and stays open through any writes and events; nothing waits meanwhile, and what runs keeps running |
| `SchedSpec.RememberedIsServed` | tsn_sw_base.edge-lkm/edge_sched.c:1054-1071 | Enabling the gate serves the remembered request with the admin list as it is then: reply, state, what waits with which start |
| `SchedSpec.SwitchEndsChange` | tsn_sw_base.edge-lkm/edge_sched.c:982-1002 | The interrupt after the switch, and not one before it, ends the change; the list that waited runs |
| `SchedSpec.PartsAreStored` | tsn_sw_base.edge-lkm/edge_sched.c:1374-1411 | A list written after any history in two parts is stored in order, with intervals and operations as written and exactly the gate bits of the port; Ok if and only if what is stored can be expressed in hardware |
| `SchedSpec.WriteRefused` | tsn_sw_base.edge-lkm/edge_sched.c:1374-1411 | Which list writes are refused as too long, with a gap, or without memory, and what they leave |
| `SchedSpec.LengthStored` | tsn_sw_base.edge-lkm/edge_sched.c:1341-1351 | A list length is stored if and only if the table has that many entries |
| `SchedSpec.CycleStored` | tsn_sw_base.edge-lkm/edge_sched.c:1255-1276 | A cycle time is stored if and only if it has a denominator and is less than a nanosecond above 16 ms |
| `SchedSpec.LastWritten` | tsn_sw_base.edge-lkm/edge_sched.c:1255-1351 | Base time, list length and cycle time are, after any history, the last accepted ones written |
| `SchedSpec.PendingOnlyWithoutWait` | tsn_sw_base.edge-lkm/edge_sched.c:1004-1100 | After any history, with accepted values and enough transfers, and the timer fired: the list is pending if and only if no wait was needed; otherwise idle, nothing pending, request gone |
| `SchedSpec.LongLeadIsLost` | tsn_sw_base.edge-lkm/edge_sched.c:1039-1050 | Witness: a one-entry list 100 seconds ahead is accepted, reaches PENDING_DELAYED, and is lost |
| `SchedMachine.Sched.GetFreeTab` | tsn_sw_base.edge-lkm/edge_sched.c:252-268 | A table that is not in use is always found |
| `SchedMachine.Sched.ConfigChange` | tsn_sw_base.edge-lkm/edge_sched.c:911-940 | The admin list, its mirror, start and cycle time go to a table not in use, which is then pending; a failed transfer leaves nothing pending |
| `SchedMachine.Sched.StopWaiting` | tsn_sw_base.edge-lkm/edge_sched.c:1013-1019 | What is pending in hardware or waiting for its timer is withdrawn; the table in use is not touched |
| `SchedMachine.Sched.Schedule` | tsn_sw_base.edge-lkm/edge_sched.c:1030-1049 | The times are computed once, and the delay decides between the timer and a submission |
| `SchedMachine.Sched.CfgChange` | tsn_sw_base.edge-lkm/edge_sched.c:1004-1052 | Withdrawal, gate check, parameter checks and scheduling refine the value transition, and the table in use is kept |
| `SchedMachine.Sched.SetCycleTime` | tsn_sw_base.edge-lkm/edge_sched.c:1255-1276 | Cycle times above 16 ms are refused and counted |
| `SchedMachine.Sched.SetEntries` | tsn_sw_base.edge-lkm/edge_sched.c:1374-1424 | A list write: every error code, the masked entries, and that an invalid list is reported and counted but stays in place |
| `SchedMachine.Sched.AdjustAdminTab` | tsn_sw_base.edge-lkm/edge_sched.c:726-750 | A list is accepted exactly if every interval is a multiple of the granularity and fits in 16 bits |
| `SchedMachine.Sched.SetConfigChange` | tsn_sw_base.edge-lkm/edge_sched.c:1459-1468 | A request with the gate enabled is decided at once; with the gate disabled it is remembered |
| `SchedMachine.Sched.SetGateEnabled` | tsn_sw_base.edge-lkm/edge_sched.c:1205-1217 | Disabling withdraws whatever waits; enabling serves a remembered request |
| `SchedMachine.Sched.CctHandler` | tsn_sw_base.edge-lkm/edge_sched.c:982-1002 | The interrupt leaves Pending only when no table is pending any more |
| `SchedMachine.Sched.DelayedWork` | tsn_sw_base.edge-lkm/edge_sched.c:1090-1100 | The timer submits nothing: the request flag was cleared when the wait began, so the waiting schedule is dropped |
| `SchedMachine.Sched.HwSwitch` | tsn_sw_base.edge-lkm/edge_sched.c:228-286 | Environment: the pending table becomes in use, the other one is released |
| `SchedMachine.Sched.Handle` | tsn_sw_base.edge-lkm/edge_sched.c:982-1100 | Every step refines the value machine, and no driver step writes rows, mirror or registers of the table in use |
| `SchedMachine.Run` | tsn_sw_base.edge-lkm/edge_sched.c:911-1100 | After any interleaving with table switches every reply and state is what the history means; the running and the pending table carry, in mirror, rows and registers, exactly the submission that runs and the one that waits |
| `SchedMachine.Deploy` | tsn_sw_base.edge-lkm/edge_sched.c:1004-1100 | After any history: enable, request, timer, switch. The reply names what is wrong; otherwise the current admin list is pending if and only if no wait was needed, its seconds field is right if and only if the start is not in a past second, and after the switch registers and rows program it |
| `SchedMachine.ShownPrograms` | tsn_sw_base.edge-lkm/edge_sched.c:270-324 | A table that carries a list programs it: start seconds modulo 256 and nanoseconds, cycle time in whole ns, per row the gate of every queue, the hold and the time, and the stop row |
| `StreamIdent.KeyInjective` | tsn_sw_base.edge-lkm/edge_br_sid2.c:296-303 | Keys of VIDs below 2^14 tell identifications apart |
| `StreamIdent.KeysDistinctIff` | tsn_sw_base.edge-lkm/edge_br_sid2.c:296-303 | Keys are injective for VIDs below a limit if and only if the limit is at most 2^14 |
| `StreamIdent.PartHdlStep` | tsn_sw_base.edge-lkm/edge_br_sid2.c:633-669 | Walking ordinals downwards and overwriting ends at the lowest |
| `StreamIdent.GenHdls` | tsn_sw_base.edge-lkm/edge_br_sid2.c:633-669 | Per port the handle of the lowest ordinal with a valid handle and that port, 0 if none; whether any port has one |
| `StreamIdent.SidBridge.HtCreate` | tsn_sw_base.edge-lkm/edge_br_sid2.c:463-522 | The first free candidate slot is reserved; no space if and only if all candidates are taken |
| `StreamIdent.NoSpaceIff` | tsn_sw_base.edge-lkm/edge_br_sid2.c:562-614 | No space exactly if all candidates of a needed kind of frame are taken, counting for tag all the slot just chosen for tagged frames |
| `StreamIdent.PlacedIff` | tsn_sw_base.edge-lkm/edge_br_sid2.c:562-614 | For any hash: an accepted combination of tag and VID finds its slots if and only if some choice of free slots fits it and the greedy choice of the first slot does not spoil the second |
| `StreamIdent.TagBitSpoilsNothing` | tsn_sw_base.edge-lkm/edge_br_sid2.c:178-241 | As the tag inverts the same hash bit in columns 2 and 3, the greedy choice never spoils anything, for every number of rows |
| `StreamIdent.CreateReply` | tsn_sw_base.edge-lkm/edge_br_sid2.c:890-960 | After any history a create is answered exactly so: invalid, existing, accepted if an ordinal of its key is configured or free slots fit it, otherwise no space (memory sufficing) |
| `StreamIdent.SidBridge.HtActivate` | tsn_sw_base.edge-lkm/edge_br_sid2.c:538-551 | The row is written and its used flag mirrors the hardware |
| `StreamIdent.SidBridge.HtRelease` | tsn_sw_base.edge-lkm/edge_br_sid2.c:553-560 | A released slot leaves an unused row |
| `StreamIdent.SidBridge.ReserveSlots` | tsn_sw_base.edge-lkm/edge_br_sid2.c:562-614 | The slots of a new entry, two distinct ones for tag all, with the exact status; on failure nothing stays reserved |
| `StreamIdent.SidBridge.GenPortStrHdls` | tsn_sw_base.edge-lkm/edge_br_sid2.c:633-669 | The rows of one entry carry what its ordinals ask for; other rows do not change |
| `StreamIdent.SidBridge.Create` | tsn_sw_base.edge-lkm/edge_br_sid2.c:890-960 | A create with its rollback and the exact status; on failure trees, slots and hardware are as before, otherwise the item and the slots of its key are added |
| `StreamIdent.SidBridge.Delete` | tsn_sw_base.edge-lkm/edge_br_sid2.c:962-997 | The ordinal goes, entry and slots go exactly with the last ordinal of the key; rows are right afterwards |
| `StreamIdent.SidBridge.SetStrHdl` | tsn_sw_base.edge-lkm/edge_br_sid2.c:999-1038 | Only the ordinal's handle changes, and all rows follow |
| `StreamIdent.SidBridge.PortPosSet` | tsn_sw_base.edge-lkm/edge_br_sid2.c:1074-1108 | Only the ordinal's port changes, and all rows follow; error codes |
| `StreamIdent.SidBridge.ReleaseAll` | tsn_sw_base.edge-lkm/edge_br_sid2.c:1357-1375 | Nothing is left in the trees and no hardware row is used |
| `StreamIdent.SidBridge.FiledIdent` | tsn_sw_base.edge-lkm/edge_br_sid2.c:890-960 | An entry found under a key carries the identification of the ordinals that are filed there |
| `StreamIdent.OwnIdent` | tsn_sw_base.edge-lkm/edge_br_sid2.c:296-303 | With VIDs below 2^14 a new ordinal is filed under its own identification |
| `StreamIdent.OwnIdentIff` | tsn_sw_base.edge-lkm/edge_br_sid2.c:296-303 | For all VIDs: it is filed under its own identification if and only if no ordinal with the same key and another one is configured |
| `StreamIdent.SecondVidIsMistaken` | tsn_sw_base.edge-lkm/edge_br_sid2.c:890-960 | Witness: creates for VIDs 0 and 16384 both succeed, and the second ordinal is filed under VID 0 |
| `StreamIdent.PlacesStep` | tsn_sw_base.edge-lkm/edge_br_sid2.c:890-997 | Every request keeps: slots are reserved for exactly the keys of configured ordinals |
| `StreamIdent.ConfiguredAsAsked` | tsn_sw_base.edge-lkm/edge_br_sid2.c:890-960 | With VIDs below 2^14 every configured ordinal has the identification its last accepted create asked for |
| `StreamIdent.AskingIsServing` | tsn_sw_base.edge-lkm/edge_br_sid2.c:633-669 | An entry collects exactly the ordinals of its identification |
| `StreamIdent.Run` | tsn_sw_base.edge-lkm/edge_br_sid2.c:890-1108 | After any history, with any VIDs, every reply, the configured items and the slots of every key are those of the history, and all invariants hold |
| `StreamIdent.HoldsIff` | tsn_sw_base.edge-lkm/edge_br_sid2.c:890-1108 | After any history an ordinal is configured, has a handle, has a port if and only if that was asked for by an accepted request and not undone since |
| `StreamIdent.ChangeReplies` | tsn_sw_base.edge-lkm/edge_br_sid2.c:962-1108 | After any history the replies to deletes and changes: accepted exactly for a configured ordinal and values in range |
| `StreamIdent.ItemsInRange` | tsn_sw_base.edge-lkm/edge_br_sid2.c:890-1108 | Every history keeps ordinals, handles and ports in the ranges of the hardware |
| `StreamIdent.AskingIff` | tsn_sw_base.edge-lkm/edge_br_sid2.c:633-669 | Hardware port i serves exactly the ordinals with user port i + 1 and a valid handle |
| `StreamIdent.CandidateColumns` | tsn_sw_base.edge-lkm/edge_br_sid2.c:173-233 | Columns 0 and 1 are open exactly to tagged frames of one non-zero VID, columns 2 and 3 to all |
| `StreamIdent.RowFindsFrames` | tsn_sw_base.edge-lkm/edge_br_sid2.c:178-233 | A used row is found and hit by exactly the frames its identification is for: address, tag, and VID unless the identification has VID 0 |
| `StreamIdent.SmallTableConfuses` | tsn_sw_base.edge-lkm/edge_br_sid2.c:178-233 | On tables whose rows bit 5 does not tell apart tagged frames hit rows for untagged ones |
| `StreamIdent.FrameAfter` | tsn_sw_base.edge-lkm/edge_br_sid2.c:178-669 | After any history, any frame, any port: the handles found are those wanted by configured identifications for the frame, and every one of these that has a valid handle is found |
| `StreamIdent.TableAfter` | tsn_sw_base.edge-lkm/edge_br_sid2.c:271-303 | Any hardware row, after any history, replies included: if used it lies at a hash candidate of a configured identification and is that one's row, so unreserved rows are unused; `total_cnt` is the number of ordinals |
| `StreamIdent.SlotsAfter` | tsn_sw_base.edge-lkm/edge_br_sid2.c:463-614 | After any history, replies included, each identification owns one slot at a hash candidate, or two distinct ones for tag all, and no slot is shared |
| `StreamIdent.HardwareAfter` | tsn_sw_base.edge-lkm/edge_br_sid2.c:633-1108 | After any history the replies are those of the history, and the rows behind an ordinal carry per port the handle of the lowest ordinal of its identification, and are used exactly when some port has one |
| `VlanSpec.RoomLeft` | tsn_sw_base.edge-lkm/edge_br_vlan.c:1053-1066 | The pigeonhole argument of the source comment: fewer VIDs than FIDs leave an empty FID |
| `VlanSpec.AfterOk` | tsn_sw_base.edge-lkm/edge_br_vlan.c:250-430 | Every history keeps: at most max VIDs, FIDs in range, every FID on an existing tree, room for trees respected |
| `VlanSpec.NewVidGetsOwnFid` | tsn_sw_base.edge-lkm/edge_br_vlan.c:509-563 | After any history a new VID is accepted if and only if fewer than the maximum are in use, and gets a FID of its own in the CIST |
| `VlanSpec.JoinRefusedWhenFull` | tsn_sw_base.edge-lkm/edge_br_vlan.c:523-540 | After any history a port is refused on a VID in use if and only if the maximum of VIDs is in use, although joining needs no room |
| `VlanSpec.FullBridgeRefusesJoin` | tsn_sw_base.edge-lkm/edge_br_vlan.c:523-540 | Witness: two VIDs fill a bridge of two, and a second port can join neither |
| `VlanSpec.IndependentLearning` | tsn_sw_base.edge-lkm/edge_br_vlan.c:1053-1066 | As long as no request moves a VID no two VIDs share a FID |
| `VlanSpec.MoveVid` | tsn_sw_base.edge-lkm/edge_br_vlan.c:345-367 | After any history a VID is moved if and only if it is in use and the FID exists; it is in that FID then, with its ports, and nothing else changes |
| `VlanSpec.MoveFid` | tsn_sw_base.edge-lkm/edge_br_vlan.c:276-291 | After any history a FID is moved if and only if it and the tree exist; it is on that tree then, and nothing else changes |
| `VlanSpec.TreeCreated` | tsn_sw_base.edge-lkm/edge_br_vlan.c:395-412 | A tree is created if and only if its id is neither reserved nor taken nor above 0xFFE and there is room |
| `VlanSpec.TreeDeleted` | tsn_sw_base.edge-lkm/edge_br_vlan.c:414-430 | A tree is deleted if and only if it is not reserved, exists and has no FID |
| `VlanSpec.FidStays` | tsn_sw_base.edge-lkm/edge_br_vlan.c:345-367 | Only a move of its own VID changes the FID of a VID in use |
| `VlanSpec.MemberIff` | tsn_sw_base.edge-lkm/edge_br_vlan.c:509-691 | After any history a port is a member of a VID if and only if it was added and has not left since, by itself or by a purge |
| `VlanSpec.InUseIff` | tsn_sw_base.edge-lkm/edge_br_vlan.c:547-691 | A VID is in use exactly as long as it has a member |
| `VlanSpec.LeaveReplies` | tsn_sw_base.edge-lkm/edge_br_vlan.c:613-691 | After any history a port can leave a VID if and only if the VID is in use, and all VIDs at any time |
| `VlanSpec.AfterMove` | tsn_sw_base.edge-lkm/edge_br_vlan.c:293-343 | list_del and list_add_tail with the back pointer keep every item on exactly one list |
| `VlanAlloc.FreeSlot` | tsn_sw_base.edge-lkm/edge_br_vlan.c:145-157 | A slot is free if and only if fewer VIDs than slots are in use |
| `VlanAlloc.EmptyFid` | tsn_sw_base.edge-lkm/edge_br_vlan.c:170-178 | A FID list is empty if and only if no VID uses the FID |
| `VlanAlloc.RoomForOne` | tsn_sw_base.edge-lkm/edge_br_vlan.c:547-563 | Both searches succeed whenever fewer than the maximum are in use: the no-VID error path is unreachable |
| `VlanAlloc.BrVlan.MoveFid2Msti` | tsn_sw_base.edge-lkm/edge_br_vlan.c:250-274 | One FID changes its tree list; nothing else moves |
| `VlanAlloc.BrVlan.MoveVid2Fid` | tsn_sw_base.edge-lkm/edge_br_vlan.c:293-343 | One slot changes its FID list and the hardware FID field; nothing else moves |
| `VlanAlloc.BrVlan.SetFid2Msti` | tsn_sw_base.edge-lkm/edge_br_vlan.c:276-291 | Moves a FID for any tree id; the tables stay sound if and only if it is not the free-slot id while a slot is free |
| `VlanAlloc.FidOnFreeTree` | tsn_sw_base.edge-lkm/edge_br_vlan.c:939-951 | Witness: on a new bridge the write that moves FID 0 to tree id 0xFFF is accepted; the FID is then on a free tree and the tables are broken |
| `VlanAlloc.BrVlan.SetVid2Fid` | tsn_sw_base.edge-lkm/edge_br_vlan.c:345-367 | Moves a VID for any VID; the tables stay sound if and only if it is not the null VID while a slot is free |
| `VlanAlloc.NullVidExhaustsFids` | tsn_sw_base.edge-lkm/edge_br_vlan.c:345-367 | Concrete witness: moving the null VID takes the last empty FID while a slot is free |
| `VlanAlloc.BrVlan.CreateTree` | tsn_sw_base.edge-lkm/edge_br_vlan.c:395-412 | Reserved or existing ids, invalid ids, no room: in the order of the checks; ids stay unique |
| `VlanAlloc.BrVlan.DeleteTree` | tsn_sw_base.edge-lkm/edge_br_vlan.c:414-430 | Reserved ids are refused; a missing tree or one with FIDs is busy |
| `VlanAlloc.BrVlan.AddPort` | tsn_sw_base.edge-lkm/edge_br_vlan.c:509-611 | Joins or creates a VID as the requests mean, and hardware membership follows; the driver follows a null FID if and only if the null VID gets past the checks |
| `VlanAlloc.BrVlan.DelPort` | tsn_sw_base.edge-lkm/edge_br_vlan.c:632-691 | The last port gives up VID, slot and FID list place, and hardware membership follows; a free slot is unlinked if and only if the null VID finds one |
| `VlanAlloc.BrVlan.PurgePort` | tsn_sw_base.edge-lkm/edge_br_vlan.c:613-630 | The port leaves every VLAN, VIDs without ports are given up, the others keep their FID |
| `VlanAlloc.BrVlan.constructor` | tsn_sw_base.edge-lkm/edge_br_vlan.c:1087-1113 | CIST and TE tree exist, all FIDs are on the CIST, no port is a member |
| `VlanAlloc.Run` | tsn_sw_base.edge-lkm/edge_br_vlan.c:250-691 | After any history every reply and everything allocated is what the requests mean, and the linked lists are sound |
| `VlanAlloc.BrVlan.Fid2Vid` | tsn_sw_base.edge-lkm/edge_br_vlan.c:836-866 | The FID-to-VID list: exactly the VIDs of the FID, each once; every other entry of the remaining buffer is skipped |
| `VlanAlloc.VidsAfter` | tsn_sw_base.edge-lkm/edge_br_vlan.c:836-866 | After any history a FID's list shows exactly its VIDs, so each VID in use is on one list only |
| `VlanAlloc.MoveVidAfter` | tsn_sw_base.edge-lkm/edge_br_vlan.c:345-367 | On the tables, after any history: the reply to a move; then the hardware field is the new FID, members are kept, and exactly the list of that FID shows the VID |
| `VlanAlloc.HardwareAfter` | tsn_sw_base.edge-lkm/edge_br_vlan.c:293-691 | After any history the hardware forwards a VID to exactly its members with the VID's FID, and `nvlans` counts the VIDs in use |
| `StaticFdb.SlotWritten` | tsn_sw_base.edge-lkm/edge_br_fdb.c:242-254 | Writing a key's slot is one map update; every key stays in one of its own candidate slots, in the right column class |
| `StaticFdb.Fdb.AddPort` | tsn_sw_base.edge-lkm/edge_br_fdb.c:334-393 | Refines a map update and the placement of keys; refused if and only if the key is new and both slots of its class are in use, which two other keys then hold, and then nothing changes |
| `StaticFdb.Fdb.DelPort` | tsn_sw_base.edge-lkm/edge_br_fdb.c:420-458 | Refines removing the port, and the key with its last port |
| `StaticFdb.Fdb.Dump` | tsn_sw_base.edge-lkm/edge_br_fdb.c:460-491 | A dump lists exactly the keys with the port, each once |
| `StaticFdb.AddThenDel` | tsn_sw_base.edge-lkm/edge_br_fdb.c:334-458 | On the table: adding a port to a key that lacks it and removing it again leaves map and count as they were, also when the add fails |
| `StaticFdb.BothTaken` | tsn_sw_base.edge-lkm/edge_br_fdb.c:370-393 | When both slots are taken, two distinct other keys of the class compete for them |
| `StaticFdb.RefusedOnlyCrowded` | tsn_sw_base.edge-lkm/edge_br_fdb.c:334-458 | After any history an add is refused only for a new key whose two slots are wanted by two other keys of its class |
| `StaticFdb.Run` | tsn_sw_base.edge-lkm/edge_br_fdb.c:334-458 | After any history every reply, the forwarding map and the place of every key are those of the history, and `sents` counts the keys |
| `StaticFdb.PortIff` | tsn_sw_base.edge-lkm/edge_br_fdb.c:334-458 | A key has a port if and only if it was added, accepted, and not removed since |
| `StaticFdb.KeysHavePorts` | tsn_sw_base.edge-lkm/edge_br_fdb.c:242-254 | Keys without ports are not kept |
| `StaticFdb.LookupAfter` | tsn_sw_base.edge-lkm/edge_br_fdb.c:146-254 | After any history, any frame: columns 0 and 1 give it exactly the ports of its address and VID, columns 2 and 3 those of its address for all VIDs |
| `StaticFdb.DumpAfter` | tsn_sw_base.edge-lkm/edge_br_fdb.c:334-500 | What a dump and the entry count show after any history |
| `DmaRing.FirstInFirstOut` | tsn_sw_base.edge-lkm/edge_com_dma.c:275-387 | Over any interleaving the buffers handed back are a prefix of those accepted, at most 255 behind |
| `DmaRing.SlotStep` | tsn_sw_base.edge-lkm/edge_com_dma.c:308-319 | Enqueue, completion and dequeue each keep: buffers exactly in the window, hardware-owned descriptors its tail, empty slots clean |
| `DmaRing.Queue.Enqueue` | tsn_sw_base.edge-lkm/edge_com_dma.c:275-333 | The three results, the descriptor contents, and that the queuing error is never reached |
| `DmaRing.Queue.HwComplete` | tsn_sw_base.edge-lkm/edge_com_dma.c:313-322 | Environment: for each descriptor handed over, in order, the hardware sees the length, ports and buffer written before the init bit was set |
| `DmaRing.Queue.Dequeue` | tsn_sw_base.edge-lkm/edge_com_dma.c:335-387 | The oldest released buffer with its received data; both error flags are counted once and cleared |
| `DmaRing.Queue.FillRx` | tsn_sw_base.edge-lkm/edge_com_dma.c:953-961 | The fill loop ends with 255 posted buffers and ENOSPC if and only if every allocation and mapping succeeds |
| `DmaRing.Queue.ProcessRx` | tsn_sw_base.edge-lkm/edge_com_dma.c:507-534 | Frames are handed over in order up to the budget; the ring keeps its number of buffers if and only if every refill succeeds |
| `DmaRing.Run` | tsn_sw_base.edge-lkm/edge_com_dma.c:275-534 | Every interleaving of driver and hardware steps behaves as an unbounded queue |
| `DmaRing.CountAfter` | tsn_sw_base.edge-lkm/edge_com_dma.c:275-387 | `cnt` is the number of accepted buffers not yet handed back, at most 255; an enqueue is refused exactly when that is 255 or mapping fails, and reports a full ring exactly when it fills it |
| `DmaRing.CarriedInOrder` | tsn_sw_base.edge-lkm/edge_com_dma.c:275-387 | Over any interleaving the hardware sees the accepted frames in order, with buffer, management field and length up to 2047; what is handed back is in the same order, with length and management field as the hardware wrote them; errors are counted once per flag |
| `DmaRing.CarriedAfter` | tsn_sw_base.edge-lkm/edge_com_dma.c:275-387 | The same of the ring in place |
| `GateDelay.Gate.CalcRetard` | tsn_sw_base.edge-lkm/edge_psfp.c:1382-1403 | One port's mean latency, delay relative to the reference, and retard |
| `GateDelay.Gate.FindReference` | tsn_sw_base.edge-lkm/edge_psfp.c:1439-1482 | The reference is a usable port with the least retard; S64_MAX exactly if no usable port asks for less |
| `GateDelay.Gate.SetDelays` | tsn_sw_base.edge-lkm/edge_psfp.c:1487-1515 | Every usable port gets the same retard as the reference, so the mismatch warning is never printed |
| `GateDelay.Gate.CalcDelays` | tsn_sw_base.edge-lkm/edge_psfp.c:1405-1520 | For all 64-bit inputs: error exactly without clock, schedule latency or candidate port; the reference asks for the least retard, and every usable port gets it, modulo 2^64 |
| `GateDelay.Align` | tsn_sw_base.edge-lkm/edge_psfp.c:1405-1520 | The calculation as an observer sees it: for all inputs the least retard, delays and registers, modulo 2^64; with latencies below 2^60 ns it fails only without a usable port, and frames of all usable ports meet in plain integers |
| `GateDelay.ScheduleTimes` | tsn_sw_base.edge-lkm/edge_psfp.c:1433-1440 | Without wrap-around the time of schedule 0 is the mean of the bounds rounded up, and each further index adds one clock period |
| `GateDelay.FramesMeet` | tsn_sw_base.edge-lkm/edge_psfp.c:1405-1520 | Alignment modulo 2^64 is alignment for latencies below 2^60 ns: at the gate s2sg + retard after the wire; a delay is negative exactly at a port now faster than the reference |
| `GateDelay.UsableIsCandidate` | tsn_sw_base.edge-lkm/edge_psfp.c:1439-1482 | With latencies below 2^60 ns the calculation fails for want of a reference only if no port is usable |
| `GateDelay.DelayRegNearest` | tsn_sw_base.edge-lkm/edge_port.c:2070-2080 | The delay register is within half a granule of the delay, exact for multiples, capped at 7 |

## Left out

- Register access, polling, `usleep_range` and locks: a locked operation is one atomic step, and an indirect table access is an array access.
- Red-black tree balancing and kernel lists: sorted maps and sequences with the driver's search keys.
- sysfs parsing and formatting, netdev, ethtool, switchdev and PHY plumbing, probing, interrupts and build files.
- CRC40 row hashes of the static FDB and of stream identification: functions given as parameters; only row bounds, column classes and, where replies and lookups are concerned, the bit that the tag inverts and the columns that the VID does not enter matter.
- `edge_st_fsc.c` beyond its encoder: the older twin repeats the cycle arithmetic and the state machine that are modelled from `edge_sched.c`.
- `edgx_sched_fix_cc_time` and the hardware-adjusted start it reads back, `edgx_st_calc_trans_rate`, gate states for a closed or disabled gate, cycle time extension, and schedule notifications.
- The `prepare_config` of stream gates (`edge_psfp.c:1537-1567`): the same cumulative loop as the encoder without hold bits.
- The mask on the seconds difference in the cycle count is all ones and is not modelled separately; the signed product of the start seconds is taken to wrap as two's complement.
- Admin list read-back at a non-zero offset.
- v1 stream identification in the static FDB (`edgx_brfdb_sid_add`, `edgx_brfdb_sid_del`): it may take a row that belongs to another address, so the map refinement does not hold with it. The table is taken to be empty at initialisation, as after a hardware reset.
- DMAC synchronisation and ageing, FID traffic-engineering flags, per-FID forwarding states, flushing, port VIDs and tag membership: the driver does not keep the hardware equal to a simple state across all moves.
- VlanAlloc.BrVlan.AddPort: promises nothing about the tables once the driver has followed an invalid pointer; histories therefore use VIDs other than the null VID, and no move to the id of free trees.
- VlanAlloc.BrVlan.DelPort: the same.
- VlanAlloc.BrVlan.constructor: does not model the refusal of fewer than two trees.
- The FID field of the hardware is its low six bits; the traffic-engineering bit of the same register is left out.
- Priority of DMA queues, transmit padding and timestamps, the FIFO of stopped network devices, memory barriers, and the unmapping of buffers on release.
- StreamIdent.SidBridge.constructor: the hardware table is taken to be empty at the start, as after a hardware reset; `edgx_probe_sid` does not clear it.
- SchedTime.RationalToNsecExact: takes `long` to be 64 bits wide; where it is 32 bits, the product of the cycle seconds and NSEC_PER_SEC wraps from 5 seconds on (accepted cycle times are at most 16 ms).
- PsfpFilters.FilterTable.ReadFilter: the hardware may set the oversize-block bit of a row by itself when blocking is enabled; the model leaves it as the driver wrote it.
- GateDelay.FramesMeet: alignment in plain integers is stated for latencies below 2^60 ns; for larger ones `GateDelay.Align` states it modulo 2^64.
- FRER configuration (`edge_frer.c`) and the idle slope of `edge_fqtss.c`: no clean invariant, and deliberately approximate.
