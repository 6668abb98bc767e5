# A verified model of the hub's radio MAC

This project models, in Dafny, the policy headers of a LoRa hub that drives window
covers: the frame counters and replay window of a link, the acknowledged delivery on
top of them, the slot grid and its clock, the key epochs and counter blocks shared by
two tasks, the token that lets one node warm up at a time, the weekly schedules, and
the wire format, burst restamp and transmit queue. `dafny verify dfyconfig.toml` checks
everything.

## How it is laid out

| files | subject |
|---|---|
| `Machine` | fixed-width integers, a 64-bit word as its bits, duplicate-free sequences |
| `Sequencer`, `SequencerRuns` | the frame counter, its replay window, and its life with slow writes and crashes |
| `AckCache`, `DeliveryPolicy`, `Delivery`, `DeliveryProgress` | re-acks, the timeout ladder, hub, channel and node put together: what never happens, and what does |
| `GridState` | slot instants on a rate-stretched clock |
| `FcntBlocks`, `FcntRuns`, `KeyEpochs`, `KeystreamRuns` | reserved counter blocks, their interleavings, the key store, and the two together |
| `ModeBSupervisor`, `ModeBFleet`, `ModeBProgress`, `ModeBBackoff` | the warm-up token, N supervisors on it, when they start, and their pauses |
| `BootMargin`, `OnboardingGate` | the boot margin, the onboarding gate |
| `Scheduler`, `ScheduleCalendar` | weekly firings, and from the words of a text to the calendar |
| `ScheduleWords`, `ScheduleText`, `ScheduleTextLaws`, `ScheduleTextRoom`, `ScheduleTextCode` | the schedule text: words, meaning, laws, room, and the code over buffers |
| `ScheduleGrammar`, `ScheduleDocumented`, `ScheduleReasons` | exactly what is accepted, what is documented, and why the rest is refused |
| `ScheduleCutSizes`, `ScheduleEntryCut`, `ScheduleTextCut` | exactly what a text cut by its buffer reads back as |
| `MacWire`, `BurstFrame`, `TxQueue`, `PhaseLock` | header codec, per-copy restamp, transmit queue, gcd test |

Where the source changes fields or buffers in place there is a class or a method over
an array, proved equal to a function on the value it holds; what the operation is for is
then proved about that function, over every run. Where a claim of the source's comments
fails, the model keeps the code, a lemma gives the failing input, and another states
exactly when the claim holds.

## Premises

- Node counters: one snapshot write is in flight at a time, and it is recorded only while
  the live counters are within the margins of what it wrote; a boot writes the restored
  pair back before anything else; a receive-margin write asked for by a reception lands
  (an overdue transmit snapshot need not); no counter passes 2^32. The guard on the slow write is shown to be exact, the write-back
  and the margin write to be needed.
- Delivery: the hub's counter is persisted before an id is used; an acknowledgement
  cache is cleared by a login and by a reboot; a frame authenticates only under its own
  session. The node's program is not part of this repository: its use of the shared
  sequencer and cache is the one the headers describe.
- Grid: a validated grid, |rate| <= 200000 ppb, spans to 2.6e12 us, a beacon at least every
  1733333 rounds (the same span; `validate` sets no bound), positive instants (0 means "no
  beacon"). Between two questions the grid may be re-anchored, its rate relearned and
  the skipping of own windows changed in any way; the exact condition is proved.
- Counter blocks: a stream's block is granted only while none of its callbacks runs;
  the 32-bit key epoch does not turn over. For the keystream: a session id gets keys once
  (ids are random in the source; the equal-id input is shown).
- Token: a queued or warming node is ticked every 2 s, a warm-up ends within 65 s of its
  start; uptime stays below 68 years. For the start from idle the node is ticked every 2 s
  while idle too, with its gates open, no hold-off, and room in the line.
- Boot margin: one session; the node hears only ids the hub handed out; its beacons come
  as the pacing predicate says.
- Gate: for the live front, at most 32 listeners and no waiter that calls release in
  between; the order and the silent front need neither.
- Schedules: a constant offset and instants before 2^60 s.
- Burst frame: a frame is long enough for its layout when the layout is changed. An open
  frame always is; on a closed, shorter one the source's `size_t tail` would underflow, and
  its caller asks `ok()` first.
- Transmit queue: instants are 64-bit; numbers may wrap, and the order then holds exactly
  under the condition of `Push`.

## Where code and comments part

- `Sequencer.h:147` says the id is at or below the mark; the unsigned difference also
  admits an id less than 64 below 2^32 + mark. Receivers that refuse bit 31 are not
  affected.
- `Sequencer.h:197-203` says a reset without a write only delays the next write; with a
  write of the reset counters still under way while 65 ids go out, a crash repeats one.
- `DeliveryPolicy.h:76-78`: a budget of 255 never gives up, since the counter is 8 bits.
- `ModeBSupervisor.h:162` calls a second boot signal inside 20 s a duplicate; a real
  second boot in that time leaves the node deaf to 16 downlinks. The advance itself is
  not written, so a hub restart forgets it. `BootMargin.HeardAfterSilenceIff` says exactly
  when the node is deaf.
- `GridState.h:324-326` says a re-anchor moves a mark by at most the guard (14080 us); the
  capture of `GridState.h:467-471` admits 23437 us. At +23437 the opened window is found
  again, at -23437 on a slow clock an adjacent one is skipped; in between none is.
- `ScheduleText.h:38-48`: entries need no `;` between them, blank space is enough, `;`
  may be repeated, a day list may end in a comma, and hour and minute may have any width
  that makes three or four digits, the empty one included (`:059`, `012:`). What is
  accepted is exactly `ScheduleGrammar.AcceptedIff`, what is documented exactly
  `ScheduleDocumented.DocumentedTextIff`.
- `ScheduleText.h:55`: 240 bytes do not hold every schedule; the printer skips a
  two-digit number that does not fit and goes on. Of the texts that do not fit, those cut
  between entries read back without the later entries, those cut in `position:100` with
  1 or 10 percent, and every other one is refused (`ScheduleTextCut.CutAcceptedIff`).
- `docs/schedule-text-syntax.md:56` shows `6:0 D Open` as accepted; three characters are no
  time, and `D` is no day. Its line 75 quotes the time for a missing action; the code
  quotes the days, and asks for the days first.
- `Scheduler.cpp:123-124` speaks of starting one day early; the walk starts on the local
  day of `from`, which is enough.
- `ModeTestPolicy.h:165`: the microsecond product wraps for periods above 4294 s, and the
  test can then miss a lock or find one that is not there. `PhaseLock.RightIffSameGcd` says
  exactly for which periods it stays right; 1000 times the gcd of the milliseconds needs no
  product.
- `burst_frame.h:30-33`: the layout change does not look at `ok()`: a FLEET frame with
  room changes under a stamped call. Its caller asks `ok()` first.
- `Scheduler.cpp:44-50`: on the first local day of the epoch the unsigned midnight wraps,
  and next_occurrence can return an instant near 2^64; exactly when is proved. The hub's
  caller (`lora_client.cpp:299`) waits for a valid clock first, so it does not get there.

## Model

| member | source | states |
|---|---|---|
| `Sequencer.Sequencer.AllocateId` | `configuration/local_components/lora_client/Sequencer.h:122-134` | the object takes the step `Allocate`: refused when the 31-bit space is spent, persisted first at the margin, rolled back when the write fails or wrote something else |
| `Sequencer.Sequencer.CheckId` | `configuration/local_components/lora_client/Sequencer.h:140-151` | the read-only decision is `Check` on the fields |
| `Sequencer.Sequencer.CommitId` | `configuration/local_components/lora_client/Sequencer.h:157-184` | the object takes the step `Commit`: the mark and bitmap move, or one bit is recorded, and the two persist calls happen in order |
| `Sequencer.Sequencer.StartOver` | `configuration/local_components/lora_client/Sequencer.h:204-209` | both counters and the bitmap are cleared, the persisted marks stay; what the window then admits is `ResetWindowIsEmpty` and `AdmittedIff` |
| `Sequencer.Sequencer.Install` | `configuration/local_components/lora_client/Sequencer.h:214-221` | both margins are added, the whole window is burned, and the result counts as persisted |
| `Sequencer.Sequencer.NotePersisted` | `configuration/local_components/lora_client/Sequencer.h:234-238` | records the written snapshot, not the live counters |
| `Sequencer.CheckExactly` | `configuration/local_components/lora_client/Sequencer.h:140-151` | for every 32-bit id: accepted exactly when not yet accepted and within rx - 64 < f <= rx + 1024, plus the one family the unsigned `rx - fcnt` lets in |
| `Sequencer.CheckIsMembership` | `configuration/local_components/lora_client/Sequencer.h:140-151` | for ids below 2^31: check holds exactly when the id is not in the accepted set and within reach |
| `Sequencer.WrappedIdIsAccepted` | `configuration/local_components/lora_client/Sequencer.h:147-150` | the comment "fcnt <= rx_ here" fails: id 2^32 - 10 passes a fresh window and moves its mark there |
| `Sequencer.CommitAddsToSet` | `configuration/local_components/lora_client/Sequencer.h:157-184` | one commit adds exactly the accepted id to the set, or changes nothing, whatever the persist hook does |
| `Sequencer.WindowRefinesPlainFilter` | `configuration/local_components/lora_client/Sequencer.h:140-184` | over any sequence of arrivals the 64-bit window and a plain set with a high-water mark decide alike |
| `Sequencer.RestoreBurnsTheWindow` | `configuration/local_components/lora_client/Sequencer.h:211-221` | after a restore no id at or below the restored mark is admitted |
| `Sequencer.RatchetIsForwardOnly` | `configuration/local_components/lora_client/Sequencer.h:27-30` | the hub policy accepts exactly (rx, rx + 1024] and never a reordered id |
| `Sequencer.FreshWindowIsEmpty` | `configuration/local_components/lora_client/Sequencer.h:140-151` | a fresh window stands for the empty set: id 0 too is admissible, once |
| `Sequencer.ResetWindowIsEmpty` | `configuration/local_components/lora_client/Sequencer.h:199-209` | a new session stands for the empty set again, whatever was accepted before: exactly the ids up to 1024 are admitted, id 0 under the sliding window only |
| `Sequencer.AllocatesIff` | `configuration/local_components/lora_client/Sequencer.h:122-134` | an id can be had exactly below 2^31 and with its write landed where one is due; a refusal changes nothing |
| `SequencerRuns.NoIdTwice` | `configuration/local_components/lora_client/Sequencer.h:122-238` | under the premises above no run of allocations, receptions, slow and lost writes, resets and crashes hands out or accepts an id of one session twice |
| `SequencerRuns.StepKeepsInv` | `configuration/local_components/lora_client/Sequencer.h:122-238` | every single step keeps the counters, the flash and the bitmap within the margins a crash adds back |
| `SequencerRuns.SlowWriteSafeIff` | `configuration/local_components/lora_client/Sequencer.h:228-238` | recording a slow write keeps both ends safe exactly when the live counters are still within the margins of what was written |
| `SequencerRuns.OutrunTxIsUnsafe` | `configuration/local_components/lora_client/Sequencer.h:228-238` | a slow write recorded after more than a margin of allocations leads to a repeated transmit id after one crash |
| `SequencerRuns.OutrunRxIsUnsafe` | `configuration/local_components/lora_client/Sequencer.h:228-238` | the same on the receive side: an accepted id is accepted again after one crash |
| `SequencerRuns.RestartThenSlowWriteIsUnsafe` | `configuration/local_components/lora_client/Sequencer.h:195-209` | the claim that a reset without a write "only delays the next write" fails together with a slow write: 65 ids later a crash repeats id 65 |
| `SequencerRuns.CurrentWritesStayGuarded` | `configuration/local_components/lora_client/Sequencer.h:122-184` | a slow write begun while the persisted marks are current can be recorded whenever it lands, a session restart in between included |
| `SequencerRuns.AdmittedIff` | `configuration/local_components/lora_client/Sequencer.h:140-209` | over any run from the start of a session to the next crash: an id is admitted exactly when it has not been taken and is in reach of the highest one taken |
| `SequencerRuns.MarginWritesIff` | `configuration/local_components/lora_client/Sequencer.h:168-169` | a reception asks for a write exactly when its mark is a whole margin above the persisted one, or below it |
| `SequencerRuns.OverdueIsTaken` | `configuration/local_components/lora_client/Sequencer.h:170-171` | an overdue transmit snapshot is taken by the next id past the mark |
| `SequencerRuns.NoNeedlessSnapshot` | `configuration/local_components/lora_client/Sequencer.h:170-171` | where no slow write lands and nothing crashes, a reception never finds an overdue transmit snapshot |
| `SequencerRuns.WriteBackIsNeeded` | `configuration/local_components/lora_client/Sequencer.h:211-221` | without the boot write-back two crashes in a row repeat an id |
| `SequencerRuns.MarginWriteIsNeeded` | `configuration/local_components/lora_client/Sequencer.h:168-171` | a failed margin write at reception, which commit ignores, lets a crash accept a replay |
| `AckCache.AckCache.NoteAccepted` | `configuration/local_components/lora_client/AckCache.h:132-151` | a new command takes a free place or the oldest one's; a known one refreshes nothing |
| `AckCache.AckCache.ClassifyReplay` | `configuration/local_components/lora_client/AckCache.h:161-178` | the decision on a refused id is `Classify` on the entries; when it answers is `DeliveryProgress.RepeatIsAnsweredIff` |
| `AckCache.AckCache.RecordReAck` | `configuration/local_components/lora_client/AckCache.h:182-188` | exactly the entry of that id gets the instant and one more repeat |
| `AckCache.FourAreRemembered` | `configuration/local_components/lora_client/AckCache.h:60-73` | a command just noted is still found after any three more, with the instant of its first acceptance and its whole budget |
| `AckCache.NoteSparesTheYoung` | `configuration/local_components/lora_client/AckCache.h:136-145` | a full cache evicts only the oldest: an entry with fewer than three younger ones stays |
| `DeliveryPolicy.LadderBudget` | `configuration/local_components/lora_client/DeliveryPolicy.h:72-89` | with a budget below 255: exactly maxRetries retransmissions, then one give-up; deferred and short-wait expiries are free |
| `DeliveryPolicy.FreeExpiriesAreToldApart` | `configuration/local_components/lora_client/DeliveryPolicy.h:72-89` | over any uncharged expiries: one is deferred whenever a login is pending, a short wait or not, and else a short wait missed |
| `DeliveryPolicy.OnlyCountedOnesCost` | `configuration/local_components/lora_client/DeliveryPolicy.h:72-95` | a stale timer does nothing, and exactly the retransmission and the give-up cost a retry |
| `DeliveryPolicy.GivesUpIff` | `configuration/local_components/lora_client/DeliveryPolicy.h:79-89` | silence ends in a give-up exactly when the budget is below 255: at 255 the 8-bit counter wraps first |
| `DeliveryPolicy.AckIds.Add` | `configuration/local_components/lora_client/DeliveryPolicy.h:169-185` | the set in place is the list `AddId` gives |
| `DeliveryPolicy.HoldsLastEight` | `configuration/local_components/lora_client/DeliveryPolicy.h:157-189` | whatever was sent before, the set is the last eight attempts that had an id, each with its own tag |
| `DeliveryPolicy.ControlQueue.PushCmd` | `configuration/local_components/lora_client/DeliveryPolicy.h:344-353` | the queue in place becomes `Pushed`: a newer cover op replaces the waiting one and goes to the back, a full queue refuses |
| `DeliveryPolicy.ControlQueue.Pop` | `configuration/local_components/lora_client/DeliveryPolicy.h:355-362` | the oldest command leaves, the rest keep their order |
| `DeliveryPolicy.PushKeepsSysops` | `configuration/local_components/lora_client/DeliveryPolicy.h:300-306` | no push drops or reorders a waiting sysop |
| `DeliveryPolicy.PushKeepsOneCover` | `configuration/local_components/lora_client/DeliveryPolicy.h:332-353` | at most one cover op ever waits, a replacement is reported exactly when one did, and a refusal happens exactly when the queue is full with nothing to replace |
| `Delivery.EndToEnd` | `configuration/local_components/lora_client/AckCache.h:132-188` | over every run of a hub, a lossy, repeating, reordering channel and a rebooting node: one id runs at most once and only as sent, every ack names a command that ran, what the hub marks delivered ran, and a command is re-acked at most 3 times, never within the burst span of its run, at least 2 s apart |
| `Delivery.StepKeepsInv` | `configuration/local_components/lora_client/Sequencer.h:140-221` | each event of that system keeps window, cache, air and ack history in agreement |
| `Delivery.AdmittedIsNew` | `configuration/local_components/lora_client/Sequencer.h:140-151` | a frame the window admits has not run in its session |
| `Delivery.ReAckIsSpaced` | `configuration/local_components/lora_client/AckCache.h:161-178` | a repeated ack never exceeds the budget and keeps its distance from the run and from the one before |
| `Delivery.HearingKeepsInv` | `configuration/local_components/lora_client/DeliveryPolicy.h:263-287` | an ack completes the very command that ran under its id, because a retry re-sends the same bytes under the same id |
| `DeliveryProgress.RunsIff` | `configuration/local_components/lora_client/Sequencer.h:140-209` | over every run from a login of the node to its next reboot: a delivered frame of the session runs exactly when its id has not run and is in reach of the highest that has |
| `DeliveryProgress.FirstCommandRuns` | `configuration/local_components/lora_client/Sequencer.h:195-209` | so the first command of a session runs at its first delivery, wherever it lies in the first 1024 ids |
| `DeliveryProgress.AnsweredIff` | `configuration/local_components/lora_client/AckCache.h:161-178` | a refused frame whose command is cached is acked again exactly when fewer than 3 repeats went out, the burst span of its run is over and the last repeat is 2 s past |
| `DeliveryProgress.RepeatIsAnsweredIff` | `configuration/local_components/lora_client/AckCache.h:60-73` | over every run: a command that ran stays answerable, by that rule, as long as the node neither reboots nor logs in and at most three newer commands run |
| `DeliveryProgress.LostAckIsMadeGood` | `configuration/local_components/lora_client/AckCache.h:20-37` | in particular the first repeat after the burst span is answered, and the hub that hears it marks the command delivered |
| `DeliveryProgress.CommandGetsThrough` | `configuration/local_components/lora_client/DeliveryPolicy.h:263-287` | a command issued to a logged-in node not 1024 ids behind runs when delivered, is acked at once, and the hub that hears the ack marks exactly it delivered and is free again |
| `DeliveryProgress.AckCompletesIff` | `configuration/local_components/lora_client/DeliveryPolicy.h:263-287` | an ack, first or repeated, completes exactly the command whose frame it names, and any other changes nothing |
| `DeliveryProgress.SilenceIsRetried` | `configuration/local_components/lora_client/DeliveryPolicy.h:72-89` | unanswered: the same frame four times more, given up at the fifth expiry |
| `DeliveryProgress.FreeExpiries` | `configuration/local_components/lora_client/DeliveryPolicy.h:72-89` | a pending login holds the frame back, a missed short wait sends it again, neither costs a retry |
| `GridState.StretchNeverOverflows` | `configuration/local_components/lora_client/GridState.h:125-139` | for |rate| <= 200000 ppb and spans to 2.6e12 us no product or sum leaves int64, with C's truncating division |
| `GridState.AdoptedIff` | `configuration/local_components/lora_client/GridState.h:51-78` | a grid is accepted exactly as agreed: 32 slots of 46875 us in 1.5 s, every slot in range, no sweep but on the bench |
| `GridState.StretchIsNominal` | `configuration/local_components/lora_client/GridState.h:125-139` | the stretched span is the span times one plus the rate, within a microsecond |
| `GridState.SeedError` | `configuration/local_components/lora_client/GridState.h:134-139` | the first-order inverse is off by at most the rate squared |
| `GridState.SeedIsClose` | `configuration/local_components/lora_client/GridState.h:193-200` | the seed of an upward search is at most one mark from the answer |
| `GridState.CorrectUp` | `configuration/local_components/lora_client/GridState.h:199-200` | the two correction loops end at the first mark at or after the target after at most one step |
| `GridState.CorrectDown` | `configuration/local_components/lora_client/GridState.h:251-252` | the loops of the inverse search end at the last mark at or before the target after at most one step |
| `GridState.NextT0Us` | `configuration/local_components/lora_client/GridState.h:188-202` | exactly the first own T0 at or after now, on a stretched clock, seed moved by at most one |
| `GridState.NextBeaconT0Us` | `configuration/local_components/lora_client/GridState.h:267-281` | exactly the first beacon T0 at or after now; 0 exactly when there is no cadence |
| `GridState.AimUplink` | `configuration/local_components/lora_client/GridState.h:399-431` | aims at the first uplink mark whose CAD start has not passed, and gives up exactly when it is more than the allowed wait away |
| `GridState.UplinkFollowsItsMark` | `configuration/local_components/lora_client/GridState.h:377-431` | an uplink is aimed at its own mark plus the stretched offset, within a microsecond |
| `GridState.RoundForT0` | `configuration/local_components/lora_client/GridState.h:242-254` | the largest round whose T0 is at or before the instant |
| `GridState.RoundIsInverse` | `configuration/local_components/lora_client/GridState.h:232-254` | roundForT0 of a round's own T0 is that round: the exact inverse of t0ForRound |
| `GridState.RoundOfItsT0` | `configuration/local_components/lora_client/GridState.h:242-254` | computed: asking for the round of a T0 gives the round back |
| `GridState.NextWindow` | `configuration/local_components/lora_client/GridState.h:301-311` | the earliest window to open at or after now: own or beacon, the beacon on a tie, the beacons alone when own windows are skipped and there are any |
| `GridState.NextWindowArmDelayUs` | `configuration/local_components/lora_client/GridState.h:343-361` | the earliest window to open from the search instant on, own windows skipped or not, and the delay to its arming instant, never below 1 |
| `GridState.NextIsSuccessorIff` | `configuration/local_components/lora_client/GridState.h:313-333` | on whatever grid is held when asking, own windows skipped or not: the next window is found if and only if the search starts after every window up to the opened one, as they now stand, and not after the next |
| `GridState.FoundAgainOrHiddenIff` | `configuration/local_components/lora_client/GridState.h:324-333` | for every re-anchor the capture admits: the opened window is found again exactly when its mark moved by half a pitch or more, the next one hidden exactly when spacing and move fall short of half a pitch |
| `GridState.EveryWindowOnceIff` | `configuration/local_components/lora_client/GridState.h:283-361` | over any run of questions, re-anchorings, relearned rates and changes of the skipping: every window to open is visited in order, none twice and none skipped, if and only if each search starts after the windows up to the opened one and not after the next |
| `GridState.EveryBeaconOnceIff` | `configuration/local_components/lora_client/GridState.h:283-361` | with own windows skipped all along: every beacon in order, a whole cadence apart, none twice and none skipped, under exactly that condition |
| `GridState.BeaconRounds` | `configuration/local_components/lora_client/GridState.h:226-230` | a beacon window is the beacon slot of a round the cadence divides |
| `GridState.EveryWindowOnce` | `configuration/local_components/lora_client/GridState.h:313-361` | in particular for moves of -23427 to 23436 us and any clamped rate learned in between |
| `GridState.WidestReanchorFindsItAgain` | `configuration/local_components/lora_client/GridState.h:460-471` | at +23437 us, which the capture admits, the opened window is the answer again, on any grid |
| `GridState.WidestReanchorHidesANeighbour` | `configuration/local_components/lora_client/GridState.h:460-471` | at -23437 us and -200 ppm the own window one slot after a beacon is skipped |
| `FcntBlocks.FcntReservation.GrantBlock` | `configuration/local_components/lora_client/FcntReservation.h:35-41` | the block becomes `Grant`; an empty or inverted range is invalid |
| `FcntBlocks.FcntReservation.TakeNext` | `configuration/local_components/lora_client/FcntReservation.h:53-68` | the object takes the step `Take`: the next counter, or 0 and invalid when the epoch moved |
| `FcntBlocks.FcntReservation.Drop` | `configuration/local_components/lora_client/FcntReservation.h:43-48` | an invalidated block hands out nothing |
| `FcntBlocks.BlockIsSpentInOrder` | `configuration/local_components/lora_client/FcntReservation.h:50-68` | n takes under the block's epoch give first, first + 1, ... up to the last, then 0 |
| `FcntBlocks.EmptyRangeGivesNothing` | `configuration/local_components/lora_client/FcntReservation.h:35-41` | an empty range, or one from 0, hands out nothing |
| `FcntBlocks.BlockEndIs` | `configuration/local_components/lora_client/lora_client_bench.cpp:455-457` | a reservation of n counters is n counters, or all that are left below 2^31 |
| `FcntBlocks.MovedEpochKills` | `configuration/local_components/lora_client/FcntReservation.h:50-61` | one take under another epoch makes every later take 0, even if the epoch matches again |
| `FcntBlocks.ReserveBlock` | `configuration/local_components/lora_client/lora_client_bench.cpp:445-466` | whatever the persist hook answers: granted exactly when one id is wanted and allocated, then the counter stands at the block's end (cut at 2^31 - 1) and the block is that, under the current epoch; otherwise the block is invalid and the counter unmoved |
| `FcntRuns.CountersAreUsedOnce` | `configuration/local_components/lora_client/lora_client_bench.cpp:445-512` | over every interleaving of the loop, three streams' callbacks (cut between their locks), logins and installs no (key epoch, counter) pair passes twice |
| `FcntRuns.BlocksAreDisjoint` | `configuration/local_components/lora_client/lora_client_bench.cpp:445-490` | in a live session a stream's block shares no counter with another stream's, with a used one or with any id the loop will allocate |
| `FcntRuns.StepKeepsInv` | `configuration/local_components/lora_client/lora_client_bench.cpp:445-512` | each step of either task keeps who may still use which counter disjoint |
| `FcntRuns.SealCheckIsNeeded` | `configuration/local_components/lora_client/lora_client_bench.cpp:475-482` | a run with a login between take and seal after which the sealed frame repeats a used pair, and the epoch check after sealing drops it; a fresh grant in between would defeat the check |
| `FcntRuns.LoginGoesThrough` | `configuration/local_components/lora_client/lora_client_bench.cpp:445-512` | from every reachable state a login can be made, and its first frame goes out under a new epoch with counter 1 |
| `FcntRuns.StreamFrameGoesThrough` | `configuration/local_components/lora_client/lora_client_bench.cpp:445-512` | from every reachable state of a live session a resting stream that reserves a block and is not interrupted passes its first frame, on the next counter |
| `KeyEpochs.SessionKeyStore.SetId` | `configuration/local_components/lora_client/HubLinkSecurity.cpp:35-44` | the map changes as `SetSessionId`: the epoch moves only for a new id |
| `KeyEpochs.SessionKeyStore.InstallKeys` | `configuration/local_components/lora_client/HubLinkSecurity.cpp:58-67` | keys replaced, generation and epoch both move |
| `KeyEpochs.SessionKeyStore.Clear` | `configuration/local_components/lora_client/HubLinkSecurity.cpp:69-78` | keys gone, the epoch moves, an unknown peer stays unknown |
| `KeyEpochs.SessionKeyStore.RetagCopy` | `configuration/local_components/lora_client/HubLinkSecurity.cpp:317-343` | the decision and the drop count of a retag, its length and MAC failures included, are those of `Retag` |
| `KeyEpochs.BindingRoundTrip` | `configuration/local_components/lora_client/HubLinkSecurity.h:65-91` | fromBinding undoes binding on exactly the sealed seals and the empty one, and a binding is a 64-bit value |
| `KeyEpochs.SealedIff` | `configuration/local_components/lora_client/HubLinkSecurity.cpp:418-449` | exactly which frames are sealed, under the keys and the id the peer has now |
| `KeyEpochs.RetagUsesTheSealingKeys` | `configuration/local_components/lora_client/HubLinkSecurity.cpp:511-529` | in any run without forget and with epochs below 2^31 a tagged copy used the very MAC key and session id its frame was sealed under, for its own peer only |
| `KeyEpochs.RetagTagsIff` | `configuration/local_components/lora_client/HubLinkSecurity.cpp:317-343` | over any run without forget: a copy of a sealed frame is tagged if and only if it is for its own peer, counter and length are in range, the MAC works, and that peer has had no other keys or id since |
| `KeyEpochs.EpochCountsMoves` | `configuration/local_components/lora_client/HubLinkSecurity.cpp:35-78` | a peer's epoch counts its changes of id, installs and clears, one for one |
| `KeyEpochs.RecordTellsHistory` | `configuration/local_components/lora_client/HubLinkSecurity.cpp:58-78` | generation, stale drops and installed id are the number of installs, of stale copies, and the id of the last keys, over any run without forget |
| `KeyEpochs.ForgetBreaksTheBinding` | `configuration/local_components/lora_client/HubLinkSecurity.cpp:80-88` | why forget is excluded: it restarts the epochs, and an old frame is then tagged under the new key |
| `KeystreamRuns.KeystreamIsUsedOnce` | `configuration/local_components/lora_client/HubLinkSecurity.cpp:418-449` | the tasks run over the key store, with session ids that get keys once: no two frames passed on share encryption key, session id and counter |
| `KeystreamRuns.StepKeepsInv` | `configuration/local_components/lora_client/lora_client_bench.cpp:445-512` | each step of either side keeps every passed or sealed frame tied to the key and id of its epoch |
| `KeystreamRuns.ReusedIdRepeatsAStream` | `configuration/local_components/lora_client/HubLinkSecurity.cpp:418-449` | why the id must be fresh: a run of two logins with one id and the same keys sends two frames on one stream |
| `ModeBSupervisor.ReachedIsOrder` | `configuration/local_components/lora_client/ModeBSupervisor.h:196-200` | the wrapped comparison is the true order of instants less than 2^31 s apart |
| `ModeBSupervisor.Arbiter.RequestToken` | `configuration/local_components/lora_client/ModeBSupervisor.h:218-226` | queue in place as `Request`: idempotent, refused when full |
| `ModeBSupervisor.Arbiter.IsGranted` | `configuration/local_components/lora_client/ModeBSupervisor.h:230-242` | only the head is promoted, not during a hold-off, after an expired lease is dropped |
| `ModeBSupervisor.Arbiter.CancelId` | `configuration/local_components/lora_client/ModeBSupervisor.h:251-259` | the holder gives the token up or the waiter leaves the queue |
| `ModeBSupervisor.Arbiter.Postpone` | `configuration/local_components/lora_client/ModeBSupervisor.h:262-267` | a hold-off only moves the next grant later |
| `ModeBSupervisor.Supervisor.TickOnce` | `configuration/local_components/lora_client/ModeBSupervisor.h:372-383` | phase, timers, token and event of one tick are those of `Tick`; when it asks, yields and starts is `ModeBProgress.AsksIff` and `QueuedOutcomes` |
| `ModeBSupervisor.Supervisor.StartAfresh` | `configuration/local_components/lora_client/ModeBSupervisor.h:388-395` | restart forgets history and leaves the token |
| `ModeBSupervisor.Supervisor.YieldNow` | `configuration/local_components/lora_client/ModeBSupervisor.h:400-409` | only a warming node yields; the backoff is untouched |
| `ModeBFleet.StepKeepsInv` | `configuration/local_components/lora_client/ModeBSupervisor.h:212-314` | any tick, restart, yield or hold-off of any node: the queue is duplicate-free and holds exactly the Queued nodes, and a holder is Warming |
| `ModeBFleet.StepIsFifo` | `configuration/local_components/lora_client/ModeBSupervisor.h:228-259` | a step removes its own node or appends it, nothing else, and a warm-up starts only from the head |
| `ModeBFleet.LostUntilReported` | `configuration/local_components/lora_client/ModeBSupervisor.h:476-483` | however the other nodes act in between: a Warming node that lost the token has not got it back by its next tick, and reports DropOut there |
| `ModeBFleet.OneWarmUpAtATime` | `configuration/local_components/lora_client/ModeBSupervisor.h:369-517` | with ticks every 2 s and warm-ups ended by kWarmupS + 5, no run has two nodes Warming together |
| `ModeBFleet.BoundedWaiting` | `configuration/local_components/lora_client/ModeBSupervisor.h:94-101` | with no hold-off and its gates open, the node at queue position k starts within (k + 1) * 69 s however the others behave |
| `ModeBProgress.GatesOpenIff` | `configuration/local_components/lora_client/ModeBSupervisor.h:334-356` | the inputs under which a warm-up may start |
| `ModeBProgress.AsksIff` | `configuration/local_components/lora_client/ModeBSupervisor.h:430-450` | an idle node asks for the token at a tick exactly when its gates are open, its time has come and the line has room |
| `ModeBProgress.QueuedOutcomes` | `configuration/local_components/lora_client/ModeBSupervisor.h:452-474` | a queued node yields for 30 s exactly when the air is busy or another test is on, leaves quietly without a settled grid or when promoted, and else starts exactly when granted |
| `ModeBProgress.StartsFromIdle` | `configuration/local_components/lora_client/ModeBSupervisor.h:94-101` | an idle node whose gates stay open starts within 69 s for each node of the fleet after its backoff and jitter are over, however the other nodes behave |
| `ModeBProgress.SmallFleetHasRoom` | `configuration/local_components/lora_client/ModeBSupervisor.h:212-226` | in a fleet of up to 64 nodes the line always has room |
| `ModeBProgress.DisarmedIff` | `configuration/local_components/lora_client/ModeBSupervisor.h:385-509` | the jitter is drawn anew after a closed gate, a promotion, a restart and every end of a warm-up, not by leaving the line |
| `ModeBProgress.JitterIsDrawn` | `configuration/local_components/lora_client/ModeBSupervisor.h:437-444` | and then the node asks at its next tick only if it drew none |
| `ModeBProgress.EachJoinsOnce` | `configuration/local_components/lora_client/ModeBSupervisor.h:218-226` | over any requests in any order each newcomer joins the end of the line once and nobody in it moves, as long as there is room |
| `ModeBProgress.RestartedAsksSoon` | `configuration/local_components/lora_client/ModeBSupervisor.h:385-395` | a restarted node asks after its jitter alone, whatever failed before |
| `ModeBProgress.PutOffUntilLatest` | `configuration/local_components/lora_client/ModeBSupervisor.h:261-267` | over any ops in any order the grant is put off until the latest end of any, never moved forward |
| `ModeBProgress.WarmUpEndsIff` | `configuration/local_components/lora_client/ModeBSupervisor.h:476-490` | under its own lease a node frees the token and starts the 90 s of grace at the first tick that finds the warm-up over, not before |
| `ModeBProgress.VerdictIs` | `configuration/local_components/lora_client/ModeBSupervisor.h:492-509` | over any ticks it then reports nothing until its first good report or until the 90 s are over, and then success exactly on a good report, else one more failure |
| `ModeBBackoff.EveryStartKeepsTheBackoff` | `configuration/local_components/lora_client/ModeBSupervisor.h:84-92` | without restart every Start follows the first, second, third and any further failure in a row by at least 2, 5, 15 and 60 minutes, and a success by at least 5 |
| `ModeBBackoff.VerdictKeepsFloor` | `configuration/local_components/lora_client/ModeBSupervisor.h:492-509` | after a verdict the next start is barred for exactly that pause |
| `ModeBBackoff.StepKeepsFloor` | `configuration/local_components/lora_client/ModeBSupervisor.h:430-509` | one tick or yield, with the token in any state, never starts before the floor its history set |
| `BootMargin.Listener.NoteNodeReset` | `configuration/local_components/lora_client/lora_client.cpp:1531-1546` | the reset reason is remembered and the counter advanced exactly when the boot rule says so |
| `BootMargin.Listener.AdvanceForBoot` | `configuration/local_components/lora_client/lora_client.cpp:1555-1565` | the counter moves by 16 without a write; instant and wake key are recorded |
| `BootMargin.StepKeepsInStep` | `configuration/local_components/lora_client/ModeBSupervisor.h:151-178` | hub counter plus 16 per advance still owed (a boot not yet noted, or an advance lost by a hub boot) stays at or above the node's mark, whatever fails in the step |
| `BootMargin.CountersStayInStep` | `configuration/local_components/lora_client/ModeBSupervisor.h:151-178` | the same over any run of boots of both ends, beacons, sends, deliveries and lost writes |
| `BootMargin.NextDownlinkIsHeard` | `configuration/local_components/lora_client/Sequencer.h:140-143` | with no advance owed the node's window admits the next downlink exactly while the gap is under 1024 |
| `BootMargin.HeardAfterEveryBeacon` | `configuration/local_components/lora_client/ModeBSupervisor.h:165-178` | in a run whose boots are each told by a beacon at least 20 s after the last advance, this holds after every beacon |
| `BootMargin.NotedIffTold` | `configuration/local_components/lora_client/ModeBSupervisor.h:163-178` | a beacon is noted exactly when it tells of a boot, 20 s or more after the last advance |
| `BootMargin.OrdinaryBeaconsAreFree` | `configuration/local_components/lora_client/ModeBSupervisor.h:151-166` | any number of further beacons of one wake, at any times, leave the hub as it was |
| `BootMargin.NotTwiceInside20s` | `configuration/local_components/lora_client/ModeBSupervisor.h:163-174` | no second beacon is noted within 20 s of a noted one, the very first instant included |
| `BootMargin.FirstBeaconIsNoted` | `configuration/local_components/lora_client/lora_client.cpp:1531-1546` | after a hub boot the first beacon of a node not woken from deep sleep is noted |
| `BootMargin.BootHeardIffNoted` | `configuration/local_components/lora_client/ModeBSupervisor.h:163-178` | one boot from lockstep: the next downlink is heard if and only if the rule notes the beacon |
| `BootMargin.HeardAfterSilenceIff` | `configuration/local_components/lora_client/ModeBSupervisor.h:151-178` | from lockstep, after any run of boots of both ends and any beacons: heard if and only if the hub still knows at least as many advances as the node booted, and fewer than 64 more |
| `BootMargin.QuickBootsDeafen` | `configuration/local_components/lora_client/ModeBSupervisor.h:163-174` | two boots told within 20 s count once, whatever advance came before, and the node drops the next 16 downlinks |
| `BootMargin.HubRestartIsHarmless` | `configuration/local_components/lora_client/lora_client.h:1441-1453` | with every boot noted and every advance written a hub restart changes nothing: heard exactly while the gap is under 1024 |
| `BootMargin.HubRestartHeardIffWritten` | `configuration/local_components/lora_client/lora_client.h:1441-1453` | a node booted and caught up with, then a hub restart: the next downlink is heard if and only if no advance is unwritten |
| `BootMargin.LostAdvanceDeafens` | `configuration/local_components/lora_client/lora_client.h:1441-1453` | so a noted boot is heard, and no longer after a hub restart before the next downlink |
| `OnboardingGate.GateObject.TryToAcquire` | `configuration/local_components/lora_client/OnboardingGate.h:114-144` | the object takes the step `TryAcquire` |
| `OnboardingGate.GateObject.ReleaseBy` | `configuration/local_components/lora_client/OnboardingGate.h:149-154` | only the holder frees the gate; a waiter is forgotten |
| `OnboardingGate.GateObject.Remove` | `configuration/local_components/lora_client/OnboardingGate.h:183-188` | the line closes up in order around the removed waiter |
| `OnboardingGate.StepKeepsSound` | `configuration/local_components/lora_client/OnboardingGate.h:100-188` | waiters stay distinct, real and not the holder, and at most 32 |
| `OnboardingGate.HeldUntilReleased` | `configuration/local_components/lora_client/OnboardingGate.h:114-154` | over any run of asks and leaves without the holder's own release the gate stays with its holder, is granted to nobody else, and nothing is counted as a denial |
| `OnboardingGate.NobodyOvertakes` | `configuration/local_components/lora_client/OnboardingGate.h:104-106` | a waiter never moves back, and every grant to another moves it up |
| `OnboardingGate.AtMostItsPlaceGrants` | `configuration/local_components/lora_client/OnboardingGate.h:19-24` | over any run a waiter sees at most as many grants as there were waiters before it |
| `OnboardingGate.GrantGoesToTheFront` | `configuration/local_components/lora_client/OnboardingGate.h:114-144` | a free gate is granted exactly to the front, or to anyone when nobody waits, or to the next when the front has used up its count |
| `OnboardingGate.NextFrontHasItsWholeCount` | `configuration/local_components/lora_client/OnboardingGate.h:114-154` | every grant starts the count afresh: at its holder's release, after any calls of others, the front has its whole count before it |
| `OnboardingGate.LiveFrontIsNeverDropped` | `configuration/local_components/lora_client/OnboardingGate.h:108-113` | with up to 32 listeners that each ask at most twice between two asks of the front, the front keeps its place and its next ask gets the gate |
| `OnboardingGate.SilentFrontIsDropped` | `configuration/local_components/lora_client/OnboardingGate.h:125-133` | a front that never asks is out of the line after 67 asks of others, whoever they are |
| `OnboardingGate.DroppedExactlyThen` | `configuration/local_components/lora_client/OnboardingGate.h:125-133` | with nobody new: 2 * count + 2 denials leave the line as it was and the next ask drops the front |
| `OnboardingGate.LeavingFrontCostsTheNext` | `configuration/local_components/lora_client/OnboardingGate.h:149-154` | the denial count outlives a waiting front that leaves by itself, and the next in line is given up on at once |
| `Scheduler.FiresWithinAWeek` | `configuration/local_components/lora_client/Scheduler.cpp:66-102` | a firing at any distance has one within the next 7 days: why 8 days of search are enough |
| `Scheduler.NextOccurrence` | `configuration/local_components/lora_client/Scheduler.cpp:52-107` | for every instant below 2^60 s: the earliest firing of the infinite weekly set strictly after now, lowest index on a tie, 0 exactly when nothing ever fires, if and only if the first day of the epoch does not misfire; and what it returns when it does |
| `Scheduler.LastMissed` | `configuration/local_components/lora_client/Scheduler.cpp:109-160` | for every two instants below 2^60 s, the first day included: the latest firing in (from, to], highest index on a tie, 0 exactly when there is none |
| `Scheduler.FirstDayMisfires` | `configuration/local_components/lora_client/Scheduler.cpp:44-50` | a misfiring input: 100 s into the epoch, one hour east, one entry at 00:30 |
| `Scheduler.MisfiresOnlyOnTheFirstDay` | `configuration/local_components/lora_client/Scheduler.cpp:44-50` | a misfire takes a local day that began before the epoch |
| `Scheduler.MissedIffNextIsDue` | `configuration/local_components/lora_client/Scheduler.cpp:109-160` | last_missed is non-zero exactly when next_occurrence(from) exists and is not after to |
| `ScheduleCalendar.CodeBitIsWeekday` | `configuration/local_components/lora_client/Scheduler.cpp:28-35` | for any calendar in which the 5th of January 1970 is a Monday and each day is followed by the next: the bit taken for an instant is that of its local weekday |
| `ScheduleCalendar.FiresAsWritten` | `configuration/local_components/lora_client/ScheduleText.h:38-48` | from the text to the firing: an accepted entry fires exactly at the minute its time spells, on the days its day word stands for |
| `ScheduleCalendar.OneDayFires` | `configuration/local_components/lora_client/ScheduleText.h:118-128` | "mon" fires on local days 4, 11, 18 and so on and no other, each later name a day later |
| `ScheduleCalendar.NextAsWritten` | `configuration/local_components/lora_client/Scheduler.cpp:52-107` | the scheduler over a text: an answer is the first instant at which the words of any entry fire, no answer means that they never do |
| `ScheduleCalendar.NeverFiresIff` | `configuration/local_components/lora_client/Scheduler.cpp:52-107` | an entry never fires exactly when it is switched off, has no day, or its minute is past midnight |
| `ScheduleCalendar.Mondays` | `configuration/local_components/lora_client/Scheduler.cpp:28-35` | the 5th of January 1970 and the 1st of January 2024 are Mondays |
| `ScheduleTextCode.Parse` | `configuration/local_components/lora_client/ScheduleText.h:134-289` | the cursor over any C string of any length stays inside it, ends, and yields exactly the meaning of the text |
| `ScheduleTextCode.Format` | `configuration/local_components/lora_client/ScheduleText.h:293-347` | for any entries and any buffer length: the pieces that fit, a terminator, nothing behind it |
| `ScheduleTextCode.CopyError` | `configuration/local_components/lora_client/ScheduleText.h:104-118` | message and quoted token cut to fit, always terminated inside the 96 bytes |
| `ScheduleTextCode.ReadTime` | `configuration/local_components/lora_client/ScheduleText.h:160-195` | the loops over the time word decide as `ParseTime` |
| `ScheduleTextCode.ReadDayList` | `configuration/local_components/lora_client/ScheduleText.h:213-230` | the comma loop builds exactly the mask of the named days or reports the first unknown one |
| `ScheduleTextCode.ReadAction` | `configuration/local_components/lora_client/ScheduleText.h:244-280` | the action word decides as `ParseAction` |
| `ScheduleTextLaws.PrintThenParse` | `configuration/local_components/lora_client/ScheduleText.h:293-347` | every schedule of at most eight well-formed entries reads back exactly from its text |
| `ScheduleTextLaws.ParsePrintParse` | `configuration/local_components/lora_client/ScheduleText.h:74-84` | every text is accepted with well-formed entries that survive printing and reading, or rejected with a reason and no entry |
| `ScheduleTextLaws.SetDaysBack` | `configuration/local_components/lora_client/ScheduleText.h:213-230` | day names put together and read again give the same mask, for all 127 masks |
| `ScheduleText.WholeIffItFits` | `configuration/local_components/lora_client/ScheduleText.h:298-309` | the printed text is whole if and only if it and its terminator fit the buffer |
| `ScheduleTextRoom.EnoughForAll` | `configuration/local_components/lora_client/ScheduleText.h:293-347` | 351 bytes hold every schedule the parser can produce |
| `ScheduleTextRoom.NothingLessIsEnough` | `configuration/local_components/lora_client/ScheduleText.h:293-347` | some such schedule has 350 characters |
| `ScheduleTextRoom.CutPercentageMisleads` | `configuration/local_components/lora_client/ScheduleText.h:339-343` | a buffer that ends inside "position:100" holds the text of a schedule that moves to 1 percent |
| `ScheduleTextRoom.EchoBufferCanMislead` | `configuration/local_components/loracover/text/schedule_text.cpp:11-18` | the 240-byte echo buffer does this to a schedule of six entries: the echoed text is accepted and means something else |
| `ScheduleTextCut.ReadsBackIffWhole` | `configuration/local_components/lora_client/ScheduleText.h:293-347` | for every well-formed schedule and every buffer: the printed text reads back as the schedule if and only if it is whole |
| `ScheduleTextCut.CutAcceptedIff` | `configuration/local_components/lora_client/ScheduleText.h:293-347` | a text that does not fit is accepted if and only if it is cut between two entries or in the 100 of a percentage |
| `ScheduleTextCut.DroppedEntriesMislead` | `configuration/local_components/loracover/text/schedule_text.cpp:11-18` | cut between entries it is accepted as the entries before the cut, every later one silently gone |
| `ScheduleTextCut.CutHundredMisleads` | `configuration/local_components/lora_client/ScheduleText.h:298-309` | cut in a 100 it is accepted with 1 or 10 percent there, every later entry gone |
| `ScheduleEntryCut.EntryCutIsBad` | `configuration/local_components/lora_client/ScheduleText.h:298-309` | an entry cut anywhere else (in a time, where two digits go out together or not at all, in its days, its action or another percentage) is refused |
| `ScheduleEntryCut.EntryCutIsPercent` | `configuration/local_components/lora_client/ScheduleText.h:339-343` | an entry cut in its 100 is read with what is left of it |
| `ScheduleCutSizes.BetweenIff` | `configuration/local_components/lora_client/ScheduleText.h:311-347` | by the printed sizes alone: which buffers end between entries |
| `ScheduleCutSizes.InHundredIff` | `configuration/local_components/lora_client/ScheduleText.h:311-347` | and which end in the 100 of an entry |
| `ScheduleTextRoom.CaseDoesNotMatter` | `configuration/local_components/lora_client/ScheduleText.h:38-48` | letter case changes neither acceptance nor the entries |
| `ScheduleGrammar.NumberIsValue` | `configuration/local_components/lora_client/ScheduleText.h:179-189` | the digit loop gives the positional value of a digit string and fails on any other |
| `ScheduleGrammar.TimeIff` | `configuration/local_components/lora_client/ScheduleText.h:160-195` | a time is accepted as a minute if and only if it is three or four digits around a colon, hour below 24 and minute below 60, either of any width and either empty |
| `ScheduleGrammar.DaysIff` | `configuration/local_components/lora_client/ScheduleText.h:209-230` | a days word is accepted as a mask if and only if it says one of the three words, or lists names between commas with perhaps one comma more, and these are its days |
| `ScheduleGrammar.ActionIff` | `configuration/local_components/lora_client/ScheduleText.h:244-280` | an action is accepted if and only if it says open, close or stop, or position: with one or more digits of value at most 100 |
| `ScheduleGrammar.EntryIff` | `configuration/local_components/lora_client/ScheduleText.h:159-287` | three words are read as an entry if and only if they spell it |
| `ScheduleGrammar.MeaningIff` | `configuration/local_components/lora_client/ScheduleText.h:134-289` | a text is accepted as a schedule if and only if it has at most eight entries and each spells its own |
| `ScheduleGrammar.AcceptedIff` | `configuration/local_components/lora_client/ScheduleText.h:134-289` | exactly which texts are accepted |
| `ScheduleGrammar.DocumentedIff` | `configuration/local_components/lora_client/ScheduleText.h:38-45` | an accepted entry is one of the documented grammar exactly when its time is two digits, a colon and two digits and its day list does not end in a comma |
| `ScheduleGrammar.DocumentedIsReadable` | `configuration/local_components/lora_client/ScheduleText.h:38-45` | every documented entry is accepted |
| `ScheduleDocumented.DocumentedTextIff` | `configuration/local_components/lora_client/ScheduleText.h:38-48` | any text is one the grammar derives if and only if each of its entries is documented, exactly one semicolon stands between neighbours and none before or behind; blanks of any kind and number anywhere between words |
| `ScheduleDocumented.DocumentedAcceptedIff` | `configuration/local_components/lora_client/ScheduleText.h:38-52` | a documented text is accepted if and only if it has at most eight entries |
| `ScheduleReasons.RefusedFor` | `configuration/local_components/lora_client/ScheduleText.h:134-289` | a refused text tells of the first entry that stops it: the ninth, or the first of the eight before it that cannot be read, with that entry's own reason |
| `ScheduleReasons.FirstBadWord` | `configuration/local_components/lora_client/ScheduleText.h:159-287` | an entry is refused exactly when one of its words spells nothing, for the first such word; a missing word is told by the word before it |
| `ScheduleReasons.TimeReasonIff` | `configuration/local_components/lora_client/ScheduleText.h:160-195` | bad hour, bad minute, out of range: by what stands before and behind the colon |
| `ScheduleReasons.ExpectedTimeIff` | `configuration/local_components/lora_client/ScheduleText.h:159-172` | HH:MM is asked for exactly when the word has not four or five characters with a colon among them |
| `ScheduleReasons.UnknownDayIff` | `configuration/local_components/lora_client/ScheduleText.h:209-230` | the day quoted is the first name between commas that is none |
| `ScheduleReasons.PositionReasonIff` | `configuration/local_components/lora_client/ScheduleText.h:249-275` | needs a percentage, bad, above 100: above exactly when the digits pass 100 before anything else comes |
| `ScheduleReasons.UnknownActionIff` | `configuration/local_components/lora_client/ScheduleText.h:244-257` | an action is unknown exactly when it is none of the three words, not "position" and does not start with "position:" |
| `ScheduleReasons.DocumentedTexts` | `configuration/docs/schedule-text-syntax.md:66-78` | the documented messages, word by word |
| `ScheduleReasons.MissingWords` | `configuration/docs/schedule-text-syntax.md:66-78` | two of the documented reasons differ: behind "06:00" the days are missing, and a missing action is told by the day word |
| `ScheduleGrammar.AnySeparators` | `configuration/local_components/lora_client/ScheduleText.h:147-150` | any blanks and semicolons stand between entries, none of them needed to be a semicolon |
| `ScheduleGrammar.WovenAcceptedIff` | `configuration/local_components/lora_client/ScheduleText.h:147-150` | so such a text of up to eight entries is accepted exactly when each entry is |
| `ScheduleGrammar.EmptyHourAndMinute` | `configuration/local_components/lora_client/ScheduleText.h:160-195` | ":059" is read as 00:59 and "012:" as 12:00; neither is documented |
| `ScheduleGrammar.BlankSeparates` | `configuration/local_components/lora_client/ScheduleText.h:147-150` | two entries with only a blank between them are accepted |
| `ScheduleGrammar.TrailingCommaIsAccepted` | `configuration/local_components/lora_client/ScheduleText.h:213-230` | "mon," is Monday, and not documented |
| `ScheduleWords.TriplesBack` | `configuration/local_components/lora_client/ScheduleText.h:144-237` | words joined with single separators come apart as the same words |
| `MacWire.EncodeHeader` | `configuration/local_components/lora_client/MacWire.h:223-259` | 0 and nothing written exactly when the header does not fit or is not encodable; else its bytes at the front and the rest of the buffer untouched |
| `MacWire.DecodeFrame` | `configuration/local_components/lora_client/MacWire.h:170-218` | reads exactly `Decode` of the buffer's first len bytes |
| `MacWire.DecodeEncode` | `configuration/local_components/lora_client/MacWire.h:170-259` | decode after encode, with any body and tag: every present field, the body's place and length |
| `MacWire.EncodeDecode` | `configuration/local_components/lora_client/MacWire.h:170-259` | re-encoding any decoded frame reproduces its header bytes |
| `MacWire.HeaderIsInjective` | `configuration/local_components/lora_client/MacWire.h:223-259` | equal header bytes mean equal present fields |
| `MacWire.LayoutOnTheAir` | `configuration/local_components/lora_client/MacWire.h:23-40` | the layout byte by byte: every field at its place, its highest byte first |
| `MacWire.FrameIsItsParts` | `configuration/local_components/lora_client/MacWire.h:23-40` | a decodable frame is its header, its body and, where authenticated, a tag of eight bytes |
| `MacWire.RoundDeltaIsTrue` | `configuration/local_components/lora_client/MacWire.h:304-311` | the 24-bit difference is the true one for rounds less than 2^23 apart |
| `BurstFrame.WireBurstFrame.constructor` | `configuration/local_components/lora_tracker/burst_frame.h:38-54` | a frame that decodes and is not FLEET is usable and starts from its own fields |
| `BurstFrame.WireBurstFrame.SetLayout` | `configuration/local_components/lora_tracker/burst_frame.h:107-129` | the overlapping moves insert or remove exactly the six stamp bytes |
| `BurstFrame.WireBurstFrame.SetBurstCount` | `configuration/local_components/lora_tracker/burst_frame.h:61-66` | the frame after the call is `Apply` |
| `BurstFrame.WireBurstFrame.SetCopyIndex` | `configuration/local_components/lora_tracker/burst_frame.h:67-71` | the frame after the call is `Apply` |
| `BurstFrame.WireBurstFrame.SetStamp` | `configuration/local_components/lora_tracker/burst_frame.h:72-82` | the frame after the call is `Apply`, closed when there is no room |
| `BurstFrame.StampCopyKeepsTheFrame` | `configuration/local_components/lora_client/MacWire.h:281-302` | a rewrite changes position, ON_MARK and stamp to what was asked and nothing else |
| `BurstFrame.SameFrameDecodesAlike` | `configuration/local_components/lora_tracker/burst_frame.h:23-28` | such a frame decodes with the same addresses, FCNT, PORT, nonce, acked id, other flags, body and tag |
| `BurstFrame.InsertThenRemove` | `configuration/local_components/lora_tracker/burst_frame.h:105-129` | inserting the stamp bytes and removing them restores the frame; insertion fits exactly up to 249 bytes |
| `BurstFrame.RunKeepsSync` | `configuration/local_components/lora_tracker/burst_frame.h:61-136` | over any sequence of in-range calls with room the bytes show the last value of every per-copy field |
| `BurstFrame.BurstWritesOnlyItsCopyFields` | `configuration/local_components/lora_tracker/burst_frame.h:61-136` | opened, worked on and read back: exactly the per-copy fields differ, and they are the last ones asked for |
| `BurstFrame.LateOffsetFreezesTheCopy` | `configuration/local_components/lora_client/MacWire.h:291-292` | an offset above 24 bits is stored but refused: no later copy is rewritten although the frame stays usable; otherwise every call keeps bytes and fields in step |
| `BurstFrame.ClosedStaysClosed` | `configuration/local_components/lora_tracker/burst_frame.h:131-136` | a frame closed for want of room keeps its bytes whatever is called |
| `BurstFrame.ClosedIsVerbatimIff` | `configuration/local_components/lora_tracker/burst_frame.h:105-136` | a call keeps the bytes of a frame that is not open if and only if it does not change the layout or has no room to |
| `BurstFrame.ClosedRunIsVerbatim` | `configuration/local_components/lora_tracker/burst_frame.h:30-33` | over any run of calls none of which changes the layout such a frame goes out verbatim |
| `BurstFrame.FleetIsRestamped` | `configuration/local_components/lora_tracker/burst_frame.h:30-33` | a FLEET frame with room: not open, and one stamped call changes its bytes |
| `BurstFrame.SomeFleetFrame` | `configuration/local_components/lora_tracker/burst_frame.h:30-33` | there is such a frame |
| `TxQueue.Queue.FindBest` | `configuration/local_components/lora_client/TxQueue.h:138-146` | the scan finds the best due place |
| `TxQueue.PopTakesAHead` | `configuration/local_components/lora_client/TxQueue.h:178-186` | a pop takes the head of its priority's list, every better list is empty, the others do not change |
| `TxQueue.DrainIsStableSort` | `configuration/local_components/lora_client/TxQueue.h:123-186` | draining a due queue gives Immediate, Normal, Background, each in push order: nothing lost or doubled |
| `TxQueue.DrainFollowsPops` | `configuration/local_components/lora_client/TxQueue.h:136-153` | the drain is what pops do one by one |
| `TxQueue.Queue.Push` | `configuration/local_components/lora_client/TxQueue.h:99-110` | appends to the list the places stand for, refused exactly when all sixteen are used or the slot is invalid; numbers keep growing in push order if and only if the new one is above every live one |
| `TxQueue.PushNumberedIff` | `configuration/local_components/lora_client/TxQueue.h:99-110` | the same condition on the places, both directions |
| `TxQueue.Queue.PopDue` | `configuration/local_components/lora_client/TxQueue.h:136-153` | removes one due frame and nothing else, or changes nothing; while numbers grow in push order it is the first-pushed of the best priority |
| `TxQueue.WrappedNumberJumpsTheQueue` | `configuration/local_components/lora_client/TxQueue.h:181-186` | with numbers 2^32 - 1 and 0 the frame pushed second is taken first |
| `TxQueue.Queue.NextEligibleUs` | `configuration/local_components/lora_client/TxQueue.h:158-169` | exactly the first instant from now on at which a pop succeeds |
| `PhaseLock.GcdU32` | `configuration/local_components/lora_client/ModeTestPolicy.h:147-156` | the loop computes the gcd |
| `PhaseLock.Bezout` | `configuration/local_components/lora_client/ModeTestPolicy.h:120-146` | the gcd is an integer combination of the two periods |
| `PhaseLock.EveryWindowIsHit` | `configuration/local_components/lora_client/ModeTestPolicy.h:120-146` | the gcd is at most the window exactly when, for every anchor offset, some mark falls inside the window |
| `PhaseLock.DeafIff` | `configuration/local_components/lora_client/ModeTestPolicy.h:120-146` | for all periods at their true length: some anchor offset hears no mark ever if and only if 1000 times the gcd of the milliseconds is above the window |
| `PhaseLock.GcdScales` | `configuration/local_components/lora_client/ModeTestPolicy.h:158-167` | the gcd in microseconds is 1000 times the gcd in milliseconds |
| `PhaseLock.PeriodsPhaseLock` | `configuration/local_components/lora_client/ModeTestPolicy.h:158-167` | the answer for all periods, wrapping ones included, and for each window exactly when it is right: the window does not lie between the gcd the code takes and the true one |
| `PhaseLock.RightIffSameGcd` | `configuration/local_components/lora_client/ModeTestPolicy.h:158-167` | for all non-zero periods the test is right for every window if and only if the gcd of the wrapped products is 1000 times the gcd of the milliseconds |
| `PhaseLock.ShortPeriodsAreRight` | `configuration/local_components/lora_client/ModeTestPolicy.h:158-167` | in particular for all periods whose microseconds fit 32 bits |
| `PhaseLock.WrappedPeriodFoolsTheTest` | `configuration/local_components/lora_client/ModeTestPolicy.h:165` | a grid of 4295 s and windows 500 ms apart: the product wraps, the gcd becomes 32 us and the test misses a lock |
| `PhaseLock.WrappedToZeroLooksLocked` | `configuration/local_components/lora_client/ModeTestPolicy.h:165` | a grid of 2^29 ms: the product wraps to 0 and the test finds a lock that is not there |

## Left out

- Cryptography (PSA calls, AES-CTR, CMAC, key derivation): a seal or tag is the key, id and counter that reach it.
- Radio driver, timers, FreeRTOS, preferences and logging: time is an input, flash a snapshot, tasks are interleaved steps.
- Key handles: keys are identities of their own; a handle number reused after destroy is not modelled.
- KeyEpochs.RetagUsesTheSealingKeys: K_AUTH login frames are not modelled, because no session key reaches them.
- KeystreamRuns.KeystreamIsUsedOnce: one peer; a failing seal is left out there, since it only passes fewer frames.
- FcntRuns.CountersAreUsedOnce: a callback is cut at its locks, not inside them; plaintext frames are not counted, because no counter block is used for them.
- The three seeded searches for a first mark share one method here; the source writes the two loops out three times.
- GridState.NextBeaconT0Us: a beacon cadence above 1733333 rounds (30 days) is excluded; `validate` admits any 32-bit cadence, and from 30744574 rounds on the code's product of stride and rate can leave int64.
- ModeBFleet.BoundedWaiting: counts the serialised part only; settle time and jitter run in parallel before the queue.
- ModeBBackoff.EveryStartKeepsTheBackoff: restart() forgets the history by design and is excluded.
- BootMargin.HeardAfterEveryBeacon: one session; a login restarts both counters. The unacknowledged-ladder relogin rule is left out.
- Scheduler.NextOccurrence: `local_minute_of_day` is not modelled; instants from 2^60 s on are excluded.
- ScheduleTextCode.Parse: a null pointer, which the code takes for an empty text, is not modelled; the shared error texts are compared as bytes.
- ScheduleTextCode.Format: entries are any values of their field widths; `count` is the length of the list.
- SupersedeTable, armDelayUs, validate's refusal order, sampling helpers, beaconMeansGridLost, regridDue, the gate's assess(): one-branch decisions over facts proved here.
- BurstFrame.WireBurstFrame.SetStamp: requires a frame long enough for its layout (see Premises); `seal()` is not modelled, as the tag is cryptography.
- BurstFrame.WireBurstFrame.SetLayout: the same premise.
- Protobuf stubs, HubWire, HubFrames, PortTable, MacHdrCodec: field-by-field mapping.
- WakeClockFit: its sums are doubles.
- TimedModePolicy, MacSublayers, PendingData, PendingShadow, SleepModel, TimeSyncPolicy, MacFunnel, SweepAnalysis, SingleShotAckWait, StackWatch, Mac1Freshness: decision tables and counters.
- Tools, diagrams and configuration validators.
