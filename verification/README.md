# Verified model of the L2 oracle firmware

The firmware watches compute nodes by heartbeats, agrees on their status through Raft, and tells them
about failures. This project models its failure detector, its bridge to the Raft library, its two
transports and its inbox queues, and proves what they keep over whole runs.

| file | what it models |
|---|---|
| `Bytes.dfy`, `WireFormat.dfy` | machine integers with explicit wrap-around, little-endian fields, memory copies |
| `HealthState.dfy` | the monitor as a value: its entry points as steps, and runs of steps |
| `HealthMonitor.dfy` | the monitor as the C code has it, one object with fixed arrays, proved to compute those steps |
| `Handlers.dfy` | who proposes what, which ticks do nothing, which ids enter the table |
| `Detection.dfy` | timing: the miss counter, no early and no late detection, recovery, committed statuses |
| `Corroboration.dfy` | what the corroboration matrix means, and what a cross-box DOWN rests on |
| `Commits.dfy`, `LeaderReplay.dfy` | applying committed transitions; how a leader's two status writers fit together |
| `LogEntries.dfy`, `Sideband.dfy` | log entries and observations byte by byte, across any chain of leaders |
| `EntryBuffers.dfy` | ownership of the copied entry data |
| `Inbox.dfy` | the drop-oldest queue under every interleaving |
| `Transport.dfy`, `EthPort.dfy` | Ethernet and UDP framing; receive descriptors and counters |
| `BaudRate.dfy`, `NvicPriority.dfy` | the UART divisor macros and the interrupt priority packing |

Assumptions. Each public call of the monitor is one atomic step. Time stamps are below 2^32. Those of
heartbeats, announcements and ticks never go back within a run: in both drivers they come from one loop
(`firmware/app/main.c:222-249`, `sim/sim_main.c:145-190`). Observation reports are stamped by other code
(`firmware/raft/raft_oracle.c:404-407`), so theirs are not ordered in any way, and a tick may work with a
time read before a report came in. The subtractions wrap as in C. Peer row indices below 8 are checked by
the code and so by the model. The Raft library appears as a leader flag, as proposals handed over, and as
logs that grow, shrink and get copied; it is not part of this model. Numbers: entry type NORMAL is the
library's first enumerator, 0.

What the proofs brought out about the code:

- The sender's cap of 20 bytes on entry data is one more than the record has room for
  (`firmware/raft/raft_oracle.c:74-76`). No reachable entry is long enough to use it:
  `LogEntries.LogsHoldOnlyProposals`.
- An offered entry with a data pointer and length zero is not copied, so releasing it would free memory
  it does not own: `EntryBuffers.OfferKeepsOwningIff`. No reachable entry is like that.
- Committing only a prefix of a leader's pending proposals can roll a status back, and a re-announcement
  can be undone by older proposals. `LeaderReplay.PrefixCanRollBack` and
  `LeaderReplay.ReannouncementCanBeUndone` are runs of a leader that show it;
  `LeaderReplay.PrefixReplayIsNoOpIff` and `LeaderReplay.ReannounceIsHarmlessIff` give the exact conditions.
- A committed UP is worth no more than the replica's own silence: the next tick suspects the node again
  exactly if it has not been heard here for 30 ms, modulo the wrap below (`Detection.CommittedUpIsSuspectedIff`). A replica of
  another box never hears it, so there its silence counts from time zero, whatever was committed before
  (`Detection.CommittedForeignUpIsSuspected`), and it stays accused until the next commit
  (`Detection.SuspicionPersists`). The scenario table in `docs/design.md:878-882` expects a third replica
  to go on reporting UP.
- A committed SUSPECT does not start the 50 ms, because applying it leaves the suspicion time alone
  (`firmware/health/health_table.c:38-41`): a follower's next tick makes the node DOWN at once, however
  lately it was heard (`Detection.CommittedSuspectSkipsTimeout`; the exact condition is
  `Detection.CommittedSuspectFailsIff`). `firmware/health/health_monitor.h:14` promises 50 ms.
- A tick ignores a report stamped later than itself, because the age wraps: `Corroboration.LatestReportCountsIff`.
  A tick working with a time read one millisecond before two reports does not mark a node DOWN that it
  would mark with a fresh one (`Corroboration.FresherReportsDoNotCount`); `firmware/app/main.c:222-249` and
  `sim/sim_main.c:147-190` both tick that way.
- The leader does not count itself as an observer, so reports from one peer never suffice
  (`Corroboration.OnePeerIsNotEnough`); `docs/design.md:281` counts the leader as one of two.
- After 655,360 ms of silence the 16-bit miss counter starts over, and for 30 ms a silent node that is
  UP is not suspected: `Detection.TickSuspectsIff`.
- The simulator delivers EtherTypes that the board filters: `Transport.BackendsAgreeIff`.

Where comments and code disagree the model follows the code: the simulator's header has 12 bytes, not 10
(`firmware/transport/transport_sim.c:5,36`); an AppendEntries record has 28 bytes, not 32
(`firmware/protocol/wire_format.h:117,119`); the confidence byte is a function of the status, not a ratio
(`firmware/protocol/wire_format.h:135`, `firmware/health/health_monitor.c:239-245`); a payload length of
zero and a timeout both return 0 from recv.

## Model

| member | source | states |
|---|---|---|
| HealthState.RunKeepsTable | firmware/health/health_monitor.c:30-43 | over any run of all operations, from both allocators, the table holds at most 16 distinct ids, each at the index it was first given, and never shrinks |
| HealthState.StepKeepsDistinctIds | firmware/health/health_table.c:19-36 | an id is appended only when it is not listed, by announcement or by commit |
| Handlers.FollowerProposesNothing | firmware/raft/raft_oracle.c:251-252 | without the lead no heartbeat or tick hands anything to Raft, and no announcement, commit or report ever does |
| Handlers.RunWithoutLeaderProposesNothing | firmware/raft/raft_oracle.c:251-252 | over any run without the lead nothing is handed to Raft |
| Handlers.LeaderProposesChanges | firmware/health/health_monitor.c:45-68 | a leader's heartbeat or tick hands over one proposal for each record whose status it changed, in table order, with id, box, old and new status, and nothing else |
| Handlers.UnknownHeartbeatIsIgnored | firmware/health/health_monitor.c:120-122 | a heartbeat of an id not in the table has no effect at all |
| Handlers.FirstTickOnlyStarts | firmware/health/health_monitor.c:173-177 | in any run from initialisation the first tick changes no record and proposes nothing, however late it comes |
| Handlers.SameMillisecondIsIgnored | firmware/health/health_monitor.c:179-183 | after a tick and any events without a tick, a second tick at the same time has no effect |
| Handlers.TableListsIntroduced | firmware/health/health_monitor.c:30-43 | over any run from initialisation the table lists exactly the ids announced or committed, or 16 of them |
| HealthMonitor.HealthMonitor.constructor | firmware/health/health_monitor.c:102-111 | a fresh monitor is all zeros |
| HealthMonitor.HealthMonitor.Find | firmware/health/health_monitor.c:21-28 | the loop returns the first index holding the id, or -1 |
| HealthMonitor.HealthMonitor.FindOrAlloc | firmware/health/health_monitor.c:30-43 | an existing index, or a cleared new one, or -1 when 16 are used; other records untouched |
| HealthMonitor.HealthMonitor.ProposeTransition | firmware/health/health_monitor.c:45-68 | only a leader hands over a proposal, with the old status; the local status changes in any case |
| HealthMonitor.HealthMonitor.ProcessHeartbeat | firmware/health/health_monitor.c:113-133 | the in-place update and its proposals are exactly the heartbeat step |
| HealthMonitor.HealthMonitor.ProcessAnnounce | firmware/health/health_monitor.c:135-169 | the in-place update and its acknowledgement are exactly the announce step; a full table changes nothing |
| HealthMonitor.HealthMonitor.IsCorroborated | firmware/health/health_monitor.c:80-98 | the counting loop decides whether the set of fresh accusing rows has at least two members |
| HealthMonitor.HealthMonitor.TickAt | firmware/health/health_monitor.c:185-224 | one pass of the loop changes one index of the three arrays, and proposes exactly its status change |
| HealthMonitor.HealthMonitor.Tick | firmware/health/health_monitor.c:171-225 | the whole tick on the arrays is the tick step on the value, proposals in table order |
| HealthMonitor.HealthMonitor.ApplyCommitted | firmware/health/health_table.c:14-65 | same table and events as the commit step although the counters of a new slot are not cleared: unused slots keep zero counters |
| HealthMonitor.HealthMonitor.GetObservations | firmware/health/health_monitor.c:227-250 | the first eight records, in order, with their statuses and confidences |
| HealthMonitor.HealthMonitor.UpdateCorroboration | firmware/health/health_monitor.c:252-268 | exactly one row and its stamp change, for a peer below 8; ids past the row are skipped |
| Detection.RunKeepsClock | firmware/health/health_monitor.c:171-225 | nothing recorded is ever in the future, and a nonzero miss count needed 10 ms of silence |
| Detection.MissCounterRefinesClosedForm | firmware/health/health_monitor.c:185-194 | in any run, after every tick that reaches the loop, the counter is silence / 10 modulo 2^16 for every node, though it is written only sometimes |
| Detection.TickSuspectsIff | firmware/health/health_monitor.c:188-202 | an UP node is suspected exactly when its silence modulo 655,360 ms is at least 30 ms |
| Detection.DetectionNeverEarly | firmware/health/health_monitor.c:196-218 | without a commit for the node, SUSPECT never before 30 ms and DOWN never before 80 ms of silence, over any run |
| Detection.SilentNodeIsDetected | firmware/health/health_monitor.h:44-46 | with ticks at most G ms apart a silent node is off UP from 30 + G ms, and DOWN from 80 + 2G ms if whenever DOWN is due (50 ms SUSPECT) the tick may mark it: a follower's, same box, or corroborated then |
| Detection.OwnNodeFailsAtTick | firmware/health/health_monitor.c:84-88 | a looping tick makes a SUSPECT node of the own box DOWN exactly from 50 ms of suspicion on, for leader and follower alike, whatever was reported |
| Detection.OwnNodeIsDown | firmware/health/health_monitor.c:196-218 | with ticks at most G ms apart a silent node of the own box is DOWN from 80 + 2G ms on, whatever the leader flags and reports |
| Detection.AnnouncedNodeIsDown | firmware/health/health_monitor.c:135-168 | the same for a node from its announcement on, whatever the table held about it before |
| Detection.HeardNodeStaysUp | firmware/health/health_monitor.c:113-133 | a heartbeat recovers a suspected or failed node, and no run of the next 30 ms takes it off UP |
| Detection.SuspicionPersists | firmware/health/health_monitor.c:196-223 | only a heartbeat, announcement or commit for the node itself ends a suspicion; otherwise it stays or becomes DOWN |
| Detection.CommittedUpIsSuspectedIff | firmware/health/health_table.c:28-41 | after a committed UP, for a node listed or with room for it, the next tick that reaches the loop leaves it listed SUSPECT if the silence since it was last heard here, modulo 655,360 ms, is at least 30 ms, and UP otherwise |
| Detection.UnheardIsNeverSeen | firmware/health/health_table.c:28-36 | over any run without a heartbeat or announcement of the node, commits leave it last seen at zero |
| Detection.CommittedForeignUpIsSuspected | firmware/health/health_table.c:28-40 | over any run in which a node is never heard, listed or not, a committed UP for it is SUSPECT after the next tick exactly when the clock modulo 655,360 is at least 30 |
| Detection.CommittedSuspectFailsIff | firmware/health/health_table.c:38-41 | after a committed SUSPECT a follower's next looping tick makes the node DOWN if 50 ms have passed since this monitor's own last suspicion of it, or since time zero, and leaves it SUSPECT otherwise |
| Detection.CommittedSuspectSkipsTimeout | firmware/health/health_table.c:38-41 | over any run without an earlier commit for it, a node UP or not listed is DOWN after a committed SUSPECT and a follower's tick, exactly from time 50 on |
| Corroboration.MatrixIsReportHistory | firmware/health/health_monitor.c:252-268 | each cell is the peer's last statement about the node and each stamp its last report, after any run |
| Corroboration.LatestReportCountsIff | firmware/health/health_monitor.c:90-97 | over any run a peer's row counts exactly when its last word on the node is SUSPECT or worse and its latest report is at most 500 ms older than the tick's stamp, or later by at least 2^32 - 500 ms; any other later report is ignored |
| Corroboration.CrossBoxDownIffCorroborated | firmware/health/health_monitor.c:204-210 | over any run, whatever its time stamps, a leader's tick marks a cross-box node DOWN exactly when it has been SUSPECT for 50 ms and at least two distinct peers last called it SUSPECT or worse in reports whose wrapped age is at most 500 ms |
| Corroboration.OnePeerIsNotEnough | firmware/health/health_monitor.c:90-97 | over any run with reports from one peer only, no cross-box node goes DOWN |
| Corroboration.FresherReportsDoNotCount | firmware/app/main.c:222-249 | a run of a leader in which two reports stamped 100 let a tick at 100 mark the node DOWN, and stamped 101 do not |
| Corroboration.VouchedNodeIsDown | firmware/health/health_monitor.c:204-210 | with ticks at most G ms apart, a silent node of another box is DOWN on a leader from 80 + 2G ms on, if two peers accuse it at every leader's tick from 80 ms of silence on |
| Corroboration.StatementIsLatestClaim | firmware/health/health_monitor.c:234-248 | when reports are a peer's successive observations, its last statement is what its latest report says: a node once reported is reported ever after |
| Corroboration.DownMeansTwoPeersSawIt | firmware/health/health_monitor.c:80-98 | over any run with such reports, cross-box DOWN means two peers' own tables held the node SUSPECT or worse at their latest report, whose wrapped age is at most 500 ms |
| Commits.ApplyAllIsOverlay | firmware/health/health_table.c:14-41 | applying a list gives each listed record its last commitment and changes nothing else in it |
| Commits.RecordedIffRoom | firmware/health/health_table.c:28-36 | every mentioned node ends up recorded exactly when known and mentioned ids together are at most 16 |
| Commits.ReplicasConverge | firmware/health/health_table.c:38-41 | two replicas in any states, with room, that apply the same list show its last status and term for every node it mentions |
| Commits.EventsAreDestutteredCommits | firmware/health/health_table.c:46-64 | the health events for a node are its committed statuses with repeats removed, from its current status or UP |
| Commits.FailureEventsAreDown | firmware/health/health_table.c:48-58 | every event carries a transition and term of the list and is a failure event exactly for DOWN |
| Commits.EventsCarryLastSeen | firmware/health/health_table.c:46-64 | no event is sent without a transport, and each carries the time the node was last heard here before the list was applied, zero if it was not listed |
| Commits.NewRecordsAreMadeByCommits | firmware/health/health_table.c:28-36 | a record a list of commits adds has the box of the first one about the node, type 0, and was never heard or suspected |
| LeaderReplay.ReplayIsNoOpIff | firmware/health/health_table.c:38-41 | committing a list leaves a monitor as it was, up to status_term, exactly when each node has the status the list last asks for |
| LeaderReplay.LeaderStepIsFaithful | firmware/health/health_monitor.c:45-68 | each status change of a leader's step has a proposal, and the last proposal for a node carries its new status |
| LeaderReplay.DrainsAreInvisible | firmware/health/health_monitor.c:62-67 | over any alternation of a leader's steps and commits of all that is pending, the commits are no-ops and the monitor is what the local steps alone make of it, up to status_term |
| LeaderReplay.PrefixReplayIsNoOpIff | firmware/health/health_monitor.c:62-67 | a partial commit is a no-op exactly when for each of its nodes it ends with the status the whole list ends with |
| LeaderReplay.ReannounceIsHarmlessIff | firmware/health/health_monitor.c:146-153 | after a re-announcement the pending list is a no-op exactly when it does not end with another status than UP for the node |
| LeaderReplay.PrefixCanRollBack | firmware/raft/raft_oracle.c:106-127 | a leader's run from initialisation (announce, silence, heartbeat) after which committing the first of two pending proposals turns an UP node SUSPECT |
| LeaderReplay.ReannouncementCanBeUndone | firmware/health/health_monitor.c:146-153 | a leader's run from initialisation after which a re-announcement makes the node UP and committing what is pending makes it SUSPECT again |
| LogEntries.SendAppendEntries | firmware/raft/raft_oracle.c:39-85 | the payload built in the 44-byte buffer is the encoding, and no copy leaves the buffer |
| LogEntries.PayloadBytes | firmware/protocol/wire_format.h:102-126 | every byte of the payload: the three words, the count, and in the record term, zero index, type, data from byte 25 on, zeros |
| LogEntries.DecodeOfAnyBytes | firmware/raft/raft_oracle.c:336-371 | any payload is refused exactly below 16 bytes, and holds an entry, of 19 data bytes, exactly if it says so and has 44 bytes |
| LogEntries.EncodeRoundTrip | firmware/raft/raft_oracle.c:336-371 | decoding an encoded message gives its 32-bit header fields and its first entry, data zero-padded to 19 bytes |
| LogEntries.HopsAreOneHop | firmware/raft/raft_oracle.c:63-80 | any number of hops is one hop |
| LogEntries.TransitionSurvivesHops | firmware/raft/raft_oracle.c:106-127 | a proposal read by a replica after any chain of leaders has the target, box, old and new status and term proposed |
| LogEntries.TransitionBytes | firmware/protocol/wire_format.h:159-167 | in any leader's payload, any number of hops on, bytes 25 to 36 are node, box, old and new status, term and time of the proposal |
| LogEntries.OtherEntriesAreSkipped | firmware/raft/raft_oracle.c:113-115 | a committed entry of another type, or below 12 bytes, changes nothing |
| LogEntries.LogsHoldOnlyProposals | firmware/raft/raft_oracle.c:263-271 | over any run of proposing, replicating, truncating and compacting, every entry of every log is a 12- or 19-byte copy of something proposed and no send overruns its record |
| LogEntries.ApplyLogIsApplyAll | firmware/raft/raft_oracle.c:106-127 | applying copies of proposals, each any number of hops old, is applying the proposals |
| LogEntries.WireReplicasConverge | firmware/raft/raft_oracle.c:350-371 | replicas holding different copies of the same proposals end with the same status and term for every node mentioned |
| Sideband.ResponseRoundTrip | firmware/protocol/wire_format.h:144-154 | the three words, count and observations are read back from the 48-byte response, and all other bytes are zero |
| Sideband.ObservationBytes | firmware/health/health_monitor.c:227-250 | each of the first eight records travels as id, status, 255, 128 or 0 for UP, SUSPECT or anything else, and a zero |
| Sideband.ShortResponses | firmware/raft/raft_oracle.c:394-408 | below 48 bytes nothing is reported, and Raft hears of it exactly from 12 bytes on |
| Sideband.SidebandDelivers | firmware/raft/raft_oracle.c:376-408 | the leader's row for the peer shows the peer's statuses for its first eight nodes with id below 16, every other cell and row is unchanged, an empty table changes nothing, and Raft gets the three words as sent |
| EntryBuffers.EntryStore.OfferEntry | firmware/raft/raft_oracle.c:129-145 | the data is copied to a block of its own, or the entry is refused |
| EntryBuffers.EntryStore.ReleaseEntry | firmware/raft/raft_oracle.c:147-158 | the entry's block is freed, or the bad free is recorded |
| EntryBuffers.EntryStore.ClearLog | firmware/raft/raft_oracle.c:166-170 | the callback on every entry, in order |
| EntryBuffers.OfferKeepsOwningIff | firmware/raft/raft_oracle.c:138-143 | an offer keeps ownership intact exactly when data present is not empty |
| EntryBuffers.ClearFreesAll | firmware/raft/raft_oracle.c:166-170 | after clearing nothing is live and nothing was freed wrongly |
| EntryBuffers.BuffersRefineValues | firmware/raft/raft_oracle.c:129-170 | over any run live blocks are exactly the entries' own, unshared, never freed twice, and the log reads as one that holds the bytes themselves: reusing the message buffer never shows |
| Inbox.Queue.Post | firmware/app/main.c:144-157 | whatever the consumer takes between the calls, the message ends up newest in the queue and at most one is dropped, none if there was room |
| Inbox.EveryInterleavingHolds | firmware/app/main.c:144-157 | under every interleaving the second send succeeds, the queue is a suffix of what was posted, and delivered and dropped are in-order subsequences of the rest |
| Inbox.NothingIsLost | firmware/app/main.c:185-194 | delivered, dropped and queued messages are together exactly those posted and settled |
| Inbox.NewestAreKept | firmware/app/main.c:146-149 | without a consumer the queue is the newest messages, as many as fit |
| Transport.BuildFrame | firmware/transport/transport_eth.c:153-190 | the frame in a buffer with leftovers is header, payload and zero padding to 60 bytes, byte by byte; oversized payloads are refused |
| Transport.FrameBytes | firmware/protocol/wire_format.h:228-248 | every byte of the frame: broadcast destination, source 02:CA:FE:box:00:01, big-endian EtherType, version 0x10, type, node, box, zero term, little-endian length, payload, zeros |
| Transport.HeaderFields | firmware/protocol/wire_format.h:228-248 | the header's 24 bytes field by field, the EtherType big-endian, the length little-endian |
| Transport.DatagramBytes | firmware/transport/transport_sim.c:60-69 | every byte of the datagram: version 0x10, type, node, box, zero term, little-endian length and EtherType, payload |
| Transport.EthParseOfAnyBytes | firmware/transport/transport_eth.c:252-306 | whatever the bytes: filtered exactly with 14 bytes and a foreign EtherType; accepted exactly with 24 bytes, one of the three EtherTypes and version nibble 1; rejected otherwise |
| Transport.SimParseOfAnyBytes | firmware/transport/transport_sim.c:96-118 | whatever the bytes: accepted exactly with 12 bytes and version nibble 1, for any EtherType |
| Transport.BuildDatagram | firmware/transport/transport_sim.c:52-72 | the datagram is the 12-byte header and the payload, byte by byte; oversized payloads are refused |
| Transport.EthDelivers | firmware/transport/transport_eth.c:252-306 | from any buffer starting with the frame the receiver reads EtherType, type, source and as much payload as it has room for, never padding |
| Transport.SimDelivers | firmware/transport/transport_sim.c:96-118 | the same for datagrams, for any EtherType |
| Transport.BackendsAgreeIff | firmware/transport/transport_sim.c:101-118 | both backends deliver the same message exactly for the three oracle EtherTypes |
| EthPort.Port.Release | firmware/transport/transport_eth.c:210-222 | walking the chain gives back exactly its descriptors |
| EthPort.Port.Receive | firmware/transport/transport_eth.c:236-307 | by the frame's bytes exactly one counter goes up: filtered for a foreign EtherType, received for a frame of ours, dropped for any other; the whole chain goes back to the DMA engine on every path |
| EthPort.Port.Send | firmware/transport/transport_eth.c:153-206 | an attempt is counted once as sent or failed, an oversized one nowhere; a busy descriptor's buffer is not touched; what is sent is the frame byte by byte |
| EthPort.Port.Poll | firmware/transport/transport_eth.c:236-304 | a call of recv is one step of the ring: a call that fetches nothing changes nothing, any other takes the oldest waiting frame, counts it, and gives its chain back |
| EthPort.ReceptionIsConserved | firmware/transport/transport_eth.c:236-304 | over any run of frames coming in and calls of recv, the frames stored are those fetched followed by those waiting; each counter is the number of fetched frames that belong to it by their bytes, modulo 2^32, and the three numbers add up; a descriptor is away from the DMA engine exactly while a waiting frame uses it, and only one does |
| EthPort.IdleRingIsFree | firmware/transport/transport_eth.c:210-222 | whenever nothing waits, every stored frame was fetched and all four descriptors are the DMA engine's |
| BaudRate.Brr16IsRounded | firmware/drivers/STM32F2xx_HAL_Driver/Inc/stm32f2xx_hal_uart.h:860-868 | mantissa, carry and fraction together are the divisor rounded to sixteenths |
| BaudRate.Brr16Error | firmware/drivers/STM32F2xx_HAL_Driver/Inc/stm32f2xx_hal_uart.h:860-868 | the register differs from pclk / baud by a value in (-0.64, 0.48] |
| BaudRate.Brr8Error | firmware/drivers/STM32F2xx_HAL_Driver/Inc/stm32f2xx_hal_uart.h:870-878 | for 8x oversampling the divisor read back differs by a value in (-0.56, 0.48] |
| NvicPriority.EncodeRoundTrip | firmware/drivers/CMSIS/Include/core_cm3.h:1686-1724 | the encoding fits the implemented bits and decoding gives the pair back |
| NvicPriority.RegisterFields | firmware/drivers/CMSIS/Include/core_cm3.h:1686-1699 | in the priority register the preemption priority, cut to 7 - group bits, stands above bit `group`, and the subpriority, cut to the implemented bits below it, stands there |
| NvicPriority.NoSubpriority | firmware/drivers/CMSIS/Include/core_cm3.h:1692-1698 | with the point below the implemented bits the encoding is the preemption priority cut to those bits, whatever the subpriority |
| NvicPriority.EncodeIsLexicographic | firmware/drivers/CMSIS/Include/core_cm3.h:1686-1699 | encoded order is the lexicographic order of preemption priority and subpriority |
| NvicPriority.Decode | firmware/drivers/CMSIS/Include/core_cm3.h:1713-1724 | of any priority that fits the implemented bits, the only pair in range that encodes to it |

## Left out

- HealthState.Corroborated: ids of 16 and above count as uncorroborated for other boxes; the C code reads outside its matrix there, which has no defined result.
- HealthMonitor.HealthMonitor.IsCorroborated: a node of another box has an id below 16, for that reason.
- HealthMonitor.HealthMonitor.TickAt: nodes of other boxes have ids below 16, for that reason.
- HealthMonitor.HealthMonitor.Tick: nodes of other boxes have ids below 16, for that reason.
- Corroboration.CrossBoxDownIffCorroborated: the node has an id below 16, for that reason.
- Corroboration.OnePeerIsNotEnough: the node has an id below 16, for that reason.
- Corroboration.DownMeansTwoPeersSawIt: the node has an id below 16, for that reason.
- Corroboration.VouchedNodeIsDown: the node has an id below 16, for that reason.
- Detection.SilentNodeIsDetected: needs G + 30 ms to be at most the 655,360 ms at which the miss counter wraps, since a tick landing in the 30 ms after a wrap suspects nobody.
- LeaderReplay.DrainsAreInvisible: every proposal is taken to be accepted by the library; one it refuses leaves no log entry although the local status changed.
- Sideband.HandleResponse: a count above 8 is excluded, as only other senders could produce it and the C code would read past the payload.
- Transport.SimParse: a length field above 64 in a datagram is excluded for the same reason.
- EthPort.Port.Receive: the received bytes and the descriptor chain are parameters; the HAL's own walk of the ring is not modelled.
- EthPort.Port.Arrive: which descriptors the DMA engine picks is a parameter; that it leaves alone those it does not own is assumed.
- NvicPriority.Encode: 32-bit masks and shifts are modelled by remainders and products, which agree because no intermediate value reaches 2^32.
- BaudRate.Brr16: inputs whose 32-bit products overflow are excluded.
- The Raft library (elections, commit rule, membership entries), and with it any claim about terms: received terms are filled in from the local node.
- Vote messages, the requests and responses of which only copy fields.
- Preemption inside a monitor call: the raft and health tasks share the monitor without a lock.
- Late commits after a local recovery: the timing theorems cover segments without a commit for the node, the replay theorem a leader whose pending list is committed as a whole.
- A peer that restarts with an empty table: its old cells stay in the leader's matrix until it mentions those nodes again.
- The payload bytes of announcement acknowledgements and health events; the model has their fields.
- Console output, LEDs, statistics printing, task and timer setup, PHY and clock setup, sockets, the heap adapter and the Python tools.
