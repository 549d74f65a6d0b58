# Verified models of the RINA simulator's stateful cores

The simulator implements the Recursive InterNetwork Architecture as OMNeT++ modules. This project
models its state-carrying components in Dafny and proves what they are for. Objects that the source
updates in place are classes; each of their methods is proved against a function on values, and the
properties over whole runs are lemmas about those functions.

* **Streaming SHA-256** (`Fips180.dfy`, `FipsConstants.dfy`, `FipsExample.dfy`, `Sha256.dfy`). `Fips180`
  is written from FIPS 180-4 alone; its constants are shown to be the root fractions of primes the
  standard describes, and its example is worked through word by word.
  The hash object with its carry buffer, register shifting and padding block computes the digest of
  the standard for every message below 2^29 bytes and every way of cutting it into updates; 2^29 is
  exactly where its 32-bit length field stops being the standard's padding.
* **Enrollment** (`EnrollmentProtocol.dfy`, `EnrollmentHistory.dfy`, `Enrollment.dfy`). Connection establishment,
  authentication, retries and the M_START and M_STOP exchange between an initiator and a member:
  safety over a network that loses, duplicates and reorders messages (and, for one side, forges
  them), termination with an exact number of deliveries over reliable channels, and what each side
  becomes for any sequence of messages whatever.
* **Relaying and multiplexing** (`RmtProtocol.dfy`, `Rmt.dfy`). A port with its queues, counters,
  flags and pending simulator events, under any scheduler and any drop decisions; the queue index.
* **Flow allocation** (`Names.dfy`, `Flow.dfy`, `FlowTable.dfy`, `FlowDirectory.dfy`,
  `FlowAllocation.dfy`, and the following). `FlowAllocation` has the handlers of the flow allocator
  instances.
  * `FlowNetwork.dfy`, `FlowRuns.dfy`: two flow allocators, each of which requests, responds and has any
    other entries, such as relayed requests and flows with third parties, over relays and a network
    that loses, duplicates and reorders. Applications may ask for deallocation at any time. What every
    step keeps, and what holds in every state of every run.
  * `FlowEstablishment.dfy`, `FlowDeallocation.dfy`, `FlowCrossing.dfy`: allocation and deallocation to
    completion, over whole runs with anything else in between; when they do not complete.
  * `FlowRelay.dfy`, `RelayRuns.dfy`: what a relay does with an M_CREATE, on the way and over its runs.
  * `FlowManagement.dfy`, `FlowAddressing.dfy`, `FlowReached.dfy`, `FlowIdentifiers.dfy`,
    `FlowAllocator.dfy`: one whole flow allocator with its searches as they are, whichever entry they
    find; where its requests go; what it takes for management to be ready; its runs when identifiers
    are fresh; and the same as an object.
  * `FlowRefinement.dfy`: the network's steps are steps of the whole allocator.
* **Retransmission window** (`Retransmission.dfy`), **CDAP response filter** (`CdapLog.dfy`), and the
  **name and address parsers** (`Names.dfy`).

What the model takes as parameters: random port and CEP ids, policies, the scheduler, the answers of
the DIF allocator and of the resource allocator, the application's decisions, and the order in which
messages and simulator events arrive, and where the invoke-id counters start. In the network model
the ids handed to a new instance are not in use at that flow allocator, and the new-flow policy chooses
the same QoS cube for a flow each time.

## Findings

Each is a lemma with the condition under which the code does what is expected.

* The length field keeps 32 bits: a message of 2^29 bytes or more is not padded as FIPS 180-4 says
  (`Sha256.StreamPadIsFips`).
* A request the responder refused can be retried, but the retry carries the same invoke-id, is taken
  for a duplicate and is dropped, so no retry policy can succeed (`FlowRuns.RefusalIsFinal`,
  `FlowRuns.RepeatedRequestIgnored`).
* A request is dropped exactly when any entry of the responder has its invoke-id, also one for a
  request of the responder's own (`FlowRuns.RequestDroppedExactly`). Two allocators whose counters are
  equal and that request from each other drop each other's requests for ever
  (`FlowEstablishment.CrossingRequestsDropped`); a request whose invoke-id is new completes
  (`FlowEstablishment.AllocationCompletes`).
* A positive M_CREATE_R is accepted in any allocation status. A requester that is deallocated without
  the responder having asked always has a deallocated peer (`FlowRuns.RequesterDeallocated`); for a
  responder that is so exactly unless such a response reopened the requester's entry
  (`FlowRuns.ResponderDeallocated`, `FlowRuns.ReopenedExactly`), which
  `FlowDeallocation.DuplicateAnswerReopens` brings about. A deallocation proceeds as its deliveries say
  exactly if no such response is delivered in between (`FlowDeallocation.DeallocationRunsExactly`).
* When both applications ask for deallocation before an M_DELETE arrives, each end refuses the other's
  M_DELETE and both wait for ever, but for a late positive M_CREATE_R (`FlowCrossing.StuckExactly`,
  `FlowCrossing.SecondRequestExactly`, `FlowCrossing.CrossingDeallocations`).
* A relay that runs out of hops addresses its negative answer to the destination of the flow, and no
  instance of the requester would take it (`FlowRelay.ExhaustionMissesRequester`).
* A relay sets its marks by searching for the flow twice, before and after counting the hop. All marks
  stay right, and each received request is sent on at most once, exactly while requests are new in
  both searches (`RelayRuns.RequestKeepsMarksExactly`, `RelayRuns.RelayedAtMostOnce`,
  `RelayRuns.FirstUncleanRequest`; the one harmless exception is part of the condition). A request that
  loops back, or arrives twice, is sent on once too often (`RelayRuns.LoopRelayedAgain`,
  `RelayRuns.DuplicateRelayedAgain`).
* Unblocking or switching on an output that still serves a PDU marks it ready; every other event keeps
  service at one PDU at a time (`RmtProtocol.OneAtATimeOverRuns`, `RmtProtocol.FirstCarelessEvent`,
  `RmtProtocol.UnblockedWhileServing`).
* An old acknowledgement that meets or leaves an empty retransmission queue moves the left window edge
  back (`Retransmission.LeftEdgeMovesForwardExactly`, `Retransmission.StaleAckMovesBack`).
* The message log keeps eight bits of the operation code. That is harmless: all codes of the protocol
  fit, and then every response that passes the filter answers a true request
  (`CdapLog.SolicitedByRequest`); with other codes it does exactly as
  `CdapLog.PassesUnrequestedExactly` says.
* Splitting and joining lose a trailing delimiter, and an address whose parts contain the delimiter is
  not parsed back (`Names.JoinAfterSplit`, `Names.ParseAfterPrint`).

## Model

| member | source | states |
|---|---|---|
| Fips180.WordToBytesRoundTrip | src/Common/SHA256.h:62-75 | packing undoes unpacking on every 32-bit word |
| Fips180.BytesToWordRoundTrip | src/Common/SHA256.h:62-75 | unpacking undoes packing on every four bytes |
| Fips180.BigEndianRoundTrip | src/Common/SHA256.cc:128-132 | a number that fits k bytes is recovered from its big-endian bytes |
| Fips180.PadInjective | src/Common/SHA256.cc:120-132 | padding loses nothing: messages with equal padded forms are equal |
| Fips180.HashBlocksAppend | src/Common/SHA256.cc:45-81 | hashing whole blocks and then more is hashing their concatenation |
| Fips180.WordsToBytesAt | src/Common/SHA256.cc:134-136 | the bytes of a sequence of words are those of its words, in order |
| FipsConstants.NthPrime | src/Common/SHA256.cc:27-43 | the table of primes is that of the first 64, each with exactly as many before it |
| FipsConstants.RoundConstantsExactly | src/Common/SHA256.cc:27-43 | every round constant is the first 32 bits of the fractional part of the cube root of its prime |
| FipsConstants.InitialHashExactly | src/Common/SHA256.cc:83-95 | every word of the initial hash value is that of the square root of its prime |
| FipsConstants.ChooseBits | src/Common/SHA256.h:56 | choice takes the bits of y where x has ones and those of z where it has zeros |
| FipsConstants.MajorityBits | src/Common/SHA256.h:57 | majority takes the bits that two of the three agree on |
| FipsExample.Words56 | src/Common/SHA256.cc:55-60 | the last words of the published message schedule of "abc", from those before |
| FipsExample.Rounds56 | src/Common/SHA256.cc:61-76 | the published working variables after all 64 rounds, from those after each round before |
| FipsExample.HashValueOfAbc | src/Common/SHA256.cc:45-81 | the published hash value of "abc" |
| FipsExample.DigestOfAbc | src/Common/SHA256.cc:120-137 | the published digest of "abc" |
| Sha256.F1 | src/Common/SHA256.h:58 | the shift-and-or macro is the standard's big sigma 0 on rotations |
| Sha256.F2 | src/Common/SHA256.h:59 | the macro is big sigma 1 |
| Sha256.F3 | src/Common/SHA256.h:60 | the macro is small sigma 0 |
| Sha256.F4 | src/Common/SHA256.h:61 | the macro is small sigma 1 |
| Sha256.UnpackLengthIsBigEndian | src/Common/SHA256.h:62-68 | the unpacked length is the big-endian form of the number |
| Sha256.LastBlocks | src/Common/SHA256.cc:120-132 | marker, zeros and length fit one or two whole blocks |
| Sha256.AbsorbKeepsCarry | src/Common/SHA256.cc:97-118 | one update keeps the carry invariant: hash of the whole blocks, tail of fewer than 64 bytes, total a multiple of 64 |
| Sha256.AbsorbAllKeepsCarry | src/Common/SHA256.cc:97-118 | so does any sequence of updates, for the concatenation of its chunks |
| Sha256.AbsorbLong | src/Common/SHA256.cc:97-118 | filling the buffer, hashing it and then the rest in place is absorbing the message |
| Sha256.AbsorbShort | src/Common/SHA256.cc:97-105 | a chunk that does not fill the buffer is only appended |
| Sha256.FinishHashesStreamPad | src/Common/SHA256.cc:120-137 | final hashes the absorbed message followed by its padding |
| Sha256.StreamPadIsFips | src/Common/SHA256.cc:120-132 | the padding is that of FIPS 180-4 if and only if the message is shorter than 2^29 bytes |
| Sha256.StreamingIsFips | src/Common/SHA256.cc:83-137 | for all messages below 2^29 bytes and all chunkings the digest is that of FIPS 180-4 |
| Sha256.ChunkingIrrelevant | src/Common/SHA256.cc:97-137 | for all messages the digest depends on the concatenation of the chunks only |
| Sha256.Sha256.Init | src/Common/SHA256.cc:83-95 | the object starts with the standard's initial hash and nothing absorbed |
| Sha256.Sha256.Expand | src/Common/SHA256.cc:55-60 | w holds the standard's message schedule of the block |
| Sha256.Sha256.Shuffle | src/Common/SHA256.cc:61-76 | the in-place register shifting performs the standard's 64 rounds |
| Sha256.Sha256.TransformBlock | src/Common/SHA256.cc:45-81 | one block compresses the hash value as the standard does |
| Sha256.Sha256.Transform | src/Common/SHA256.cc:45-81 | block_nb blocks are hashed in order |
| Sha256.Sha256.Update | src/Common/SHA256.cc:97-118 | the new carry state is that of absorbing the message |
| Sha256.Sha256.Final | src/Common/SHA256.cc:120-137 | the digest written is that of the absorbed bytes with their padding |
| Sha256.HashString | src/Common/SHA256.cc:139-154 | lower-case hexadecimal of the digest; below 2^29 bytes of the FIPS digest |
| Sha256.HexAt | src/Common/SHA256.cc:149-153 | each byte is written as its two lower-case digits, the high half first |
| Sha256.HashChunks | src/Common/SHA256.cc:83-137 | the object driven over any list of chunks gives the FIPS 180-4 digest of their concatenation, below 2^29 bytes |
| EnrollmentProtocol.ReceiveKeepsConnection | src/DIF/Enrollment/Enrollment.cc:166-431 | no message, even a forged one, ends an established connection or starts enrollment without one |
| EnrollmentProtocol.ConnectionKept | src/DIF/Enrollment/Enrollment.cc:166-431 | the same over any sequence of messages |
| EnrollmentProtocol.EntitledExactly | src/DIF/Enrollment/Enrollment.cc:434-458 | credentials match if and only if the types are equal and none, or password with passwords that agree up to their first NUL |
| EnrollmentProtocol.ConnectDecidedExactly | src/DIF/Enrollment/Enrollment.cc:208-230 | a waiting member lets in exactly an entitled request in the right syntax, and counts any other as a failure |
| EnrollmentProtocol.WrongPasswordRefused | src/DIF/Enrollment/Enrollment.cc:446-451 | passwords that differ before any NUL are refused |
| EnrollmentProtocol.EstablishedOnlyByCredentials | src/DIF/Enrollment/Enrollment.cc:208-230 | over a forging network the member connects if and only if it received an M_CONNECT of somebody entitled: the passwords, for that type, agree up to their first NUL |
| EnrollmentProtocol.MemberDeliveryKeepsInvariant | src/DIF/Enrollment/Enrollment.cc:208-411 | each delivery to the member keeps the joint invariant and loses no progress |
| EnrollmentProtocol.InitiatorDeliveryKeepsInvariant | src/DIF/Enrollment/Enrollment.cc:166-318 | each delivery to the initiator keeps the joint invariant and loses no progress |
| EnrollmentProtocol.StepKeepsInvariant | src/DIF/Enrollment/Enrollment.cc:117-431 | every step over a lossy, duplicating, reordering network keeps the invariant |
| EnrollmentProtocol.RunKeepsInvariant | src/DIF/Enrollment/Enrollment.cc:117-431 | the invariant holds in every state of every run |
| EnrollmentProtocol.EnrollmentAgreement | src/DIF/Enrollment/Enrollment.cc:288-431 | initiator enrolled implies the member answered with immediate set; member enrolled implies initiator enrolled |
| EnrollmentProtocol.Authenticated | src/DIF/Enrollment/Enrollment.cc:166-253 | an established connection implies an entitled initiator; enrolling implies an established connection |
| EnrollmentProtocol.ProgressIsStable | src/DIF/Enrollment/Enrollment.cc:288-431 | connected stays connected, enrolled stays enrolled, between any two states of a run |
| EnrollmentProtocol.MemberTurnAdvances | src/DIF/Enrollment/Enrollment.cc:208-411 | over FIFO channels a delivery to the member moves the exchange to its next phase |
| EnrollmentProtocol.InitiatorTurnAdvances | src/DIF/Enrollment/Enrollment.cc:166-318 | so does a delivery to the initiator |
| EnrollmentProtocol.RunFollowsPhases | src/DIF/Enrollment/Enrollment.cc:117-502 | the state after k deliveries is determined by the credentials and the retry limit |
| EnrollmentProtocol.QuietAtTheEnd | src/DIF/Enrollment/Enrollment.cc:117-502 | nothing is in flight exactly when no delivery is left, and then the outcome is fixed by the credentials |
| EnrollmentProtocol.EnrollmentTerminates | src/DIF/Enrollment/Enrollment.cc:117-502 | every FIFO run ends after an exact number of deliveries: both enrolled after one M_CONNECT, or the initiator gives up after maxConRetries + 1 of them |
| EnrollmentHistory.MemberExactly | src/DIF/Enrollment/Enrollment.cc:208-411 | for any messages: connected after an entitled M_CONNECT, started after an M_START following it, enrolled after an M_STOP_R following that |
| EnrollmentHistory.NotImmediateNotEnrolled | src/DIF/Enrollment/Enrollment.cc:384-411 | an M_STOP_R does not enroll a member without the immediate flag |
| EnrollmentHistory.InitiatorExactly | src/DIF/Enrollment/Enrollment.cc:166-318 | for any messages: connected by the first positive answer within the retries, enrolled exactly if the first M_STOP after the first M_START_R is immediate |
| EnrollmentHistory.InitiatorAddress | src/DIF/Enrollment/Enrollment.cc:255-286 | its address is the one in that M_START_R |
| Enrollment.Enrollment.FindEntryByDstApn | src/DIF/Enrollment/EnrollmentStateTable.cc:45-52 | the first entry for the peer, or none |
| Enrollment.EnrollmentStateTableEntry.constructor | src/DIF/Enrollment/EnrollmentStateTableEntry.cc:48-54 | a new entry, with whatever value the immediate flag happens to have |
| Enrollment.Enrollment.StartCace | src/DIF/Enrollment/Enrollment.cc:117-155 | one new authenticating entry, and an M_CONNECT with the configured credentials |
| Enrollment.Enrollment.InsertStateTableEntry | src/DIF/Enrollment/Enrollment.cc:157-164 | an entry waiting for a connection, unless the peer has one already |
| Enrollment.Enrollment.ReceivePositiveConnectResponse | src/DIF/Enrollment/Enrollment.cc:166-181 | only the peer's entry changes, as the protocol's handler says, and M_START is sent |
| Enrollment.Enrollment.ReceiveNegativeConnectResponse | src/DIF/Enrollment/Enrollment.cc:183-206 | retry with a new M_CONNECT, or give up at the retry limit |
| Enrollment.Enrollment.ReceiveConnectRequest | src/DIF/Enrollment/Enrollment.cc:208-230 | syntax, operation code and credentials decide the answer; only that entry changes |
| Enrollment.Enrollment.StartEnrollment | src/DIF/Enrollment/Enrollment.cc:239-253 | M_START with the own address |
| Enrollment.Enrollment.Authenticate | src/DIF/Enrollment/Enrollment.cc:434-458 | positive exactly for equal types that are none, or password with passwords that agree up to their first NUL |
| Enrollment.Enrollment.ProcessNewConReq | src/DIF/Enrollment/Enrollment.cc:460-502 | M_CONNECT again, and authenticating |
| Enrollment.Enrollment.ProcessConResPosi | src/DIF/Enrollment/Enrollment.cc:504-541 | established, waiting for M_START |
| Enrollment.Enrollment.ProcessConResNega | src/DIF/Enrollment/Enrollment.cc:543-582 | back to waiting for a connection, one more retry counted |
| Enrollment.Enrollment.ReceiveStartEnrollmentRequest | src/DIF/Enrollment/Enrollment.cc:348-382 | M_START_R followed by M_STOP with immediate set |
| Enrollment.Enrollment.ReceiveStartEnrollmentResponse | src/DIF/Enrollment/Enrollment.cc:255-286 | the assigned address is taken, and M_STOP awaited |
| Enrollment.Enrollment.ReceiveStopEnrollmentRequest | src/DIF/Enrollment/Enrollment.cc:288-334 | M_STOP_R, and enrolled if immediate |
| Enrollment.Enrollment.ReceiveStopEnrollmentResponse | src/DIF/Enrollment/Enrollment.cc:384-431 | the member is enrolled if immediate |
| RmtProtocol.DepartKeeps | src/DIF/RMT/RMT.cc:283-308 | a departure keeps counter and conservation, and the counter was positive, so it never wraps |
| RmtProtocol.AdmitKeeps | src/DIF/RMT/RMT.cc:202-254 | an arrival keeps counter and conservation |
| RmtProtocol.ReleaseKeepsInvariant | src/DIF/RMT/RMTQueue.cc:149-170 | releasing any queue keeps the port invariant |
| RmtProtocol.ScheduleKeepsInvariant | src/DIF/RMT/RMT.cc:202-308 | so does any scheduler |
| RmtProtocol.StepKeepsInvariant | src/DIF/RMT/RMTPort.cc:67-146 | so does every event of a port |
| RmtProtocol.InvariantOverRuns | src/DIF/RMT/RMTPort.cc:67-305 | in every run: counters equal queue lengths, accepted is released then held, no lost wakeup, blocked output is not ready |
| RmtProtocol.FirstInFirstOut | src/DIF/RMT/RMTQueue.cc:140-179 | what a queue accepted is, in order, on the wire, on its way to the port, or still held |
| RmtProtocol.WaitingZero | src/DIF/RMT/RMTPort.cc:292-305 | the counter is zero if and only if all queues are empty |
| RmtProtocol.DecrementWraps | src/DIF/RMT/RMTPort.cc:302-305 | the counter would wrap modulo 2^64 |
| RmtProtocol.ArriveExactly | src/DIF/RMT/RMT.cc:219-253 | a damaged PDU leaves no trace; any other joins its queue, is counted and scheduled, unless the queue reaches its threshold and the policy refuses it |
| RmtProtocol.NoDamagedPdu | src/DIF/RMT/RMT.cc:219-230 | in every run no damaged PDU is accepted, on its way to the port or on the wire |
| RmtProtocol.EventsBalance | src/DIF/RMT/RMTPort.cc:113-138 | in every run the pending transmission ends, writes and reads are what the events so far have left open, and the wire has one PDU for each received |
| RmtProtocol.SchedulerRunsExactly | src/DIF/RMT/RMTPort.cc:113-146 | every event is its own effect followed by the scheduler, exactly if it invokes it |
| RmtProtocol.ReadyExactly | src/DIF/RMT/RMTPort.cc:243-283 | which events make a direction ready, busy, blocked or free |
| RmtProtocol.OneAtATimeExactly | src/DIF/RMT/RMTPort.cc:374-406 | with one release at a time, every event keeps one PDU in service except making a serving output ready |
| RmtProtocol.OneAtATimeOverRuns | src/DIF/RMT/RMTPort.cc:374-406 | over whole runs with a polite scheduler, at most one PDU is in service and a ready output is idle, if outputs are made ready by hand only while idle |
| RmtProtocol.FirstCarelessEvent | src/DIF/RMT/RMTPort.cc:385-391 | after such a run, the next event keeps that if and only if it does not make a serving output ready |
| RmtProtocol.UnblockedWhileServing | src/DIF/RMT/RMTPort.cc:385-391 | four events that reach such a state from every initial port with an output queue |
| Rmt.RmtQueue.EnqueuePdu | src/DIF/RMT/RMTQueue.cc:140-147 | a PDU that is damaged, or refused by the policy when the queue reaches its threshold with it, leaves no trace; any other joins the back |
| Rmt.RmtQueue.DropLast | src/DIF/RMT/RMTQueue.cc:172-179 | only the newest PDU is taken back |
| Rmt.RmtQueue.PopFront | src/DIF/RMT/RMTQueue.cc:149-170 | the oldest PDU leaves |
| Rmt.RmtPort.constructor | src/DIF/RMT/RMTPort.cc:25-59 | a port starts in the initial state of the state machine |
| Rmt.RmtPort.GetLongestQueue | src/DIF/RMT/RMTPort.cc:201-218 | null exactly when all queues are empty, that is when the counter is zero; otherwise a longest queue |
| Rmt.RmtPort.GetQueueById | src/DIF/RMT/RMTPort.cc:220-236 | finds the queue with that id if and only if there is one |
| Rmt.RmtPort.Register | src/DIF/RMT/RMTPort.cc:159-169 | the queue joins the list of its direction |
| Rmt.RmtPort.PushInput | src/DIF/RMT/RMT.cc:202-254 | arrival hook for an input queue |
| Rmt.RmtPort.PushOutput | src/DIF/RMT/RMT.cc:202-254 | arrival hook for an output queue |
| Rmt.RmtPort.PopInput | src/DIF/RMT/RMT.cc:283-308 | departure hook for an input queue: not ready, and a read is pending |
| Rmt.RmtPort.PopOutput | src/DIF/RMT/RMT.cc:283-308 | departure hook for an output queue |
| Rmt.RmtPort.ScheduleNextRead | src/DIF/RMT/RMTPort.cc:285-290 | busy, and a readyForRead is pending |
| Rmt.RmtPort.ReleasePdu | src/DIF/RMT/RMTQueue.cc:149-170 | release with the hook it triggers; nothing for an empty queue |
| Rmt.RmtPort.EnqueuePdu | src/DIF/RMT/RMTQueue.cc:140-147 | arrival, drop decisions and the scheduler's reaction |
| Rmt.RmtPort.SetOutputReady | src/DIF/RMT/RMTPort.cc:243-251 | ready and scheduled, unless blocked |
| Rmt.RmtPort.SetInputReady | src/DIF/RMT/RMTPort.cc:264-272 | ready and scheduled, unless blocked |
| Rmt.RmtPort.HandlePdu | src/DIF/RMT/RMTPort.cc:113-138 | a PDU is passed down and the next write is arranged for each kind of link |
| Rmt.RmtPort.HandlePortTransmitEnd | src/DIF/RMT/RMTPort.cc:71-75 | the end of a transmission becomes a readyToServe |
| Rmt.RmtPort.HandleReadyToServe | src/DIF/RMT/RMTPort.cc:76-79 | the output becomes ready |
| Rmt.RmtPort.HandleReadyForRead | src/DIF/RMT/RMTPort.cc:80-83 | the input becomes ready |
| Rmt.RmtPort.BlockOutput | src/DIF/RMT/RMTPort.cc:374-383 | blocked and not ready |
| Rmt.RmtPort.UnblockOutput | src/DIF/RMT/RMTPort.cc:385-391 | ready at once, even while serving |
| Rmt.RmtPort.BlockInput | src/DIF/RMT/RMTPort.cc:393-398 | blocked |
| Rmt.RmtPort.UnblockInput | src/DIF/RMT/RMTPort.cc:400-406 | ready at once |
| Rmt.QueueNameInjective | src/DIF/RMT/RMTPort.cc:220-236 | different ids of one direction give different queue names |
| Rmt.RmtModuleAllocator.Lookup | src/DIF/RMT/RMTModuleAllocator.cc:176-188 | finds a queue of that name if and only if the port has one |
| Rmt.RmtModuleAllocator.CreateQueue | src/DIF/RMT/RMTModuleAllocator.cc:39-103 | one new empty queue; index and lists agree, names stay unique |
| Rmt.RmtModuleAllocator.AddQueue | src/DIF/RMT/RMTModuleAllocator.cc:39-103 | idempotent: the queue of that id, made only if there was none; index and lists agree |
| Names.Split | src/Common/Utils.cc:11-24 | the pieces between delimiters, without an empty last one |
| Names.Join | src/Common/Utils.cc:26-38 | the first n elements with delimiters between them |
| Names.SplitDropsEmptyEnd | src/Common/Utils.cc:11-18 | split loses an empty last piece and nothing else |
| Names.JoinAfterSplit | src/Common/Utils.cc:11-38 | join undoes split if and only if the string does not end in the delimiter |
| Names.SplitAfterJoin | src/Common/Utils.cc:11-38 | split undoes join if and only if no element has the delimiter and the last is not empty |
| Names.Parse | src/Common/Address.cc:24-45 | exactly two tokens, or the unspecified address |
| Names.ParseAfterPrint | src/Common/Address.cc:24-53 | parsing a printed address gives it back if and only if no part has the delimiter |
| Names.ParsedName | src/Common/Address.cc:24-45 | a parsed address is unspecified or named as what was parsed |
| Flow.SwapInvolution | src/Common/Flow.cc:303-313 | swapping twice is nothing, and comparison commutes with swapping |
| Flow.ManagementTwin | src/Common/Flow.cc:348-364 | the management duplicate is a local management flow, and still is after re-parsing exactly for names of two parts |
| Flow.ComparisonsExactly | src/Common/Flow.cc:65-78 | compare sees exactly who talks to whom, the equality everything but the invoke-ids and the requirements; a duplicate differs in the flag only |
| Flow.Flow.constructor | src/Common/Flow.cc:36-46 | undefined ids and addresses, 16 hops |
| Flow.Flow.SwapFlow | src/Common/Flow.cc:303-313 | source and destination trade places in place; neighbours, counters and invoke-ids stay |
| Flow.Flow.Duplicate | src/Common/Flow.cc:174-193 | a fresh object equal in everything but the degenerate-transfer flag |
| Flow.Flow.DuplicateToMgmt | src/Common/Flow.cc:348-354 | a fresh management flow between the two addresses |
| FlowTable.FindByFlow | src/DIF/FA/FAITable.cc:146-153 | the first entry with an equal flow |
| FlowTable.FindMgmtByDstAddr | src/DIF/FA/FAITable.cc:208-216 | the first local management entry to the address |
| FlowTable.Affected | src/DIF/FA/FAITable.cc:100-110 | exactly the waiting entries between the applications' addresses, in table order |
| FlowTable.Waiting | src/DIF/FA/FAITable.cc:79-88 | exactly the forwarding entries to the neighbour, in table order |
| FlowTable.FaiTable.InsertNew | src/DIF/FA/FAITable.cc:127-137 | one new entry at the end |
| FlowTable.FaiTable.FindEntryByFlow | src/DIF/FA/FAITable.cc:146-153 | the search loop finds the first match |
| FlowTable.FaiTable.FindEntryByInvokeId | src/DIF/FA/FAITable.cc:90-98 | zero never matches; otherwise the first match |
| FlowTable.FaiTable.FindMgmtEntryByDstAddr | src/DIF/FA/FAITable.cc:208-216 | the search loop finds the first management entry |
| FlowTable.FaiTable.FindEntriesAffectedByMgmt | src/DIF/FA/FAITable.cc:100-110 | the collecting loop |
| FlowTable.FaiTable.FindEntriesByDstNeighborAndFwd | src/DIF/FA/FAITable.cc:79-88 | the collecting loop |
| FlowTable.FaiTable.SetFaiToFlow | src/DIF/FA/FAITable.cc:181-184 | the instance goes to the first entry with an equal flow |
| FlowTable.FaiTable.ChangeAllocStatus | src/DIF/FA/FAITable.cc:164-171 | the status of the first entry with an equal flow changes |
| FlowDirectory.GetAddressFromDa | src/DIF/FA/FA.cc:457-485 | the application's address, replaced by the first neighbour in its DIF when asked for |
| FlowDirectory.SetOriginalAddresses | src/DIF/FA/FA.cc:428-439 | both addresses are those of the applications, or the destination stays as it was |
| FlowDirectory.SetNeighborAddresses | src/DIF/FA/FA.cc:441-455 | the neighbours towards both applications; a local management flow keeps its source neighbour |
| FlowDirectory.NeighboursOnly | src/DIF/FA/FA.cc:441-455 | only the neighbour addresses change |
| FlowAllocation.FindsItself | src/DIF/FA/FAITable.cc:146-171 | with distinct identifiers a search by an entry's flow finds that entry |
| FlowAllocation.HandleExactly | src/DIF/FA/FAI.cc:229-324 | with distinct identifiers a handler changes its own entry only |
| FlowAllocation.DispatchToOne | src/DIF/FA/FAIListeners.cc:60-125 | a signal broadcast to all instances has the effect of the one with the right identifiers |
| FlowAllocation.DispatchEffect | src/DIF/FA/FAIListeners.cc:60-125 | and no effect if that one does not listen |
| FlowAllocation.ListensExactly | src/DIF/FA/FAIListeners.cc:60-125 | answers to requests are heard by the two identifiers, deallocation by the whole comparison |
| FlowAllocation.AllocateExactly | src/DIF/FA/FAI.cc:65-114 | refusal, failed instance, waiting for a lower flow, or M_CREATE with a new invoke-id |
| FlowAllocation.RespondExactly | src/DIF/FA/FAI.cc:116-176 | the application's answer sets the status and sends M_CREATE_R, while pending only |
| FlowAllocation.DeallocateExactly | src/DIF/FA/FAI.cc:209-227 | deallocation pending, and M_DELETE with an invoke-id |
| FlowRelay.RelaySends | src/DIF/FA/FA.cc:242-277 | one request on, one negative answer, or nothing yet |
| FlowRelay.NextTransparent | src/DIF/FA/FA.cc:242-277 | what is sent on compares equal to what arrived, with its invoke-id and one hop less |
| FlowRelay.RelayingEnds | src/DIF/FA/FA.cc:254-262 | on any way through any relays the hop count falls by one each time and never wraps; every copy is the request |
| FlowRelay.AtMostFifteenRelays | src/DIF/FA/FA.cc:254-262 | a new request is relayed at most 15 times, whatever the topology |
| FlowRelay.ExhaustionMissesRequester | src/DIF/FA/FA.cc:255-262 | the answer to an exhausted request is addressed to the requester if and only if the two addresses are equal |
| FlowRelay.OneRequestEach | src/DIF/FA/FAListeners.cc:58-71 | a lower flow sends exactly one equal request for each waiting entry, in order |
| RelayRuns.RelayStatuses | src/DIF/FA/FA.cc:242-277 | the status of every entry after a request: waiting goes to the first entry with the flow as it arrived, the mark to the first one with the hop counted |
| RelayRuns.MarkedForwardedExactly | src/DIF/FA/FA.cc:242-277 | the new entry gets its mark and no other entry loses its own, if and only if a condition on the two searches holds |
| RelayRuns.RequestKeepsMarksExactly | src/DIF/FA/FA.cc:242-277 | all marks stay right, over all entries, if and only if neither flow of the request is in the table, but for an entry still waiting when the request need not wait |
| RelayRuns.LowerFlowKeepsMarks | src/DIF/FA/FAListeners.cc:58-77 | a new lower flow keeps all marks right, whatever is waiting |
| RelayRuns.MarkedOverRun | src/DIF/FA/FA.cc:242-277 | in every run of clean requests and lower flows all marks are right |
| RelayRuns.RelayedAtMostOnce | src/DIF/FA/FA.cc:413-422 | in such runs each received request is sent on at most once, and exactly if its entry is marked forwarded |
| RelayRuns.FirstUncleanRequest | src/DIF/FA/FA.cc:242-277 | the first request that is not clean makes the marks wrong, and a clean one does not |
| RelayRuns.SentTwice | src/DIF/FA/FAListeners.cc:58-77 | an entry that was sent on but is marked as waiting is sent on again by the next lower flow to its neighbour |
| RelayRuns.LoopRelayedAgain | src/DIF/FA/FA.cc:251-271 | a request that loops back to the relay reopens the first entry, which is sent a second time; the copy that cannot be sent at once is never sent |
| RelayRuns.DuplicateRelayedAgain | src/DIF/FA/FA.cc:242-277 | a request received twice and sent on twice leaves an entry marked as waiting, which is sent once more |
| FlowManagement.ManagementRequestIsLocal | src/DIF/FA/FA.cc:157-187 | the request of a management flow is a local management flow exactly for names of two parts |
| FlowManagement.HandKeepsInvariant | src/DIF/FA/FAI.cc:65-114 | handing on a flow that is in order keeps the invariant |
| FlowManagement.MgmtRequestedKeepsInvariant | src/DIF/FA/FA.cc:157-187 | so does the request of a management flow |
| FlowManagement.RequestedKeepsInvariant | src/DIF/FA/FA.cc:93-155 | so does any allocation request |
| FlowManagement.SignalledKeepsInvariant | src/DIF/FA/FAListeners.cc:79-102 | so does any signal, with the flows it collects |
| FlowManagement.DrainedKeepsInvariant | src/DIF/FA/FA.cc:350-368 | so does the timer |
| FlowManagement.StepKeepsInvariant | src/DIF/FA/FA.cc:93-302 | so does every step of the allocator |
| FlowManagement.ManagementFirst | src/DIF/FA/FA.cc:110-151 | in every run, each flow handed to its instance is degenerate, a management request, or to an address with a management flow that reached transfer; collected flows have a timer |
| FlowManagement.ResumeOneExactly | src/DIF/FA/FA.cc:352-361 | one resumption concerns the collected entry only |
| FlowManagement.TimerResumesAll | src/DIF/FA/FA.cc:350-362 | the drain ends with nothing pending, having handed on every collected flow in order; each is refused or its M_CREATE sent |
| FlowIdentifiers.StepKeepsWell | src/DIF/FA/FA.cc:93-342 | with fresh identifiers and flows every step keeps instances distinct and collected flows with an instance |
| FlowIdentifiers.RunKeepsWell | src/DIF/FA/FA.cc:93-342 | so does every run, from any start of the invoke-id counter |
| FlowIdentifiers.TimerResumesAllInRuns | src/DIF/FA/FA.cc:350-362 | whenever the timer fires in such a run it hands on every collected flow in order; each is refused or its M_CREATE sent |
| FlowAddressing.NearestExactly | src/DIF/FA/FA.cc:471-483 | the neighbour is the first listed one in the DIF of the address, or the address itself |
| FlowAddressing.NeighboursExactly | src/DIF/FA/FA.cc:441-455 | both neighbours from the DIF allocator's answers, with the early returns and the case of a management flow |
| FlowAddressing.CompletedExactly | src/DIF/FA/FA.cc:103-114 | a request gets both addresses and neighbours unless it came with some, and is degenerate exactly if it was or its destination is local |
| FlowAddressing.NewDataFlow | src/DIF/FA/FA.cc:103-108 | between two known applications: their addresses, and the nearest neighbour of each |
| FlowAddressing.RequestAddressed | src/DIF/FA/FA.cc:93-155 | whatever is in the table: the entry of a request is addressed so, a management flow comes with it exactly if needed, and every M_CREATE goes where one of the two goes |
| FlowAddressing.RequestReachesNearest | src/DIF/FA/FA.cc:93-155 | every M_CREATE for a new data flow is sent to the neighbour nearest to the destination's address |
| FlowAddressing.MgmtAddressed | src/DIF/FA/FA.cc:157-187 | the management flow goes between the names of the two addresses, towards its own destination |
| FlowAddressing.ArrivalAddressed | src/DIF/FA/FA.cc:212-271 | relayed and arriving requests get the neighbours of that moment |
| FlowAddressing.CollectedExactly | src/DIF/FA/FAITable.cc:100-110 | a finished management flow collects exactly the waiting flows between its two addresses, in order, and sets a timer |
| FlowAddressing.TwinCollects | src/DIF/FA/FAListeners.cc:79-102 | and so the flow it was requested for, if that still waits |
| FlowAddressing.StepRouted | src/DIF/FA/FA.cc:93-368 | every step keeps where each flow goes, and unless it relays, sends M_CREATEs only where a flow of the table goes |
| FlowAddressing.RequestsOverRuns | src/DIF/FA/FA.cc:93-368 | in every run a requested flow keeps the addresses and neighbours it was given |
| FlowReached.RequestedQuiet | src/DIF/FA/FA.cc:93-155 | asking for a flow makes nothing transfer and reaches no address |
| FlowReached.StepReaches | src/DIF/FA/FAI.cc:278-306 | an address is newly reached only by a positive answer, and is then a destination of the table |
| FlowReached.ReachedByAnswer | src/DIF/FA/FAI.cc:278-306 | in every run |
| FlowAllocator.FlowAllocator.SendCreateRequestFlow | src/DIF/RIB/RIBd.cc:53-80 | an invoke-id if there is none, and M_CREATE |
| FlowAllocator.FlowAllocator.SendDeleteRequestFlow | src/DIF/RIB/RIBd.cc:99-126 | an invoke-id if there is none, and M_DELETE |
| FlowAllocator.FlowAllocator.FaiReceiveAllocateRequest | src/DIF/FA/FAI.cc:65-114 | the handler on the table and the flow object |
| FlowAllocator.FlowAllocator.FaiReceiveAllocateResponsePositive | src/DIF/FA/FAI.cc:116-159 | the handler, with its failure branches |
| FlowAllocator.FlowAllocator.FaiReceiveAllocateResponseNegative | src/DIF/FA/FAI.cc:161-176 | the handler |
| FlowAllocator.FlowAllocator.FaiReceiveCreateRequest | src/DIF/FA/FAI.cc:178-207 | the handler |
| FlowAllocator.FlowAllocator.FaiReceiveCreateResponsePositive | src/DIF/FA/FAI.cc:278-306 | the handler, which checks no status |
| FlowAllocator.FlowAllocator.FaiReceiveCreateResponseNegative | src/DIF/FA/FAI.cc:258-276 | the handler: retry, or refused |
| FlowAllocator.FlowAllocator.FaiReceiveDeleteRequest | src/DIF/FA/FAI.cc:229-256 | the handler; the status it passes through leaves no trace |
| FlowAllocator.FlowAllocator.FaiReceiveDeleteResponse | src/DIF/FA/FAI.cc:308-324 | the handler |
| FlowAllocator.FlowAllocator.CreateFai | src/DIF/FA/FA.cc:308-342 | an instance with the given identifiers for the entry's flow |
| FlowAllocator.FlowAllocator.ReceiveLocalMgmtAllocateRequest | src/DIF/FA/FA.cc:157-187 | insertion, addresses parsed from the names, instance, request |
| FlowAllocator.FlowAllocator.PrepareRequest | src/DIF/FA/FA.cc:93-119 | insertion, addresses, and a management flow if there is none |
| FlowAllocator.FlowAllocator.ReceiveAllocateRequest | src/DIF/FA/FA.cc:93-155 | the whole request, postponed until management is ready |
| FlowAllocator.FlowAllocator.ReceiveNM1FlowCreated | src/DIF/FA/FA.cc:413-422 | a duplicate is sent on and the entry marked |
| FlowAllocator.FlowAllocator.ForwardCreateRequest | src/DIF/FA/FA.cc:242-277 | the relay branch |
| FlowAllocator.FlowAllocator.InsertCreated | src/DIF/FA/FA.cc:212-235 | entry and instance for a request from elsewhere |
| FlowAllocator.FlowAllocator.ReceiveCreateFlowRequestFromRibd | src/DIF/FA/FA.cc:196-279 | duplicates ignored, local requests created, others relayed |
| FlowAllocator.FlowAllocator.Respond | src/DIF/FA/FAIListeners.cc:29-44 | the application's answer reaches its instance |
| FlowAllocator.FlowAllocator.ReceiveDeallocateRequest | src/DIF/FA/FA.cc:281-302 | the instance found by the flow sends M_DELETE; nothing changes if there is none |
| FlowAllocator.FlowAllocator.ManagementFinished | src/DIF/FA/FAListeners.cc:79-102 | the waiting flows are collected and a timer is set |
| FlowAllocator.FlowAllocator.HandleSignal | src/DIF/FA/FAIListeners.cc:60-125 | one instance handles a signal |
| FlowAllocator.FlowAllocator.Emit | src/DIF/FA/FAIListeners.cc:60-125 | every listening instance handles it, in order |
| FlowAllocator.FlowAllocator.ResumeForwarding | src/DIF/FA/FAListeners.cc:66-70 | the waiting requests to a neighbour are sent on, in table order |
| FlowAllocator.FlowAllocator.FlowCreated | src/DIF/FA/FAListeners.cc:58-77 | only for a lower flow of this process that is no management flow |
| FlowAllocator.FlowAllocator.DeallocateEntry | src/DIF/FA/FA.cc:281-302 | the handler on the entry found |
| FlowAllocator.FlowAllocator.HandleMessage | src/DIF/FA/FA.cc:350-368 | the drain loop |
| FlowAllocator.FlowAllocator.Take | src/DIF/FA/FA.cc:93-368 | for any event the object takes the step of the state machine, and keeps its invariant: only flows in order are handed on, no collected flow is without a timer |
| FlowRefinement.CreatedAsInNetwork | src/DIF/FA/FA.cc:196-240 | with fresh identifiers the whole allocator does what the network's responder does |
| FlowRefinement.RequestedAsInNetwork | src/DIF/FA/FA.cc:93-155 | degenerate or with management transferring, what the network's requester does |
| FlowRefinement.WaitingAsInNetwork | src/DIF/FA/FA.cc:121-155 | a request that waits for management opens its flow as in the network and sends nothing |
| FlowRefinement.MalformedRequest | src/DIF/FA/FA.cc:121-127 | a request for AppERR gets an entry with an error and no instance |
| FlowRefinement.DegenerateArrival | src/DIF/FA/FA.cc:203-240 | a request between two local applications is never taken for a duplicate, and its flow is degenerate |
| FlowRefinement.LowerFlowExactly | src/DIF/FA/FAListeners.cc:58-77 | only a lower flow of this process that is no management flow has waiting requests sent on, those to its other end |
| FlowRefinement.TimerSetExactly | src/DIF/FA/FAListeners.cc:79-102 | a timer is set exactly when the instance of a local management flow of this process hears of its success |
| FlowRefinement.ResumedAsInNetwork | src/DIF/FA/FA.cc:350-362 | its resumption is the network's allocation request |
| FlowRefinement.ManagementAsInNetwork | src/DIF/FA/FA.cc:157-187 | the management flow is opened and requested at once as in the network |
| FlowRefinement.HandledAsInNetwork | src/DIF/FA/FAIListeners.cc:60-125 | one instance's handler is the network's |
| FlowRefinement.SignalledAsInNetwork | src/DIF/FA/FAIListeners.cc:60-125 | signals have the same effect on table and messages |
| FlowRefinement.RelayedAsInNetwork | src/DIF/FA/FA.cc:242-277 | relays send on what the network's relays send on |
| FlowNetwork.ResponseFinds | src/DIF/FA/FAIListeners.cc:60-95 | an M_CREATE_R carries the identifiers of the entry that made the request, and of no other |
| FlowNetwork.DeallocationFinds | src/DIF/FA/FAIListeners.cc:97-125 | a deallocation message is taken by the other end of its sender's flow only, or by nobody if it was sent before the sender knew that end |
| FlowNetwork.CreateExactly | src/DIF/FA/FA.cc:196-240 | an M_CREATE is dropped if its invoke-id is in the table, and otherwise makes an entry mirroring the request |
| FlowNetwork.OneAnswerer | src/DIF/FA/FA.cc:203-210 | at most one entry answers a request |
| FlowNetwork.AllocateKeeps | src/DIF/FA/FAI.cc:65-114 | an allocation request keeps the joint invariant of both allocators and concerns one entry |
| FlowNetwork.OpenKeeps | src/DIF/FA/FA.cc:93-119 | a new flow keeps it |
| FlowNetwork.CreateKeeps | src/DIF/FA/FA.cc:196-240 | an arriving M_CREATE keeps it |
| FlowNetwork.RespondKeeps | src/DIF/FA/FAI.cc:116-176 | the application's answer keeps it |
| FlowNetwork.PositiveKeeps | src/DIF/FA/FAI.cc:278-306 | a positive M_CREATE_R keeps it, in any allocation status |
| FlowNetwork.NegativeKeeps | src/DIF/FA/FAI.cc:258-276 | a negative M_CREATE_R keeps it |
| FlowNetwork.DeallocateKeeps | src/DIF/FA/FA.cc:281-302 | deallocation asked for by either side, in any allocation status, keeps it |
| FlowNetwork.DeleteKeeps | src/DIF/FA/FAI.cc:229-256 | M_DELETE keeps it |
| FlowNetwork.AnswerKeeps | src/DIF/FA/FAI.cc:308-324 | M_DELETE_R keeps it |
| FlowNetwork.RelayKeeps | src/DIF/FA/FA.cc:242-277 | relaying keeps it |
| FlowNetwork.OpenOtherKeeps | src/DIF/FA/FAITable.cc:127-137 | so does any entry for somebody else, such as a relayed request |
| FlowNetwork.ChangeOtherKeeps | src/DIF/FA/FAITable.cc:164-184 | and any change to such an entry |
| FlowNetwork.StepKeepsInvariant | src/DIF/FA/FA.cc:93-342 | every step keeps the joint invariant, changes no entry but the one it concerns, lets entries make progress only, and to the other allocator only sends |
| FlowRuns.MoveKeeps | src/DIF/FA/FA.cc:93-342 | every step of either allocator keeps the invariant, changes one entry, and to the other side only sends |
| FlowRuns.RunKeepsInvariant | src/DIF/FA/FA.cc:93-342 | the invariant holds in every state of every run |
| FlowRuns.EndpointAgreement | src/DIF/FA/FAI.cc:116-324 | in every run a requester's transferring or deallocated flow was accepted, and the responder's flow swapped compares equal to it |
| FlowRuns.AtMostOneInstancePerRequest | src/DIF/FA/FA.cc:203-238 | entries made for requests have pairwise distinct nonzero invoke-ids, each that of the one request it mirrors |
| FlowRuns.RequestDroppedExactly | src/DIF/FA/FA.cc:203-210 | a delivered request is dropped if and only if some entry, of whatever kind, has its invoke-id |
| FlowRuns.RepeatedRequestIgnored | src/DIF/FA/FA.cc:203-210 | a repeated M_CREATE changes nothing |
| FlowRuns.RefusalIsFinal | src/DIF/FA/FA.cc:203-210 | after a refusal the flow is never established, whatever the retry policy |
| FlowRuns.RequesterDeallocated | src/DIF/FA/FAI.cc:229-256 | in every run, a requester that is deallocated without the responder having asked has a deallocated peer |
| FlowRuns.ResponderDeallocated | src/DIF/FA/FAI.cc:229-306 | in every run, for a responder deallocated without the requester having asked: the requester is deallocated if and only if it is not reopened, and transfers if and only if it is |
| FlowRuns.ReopenedExactly | src/DIF/FA/FAI.cc:278-306 | reopened means that a positive response was delivered to the deallocated entry and no M_DELETE was answered since |
| FlowDeallocation.AskerSteps | src/DIF/FA/FAI.cc:209-324 | no step of the asking end but an M_DELETE_R, a request or a positive response changes where its deallocation is |
| FlowDeallocation.OtherSteps | src/DIF/FA/FAI.cc:209-324 | and none of the other end but an M_DELETE, a request or a positive response |
| FlowDeallocation.PhaseOverRun | src/DIF/FA/FAI.cc:209-324 | the status of both ends is at every moment what the deliveries since the request make it |
| FlowDeallocation.DeallocationRunsExactly | src/DIF/FA/FAI.cc:209-324 | that is so over whole runs if and only if no positive response disturbs the deallocation |
| FlowDeallocation.DeallocationCanComplete | src/DIF/FA/FAI.cc:229-256 | the M_DELETE is in the network from the request on, and an M_DELETE_R exactly once an M_DELETE has been delivered |
| FlowDeallocation.DuplicateAnswerReopens | src/DIF/FA/FAI.cc:278-306 | a sequence from any established flow with a positive response left over: both ends deallocated, then the requester transfers and the responder stays deallocated |
| FlowCrossing.WaitingSteps | src/DIF/FA/FAI.cc:209-256 | no step but a positive response gets the waiting end of a stuck deallocation out of waiting |
| FlowCrossing.CloserSteps | src/DIF/FA/FAI.cc:209-256 | nor any of the other end |
| FlowCrossing.StuckExactly | src/DIF/FA/FAI.cc:229-256 | over whole runs a stuck deallocation waits if and only if no positive response is delivered to one of the ends |
| FlowCrossing.CrossingDeallocations | src/DIF/FA/FAI.cc:229-238 | both applications asking before an M_DELETE arrives makes both ends stuck |
| FlowCrossing.SecondRequestExactly | src/DIF/FA/FAI.cc:229-256 | in runs, a second request before the answer makes the first one stuck if and only if no M_DELETE was delivered before it |
| FlowEstablishment.RequesterSteps | src/DIF/FA/FAI.cc:65-324 | no step of the requester but its deallocation disturbs a request that waits or was accepted |
| FlowEstablishment.ResponderSteps | src/DIF/FA/FAI.cc:116-324 | nor any of the responder but its answer or its deallocation |
| FlowEstablishment.EstablishedSteps | src/DIF/FA/FAI.cc:229-324 | an established flow stays established while neither end asks for deallocation |
| FlowEstablishment.AllocationCompletes | src/DIF/FA/FAI.cc:65-306 | over whole runs with anything in between: request delivered, accepted, response delivered, and from then on both ends transfer and their flows compare equal |
| FlowEstablishment.AllocationCanComplete | src/DIF/RIB/RIBd.cc:53-80 | from the allocation request on its M_CREATE is in the network |
| FlowEstablishment.AcceptanceCanArrive | src/DIF/FA/FAI.cc:116-159 | from the acceptance on a positive M_CREATE_R is in the network |
| FlowEstablishment.CrossingRequestsDropped | src/DIF/FA/FAITable.cc:90-98 | two allocators with equal counters that request from each other: both requests carry one invoke-id and each is dropped, however often it arrives |
| Retransmission.DtcpState.PushBackToRxQ | src/DIF/EFCP/DTCP/DTCPState.cc:229-232 | the number joins the back of the queue |
| Retransmission.DtcpState.DeleteRxTimer | src/DIF/EFCP/DTCP/DTCPState.cc:197-212 | the first occurrence leaves |
| Retransmission.DtcpState.UpdateSndLwe | src/DIF/EFCP/DTCP/DTCPState.cc:392-399 | the front of the queue, or the argument if it is empty |
| Retransmission.DtcpState.AckPdu | src/DIF/EFCP/DTCP/DTCP.cc:587-614 | the erasing loop leaves, in order, what is not in the acknowledged range: up to the number and gap, or from start to an explicit end and gap |
| Retransmission.OutsideExactly | src/DIF/EFCP/DTCP/DTCP.cc:600-613 | exactly the numbers outside the acknowledged range remain |
| Retransmission.DtcpState.SenderAck | policies/DIF/EFCP/DTCP/SenderAck/SenderAckPolicyBase.cc:44-47 | acknowledgement, then the left edge |
| Retransmission.DtcpState.SelectiveAck | src/DIF/EFCP/DTP/DTP.cc:548-573 | each range in turn, and the left edge after each, is a step of the window's state machine |
| Retransmission.SelectedExactly | src/DIF/EFCP/DTP/DTP.cc:548-573 | exactly the numbers in none of the ranges remain, in order |
| Retransmission.SelectedEdge | src/DIF/EFCP/DTP/DTP.cc:548-573 | the left edge is the first number that remains, or one more than the greatest end |
| Retransmission.DtcpState.Send | src/DIF/EFCP/DTP/DTP.cc:1079-1099 | queued, then the left edge is the front |
| Retransmission.WindowKept | src/DIF/EFCP/DTCP/RXControl.h:46 | the queue stays strictly sorted and the left edge is its first number |
| Retransmission.WindowOverRuns | src/DIF/EFCP/DTCP/DTCPState.cc:392-399 | in every run |
| Retransmission.QueueIsUnacknowledged | src/DIF/EFCP/DTCP/DTCPState.cc:197-232 | in every run the queue holds exactly what was sent and not acknowledged since |
| Retransmission.LeftEdgeIsLeast | src/DIF/EFCP/DTCP/DTCPState.cc:392-399 | the left edge is the least unacknowledged number whenever there is one |
| Retransmission.LeftEdgeMovesForwardExactly | src/DIF/EFCP/DTCP/DTCPState.cc:392-399 | the left edge moves back exactly on an old acknowledgement that meets or leaves an empty queue |
| Retransmission.LeftEdgeOverRuns | src/DIF/EFCP/DTCP/DTCPState.cc:392-399 | without such events it never decreases |
| Retransmission.StaleAckMovesBack | policies/DIF/EFCP/DTCP/SenderAck/SenderAckPolicyBase.cc:44-47 | a whole run for every n: send 1 to n, acknowledge n, and a late acknowledgement of 1 moves the edge back from n + 1 to 2 |
| CdapLog.CdapMsgLog.Insert | src/DAF/CDAP/CDAPMsgLog.cc:30-32 | one entry at the end, with eight bits of the code |
| CdapLog.CdapMsgLog.FindRequestByInvId | src/DAF/CDAP/CDAPMsgLog.cc:47-54 | finds an entry with the code one less and the same invoke-id if and only if there is one |
| CdapLog.CdapSplitter.HandleMessage | src/DAF/CDAP/CDAPSplitter.cc:35-96 | an even code without a logged entry of the code before it and the same invoke-id is discarded unlogged; anything else is logged and sent to one gate |
| CdapLog.NoUnsolicitedResponse | src/DAF/CDAP/CDAPSplitter.cc:47-95 | every forwarded message with an even code follows a forwarded message it answers |
| CdapLog.SolicitedByRequest | src/DAF/CDAP/CDAPSplitter.cc:47-95 | with codes below 256 that message is the matching request |
| CdapLog.ResponsesFollowRequests | src/DAF/CDAP/CDAPSplitter.cc:47-54 | each of the nine response codes, when forwarded, follows the request with the code before it and the same invoke-id |
| CdapLog.RequestsForwarded | src/DAF/CDAP/CDAPSplitter.cc:47-95 | a message with an odd code is always forwarded |
| CdapLog.PassesUnrequestedExactly | src/DAF/CDAP/CDAPMsgLog.cc:30-54 | a response passes without its request if and only if only a message that looks like the request was forwarded, which takes a code outside 0 to 255 |
| CdapLog.TruncatedCodePasses | src/DAF/CDAP/CDAPMsgLog.cc:30-54 | a concrete message beyond that range passes the filter |

## Left out

- Module creation, gate wiring, display strings, tracing, signal registration and configuration files:
  framework plumbing. A signal is a call, a message a channel entry, a self-message a pending event.
- Simulated time: delays such as postReadDelay only order events, and any order is allowed.
- Update: chunks of 2^31 bytes or more, for which the signed offset `i << 6` of transform overflows,
  which C++ leaves undefined.
- HashString: inputs of 2^31 bytes or more, for the same reason.
- HashChunks: a chunk of 2^31 bytes or more, for the same reason.
- Pointers shared between tables, instances and messages: the table stores flows by value, PendingFlows
  holds positions in the table, and a message carries a copy of the flow as it was sent. An instance's
  flow is that of the entry that holds the instance, also where setFaiToFlow found another entry than
  the one the instance was made for.
- Respond: the listener compares flow pointers; here the entry is given by its position in the table.
- Emit: signals that instances raise towards applications and the resource allocator while they handle
  another; what applications answer arrives as separate steps.
- SendCreateRequestFlow: the RIB daemon drops an M_CREATE whose destination neighbour is unspecified;
  here it is recorded as sent, and the network may lose it.
- SendDeleteRequestFlow: the same for an M_DELETE whose destination address is unspecified.
- Retriggering of a local allocation, or of a response that could not be sent, by a lower flow.
- FlowNetwork.StepKeepsInvariant: third allocators are not modelled as such; what they make this
  one do is any entry for somebody else, and any change to it.
- AllocationCompletes: a request whose invoke-id some entry of the responder has; it is dropped.
- EndpointAgreement: a relay whose hop count is exhausted; its answer is the subject of FlowRelay.
- RequestedAsInNetwork: a request that first has to ask for a management flow; its parts are the
  network's steps (ManagementAsInNetwork, ResumedAsInNetwork).
- RequestReachesNearest: applications that the DIF allocator does not know, or knows outside any DIF;
  CompletedExactly says what their flows get.
- TimerResumesAllInRuns: flows and identifiers that are in the table already, which the source does
  not exclude for random numbers.
- Degenerate transfers in the network; FlowManagement has them.
- Dispatch of messages other than the four flow messages by the RIB daemon.
- EnqueuePdu: the policy that chooses an input queue for an arriving PDU, and the PDU for which there is
  none.
- AddQueue: removal of ports and queues, whose loop runs over the vector it shrinks.
- The RMT's map from CEP ids to gates and its forwarding between ports.
- ProcessQueues: the concrete schedulers; any choice of queues stands for them.
- AckPdu: negative acknowledgements, and the retransmission timers that go with the queue.
- The receiver's right window edge, rate control, and the bodies of DTP.
- StartCace: the subscriptions that would call it and InsertStateTableEntry are commented out; they are
  the initial steps here.
- ReceiveConnectRequest: a message from a peer without an entry, for which the source dereferences a
  null pointer; the same holds for the other handlers.
- The operation phase after a non-immediate M_STOP, whose handlers are empty.
- Routing, SDU fragmentation, QoS cubes, AE applications, directory and naming tables: thin or easy.
