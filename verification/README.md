# A verified model of the DDI common library

The model covers the parts of the library where threads, in-place updates or
packed data make the behaviour hard to see from one function at a time:

- **Message queue** (`ControlWord`, `QueueProtocol`, `QueueSafety`,
  `QueueTheorems`, `QueueProgress`, `MessageQueue`). The lock-free ring with one
  producer and one consumer, as a step system in which every volatile read,
  every copied byte and every compare-exchange is a step of its own, and again
  as the imperative code on a flat buffer, with the other thread running between
  the accesses to the word. The queue refines a bounded FIFO, refusals included,
  and every call takes a bounded number of its own steps.
- **Mail queue and events** (`MailQueue`, `MailTheorems`, `MailProgress`,
  `MailFate`, `EventFlag`). The queue above with a coalescing event flag under a
  mutex and a condition variable. No receive that returns ok finds the queue
  empty; but each signal that merges into a pending one, and each receive with a
  buffer and no size, leaves the queue one message ahead of its wake-ups for
  good. No wake-up is lost. A wait that times out returns with the mutex locked.
  From which states sends and receives can ever return ok again is stated as an
  if-and-only-if, with runs that reach the others; without timeouts and such
  receives there are none.
- **Time stamps and sequencer** (`NTime`, `EventMerge`, `Sequencer`,
  `FindEvent`). Carry and borrow arithmetic, and a clock-driven merge of event
  tracks that plays the one stable merge, nothing early, sleeps exactly through
  the gaps longer than its margins, and ends.
- **XML parser** (`XmlSyntax`, `XmlElement`, `XmlReadback`, `XmlParser`,
  `XmlTree`, `XmlDocument`, `XmlLookup`). Concrete syntax trees with their
  printed text are the specification. The parser writes NULs into that text, and
  its records read back from the overwritten buffer as the tree.
- **Base64** (`Base64`, `Base64Decoder`). Encoder and decoder of RFC 4648
  (sections 4 and 5) with line feeds, their buffers, and the round trip.
- **Packed arrays** (`PackedArray`). Entries of 1 to 32 bits in 32-bit words
  refine a plain sequence.
- **Buffer ring and cyclic master** (`BufferRing`, `CyclicMaster`). The FreeRTOS
  index ring beside its kernel queue, and the frame counters and deadlines of
  the cyclic thread.

`Wrappers` and `DivMod` hold an option type and the uniqueness of quotient and
remainder. `dafny verify dfyconfig.toml` checks everything.

Clocks, schedules, sleep results and job results are parameters. Times are whole
nanoseconds. A field narrower than the mathematical integers is reduced where
the code stores it.

Where code and documentation differ the model follows the code:

- a queued message does not guarantee that a receive wakes
  (`MailProgress.ReceiverCanDrainIff`), and a timeout ends the use of the queue
  (`MailFate.ReceiveAgainIff`);
- an event keeps 16 of its 32 documented bits (`EventFlag.AccumulatesAllIff`);
- the event search does not find the closest event (`FindEvent.FindsClosestIff`);
- a run of a sequence returns 0, the value of NOT_OK, after sleeps that all went
  well (`Sequencer.Sequencer.Proc`);
- an enqueue without data zeroes the slot, although Example 1 of `ddi_queue.h`
  fills the slot first (`MessageQueue.ExampleOne`).

A few definitions (`XmlReadback.At`, `XmlParser.Same`) count down to their body
before they say it. That changes nothing in their meaning; it keeps proofs that
only combine facts about whole strings from looking at single characters.

## Model

| member | source | states |
|---|---|---|
| `ControlWord.InitialWord` | `ddi_common_lib/ddi_queue.c:7-13` | an empty queue of 1 to 255 slots starts with a consistent word: both indices at the last slot and one ring relation between them; a depth above 255 does not fit |
| `ControlWord.RingPosition` | `ddi_common_lib/ddi_queue.c:44-108` | the ring relation kept throughout: idx_in is (idx_out + count) mod depth |
| `ControlWord.EnqueueIsSuccessor` | `ddi_common_lib/ddi_queue.c:61-64` | the word a producer computes from an untorn snapshot is the true successor; index and count never wrap their 8 bits |
| `ControlWord.DequeueIsSuccessor` | `ddi_common_lib/ddi_queue.c:94-97` | the same for the word a consumer computes |
| `QueueSafety.InitInv` | `ddi_common_lib/ddi_queue.c:187-193` | whatever the memory of slots and lengths holds, the initial state satisfies the protocol invariant |
| `QueueSafety.InvInBounds` | `ddi_common_lib/ddi_queue.c:140-185` | no reachable step reads or writes a slot outside the buffer |
| `QueueSafety.FillingKeepsPending` | `ddi_common_lib/ddi_queue.c:149-160` | while the producer fills its slot every message still in the queue stays intact |
| `QueueSafety.EnqueueKeepsConsumer` | `ddi_common_lib/ddi_queue.c:59-72` | interference: an enqueue leaves everything the consumer relies on standing |
| `QueueSafety.DequeueKeepsProducer` | `ddi_common_lib/ddi_queue.c:92-106` | interference: a dequeue leaves everything the producer relies on standing |
| `QueueSafety.EnqueueTakesEffect` | `ddi_common_lib/ddi_queue.c:65-68` | the producer's successful compare-exchange appends exactly its message and changes nothing else |
| `QueueSafety.DequeueTakesEffect` | `ddi_common_lib/ddi_queue.c:99-102` | the consumer's successful compare-exchange removes exactly the oldest message, whose copy is the receipt |
| `QueueSafety.ReadKeepsInv` | `ddi_common_lib/ddi_queue.c:61` | a snapshot may be taken one byte at a time, in any order, with the other thread running between the bytes |
| `QueueSafety.StepKeepsInv` | `ddi_common_lib/ddi_queue.c:44-185` | every step of either thread, in any interleaving, keeps the invariant |
| `QueueSafety.Run` | `ddi_common_lib/ddi_queue.c:44-185` | every state of every run from an empty queue of 1 to 255 slots, on memory as it was found, satisfies the protocol invariant |
| `QueueTheorems.StepRefinesFifo` | `ddi_common_lib/ddi_queue.c:140-185` | refinement: every atomic step is a stutter, a put, a take, or a refusal at the first test that a bounded FIFO allows just when it is full or empty, and the history records exactly the puts and takes |
| `QueueTheorems.SendsEndAsMeant` | `ddi_common_lib/ddi_queue.c:140-164` | a send that is under way ends with the step that puts its message or was refused by the first test, and that refuses exactly when it reads a full queue |
| `QueueTheorems.ReceivesEndAsMeant` | `ddi_common_lib/ddi_queue.c:166-185` | a receive ends with a refusal exactly when its first test finds the queue empty, otherwise with the step that takes the oldest message |
| `QueueTheorems.InstalledWordIsSuccessor` | `ddi_common_lib/ddi_queue.c:61-68` | every word that a compare-exchange installs is the true successor of the word it replaces, however torn the snapshot was |
| `QueueTheorems.DeliveredInOrder` | `ddi_common_lib/ddi_queue.c:140-185` | in every run the k-th receipt holds the k-th message sent: nothing without a buffer, the whole message in a large enough one, otherwise its first bytes, as many as the buffer holds; count is sent minus delivered and at most depth |
| `QueueTheorems.FittingIsPrefix` | `ddi_common_lib/ddi_queue.c:175-181` | what a caller gets of a message, in lengths and bytes |
| `QueueTheorems.QueuedInSlots` | `ddi_common_lib/ddi_queue.c:149-160` | the i-th message queued lies i slots after idx_out with its length beside it; every byte of the slot of an empty one is 0 |
| `QueueTheorems.WholeMessagesArePrefix` | `ddi_common_lib/ddi_queue.h:50-54` | receivers with large enough buffers see a prefix of the messages sent, payload and length whole |
| `QueueTheorems.MessagesFit` | `ddi_common_lib/ddi_queue.c:143-144` | no message longer than a slot is ever accepted |
| `QueueTheorems.SlotsNeverShared` | `ddi_common_lib/ddi_queue.h:50-54` | while both threads have a slot in hand the two slots differ, so no payload is read while it is written |
| `QueueTheorems.RefusalsAreHonest` | `ddi_common_lib/ddi_queue.c:37-42` | a producer told full found depth messages queued, a consumer told empty found none; no call is turned away by its compare-exchange loop |
| `QueueTheorems.LoopsAreBounded` | `ddi_common_lib/ddi_queue.c:59-72` | wait-freedom in rounds: a producer loses at most as many rounds as there were messages at entry, a consumer at most as many as there were free slots |
| `QueueProgress.CallsAreBounded` | `ddi_common_lib/ddi_queue.c:140-185` | wait-freedom in steps: whatever the other thread does, a call makes at most 7 * depth + size + 16 moves of its own |
| `QueueProgress.ProducerMovesAreFew` | `ddi_common_lib/ddi_queue.c:140-164` | from any point of an enqueue, in any run, the moves left are bounded by a rank of the current state: bytes and fields to go, and a round for each message that may yet be taken |
| `QueueProgress.ConsumerMovesAreFew` | `ddi_common_lib/ddi_queue.c:166-185` | the same for a dequeue: a round for each free slot that may yet be filled |
| `QueueProgress.ProducerAdvances` | `ddi_common_lib/ddi_queue.c:140-164` | with room in the queue each step of a producer keeps its call under way and puts nothing but its message, also after lost races and torn snapshots |
| `QueueProgress.ProducerComesCloser` | `ddi_common_lib/ddi_queue.c:140-164` | and each of these steps brings it closer to its end |
| `QueueProgress.ConsumerAdvances` | `ddi_common_lib/ddi_queue.c:166-185` | with a message queued each step of a consumer keeps its call under way and takes nothing but the oldest message |
| `QueueProgress.ConsumerComesCloser` | `ddi_common_lib/ddi_queue.c:166-185` | and each of these steps brings it closer to its end |
| `MessageQueue.OffsetIsProduct` | `ddi_common_lib/ddi_queue.c:149` | slot i starts at size times i |
| `MessageQueue.OffsetsOrdered` | `ddi_common_lib/ddi_queue.c:149` | the slots in the flat buffer are disjoint |
| `MessageQueue.MessageQueue.constructor` | `ddi_common_lib/ddi_queue.c:187-193` | sets up an empty queue on the caller's buffer, whatever that and the lengths hold |
| `MessageQueue.MessageQueue.QueueIn` | `ddi_common_lib/ddi_queue.c:37-42` | the slot to fill, or -1 exactly when depth messages are queued |
| `MessageQueue.MessageQueue.QueueOut` | `ddi_common_lib/ddi_queue.c:30-35` | the slot to read, or -1 exactly when none is queued |
| `MessageQueue.MessageQueue.CompareExchange` | `ddi_common_lib/ddi_atomic.h:23-35` | replaces the word exactly when it equals the expected one, and reports the word it found |
| `MessageQueue.MessageQueue.ProducerSnapshot` | `ddi_common_lib/ddi_queue.c:61` | a torn snapshot differs from the word only in what the consumer changed, and only if the consumer ran |
| `MessageQueue.MessageQueue.TryEnqueue` | `ddi_common_lib/ddi_queue.c:61-71` | one round of the loop: installs the successor, or the consumer took a message meanwhile |
| `MessageQueue.MessageQueue.Enqueue` | `ddi_common_lib/ddi_queue.c:44-75` | reports full exactly when the first test finds depth messages; otherwise appends the message, and needs at most one round more than the consumer took messages |
| `MessageQueue.MessageQueue.MessageEnqueue` | `ddi_common_lib/ddi_queue.c:140-164` | -2 exactly for too long data, -1 exactly when full at the test, otherwise appends the data, or an empty message with the slot zeroed for none; a refusal changes nothing |
| `MessageQueue.MessageQueue.ConsumerSnapshot` | `ddi_common_lib/ddi_queue.c:94` | the consumer's torn snapshot |
| `MessageQueue.MessageQueue.TryDequeue` | `ddi_common_lib/ddi_queue.c:94-105` | one round of the dequeue loop |
| `MessageQueue.MessageQueue.Dequeue` | `ddi_common_lib/ddi_queue.c:77-108` | reports empty exactly when the first test finds none; otherwise removes exactly the oldest |
| `MessageQueue.MessageQueue.CopyHead` | `ddi_common_lib/ddi_queue.c:175-181` | the copy out of the slot is the oldest message, although the producer keeps enqueueing while it is made |
| `MessageQueue.MessageQueue.MessageDequeue` | `ddi_common_lib/ddi_queue.c:166-185` | the result, the bytes written to the caller's buffer, the length reported and the bytes left alone, for every combination of arguments |
| `MessageQueue.ExampleOne` | `ddi_common_lib/ddi_queue.h:56-76` | Example 1, a slot filled first and then an enqueue without data: at the head the consumer of an empty queue finds length 0 and every byte of the slot 0 |
| `MailTheorems.MailStepKeepsInv` | `ddi_common_lib/ddi_os_posix.c:343-466` | every step of sender and receiver, refused receives and timeouts included, keeps the token invariant (a message for every wake-up owed, stored or taken, one for each merged signal and one for each refused receive) and the mutex invariant |
| `MailTheorems.MailRun` | `ddi_common_lib/ddi_os_posix.c:343-466` | every state of every run keeps the token and mutex invariants |
| `MailQueue.QueueStepEffects` | `ddi_common_lib/ddi_os_posix.c:445-466` | how each step of the message queue underneath moves its two threads and its count |
| `MailTheorems.OkReceiveHasMessage` | `ddi_common_lib/ddi_os_posix.c:455-466` | in every run no receive that returned ok found the queue empty: ok receives are the deliveries and the receives that had a buffer but no size, and sends that returned ok are in the queue or delivered |
| `MailTheorems.StrandedMessages` | `ddi_common_lib/ddi_os_posix.c:343-348` | exactly one message is left without a wake-up for each signal that merged into a pending one and each refused receive; merged signals alone are fewer than the slots |
| `MailTheorems.ReceiverAloneGainsNothing` | `ddi_common_lib/ddi_os_posix.c:455-466` | without new sends, receiving only uses up wake-ups: the stranded messages stay queued |
| `MailTheorems.NoWakeUpIsLost` | `ddi_common_lib/ddi_os_posix.c:343-372` | in every state of every run a receiver sleeps beside a set event only while the signal that wakes it is still to be sent |
| `MailTheorems.NarrowedIsWhole` | `ddi_common_lib/ddi_os_posix.c:445-448` | what is sent is the front of the data, its length modulo 65536; it is whole exactly below 65536 bytes |
| `MailTheorems.AbandonedStepBlocks` | `ddi_common_lib/ddi_os_posix.c:359-365` | once a timed-out wait has returned with the mutex locked, no step lets a send or a receive return ok or sets the event |
| `MailTheorems.TimeoutIsForever` | `ddi_common_lib/ddi_os_posix.c:359-365` | from then on no send and no receive ever returns ok again, in any run |
| `MailFate.TimeoutAbandons` | `ddi_common_lib/ddi_os_posix.c:359-365` | for every depth a run from the initial state in which a timed-out wait leaves the mutex locked |
| `MailFate.ReceiveAgainIff` | `ddi_common_lib/ddi_os_posix.c:343-372` | in every state a receive can ever return ok again, with or without spurious wake-ups, if and only if the mutex is not lost, the wait under way has not timed out, and some slot is free of messages without a wake-up |
| `MailFate.SendAgainIff` | `ddi_common_lib/ddi_os_posix.c:343-372` | in every state a send can ever return ok again, with or without spurious wake-ups, if and only if the mutex is not lost and there is room, or the message of the send under way is queued, or the receiver can still make room |
| `MailFate.NoReceiveReturnsOk` | `ddi_common_lib/ddi_os_posix.c:455-466` | in all other states no run holds a receive that returns ok |
| `MailFate.NoSendReturnsOk` | `ddi_common_lib/ddi_os_posix.c:445-453` | in all other states no run holds a send that returns ok |
| `MailFate.RefusedReceivesWedge` | `ddi_common_lib/ddi_queue.c:168-169` | for every depth a run after which both threads are idle and the mutex is free, but every slot holds a message without a wake-up and neither operation can return ok again |
| `MailFate.OrderlyRunsGoOn` | `ddi_common_lib/ddi_os_posix.c:343-466` | in every state of every run without timeouts and without receives that lack a size, both a send and a receive can return ok again |
| `MailProgress.FinishSend` | `ddi_common_lib/ddi_os_posix.c:445-453` | a sender left alone finishes its send from any point of it, lost races included, leaves the event set, and has woken the receiver if that was asleep |
| `MailProgress.SendWakesReceiver` | `ddi_common_lib/ddi_os_posix.c:343-372` | a send beside a sleeping receiver makes the receive it sleeps in return ok, with no spurious wake-up: with the oldest message, which is the one sent when the queue was empty |
| `MailProgress.SpuriousWakeSleepsAgain` | `ddi_common_lib/ddi_os_posix.c:356-372` | a receiver woken without a signal tests the event under the mutex and goes back to sleep, and nothing has changed |
| `MailProgress.FinishReceive` | `ddi_common_lib/ddi_os_posix.c:455-466` | a signalled receiver left alone returns ok from any point of its receive, with the oldest message, or without one when it has no size |
| `MailProgress.SendAlone` | `ddi_common_lib/ddi_os_posix.c:445-453` | a whole send on a quiet queue: one message more, the event set, one more merged signal exactly when it was set before |
| `MailProgress.ReceiveAlone` | `ddi_common_lib/ddi_os_posix.c:455-466` | a whole receive on a quiet queue: the oldest message, and the event cleared |
| `MailProgress.ReceiverCanDrainIff` | `ddi_common_lib/ddi_os_posix.c:343-372` | the receiver can empty the queue with no further send if and only if no signal was ever merged into a pending one and no receive lacked a size |
| `MailProgress.ReceiveCanSleepOnMessage` | `ddi_common_lib/ddi_os_posix.c:455-466` | for every depth from 2 on, two sends and one receive leave a message in the queue while the next receive sleeps |
| `EventFlag.AccumulatesAllIff` | `ddi_common_lib/ddi_os.h:212-221` | the event accumulates every bit signalled, as documented for 32 bits, if and only if none of the upper 16 is used |
| `EventFlag.Event.Signal` | `ddi_common_lib/ddi_os_posix.c:343-348` | adds the low 16 bits and frees the mutex |
| `EventFlag.Event.Wait` | `ddi_common_lib/ddi_os_posix.c:350-372` | sleeps only while no bit is stored and ends at the first sleep that brings a bit or the deadline; times out if and only if it found no bit and that sleep ended with the deadline, even when a bit came with it; ok takes every bit once and frees the mutex, a timeout keeps the mutex and leaves the bits behind |
| `EventFlag.DecisionDecides` | `ddi_common_lib/ddi_os_posix.c:359-368` | only one sleep can decide a wait, so the wait times out exactly when that one ended with the deadline |
| `EventFlag.DecidedMeans` | `ddi_common_lib/ddi_os_posix.c:356-368` | the sleep that decides is the first that ends with the deadline or after a signal with a bit that is kept |
| `NTime.DiffNs` | `ddi_common_lib/ddi_ntime.c:170-206` | the difference of two stamps is exact and fits 64 bits for all field values |
| `NTime.Ntime.AddNs` | `ddi_common_lib/ddi_ntime.c:208-220` | the carry loop computes the normalised sum for every 64-bit amount that does not overflow the signed one; an amount that turns negative skips the loop and is cut |
| `NTime.Ntime.SubNs` | `ddi_common_lib/ddi_ntime.c:222-249` | the borrow loop computes the normalised difference, or zero when the time is not after the amount field by field, for every 64-bit amount that does not overflow the signed one |
| `NTime.PlusIsExactIff` | `ddi_common_lib/ddi_ntime.c:208-220` | adding is exact if and only if the seconds do not run over |
| `NTime.StampInNumbers` | `ddi_common_lib/ddi_ntime.c:208-249` | a normalised time stamp in numbers: nanoseconds below 1 000 000 000, seconds modulo 2^32 |
| `NTime.MinusSaturatesIff` | `ddi_common_lib/ddi_ntime.c:222-249` | subtracting is saturating subtraction if and only if the amount does not exceed the time through its nanoseconds alone; always below a second of nanoseconds |
| `NTime.MinusUndoesPlusIff` | `ddi_common_lib/ddi_ntime.c:208-249` | for every amount, subtracting what was added gives the time back if and only if the sum is after the amount field by field or the time was zero; below a second of nanoseconds that is if and only if the addition did not run over |
| `EventMerge.BestIsFirst` | `ddi_common_lib/ddi_seq_utils.c:29-55` | the scan finds the event that comes before every other head: earliest time, then lowest track |
| `EventMerge.MergedIsComplete` | `ddi_common_lib/ddi_seq_utils.c:115-152` | the merge holds exactly the events to come |
| `EventMerge.MergedIsInOrder` | `ddi_common_lib/ddi_seq_utils.c:29-55` | on sorted tracks the merge never goes back in time, breaks ties to the lower track, keeps each track's order and repeats nothing |
| `EventMerge.StableMergeIsUnique` | `ddi_common_lib/ddi_seq_utils.c:29-55` | on sorted tracks the merge is the only sequence of the events to come in that order |
| `EventMerge.PlayedIsByTime` | `ddi_common_lib/ddi_seq_utils.c:134-152` | up to a stop time exactly the events not later are played, and the first one to come whatever its time |
| `Sequencer.Sequencer.GetNextEvent` | `ddi_common_lib/ddi_seq_utils.c:29-55` | returns the head of the merge, and none exactly when nothing is left |
| `Sequencer.Sequencer.SleepsArePositiveIff` | `ddi_common_lib/ddi_seq_utils.c:179-185` | every requested sleep is a positive interval if and only if the two margins sum to less than 2^32 |
| `Sequencer.Sequencer.Wait` | `ddi_common_lib/ddi_seq_utils.c:177-205` | a sleep is asked for exactly when the event is further off than the two margins, to end wake_latency before it; the run breaks off exactly when that sleep fails; otherwise sequence time is the clock reading less the start |
| `Sequencer.Sequencer.PlayOne` | `ddi_common_lib/ddi_seq_utils.c:137-152` | plays the head and moves on, never early, and stops at the stop time |
| `Sequencer.Sequencer.Proc` | `ddi_common_lib/ddi_seq_utils.c:115-208` | on a clock that reaches the last event to be played the loop ends, having played the stable merge up to the stop time, nothing early; every turn that waits begins at the clock reading before it, with the next event still to come, and sleeps exactly when that is further off than the margins; each event is played at the reading of its turn; the run breaks off exactly in the first sleep that fails, and the status is 0 with nothing to play, 1 when no sleep was asked for, 0 after sleeps, otherwise what the failed sleep returned |
| `Sequencer.Sequencer.NothingFails` | `ddi_common_lib/ddi_seq_utils.c:179-192` | a run breaks off only when the system breaks off a sleep or the margins run over 32 bits |
| `Sequencer.Sequencer.RunAll` | `ddi_common_lib/ddi_seq_utils.c:210-228` | seq_run plays every event of nonempty sorted tracks |
| `Sequencer.Sequencer.RunToNtime` | `ddi_common_lib/ddi_seq_utils.c:255-258` | seq_run_to_ntime plays exactly the first event to come and those not later than the stop time |
| `Sequencer.WaitIsBounded` | `ddi_common_lib/ddi_seq_utils.c:134-206` | while the next event has not come the clock has readings left: the wait ends |
| `Sequencer.AllPlayed` | `ddi_common_lib/ddi_seq_utils.c:217-227` | the stop time seq_run computes cuts nothing off |
| `Sequencer.SequenceTimeIff` | `ddi_common_lib/ddi_seq_utils.c:125-127` | sequence time is start plus elapsed time if and only if the system has been up at least as long as the start value |
| `FindEvent.Find` | `ddi_common_lib/ddi_seq_utils.c:57-100` | the search loop returns what the half-second rule says |
| `FindEvent.SearchBetween` | `ddi_common_lib/ddi_seq_utils.c:81-87` | between two neighbours the upper one is taken exactly when the lower is more than 500 000 000 ns early |
| `FindEvent.GoodGapsFindClosest` | `ddi_common_lib/ddi_seq_utils.c:57-100` | with neighbours a second apart, at the same time, or too close for a key between them, the half-second rule picks a closest event for every key |
| `FindEvent.FindsClosestIff` | `ddi_common_lib/ddi_seq_utils.h:87-90` | on every list in order of time the search finds a closest event for every key, as documented, if and only if neighbours are a second apart, at the same time, or too close for a key between them |
| `FindEvent.BadGapMisses` | `ddi_common_lib/ddi_seq_utils.h:87-90` | for every other gap, a key whose closest event is missed |
| `Base64.CharRoundTrip` | `ddi_common_lib/freebsd/base64.c:20-56` | each decoding table inverts its alphabet; no alphabet character is padding or a line feed |
| `Base64.EncodesAlphabet` | `ddi_common_lib/freebsd/base64.c:15-18` | the encoding tables are the alphabets of RFC 4648, padding is '=' and the line end a line feed |
| `Base64.DecodesAlphabet` | `ddi_common_lib/freebsd/base64.c:20-56` | the decoder knows letters, digits, the two characters of its alphabet and '=', each by its value, and no other character |
| `Base64.BlocksInOrder` | `ddi_common_lib/freebsd/base64.c:84-111` | every three bytes in turn give the four characters in their place, the bytes left the end |
| `Base64.UnpaddedLength` | `ddi_common_lib/freebsd/base64.c:84-111` | the exact length of an encoding without padding |
| `Base64.PaddedLength` | `ddi_common_lib/freebsd/base64.c:84-114` | the exact length of a padded encoding: its characters and one line feed per started 72 |
| `Base64.FeedsEvery72` | `ddi_common_lib/freebsd/base64.c:84-114` | a padded encoding has a line feed after every 72 characters and at its end, and nowhere else |
| `Base64.SizeSuffices` | `ddi_common_lib/freebsd/base64.c:68-75` | the allocation holds characters, line feeds and NUL for every length, and is filled to the last byte for the lengths stated |
| `Base64.Encode` | `ddi_common_lib/freebsd/base64.c:58-120` | refuses exactly the lengths from SIZE_MAX/4 on; otherwise writes the encoding and its NUL within the allocation |
| `Base64Decoder.JunkIsIgnored` | `ddi_common_lib/freebsd/base64.c:155-157` | inserting or deleting characters other than letters, digits, '=' and the two of the alphabet, anywhere, changes nothing |
| `Base64Decoder.BlockKeepsBits` | `ddi_common_lib/freebsd/base64.c:84-88` | four characters of an encoding stand for the 24 bits of their three bytes in order |
| `Base64Decoder.QuartetKeepsBits` | `ddi_common_lib/freebsd/base64.c:164-166` | a quartet is decoded to the 24 bits of its four values in order |
| `Base64Decoder.TailOfOne` | `ddi_common_lib/freebsd/base64.c:97-103` | the last byte is encoded as if zeros followed, and cut or padded |
| `Base64Decoder.TailOfTwo` | `ddi_common_lib/freebsd/base64.c:104-111` | the same for the last two bytes |
| `Base64Decoder.QuartetsFailIff` | `ddi_common_lib/freebsd/base64.c:168-177` | decoding fails if and only if the first quartet with padding has more than two pads (or there is nothing to decode, see DecodeText) |
| `Base64Decoder.BlockRoundTrip` | `ddi_common_lib/freebsd/base64.c:84-88` | decoding a full block gives its three bytes back |
| `Base64Decoder.TailRoundTrip` | `ddi_common_lib/freebsd/base64.c:97-111` | decoding the last quartet gives the one or two last bytes back |
| `Base64Decoder.SignificantOfEncoded` | `ddi_common_lib/freebsd/base64.c:91-94` | line feeds are all the decoder skips in an encoding |
| `Base64Decoder.PaddingRestored` | `ddi_common_lib/freebsd/base64.c:140-152` | the padding the decoder supplies is exactly what the encoder left out |
| `Base64Decoder.DecodeInvertsEncodeIff` | `ddi_common_lib/freebsd/base64.c:58-185` | decode inverts encode, for both alphabets, padded with line feeds or neither, if and only if the input is nonempty |
| `Base64Decoder.CountSignificant` | `ddi_common_lib/freebsd/base64.c:132-136` | counts the characters the second loop will use |
| `Base64Decoder.Decode` | `ddi_common_lib/freebsd/base64.c:123-185` | computes the decoding of the significant characters within (count + extra_pad)/4*3 bytes, or refuses exactly when there is none |
| `XmlReadback.ParsedReadsBack` | `ddi_common_lib/ddi_xml.c:288-344` | parser undoes printer: the records of a parsed node, read as C strings from the overwritten buffer, give tags, attributes, texts and child order of the printed tree |
| `XmlReadback.KidsReadBack` | `ddi_common_lib/ddi_xml.c:306-341` | the same for a run of comments and children: children in order, comments gone |
| `XmlReadback.ParsedFields` | `ddi_common_lib/ddi_xml.c:288-344` | field by field: tag, names, values and text of a parsed record are the strings of the node |
| `XmlReadback.StringIs` | `ddi_common_lib/ddi_xml.c:226` | a string ended by a NUL in the buffer is read back whole |
| `XmlSyntax.NodeLength` | `ddi_common_lib/ddi_xml.c:288-344` | parsing in place moves nothing: every position stays |
| `XmlParser.ScanTo` | `ddi_common_lib/ddi_str_utils.c:14-19` | stops at the first wanted character or NUL |
| `XmlParser.SkipSpaces` | `ddi_common_lib/ddi_str_utils.c:21-29` | stops at the first character that is none of the four blanks |
| `XmlParser.ComparePrefix` | `ddi_common_lib/ddi_xml.c:312-313` | the bounded comparison succeeds exactly when the closing name is a prefix of the tag |
| `XmlParser.CloseTag` | `ddi_common_lib/ddi_xml.c:308-321` | a closing tag is accepted if and only if its name is a prefix of the open tag; otherwise it is ended in place |
| `XmlParser.Element.EnsureCapacity` | `ddi_common_lib/ddi_xml.c:193-218` | keeps the children there are and zeroes the slots up to the count and one more |
| `XmlParser.ParseAttribute` | `ddi_common_lib/ddi_xml.c:165-191` | ends name and value in place, records both, and stops after the white space |
| `XmlParser.ParseAttributes` | `ddi_common_lib/ddi_xml.c:229-248` | the loop over attributes records them all, in order, and stops at the end of the start tag |
| `XmlParser.ParseTag` | `ddi_common_lib/ddi_xml.c:220-250` | ends the tag in place and stops on the last character of the start tag |
| `XmlParser.SkipComment` | `ddi_common_lib/ddi_xml.c:252-286` | stops on the '<' after a well-formed comment |
| `XmlTree.ParseItem` | `ddi_common_lib/ddi_xml.c:323-340` | one comment is skipped, or one child parsed into a new slot of the child array, up to the next '<' |
| `XmlTree.ParseContent` | `ddi_common_lib/ddi_xml.c:307-341` | the loop keeps the child array at child_count records and a zero terminator, and ends on the '>' of the closing tag |
| `XmlTree.ParseBody` | `ddi_common_lib/ddi_xml.c:299-303` | the text is ended at its '<' in place |
| `XmlTree.ParseNode` | `ddi_common_lib/ddi_xml.c:288-344` | parsing the printed form of any tree of the subset, wherever it stands, leaves exactly the overwritten text and the records of the tree, and stops on the last '>' |
| `XmlDocument.SkipProlog` | `ddi_common_lib/ddi_xml.c:366-375` | declarations and comments before the root are skipped |
| `XmlDocument.ParseDocument` | `ddi_common_lib/ddi_xml.c:346-384` | the parsed document reads back as the tree whose text was in the buffer; only the root's text has changed |
| `XmlDocument.ParseExample` | `ddi_common_lib/ddi_xml.c:346-384` | the tree read from one document with a declaration, attributes in either quotes, a comment, an empty element, and an element closed by a prefix of its tag |
| `XmlDocument.ParseTightSlash` | `ddi_common_lib/ddi_xml.c:225-241` | parsing <t/> without a blank, wherever it stands and whatever follows, leaves an open element whose text begins with the '>' and whose children are what follows |
| `XmlDocument.ParseEmptyIff` | `ddi_common_lib/ddi_xml.c:225-297` | an element is read as empty if and only if a blank follows its tag and a slash ends its start tag |
| `XmlLookup.First` | `ddi_common_lib/ddi_xml.c:72-93` | finds the first child wanted, by array order |
| `XmlLookup.Next` | `ddi_common_lib/ddi_xml.c:95-111` | finds the next child wanted after the given one, stopping at the terminator alone |
| `XmlLookup.Walk` | `ddi_common_lib/ddi_xml.c:72-111` | the walk from xml_first by xml_next meets exactly the wanted children, each once, in order |
| `XmlLookup.WantedLast` | `ddi_common_lib/ddi_xml.c:72-111` | which trees a walk wants: chosen one by one, by tag alone |
| `XmlLookup.ParsedIsEnded` | `ddi_common_lib/ddi_xml.c:193-218` | the child array of every parsed node is ended as the walk needs |
| `XmlLookup.GetAttrib` | `ddi_common_lib/ddi_xml.c:148-163` | the value of the first attribute whose name reads as the one asked for, none exactly when no attribute has it |
| `XmlLookup.GetParsedAttrib` | `ddi_common_lib/ddi_xml.c:148-163` | on a parsed record that is the value the node's text gives its first attribute of that name |
| `PackedArray.Layout` | `ddi_common_lib/ddi_macros.h:54` | no entry straddles a word, for every entry size 1 to 32 and every index whose product with the size does not wrap (see ShiftWrapsIff) |
| `PackedArray.ShiftWrapsIff` | `ddi_common_lib/ddi_macros.h:54` | where the product of entry size and index wraps, the shift is the right one if and only if what is lost is a whole number of words' worth of entry bits |
| `PackedArray.EvenSizesNeverMind` | `ddi_common_lib/ddi_macros.h:54` | entry sizes that fill a word exactly never mind the wrap |
| `PackedArray.ThreeBitsWrap` | `ddi_common_lib/ddi_macros.h:54` | for entries of 3 bits and a 32-bit index, an index whose shift is wrong |
| `PackedArray.IndexInSize` | `ddi_common_lib/ddi_macros.h:63-72` | every index below the count lies in an array of the computed size, and the last one in its last word |
| `PackedArray.SizeIsLeast` | `ddi_common_lib/ddi_macros.h:63-72` | the computed size is the least number of words with room for every entry |
| `PackedArray.EntryBits` | `ddi_common_lib/ddi_macros.h:54-63` | where an entry lies: with m = 32 / e entries to a word, entry m * q + r is the e bits from e * r on of word q |
| `PackedArray.Apart` | `ddi_common_lib/ddi_macros.h:54-82` | two entries of one word do not overlap |
| `PackedArray.FieldBits` | `ddi_common_lib/ddi_macros.h:136` | the bits ARRAY32_GET_ENTRY reads are those of the word from the shift on |
| `PackedArray.UpdateThenField` | `ddi_common_lib/ddi_macros.h:124-136` | set then get in one word: the value cut to the entry size, or another entry unchanged |
| `PackedArray.UpdateBits` | `ddi_common_lib/ddi_macros.h:124-126` | setting an entry changes its bits of the word and no others, not even those of no entry |
| `PackedArray.SetEntries` | `ddi_common_lib/ddi_macros.h:124-126` | the packed array refines a plain sequence: setting an entry replaces that element and no other |
| `PackedArray.CutIsRemainder` | `ddi_common_lib/ddi_macros.h:126` | cutting to e bits is the remainder by 2^e |
| `PackedArray.ValueIsBinary` | `ddi_common_lib/ddi_macros.h:126` | bits as binary digits, lowest first |
| `PackedArray.GetEntry` | `ddi_common_lib/ddi_macros.h:136` | reads the element of the plain sequence |
| `PackedArray.SetEntry` | `ddi_common_lib/ddi_macros.h:124-126` | replaces the element, and touches no other word |
| `PackedArray.ClearEntry` | `ddi_common_lib/ddi_macros.h:112-113` | replaces the element by zero |
| `BufferRing.BufferQueue.constructor` | `ddi_common_lib/ddi_os_freertos.c:347-361` | an empty ring |
| `BufferRing.BufferQueue.PrivEnqueue` | `ddi_common_lib/ddi_os_freertos.c:315-330` | the two-case test refuses exactly when (idx_in + 1) mod depth is idx_out |
| `BufferRing.BufferQueue.PrivDequeue` | `ddi_common_lib/ddi_os_freertos.c:332-345` | refuses exactly when the ring is empty |
| `BufferRing.StepKeepsInv` | `ddi_common_lib/ddi_os_freertos.c:315-425` | every interleaved step keeps the pending indices a run of consecutive ring indices, fewer than depth |
| `BufferRing.Run` | `ddi_common_lib/ddi_os_freertos.c:315-425` | every state of every run satisfies that invariant |
| `BufferRing.FullIff` | `ddi_common_lib/ddi_os_freertos.c:319-324` | the ring is full exactly when depth - 1 indices are claimed and not given back |
| `BufferRing.NeitherSideBlocks` | `ddi_common_lib/ddi_os_freertos.c:376-425` | in every run a send that passed the ring test finds room in the kernel queue, a release finds the ring not empty, and indices arrive in order |
| `BufferRing.BufferRun` | `ddi_common_lib/ddi_os_freertos.c:363-400` | in every state of every run, the index under which a message is posted is one past that of the buffer handed out for it |
| `BufferRing.NeverTheBufferFilled` | `ddi_common_lib/ddi_os_freertos.c:363-425` | in every run no message is received in the buffer that was handed out for it |
| `BufferRing.HandsOutTheLastSent` | `ddi_common_lib/ddi_os_freertos.c:363-400` | the buffer handed out next is always the one under whose index the last message went out |
| `CyclicMaster.TrailingIsRun` | `ddi_ecat_master_lib/src/ddi_em.cpp:187-203` | the current counter's meaning: the losses at the end of the history, no more and no fewer |
| `CyclicMaster.LongestIsLongest` | `ddi_ecat_master_lib/src/ddi_em.cpp:188-192` | the maximum counter's meaning: some run of losses has that length and none is longer |
| `CyclicMaster.CountsAddUp` | `ddi_ecat_master_lib/src/ddi_em.cpp:186-201` | lost and good add up to the successful receive jobs |
| `CyclicMaster.CountsStep` | `ddi_ecat_master_lib/src/ddi_em.cpp:181-205` | one receive result keeps all four counters right, wrap of the fields included |
| `CyclicMaster.CountersCount` | `ddi_ecat_master_lib/src/ddi_em.cpp:181-205` | in numbers: lost and good frames count the results of their kind in 32 and 64 bits, the current run wraps in 32 bits, the longest stays at their largest value |
| `CyclicMaster.LossesAppend` | `ddi_ecat_master_lib/src/ddi_em.cpp:181-205` | each result counts on its own, and failed jobs are left out |
| `CyclicMaster.Master.CyclicUpdate` | `ddi_ecat_master_lib/src/ddi_em.cpp:179-205` | the counters are those of the history with one result more |
| `CyclicMaster.NextDue` | `ddi_ecat_master_lib/src/ddi_em.cpp:251-271` | adding a period to a deadline gives the next one, for ever: no drift |
| `CyclicMaster.DueIs` | `ddi_ecat_master_lib/src/ddi_em.cpp:251-271` | in numbers: deadline k is k + 1 periods of so many microseconds after the start |
| `CyclicMaster.Master.Scheduler` | `ddi_ecat_master_lib/src/ddi_em.cpp:242-276` | cycle k sleeps until start plus k + 1 periods, and the counters cover every cycle |

## Left out

- Two producers or two consumers: the queue is documented for one of each, and its full test is not repeated after a new snapshot.
- The tearing of a single byte and weaker memory orders than sequential consistency.
- Deadline arithmetic and spurious timing of `event_wait`: a timeout may happen at any sleep; its effect is modelled, its moment is not.
- NTime.Ntime.AddNs: amounts whose signed sum with the nanoseconds overflows 64 bits, which C leaves undefined; the same for SubNs.
- Freeing, creation failure and NULL handles.
- MailQueue: `event_t` is two booleans of the step system there, because sender and receiver interleave inside its methods; `EventFlag.Event` is the object with its fields.
- Sequencer.Sequencer.Proc: event callbacks do not change the sequence; a clock is a finite series of readings that never goes back and reaches the last event to be played.
- Sequencer.Sequencer.RunAll: requires nonempty tracks, because the code reads the event before the first of an empty track.
- FindEvent.Find: times are whole nanoseconds, not doubles.
- XmlTree.ParseNode: malformed input, with its FATAL exits, endless loops and reads past the buffer, is not modelled, except for closing tags that do not match (`XmlParser.CloseTag`); an element never has text after a child, because the parser then stops.
- XmlTree.ParseContent: the record being filled is an object, a finished child is copied by value into its parent's array; a child is not seen in that array while it is being parsed, and memory is not reused.
- XmlDocument.ParseDocument: the copy flag, the check for the end of the buffer after the root, freeing and `xml_find_elem`.
- XmlLookup.First: strings are compared as values read from the buffer, not character by character.
- Base64.Encode: malloc failure, and lengths whose size computation could overflow, which the first test already refuses.
- PackedArray.Left: a word is a sequence of 32 bits with and, or, not and shifts defined bit by bit, not a machine integer; indices are those whose product with the entry size does not wrap (`PackedArray.NoWrapIsHarmless`; what happens to the others is `PackedArray.ShiftWrapsIff`).
- BufferRing.NeitherSideBlocks: the kernel queue is an abstract FIFO that holds depth indices; one sender and one receiver; payload bytes are not modelled, because the receiver is handed another buffer than the sender filled.
- CyclicMaster.Master.Scheduler: the exit flag is seen after a given number of cycles; the callback, the fieldbus jobs other than receive, timing statistics and CPU affinity.
- The fieldbus wrappers, error tables, logging, files, display and threads: thin layers over code outside the repository, or plain lookups.
