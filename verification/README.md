# Verification of the multicat suite

This project models the algorithms of the multicat suite in Dafny and proves what they promise.

- `reordertp` rebuilds an RTP stream (RFC 3550) from several links. It keeps a doubly linked list of
  blocks in the circular order of their 16-bit sequence numbers. Retransmission cursors walk along the
  list, drop duplicates and request what is missing, while other blocks arrive and are sent.
- `aggregartp` splits a stream over weighted outputs, keeps the packets of the last half second, and
  resends those that are asked for.
- `ingests` dates the payloads of a transport stream by its program clock references (ISO/IEC
  13818-1, section 2.4.3.5). `LookupAuxFile` searches the dates.
- `multicat` stores payloads and dates in parallel files, one pair for each rotation period.
- `utf8_to_latin9` transcodes a string in place; `sharedMemoryLib` hands programme information from one
  process to another.

## How the model is built

Each program is written twice. The data structures and loops of the source are Dafny classes and
methods: `ReorderHeap.Reorderer` is the linked list with its pointers and its array of cursors,
`RetxServer.Queue` the singly linked queue, `Splitter` works on the array of outputs, `Ingests.Ingester`
has the static variables of `ingests`, `DirStore.Writer` and `DirStore.Reader` are the two ends of the
directory store, and `Latin9.Utf8ToLatin9` overwrites its buffer. Each method is proved equal to a
function on values (`ReorderBuffer.Insert`, `ReorderBuffer.Pass`, `RetxServer.Push`, ...), and the
lemmas are about those functions: single steps first, then every run. The shared memory protocol is a
state machine whose steps are single word copies and semaphore operations.

| file | part of the suite |
|---|---|
| `Packets.dfy`, `ReorderBuffer.dfy`, `Reorder.dfy`, `AskOnce.dfy` | the reorder buffer as a value, and its runs |
| `ReorderHeap.dfy` | the linked list of `reordertp.c` |
| `RtpClock.dfy`, `Dating.dfy` | timestamp unwrapping, clock recovery, and the dates that packets get |
| `Splitter.dfy`, `RetxServer.dfy` | load balancing and retransmission in `aggregartp.c` |
| `Repair.dfy`, `Protocol.dfy`, `Exchange.dfy` | both programs together, over an unreliable network |
| `Ingests.dfy`, `AuxFile.dfy`, `DirStore.dfy`, `Playback.dfy` | auxiliary files, the directory store, and playing a file |
| `Pacing.dfy` | the pacing of playback |
| `Codec.dfy`, `Latin9.dfy`, `SharedMemory.dfy` | byte formats, transcoder, update handshake |
| `Base.dfy` | shared types and arithmetic |

The extended sequence number `ext` of a packet is the count that its sender keeps; no program of the
model reads more of it than its low 16 bits. A window means that all numbers in play lie less
than half of the 16-bit circle apart.

## Assumptions

- Sequence numbers: the results on order and repair assume that what is buffered and what arrives lies in
  one window. Without it, only conservation, the shape of the list and the cursors are claimed.
- The monotonic clock never goes back. That it is older than the retransmission buffer is long is not assumed
  but shown to be needed.
- 64-bit dates, unwrapped timestamps and clock offsets are unbounded integers, except where the wrap of
  64 bits decides a branch (`RetxServer.Threshold`, `AuxFile.Target`). The 16-bit and 32-bit wrap-around of the
  numbers, timestamps and charges that the protocols carry is written out.
- The `int` counters and the 64-bit products of `ingests` are unbounded integers. `Ingests.NothingWraps` shows for which
  streams that makes no difference: those with no stretch of more than 2^20 payloads without a PCR, at their
  beginning, at their end or in between. A product of the lead-in leaves 64 bits from some 1.2 million
  payloads before the first PCR on.
- The average of the clock filter is at least 1, and the first output has a weight of at least 1: the
  programs divide by them.
- The allowed gap of the clock filter is below 2^31 * 300 ticks, some six hours, where dates from the start are concerned.
- A destination for a retransmission request is always found: the failure test of `RetxGetFd`
  compares with a count that its loop never reaches.
- All processes share one semaphore, and `sem_wait` succeeds.
- Every block arrives as a whole; RTP and TS headers are records of the fields that are read.

## Where the code does not do what one may expect

Each of these is a lemma that says when the code does meet the expectation, and one with an input for which it does not.

- `RtpClock.UnwrapRun`, `RtpClock.HalfMoveGoesBack`: a timestamp that moves forward by exactly 2^31 is taken for a
  move back. Runs are followed exactly when no move does that.
- `RetxServer.YoungClockPurgesAll`, `RetxServer.FirstPacketPurged`: while the clock is younger than the
  retransmission buffer is long, the unsigned difference wraps, and each packet is purged as it is queued.
- `Reorder.LateArrivalBreaksOrder`, `Reorder.LateArrivalIsSent`: a packet older than the last one sent is sent
  out of order.
- `Ingests.PcrDiffExact`, `Ingests.LongestStepLost`: a step of exactly `MAX_PCR_GAP` is accepted, but not when the
  counter wraps in it.
- `Ingests.EntryCount`, `Ingests.LastPayloadUndated`: a stream gets too few dates if its last PCR is in the payload of
  its first one (or it has none), or if payloads follow its last PCR and the last step that counted took no time.
- `AuxFile.AbsoluteSeek`, `DirStore.SeekInDirectory`, `DirStore.SeekBeforeDirectory`, `DirStore.SeekSkips`: entry 0 is
  never returned, so a seek to a date that is not after the first record of a file skips that record.
- `DirStore.CleanlyTorn`, `DirStore.TornThenLater`, `DirStore.FragmentIsRead`: a torn pair of files is repaired only
  when a record is added to it. Until then it is read as if it were whole: right, if the data file was cut between two
  payloads or the date of the cut payload is lost as well; otherwise what is left of that payload is read as a
  payload.
- `SharedMemory.PollTells`, `SharedMemory.SecondReaderHidesUpdate`: the flag of a slot is cleared by whoever takes the
  slot. A process that polls it misses a version exactly if another one took that version after the last call of its
  own.
- `Latin9.TextComesOutRight`, `Latin9.CurrencyBecomesEuro`: a comment in `util.h` says that code points up to U+00FF
  are the same in Latin-9. For eight of them this is wrong, and the table turns them into other characters.

## Model

| member | source | states |
|---|---|---|
| `Packets.NewerIsAhead` | reordertp.c:409-414 | The modular test means that one number lies strictly ahead by less than half of the circle; for numbers within a half-space it is the true order |
| `ReorderBuffer.InsertKeepsOrder` | reordertp.c:401-432 | In a half-space window insertion keeps the buffer sorted in unwrapped order, adds exactly the new block, and puts it behind its equals |
| `ReorderBuffer.InsertKeepsCursors` | reordertp.c:401-432 | Whatever the numbers, insertion adds exactly the new block, and every cursor stays null or on its block |
| `ReorderBuffer.PopKeepsCursors` | reordertp.c:207-213 | Sending the head resets the cursors on it and leaves the others on their blocks |
| `ReorderBuffer.RemoveKeepsCursors` | reordertp.c:215-228 | Dropping a block moves the cursors on it to its predecessor and leaves the others on their blocks |
| `ReorderBuffer.PassAdvances` | reordertp.c:254-273 | A pass only moves forward, leaves the list up to its start alone, and ends before a block that is absent or dated after its limit |
| `ReorderBuffer.PassIsDue` | reordertp.c:269-270 | A pass goes over no block that is dated after its limit |
| `ReorderBuffer.PassWalks` | reordertp.c:273-318 | What a pass has walked has no equal neighbours, and the reported gaps are exactly those between its neighbours |
| `ReorderBuffer.PassTiles` | reordertp.c:254-320 | From a null cursor on a sorted buffer, walked blocks and reported gaps run through every number from head to cursor, once each |
| `ReorderBuffer.PassKeeps` | reordertp.c:281-287 | A pass drops only blocks whose number another buffered block holds, and accounts for each of them; order and window stay |
| `ReorderBuffer.CheckKeeps` | reordertp.c:254-320 | The same for the passes of all cursors together |
| `ReorderBuffer.GapIsMissing` | reordertp.c:289-292 | In a window the computed gap starts behind one block and has as many numbers as lie between the two |
| `Reorder.RunBalances` | reordertp.c:254-433 | Over every run, what was received is, as a multiset, what was sent, is buffered or was dropped |
| `Reorder.RunInOrder` | reordertp.c:325-354 | If every arrival is in the window and not older than the last packet sent, the sent log never goes back, the buffer stays sorted, and every received number was sent or is buffered |
| `Reorder.InitiallyInOrder` | reordertp.c:89-106 | The initial state is balanced and in order |
| `Reorder.LateArrivalBreaksOrder` | reordertp.c:325-354 | For one arrival in the window, the log stays in order after the next send if and only if the arrival is not older than the last packet sent |
| `Reorder.LateArrivalIsSent` | reordertp.c:325-354 | From the start, packet 1 and then packet 0 are sent in that order |
| `AskOnce.GapsSpellMissing` | reordertp.c:289-310 | In a window the gaps of a list spell exactly the numbers that are missing between its neighbours |
| `AskOnce.AskedBySome` | reordertp.c:254-320 | Every gap that a check reports comes from the pass of one of the cursors |
| `AskOnce.CheckReportsAll` | reordertp.c:254-320 | A check reports exactly what the passes of its cursors find, in their order, and loses nothing |
| `AskOnce.RunAsksOnce` | reordertp.c:254-320 | Over every run with timely arrivals, through all inserts, drops and sends, a cursor never goes back, and the numbers that it reports as missing only increase: it asks for none twice |
| `ReorderHeap.Reorderer.RetxPacketSent` | reordertp.c:207-213 | Exactly the cursors on the sent block become null |
| `ReorderHeap.Reorderer.RetxDereference` | reordertp.c:215-228 | The pointers spell the list without the block, and no cursor points to it any more |
| `ReorderHeap.Reorderer.PacketSend` | reordertp.c:325-354 | Sends the head; links and cursors are those of the shorter list |
| `ReorderHeap.Reorderer.Stamp` | reordertp.c:366-399 | The block is dated by the unwrapped timestamp and the filtered clock, and its marker is cleared |
| `ReorderHeap.Reorderer.PacketRecv` | reordertp.c:366-433 | Receiving is the value function: an invalid packet changes nothing, another one is dated and linked in at the place of its number |
| `ReorderHeap.Reorderer.RetxPass` | reordertp.c:259-318 | The inner loop terminates and does what the value function says, down to the bytes of each request |
| `ReorderHeap.Reorderer.RetxCheck` | reordertp.c:254-320 | All passes together, each with its own limit; links and cursors stay consistent |
| `ReorderHeap.Reorderer.SendDue` | reordertp.c:576-578 | Sends the head while it is due within a millisecond, and stops at a head that is not |
| `RtpClock.BuildTimestampNearest` | reordertp.c:356-364 | The unwrapped timestamp is the one value with the right field in the half-open window around the last one |
| `RtpClock.UnwrapRun` | reordertp.c:356-364 | Over every run the low 32 bits are the field, and the distance to the true timestamp is constant if and only if every move lies in [-2^31, 2^31) |
| `RtpClock.HalfMoveGoesBack` | reordertp.c:356-364 | From 0, the field 2^31 is unwrapped to a move back |
| `RtpClock.OutcomeByPrediction` | reordertp.c:155-193 | A reference is accepted exactly if the clock did not jump and the predicted date is within the jitter; the filter resets on a jump or at the eleventh stray in a row |
| `RtpClock.NewRefEffect` | reordertp.c:155-202 | After a reset the prediction is exact; after an acceptance it is no worse than before and within the jitter, and the offset is the mean of the old and the observed one, rounded toward zero; every reference but an ignored one is the last to be compared with |
| `RtpClock.OutcomeInRun` | reordertp.c:155-193 | In every run a reference resets the filter if and only if it is further than the gap from the last one before it that was not ignored, or is a stray behind ten ignored ones; it is accepted if and only if it is neither far nor a stray |
| `RtpClock.SteadyIsFollowed` | reordertp.c:155-202 | However long a stream: if no two successive references are further apart than the gap, and the transit times differ by the jitter at most, every one is accepted, and predicted to within the jitter |
| `RtpClock.StreamIsFollowed` | reordertp.c:134-202 | So it is from the start, where the first reference resets the filter |
| `RtpClock.IgnoredInARow` | reordertp.c:178-193 | Nowhere in a run are more than ten references in a row ignored |
| `RtpClock.OffsetStaysInRange` | reordertp.c:195-201 | Between resets the offset never leaves a range that holds every observation |
| `RtpClock.InputClock.NewRef` | reordertp.c:155-202 | Overwriting the fields of the clock is the value function |
| `Dating.OthersLeaveClock` | reordertp.c:388-398 | A resent packet, or one with no arrival date, leaves the clock as it was, and is dated by it |
| `Dating.DueAfterBuffer` | reordertp.c:388-398 | A packet that drives the clock is due one buffer length after its arrival, exactly if it resets the clock and to within the jitter if it is accepted |
| `Dating.DatesAreSendersTime` | reordertp.c:366-399 | Over every run from the start whose references have been on the way equally long, each packet, resent or not, is dated its sender's time, at 90 kHz or in milliseconds, plus the transit time and the length of the buffer |
| `Splitter.NextOutput` | aggregartp.c:102-120 | Picks the first output of least weighted size and takes that size off every active one |
| `Splitter.SendData` | aggregartp.c:465-472 | Charges the picked output with the packet, and no other |
| `Splitter.RunFair` | aggregartp.c:102-120 | Over every run, resends included, each output's charge is its weight times its debt and the common base, plus its remainder, and its debt stays below one packet |
| `Splitter.ShareOfBytes` | aggregartp.c:465-472 | Each active output carries its weight times a common total, up to one packet more; the 32-bit fields do not wrap |
| `Splitter.PairwiseShare` | aggregartp.c:465-472 | Two active outputs stay within one packet of each other, relative to their weights |
| `Splitter.BytesConserved` | aggregartp.c:465-472 | Every data byte is charged to exactly one output, and resends to none |
| `RetxServer.QueueIsWindow` | aggregartp.c:145-170 | With a monotonic clock older than the buffer, the queue is exactly the packets of the last `i_retx_buffer` ticks, in order, the newest included |
| `RetxServer.YoungClockPurgesAll` | aggregartp.c:160-167 | The queue is empty after a push if and only if the clock is younger than the buffer is long |
| `RetxServer.FirstPacketPurged` | aggregartp.c:160-167 | With a buffer of one tick, the packet queued at date 0 is gone |
| `RetxServer.AnswerExact` | aggregartp.c:207-238 | A request is answered with exactly the packets it is about if and only if the queue holds them all |
| `RetxServer.AnswerAvailable` | aggregartp.c:207-238 | A request whose first packet is queued is answered with as many packets from there on as were asked for or are there; one whose number is not queued with none |
| `RetxServer.HandleOnHeader` | aggregartp.c:175-199 | Exactly the datagrams that are too short or do not begin with RETX end the program, but for an empty one; nothing behind the eighth byte matters |
| `RetxServer.Queue.RetxQueue` | aggregartp.c:145-170 | The linked list is appended to and purged as the value function says, and its two ends stay consistent |
| `RetxServer.Queue.RetxHandle` | aggregartp.c:175-243 | The two loops over the list answer as the value function says; an empty datagram is passed over, only the first eight bytes of a longer one are read, and an ill-formed request is fatal |
| `Repair.GapAnswered` | aggregartp.c:201-238 | The request for a gap is well formed and is answered with exactly the missing packets if and only if they are all queued |
| `Repair.AnswerBrings` | aggregartp.c:225-238 | An answer that arrives in full brings every missing number |
| `Repair.GapCloses` | reordertp.c:401-432 | Once packets with the missing numbers have arrived, in any order and among others, that stretch of the buffer has no gap |
| `Repair.EndToEnd` | reordertp.c:289-310 | Any request that a pass sends is the one for the gap between two neighbours; it is understood, and answered with exactly the missing packets if and only if the queue holds them all; once such an answer has come in, in any order and among others, the gap is closed |
| `Protocol.AlwaysSafe` | reordertp.c:254-433 | In every reachable state of both programs over a network that loses, reorders and duplicates, whatever the client received or sent is what the server sent under that number, and no request kills the server |
| `Protocol.StartSafe` | reordertp.c:78-106 | The initial state is safe, so the above holds of every run from the start |
| `Protocol.QueueIsConsecutive` | aggregartp.c:445-448 | In a safe state the queue is fit for repair exactly while it does not span the whole circle of sequence numbers |
| `Protocol.ServeResends` | aggregartp.c:207-238 | Serving a request for packets of the server's history puts exactly those back on the way, marked, if and only if the queue still reaches back to the first of them |
| `Exchange.ClientRuns` | reordertp.c:571-640 | The client of every run of the protocol makes a run of the reorderer, so that all results on those apply |
| `Exchange.CheckAsks` | reordertp.c:254-320 | Every request of a whole check is for a hole in the buffer as it was before the check, of at most the allowed size, whose end is dated no later than the pass that found it looks ahead |
| `Exchange.HoleIsRequested` | reordertp.c:254-320 | Every hole of at most the allowed size is asked for, in a check, if some cursor is null or not behind it and the blocks up to its end are dated no later than that cursor's pass looks ahead |
| `Exchange.EmittedCanArrive` | aggregartp.c:465-472 | A packet that is emitted is under way, and is received under the next number when it is delivered |
| `Exchange.ResentIsInTime` | reordertp.c:401-432 | While both ends of a hole are still buffered, what is missing in it is in time |
| `Exchange.DeliveredIsGapFree` | reordertp.c:254-433 | Over every run with timely deliveries, sends, checks and all other steps in between: the output is sorted and has no gap where every number was received |
| `Exchange.ExchangeRepairs` | reordertp.c:289-310 | A request is for a hole; whatever happens until it is served, it brings exactly the missing packets back on the way if and only if the queue reaches back to them; and if they are received in time, among any other steps, the output has no gap there |
| `Exchange.PromptAnswerRepairs` | aggregartp.c:225-238 | If the request gets through, the queue reaches back far enough and the answer comes at once, all of it is in time and the hole is closed |
| `Exchange.HoleIsRepaired` | aggregartp.c:225-238 | Every such hole is closed by a prompt answer from a queue that reaches back far enough |
| `Exchange.ReachableIsReady` | reordertp.c:78-106 | Every state that a timely run reaches is safe, in order and balanced, as these results need |
| `Exchange.ResentWhileRecent` | aggregartp.c:145-170 | Over every run from the start with a monotonic clock older than the buffer, a request is answered in full if and only if its first packet was emitted at most one buffer length before the last one |
| `Codec.STCRoundTrip` | util.h:118-140 | A 64-bit date survives its eight bytes |
| `Codec.STCBytesRoundTrip` | util.h:118-140 | Eight bytes survive being read as a date |
| `Codec.ToSTC` | util.h:130-140 | Writes the eight bytes of a date and no other |
| `Codec.RetxRoundTrip` | util.h:145-181 | A header is marked and has given fields if and only if it is the request that spells them |
| `Codec.RetxLayout` | util.h:145-181 | A request is RETX, the first number and the count, most significant byte first |
| `Codec.STCLayout` | util.h:118-127 | A date is its eight bytes, most significant first |
| `AuxFile.LookupAuxFile` | util.c:974-1034 | The search terminates, reads in range, and returns a place between smaller and greater neighbours; on sorted dates one that separates them all, and never entry 0 |
| `AuxFile.RelativeSeek` | util.c:1002-1033 | On sorted dates a relative search that is not negative returns the first entry at or after the target, or the count, but 1 for the first entry itself; it fails exactly if the target leaves int64_t |
| `AuxFile.AbsoluteSeek` | util.c:1002-1033 | An absolute search returns the first entry at or after the target, unless that is entry 0 |
| `AuxFile.BackwardSeek` | util.c:1002-1033 | A negative search counts back from the last entry; it fails exactly if that goes beyond 0, and otherwise returns the first entry at or after the target, unless that is entry 0 |
| `Ingests.HandleSound` | ingests.c:141-180 | Every packet keeps the account: dated and deferred payloads and the packet balance add up to the packets handled, the balance is above minus one payload, and the dates never go back |
| `Ingests.IngestedSorted` | ingests.c:69-91 | The dates of every finished file never go back |
| `Ingests.AlwaysReflects` | ingests.c:96-180 | At any time the static variables are those that the places and values of the PCRs so far determine |
| `Ingests.EntryCount` | ingests.c:258-261 | The number of dates of the finished file, in terms of the stream; there is one for each payload if and only if there is no payload, or the last PCR is in a later payload than the first and either the last step that counted took time or no payload is behind |
| `Ingests.LastPayloadUndated` | ingests.c:258-261 | Of the PCRs 0, 100, 100 and a packet without one, the last packet gets no date |
| `Ingests.PcrDiffExact` | ingests.c:166-175 | The step taken is the true step modulo 2^33 * 300 if that is short enough, and otherwise none is taken |
| `Ingests.StepsInNumbers` | ingests.c:166-175 | The limits of a step in numbers |
| `Ingests.LongestStepLost` | ingests.c:166-175 | A step of `MAX_PCR_GAP` from 0 is taken, and from the last value before the wrap it is not |
| `Ingests.RegularTiming` | ingests.c:141-180 | From any PCR on, over every regular stream the current date moves by the lead-in, if that has no dates yet, and the true time, however often the counter wraps |
| `Ingests.PcrDates` | ingests.c:96-180 | In the finished file of a stream that is regular up to some PCR, whatever follows: the payload of the first PCR is dated with the lead-in, and that of the other with the lead-in and the true time between the two |
| `Ingests.Interpolated` | ingests.c:69-115 | In the finished file of any stream: from the payload of a PCR to that of the next one the dates are interpolated linearly, over exactly the step that the program took |
| `Ingests.LeadInDated` | ingests.c:102-108 | Each payload up to that of the first PCR is dated, to within one tick, at the rate behind it |
| `Ingests.RestDated` | ingests.c:130-136 | Each payload behind that of the last PCR is dated, to within one tick, at the rate of the last output |
| `Ingests.ConstantRate` | ingests.c:130-136 | Lead-in and rest are dated within one tick of the constant rate of the neighbouring output |
| `Ingests.IngestedFits` | ingests.c:69-91 | The dates of a stream of up to 2^37 packets fit a signed 64-bit integer |
| `Ingests.NothingWraps` | ingests.c:69-136 | No counter and no product leaves its C type, at any packet and at the end, if no stretch without a PCR is longer than 2^20 payloads |
| `Ingests.IngestThenSeek` | util.c:1002-1033 | On any file that ingest makes of up to 2^37 packets, a positive relative seek finds the first payload at or after the target, and fails exactly if the file is empty or the target leaves int64_t |
| `Ingests.Ingester.Ingest` | ingests.c:234-262 | The program writes exactly the bytes of the dates that the value functions give |
| `Ingests.Ingester.TSHandle` | ingests.c:141-180 | One packet changes the static variables as the value function says |
| `Ingests.Ingester.OutputAux` | ingests.c:69-91 | The buffer written holds the bytes of the shared dates |
| `DirStore.CheckFileSizes` | util.c:1039-1085 | Both files are cut to the same number of whole packets, the minimum of the two |
| `DirStore.GetDirFileCovers` | util.c:1090-1098 | A positive date goes to the file of its period; one that is not counts from the present |
| `DirStore.RepairKeepsPairs` | util.c:1039-1085 | Wherever the files were torn, the repair leaves the same leading records in both, each with its own date |
| `DirStore.TornThenWritten` | util.c:1039-1085 | After the last two files were torn anywhere and records were added to them, the directory holds exactly the surviving records and the new ones, and reading gives them back if and only if they are steady |
| `DirStore.ReadTorn` | multicat.c:436-470 | Reading two torn files that were not repaired gives the surviving records, and the fragment of the payload that was cut while its date was not |
| `DirStore.CleanlyTorn` | multicat.c:436-470 | It gives exactly the surviving records if and only if the data file was cut between two payloads or the auxiliary file has no date for the one that was cut |
| `DirStore.TornThenLater` | multicat.c:597-622 | Reading a whole directory whose last pair was torn, at once or after records were added in later files, gives the surviving records and the new ones if and only if the cut was clean and the new ones go on in the next file |
| `DirStore.FragmentIsRead` | multicat.c:436-470 | A packet of 188 bytes that lost its tail but not its date is read as a shorter one, wherever it was cut |
| `DirStore.Writer.DirWrite` | multicat.c:707-725 | At any time each file holds what a repair left of it, followed by exactly the records of its rotation period in order |
| `DirStore.WriteThenRead` | multicat.c:597-622 | Successive reads from the beginning of the first file give back what was written if and only if each packet went to the file of the one before it or to the next; the program itself starts elsewhere (`DirStore.SeekLeavesFirst`) |
| `DirStore.DatesAreSteady` | util.c:1090-1098 | Dates that never go back and leave no period empty fulfil that condition |
| `DirStore.Reader.DirRead` | multicat.c:597-622 | Each read returns the next record of what remains, across files and past torn ends; the program exits when there is no next file, and then nothing remains |
| `DirStore.Reader.DirInitRead` | multicat.c:649-701 | Succeeds exactly if the file of the date or the next one has entries, and starts in the first of the two that has, at the place that the search found |
| `DirStore.SeekInDirectory` | multicat.c:649-701 | A seek starts at the first record at or after the date if and only if its file begins before the date; otherwise it skips one record |
| `DirStore.SeekBeforeDirectory` | multicat.c:676-687 | A seek to the period before the first file starts in that file and skips its first record |
| `DirStore.SeekSkips` | multicat.c:676-687 | In a directory of one record, a seek to its very date skips it |
| `DirStore.SeekLeavesFirst` | multicat.c:672-695 | Wherever a seek leads to, reading starts behind the first record of the directory |
| `DirStore.WriterHolds` | multicat.c:707-725 | What a writer leaves of an empty directory is exactly the records, each in the file of its date |
| `Playback.IngestThenPlay` | multicat.c:505-528 | A relative seek in a file that ingest has dated skips exactly the payloads dated before the target, and plays all others in order with their dates |
| `Pacing.ReleasedOnSchedule` | multicat.c:472-497 | While no packet is too late, each leaves at its date counted from the same anchors, or when it comes up if that is later |
| `Pacing.NoDrift` | multicat.c:472-497 | However many packets lie between two of them, their distance is off by at most the allowed lateness |
| `Pacing.EveryRelease` | multicat.c:472-497 | Every packet of a playback, from the start, leaves at its date counted from the first packet or from the last one that was more than a second late, or when it comes up |
| `Pacing.Pacer.FileDelay` | multicat.c:472-497 | The static variables and the sleep are those of the value function |
| `Latin9.TablePreimage` | util.h:184-200 | The table maps to a byte exactly its Latin-9 character and the code point of the same number |
| `Latin9.CurrencyBecomesEuro` | util.h:184-200 | The currency sign comes out as the byte of the euro sign |
| `Latin9.Utf8ToLatin9` | util.c:1403-1501 | Overwriting the buffer gives the decoding of the original bytes, terminated, never longer, and touches nothing behind the string |
| `Latin9.DecodeText` | util.c:1403-1501 | Decoding the UTF-8 form of any text gives the bytes of those of its characters that the table knows |
| `Latin9.WholeSequence` | util.c:1403-1501 | Any sequence of the length that its first byte says is taken off as a whole; it gives the byte of the number that it spells, if there is one and all its other bytes continue it, and nothing otherwise |
| `Latin9.StrayByte` | util.c:1403-1501 | A byte that begins no sequence is passed over |
| `Latin9.PlainByte` | util.c:1403-1501 | A byte below 128 is left as it is |
| `Latin9.CutSequence` | util.c:1403-1501 | An input that ends within a sequence ends the output |
| `Latin9.Latin9RoundTrip` | util.c:1403-1501 | The decoder undoes the UTF-8 encoding of every Latin-9 text |
| `Latin9.BufferRoundTrip` | util.c:1403-1501 | A buffer with the encoding of a Latin-9 text, its terminator and anything behind is left with that text and a terminator |
| `Latin9.TextInBuffer` | util.c:1403-1501 | A buffer with the encoding of any text is left with the bytes of the characters that the table knows, and a terminator |
| `Latin9.TextComesOutRight` | util.h:184-200 | The decoded text reads as the one encoded if and only if the table knows all its characters and none is one of the eight |
| `SharedMemory.AlwaysInvariant` | sharedMemoryLib.c:85-131 | The invariant holds in every interleaving of any number of processes |
| `SharedMemory.MutualExclusion` | sharedMemoryLib.c:85-131 | No two processes are inside at once |
| `SharedMemory.SnapshotsAreWhole` | sharedMemoryLib.c:98-120 | What a call returns is one whole version that was stored, never a torn one |
| `SharedMemory.SnapshotsAreCurrent` | sharedMemoryLib.c:98-120 | It is the version that was stored when the call came in, and no other was stored until the call was done |
| `SharedMemory.VersionsArePassed` | sharedMemoryLib.c:85-96 | Every version of a slot but the first is a record that some process passed for that slot, word by word, with both flags set |
| `SharedMemory.GetReturnsPassed` | sharedMemoryLib.c:98-120 | What is returned is such a record, or the one in the mapping file, but for `updated`, which sharedMemory_get returns as 0 |
| `SharedMemory.FlagTellsUpdates` | sharedMemoryLib.c:85-131 | Whenever nobody is inside, the flag of a slot that was taken is 0 if the version taken last, by whatever process, is the one stored, and 1 otherwise |
| `SharedMemory.FlagTellsReader` | sharedMemoryLib.c:85-131 | Whenever nobody is inside, the flag is right for a process that has taken the slot if and only if no other one took the version stored behind its back; so it is if the process was the last to take the slot |
| `SharedMemory.PollTells` | sharedMemoryLib.c:122-131 | The same for the value that a call of sharedMemory_get_updated is about to return, which is never 1 to a process that has the version stored |
| `SharedMemory.SoleReaderIsTold` | eit.c:473-477 | From any time at which a process is the last that took a slot, polling is right for it as long as no other takes the slot |
| `SharedMemory.SecondReaderHidesUpdate` | sharedMemoryLib.c:98-131 | A run of three processes in which a second reader takes a version, and the first one, which has the version before, is told of no update |
| `SharedMemory.TakenIsCopied` | sharedMemoryLib.c:98-111 | The version recorded as taken, for the slot and for the process, is the one that was copied and is stored |

## Left out

- Sockets, polling, option parsing, signals, scheduling and logging, with the counters that are only logged; the database, XML, JSON and ini readers; the shell scripts.
- The choice of the peer that a request goes to (`RetxGetFd`): any destination serves.
- TCP reads that return part of a block or of a request, and the `-U` headers and overwritten fields of `aggregartp`.
- `dir_Delay`, which drops late packets instead of moving its anchors, and the time by which the system oversleeps.
- The looping mode of `file_Read`, and the failures of read, write and truncate.
- EIT insertion and the shift buffer of `multicat`, and the PSI bookkeeping of `dvb_print_si` and `mpeg_print_pcr`: they rest on the biTStream library, which is not part of this model.
- Packets that are not valid transport stream packets end `ingests`; the model starts behind that test.
- A data file that exists without its auxiliary file, or the other way round, is modelled as a pair with an empty file.
- Latin9.Utf8ToLatin9: the five branches for sequences of two to six bytes, which differ in their masks only, are one branch over the length.
- Protocol.AlwaysSafe: says nothing about when packets arrive; what they repair once they do is in `Exchange`.
- SharedMemory.AlwaysInvariant: `memcpy` copies whole words in ascending order.
