# A model of mqttbench

mqttbench (under `client_mqttbench/`) is a load client for MQTT servers: submitter threads
publish for thousands of clients, I/O threads feed received bytes to them. This project models
the parts of it that keep state and proves what they are for.

| file | component |
|---|---|
| `LengthCodec`, `Framing`, `Receiver` | cutting the received byte stream into packets |
| `MsgIds`, `Sender`, `ProducerClient` | packet identifiers, QoS 1 and 2 exchanges, reconnects, flow control |
| `TopicAlias` | outbound topic aliases, against a model of the server's table |
| `Rounding`, `Sampler`, `MicroWait` | latency sampling and message pacing |
| `Barrier`, `RoundRobin`, `Quota` | the ready barrier and the split of a message count |
| `JsonWalk`, `ClientRange`, `ClientLists`, `TopicSelect` | reading the client list, dealing clients and topics out |
| `SequenceCheck` | order checking of received messages |

Code that updates state is a class or a loop here too, proved against functions on values; the
results over whole runs are lemmas about those functions. Concurrent parts (`Sender`,
`TopicAlias`, `Barrier`) are state machines: one step is one region held under a lock, one look
at shared state or one callback, and the steps of the threads interleave. What a run takes for
granted about the server, the scheduler or the configuration is part of the predicate `Enabled`
and listed above it; in `Sender` it is the part called `Sound`, proved to be exactly what keeps
the invariant. Where the code depends on more than it checks, one lemma says exactly on what,
and another builds a run that reaches a state in which it fails.

## Where the code does less than it says

- The length decoder is documented to read one to four bytes and to report a bad field. Its
  loop stops after three bytes and it never reports one (`NeverBad`), so a packet of 2^21 bytes
  or more ends the stream for good: `DeliveredIffSmall` gives the exact condition, `DoData` says
  when the bytes collected meanwhile pass the end of the buffer (`OverrunReached`).
- The state of a connection is looked at before an identifier is assigned and again before the
  packet is handed over, without the lock. A reset after the second look makes the publish
  stale. Refused, it takes the in-flight count below the slots (`StaleWithdrawBreaks`);
  accepted, which needs no CONNACK, it is in flight without a slot that says so
  (`TrackedIffFresh`), its acknowledgement leaves the client locked (`StaleSubmitLocks`,
  `StaleRun`), and its identifier can be handed over twice (`DuplicateIdRun`) or acknowledged
  while it is assigned again (`EarlyAckExact`, `EarlyAckRun`). `WireExact` says exactly when an
  identifier is repeated on the wire.
- The window can be freed between the first look and the publish, which then reads it
  (`MissingWindowIff`, `FreedRun`).
- Whether a client may disconnect is looked at without the lock. A publish that takes its
  identifier after the look, or a request to quit, has the count zeroed over it if the client
  reconnects, and otherwise its window freed (`DisconnectExact`, `LateChoiceRun`, `QuitRun`).
- The reset is documented to leave the count of a QoS 2 producer alone; it zeroes it always.
  That is right for the slots except for producers that mix QoS 1 with another level
  (`ResetExact`, `MixedResetBreaks`).
- A publish skipped at the second look keeps the identifier assigned before it, which nobody
  will acknowledge, until the next reset (`SkipKeepsSlot`).
- An unexpected PUBACK or PUBREC leaves the client locked (`LockHeldIff`, `LockRun`), and no
  identifier is assigned or acknowledged again (`LockedOut`).
- The alias table is only allocated by a CONNACK that carries a Topic Alias Maximum, and only
  the first maximum counts (`ConnAckExact`, `NoMaximumFaults`, `LowerMaximumRun`).
- A publish without topic name that is handed over after a reset means nothing to the server,
  and a topic marked after a reset stays without its name (`HandOverExact`, `MarkExact`,
  `StaleHandOverRun`, `StaleMarkRun`).
- A submitter thread that fails in set-up records an error code and returns. The others then
  wait for it at the barrier until they are told to quit or stop (`NobodyStranded`,
  `SilentBlocksAll`, `SilentExitStrands`).
- A sampling rate of zero is documented to mean 1000 a second, but selects nothing
  (`SelectsIff`).
- The split of a message count supposes that publishing threads are numbered from zero
  (`QuotasExact`, `ConsumerFirstFallsShort`).
- The loop over publish topics and subscriptions overlooks a last entry that is an empty object
  or a plain value (`LastUnseenIff`, `EmptyTopicUnseen`).
- A message without a topic is checked to have a topic list, not a topic of the client's own, so
  its topic can be picked from an empty array; the same goes for a message with a topic in the
  common message directory (`PicksFindIff`, `EmptyPartReached`).

## Model

| member | source | states |
|---|---|---|
| LengthCodec.DecodeLength | client_mqttbench/src/mqttbench.c:158-197 | the decoding loop finds the field that ends within the first three bytes, or reports that none has ended yet |
| LengthCodec.RoundTrip | client_mqttbench/src/mqttbench.c:158-197 | whatever follows, decoding an encoded length returns it and its size exactly when it is below 2^21, and PARTIAL otherwise |
| LengthCodec.PrefixIsPartial | client_mqttbench/src/mqttbench.c:184-193 | every proper prefix of an encoded length decodes to PARTIAL |
| LengthCodec.DecodeStable | client_mqttbench/src/mqttbench.c:172-182 | further bytes never change a decode that succeeded |
| LengthCodec.NeverBad | client_mqttbench/src/mqttbench.c:184-195 | BAD is never answered, and PARTIAL exactly while none of the first three bytes ends the field |
| LengthCodec.DecodeThenEncode | client_mqttbench/src/mqttbench.c:172-182 | the bytes taken are the encoding of the value returned exactly when the field has no superfluous zero byte |
| Framing.StuckForever | client_mqttbench/src/mqttbench.c:172-195 | a length field of which three bytes have not ended it yields no packet whatever arrives later |
| Framing.ParseAppend | client_mqttbench/src/mqttbench.c:3199-3379 | one pass over a stream can be interrupted anywhere and resumed from the bytes left over |
| Framing.ChunkIndependence | client_mqttbench/src/mqttbench.c:2906-3379 | for every stream and every way of cutting it, the packets found and the bytes kept are those of one pass |
| Framing.DeliveredIffSmall | client_mqttbench/src/mqttbench.c:2847-3392 | fed in any pieces, the packets found are those sent up to the first of 2^21 bytes or more, so all of them exactly when there is none; `ReceiveAll` carries this over to what is dispatched |
| Receiver.PartialBuffer.constructor | client_mqttbench/src/mbconfig.c:1030-1043 | an empty partial buffer of at least four bytes satisfies the resume invariant |
| Receiver.PartialBuffer.Reset | client_mqttbench/src/mqttclient.c:183-188 | a reconnect drops the partial packet and keeps the invariant although the write pointer stays |
| Receiver.PartialBuffer.CompleteLength | client_mqttbench/src/mqttbench.c:3070-3107 | takes bytes one at a time until the length is readable, no byte beyond that, and overruns the buffer exactly on a stuck field longer than it |
| Receiver.PartialBuffer.SaveShort | client_mqttbench/src/mqttbench.c:3020-3050 | too short a chunk is saved whole; the regrow branch that copies nothing is reached only with an empty chunk; the new capacity |
| Receiver.PartialBuffer.Fill | client_mqttbench/src/mqttbench.c:3109-3163 | makes room for the packet and copies its bytes, or all there are, counting the missing ones exactly |
| Receiver.PartialBuffer.FinishPacket | client_mqttbench/src/mqttbench.c:3109-3181 | dispatches the completed packet, or keeps the resume invariant |
| Receiver.PartialBuffer.Complete | client_mqttbench/src/mqttbench.c:3070-3181 | reads the length field and dispatches the packet, or saves the rest of the chunk |
| Receiver.PartialBuffer.Resume | client_mqttbench/src/mqttbench.c:2906-3181 | the first phase dispatches exactly the first packet of saved bytes and chunk together, or saves both, or dispatches nothing and overruns |
| Receiver.PartialBuffer.Scan | client_mqttbench/src/mqttbench.c:3193-3337 | the second phase dispatches the packets of one pass over the rest of the chunk and finds its tail and what it misses |
| Receiver.PartialBuffer.SaveTail | client_mqttbench/src/mqttbench.c:3349-3379 | the tail is saved in a buffer that holds the whole packet, and the invariant holds again |
| Receiver.PartialBuffer.DoData | client_mqttbench/src/mqttbench.c:2847-3392 | for every saved state and chunk, dispatches what one pass over both would, and keeps the rest with a known capacity unless a write passes the buffer, which happens exactly when a stuck field outgrows it |
| Receiver.PartialBuffer.ReceiveAll | client_mqttbench/src/mqttbench.c:2847-3392 | the same for a whole run of chunks, with the exact condition for an overrun; end to end, what a server sent in any pieces is dispatched up to the first packet of 2^21 bytes or more |
| Receiver.FitsUnlessStuck | client_mqttbench/src/mqttbench.c:3020-3379 | no chunk overruns the buffer unless the stream ends in a length field that needs a fourth byte |
| Receiver.OverrunReached | client_mqttbench/src/mqttbench.c:3070-3107 | at every capacity, one unreadable length field and enough bytes after it do |
| MsgIds.Allocated | client_mqttbench/src/mqttclient.c:536-568 | the window is the larger of the two demands, cut to 65535 slots, and exactly when it has the two slots the search needs |
| MsgIds.SearchComplete | client_mqttbench/src/mqttbench.c:256-300 | from any start, the search gives up exactly when the start and every identifier of the window are taken |
| MsgIds.SearchExact | client_mqttbench/src/mqttbench.c:256-300 | the window is reported full exactly when as many are in flight as it allows; otherwise an identifier is found exactly when the start, identifier 1 or one of the window is usable, and it is the start or the first usable one in ring order |
| Sender.ChooseKeeps | client_mqttbench/src/mqttbench.c:1587-1620 | assigning an identifier, whatever became of the connection since the turn began, keeps the invariant that ties counter, slots and history |
| Sender.WithdrawKeeps | client_mqttbench/src/mqttbench.c:1674-1685 | so does giving it back when the I/O thread refuses the packet, in any state of the connection, unless it is stale |
| Sender.AckKeeps | client_mqttbench/src/mqttbench.c:2431-2443 | so do PUBCOMP and PUBACK, expected or not, of any identifier with a slot, the one being published included |
| Sender.PubRecKeeps | client_mqttbench/src/mqttbench.c:2474-2489 | so does PUBREC |
| Sender.ResetKeeps | client_mqttbench/src/mqttclient.c:208-252 | so does a clean reset |
| Sender.StepExact | client_mqttbench/src/mqttbench.c:1555-1692 | a step keeps the invariant exactly when it is sound: a refused publish is not stale, a reset is clean, a client that reconnects is disconnected with nothing in flight |
| Sender.RunKeeps | client_mqttbench/src/mqttbench.c:1555-1692 | every run of a producer keeps the invariant, with resets, disconnects, CONNACKs and acknowledgements of any identifier between any two steps of a publish and stale publishes handed over or skipped |
| Sender.RunExact | client_mqttbench/src/mqttbench.c:1555-1692 | after every run, the next possible step keeps the invariant exactly when it is sound |
| Sender.OutstandingBounded | client_mqttbench/src/mqttbench.c:1587-1620 | the counter is the number of exchanges chosen and neither acknowledged, withdrawn nor cut off, whose identifiers are distinct and in the window; they exceed neither the window nor the server's Receive Maximum |
| Sender.TrackedIffFresh | client_mqttbench/src/mqttbench.c:1641-1653 | in every reachable state the identifier of the publish in progress is in flight in its slot exactly when no reset, free or acknowledgement came under it |
| Sender.WireExact | client_mqttbench/src/mqttbench.c:1653-1653 | in every run, a publish about to be handed over repeats an unacknowledged identifier exactly when it is fresh and a stale publish was handed over with it; no more identifiers are on the wire than exchanges in flight and stale publishes |
| Sender.WireDistinct | client_mqttbench/src/mqttbench.c:1653-1653 | so without stale hand-overs none is repeated, their number respects the Receive Maximum, and a server that acknowledges only what is on the wire acknowledges no publish early |
| Sender.EarlyAckExact | client_mqttbench/src/mqttbench.c:2632-2645 | an acknowledgement of the identifier being published makes a refusal break the count exactly when it is a PUBACK or PUBCOMP and the slot waits for it |
| Sender.EarlyAckRun | client_mqttbench/src/mqttbench.c:2632-2645 | a run in which a server that keeps the rules does that |
| Sender.UnknownAndDup | client_mqttbench/src/mqttbench.c:1605-1619 | a slot is UNKNOWN exactly when a reset cut its QoS 2 exchange and it was not chosen since; a publish is DUP exactly when it takes such a slot at QoS 2 |
| Sender.SlotsExact | client_mqttbench/src/mqttbench.c:1605-1619 | a slot says exactly where the exchange of its identifier stands: waiting for PUBACK, for PUBREC, for PUBCOMP once a PUBREC was accepted since it was chosen, or usable, exactly when nothing is open |
| Sender.AssignedIff | client_mqttbench/src/mqttbench.c:256-300 | a turn gets an identifier exactly when fewer are in flight than the window allows and one that the search reaches is not open; with a full-size window, as long as one is left |
| Sender.HonestServer | client_mqttbench/src/mqttbench.c:2431-2489 | in every run without stale hand-overs, a server that sends one PUBACK per QoS 1 publish, one PUBREC per QoS 2 publish and one PUBCOMP after it never leaves the lock held, and each slot waits for what the server owes |
| Sender.HonestAccepted | client_mqttbench/src/mqttbench.c:2431-2489 | so each of its answers is accepted: PUBACK and PUBCOMP free the slot and lower the count, PUBREC makes it wait for PUBCOMP |
| Sender.WindowIsLeast | client_mqttbench/src/mqttbench.c:1482-1493 | in every run the window is the least of its size and the valid Receive Maximums announced so far |
| Sender.ServerMaxIs | client_mqttbench/src/mqttbench.c:1482-1493 | and the bound of the server is the one announced last |
| Sender.ConnAckConnects | client_mqttbench/src/mqttbench.c:1482-1493 | a CONNACK connects exactly when it is accepted and its Receive Maximum is absent or in 1..65535, and closes the connection otherwise |
| Sender.ConnIs | client_mqttbench/src/mqttclient.c:331-333 | the connection is as the last CONNACK, close, disconnect or reset left it |
| Sender.CandidateMoves | client_mqttbench/src/mqttbench.c:1671-1672 | in every run the candidate goes to 1 at a reset, to the next identifier in ring order after an accepted publish, to the nearest usable one at an assignment, and nowhere else |
| Sender.SkipKeepsSlot | client_mqttbench/src/mqttbench.c:1645-1690 | a publish skipped after its identifier was assigned stays in flight until a reset or the window is freed |
| Sender.ResetExact | client_mqttbench/src/mqttclient.c:229-251 | a reset makes the counter agree with the slots exactly when no PUBACK slot survives it |
| Sender.ResetCleanUnlessMixed | client_mqttbench/src/mqttclient.c:229-248 | which holds for every producer that does not mix QoS 1 with another level |
| Sender.ResetRestores | client_mqttbench/src/mqttclient.c:208-252 | in every reachable state of such a producer, a reset leaves nothing in flight and the count right |
| Sender.MixedResetBreaks | client_mqttbench/src/mqttclient.c:229-251 | any producer that does mix them has a run after which a reset leaves the count wrong |
| Sender.WithdrawExact | client_mqttbench/src/mqttbench.c:1679-1685 | giving an identifier back keeps the count exactly when the candidate slot is still in flight |
| Sender.StaleWithdrawBreaks | client_mqttbench/src/mqttbench.c:1641-1685 | so, with a publish in progress in any reachable state, exactly when it is not stale |
| Sender.StaleSubmitLocks | client_mqttbench/src/mqttbench.c:2474-2489 | the PUBACK or PUBREC of a stale publish that was handed over leaves the lock held |
| Sender.StaleRun | client_mqttbench/src/tcpclient.c:3079-3087 | a run in which a publish becomes stale, would break the count if refused, is accepted before any CONNACK, and whose PUBACK leaves the lock held |
| Sender.DuplicateIdRun | client_mqttbench/src/tcpclient.c:3508-3528 | a run that hands over one identifier twice without an acknowledgement |
| Sender.FreedIff | client_mqttbench/src/mqttclient.c:331-348 | in every run the window is missing exactly once the client was disconnected for good |
| Sender.MissingWindowIff | client_mqttbench/src/mqttbench.c:1594-1606 | exactly then a turn above QoS 0 reads a window that is not there |
| Sender.FreedRun | client_mqttbench/src/mqttclient.c:331-348 | a run in which the window is freed under a turn |
| Sender.LockHeldIff | client_mqttbench/src/mqttbench.c:2632-2645 | the client lock is left held exactly once an unexpected PUBACK or PUBREC has come in |
| Sender.LockRun | client_mqttbench/src/mqttbench.c:2632-2645 | every producer has a run that gets there |
| Sender.LockedOut | client_mqttbench/src/mqttbench.c:2632-2645 | from then on no identifier is assigned, acknowledged or given back and the window is not freed |
| Sender.LockedSubmitRun | client_mqttbench/src/mqttbench.c:1645-1653 | a publish that had its identifier before can still be handed over |
| Sender.LeavesWhenDone | client_mqttbench/src/mqttclient.c:308-309 | without a quit request the look lets a client disconnect exactly when no publish is unacknowledged |
| Sender.DoneUnlessChosen | client_mqttbench/src/mqttclient.c:309-331 | over every run that is still so at the locked region if no identifier was assigned since the look |
| Sender.DisconnectExact | client_mqttbench/src/mqttclient.c:331-348 | the locked region keeps the count exactly when it frees the window or nothing is in flight by then |
| Sender.LateChoiceRun | client_mqttbench/src/mqttclient.c:309-348 | a run without a quit request in which an identifier is assigned between look and region, so that the count breaks or the window goes under a publish |
| Sender.QuitBreaks | client_mqttbench/src/mqttclient.c:309-345 | every run that reaches PUBSUB with something in flight can go on to a quit request that breaks the count of a client that reconnects |
| Sender.QuitRun | client_mqttbench/src/mqttclient.c:309-345 | one that does |
| ProducerClient.Producer.constructor | client_mqttbench/src/mqttclient.c:555-565 | a fresh window is the start of the state machine |
| ProducerClient.Producer.FindAvailableMsgId | client_mqttbench/src/mqttbench.c:256-300 | the loop ends and returns, and leaves the candidate at, what the search function says |
| ProducerClient.Producer.AssignMsgId | client_mqttbench/src/mqttbench.c:1587-1620 | the locked region takes the choose step; the identifier and DUP flag are those logged |
| ProducerClient.Producer.SubmitPublish | client_mqttbench/src/mqttbench.c:1587-1692 | a whole call takes the steps choose, then submit and advance, withdraw, or skip; the packet's identifier and DUP flag are those logged |
| ProducerClient.Producer.OnPubAck | client_mqttbench/src/mqttbench.c:2627-2650 | PUBACK takes its step for every identifier that has a slot and reports it bad exactly when it leaves the lock held; identifier 0 or above 65535, a freed window and an identifier without a slot change nothing |
| ProducerClient.Producer.OnPubRec | client_mqttbench/src/mqttbench.c:2469-2494 | the same for PUBREC |
| ProducerClient.Producer.OnPubComp | client_mqttbench/src/mqttbench.c:2431-2450 | PUBCOMP takes its step and never leaves the lock held |
| ProducerClient.Producer.OnConnAck | client_mqttbench/src/mqttbench.c:1482-1493 | a CONNACK's Receive Maximum can only lower the window, and 0 or one above 65535 closes the connection |
| ProducerClient.Producer.ResetClient | client_mqttbench/src/mqttclient.c:208-252 | the slot array rewritten in place is the reset step |
| ProducerClient.Producer.ReadyToDisconnect | client_mqttbench/src/mqttclient.c:308-309 | the look |
| ProducerClient.Producer.FinishDisconnect | client_mqttbench/src/mqttclient.c:331-350 | the region in place is the disconnect step, whatever is in flight |
| ProducerClient.Producer.DisconnectClient | client_mqttbench/src/mqttclient.c:308-350 | both together when nothing comes in between |
| ProducerClient.PublishKeeps | client_mqttbench/src/mqttbench.c:1555-1692 | an uninterrupted turn, accepted, refused or skipped, keeps the invariant in any state of the connection |
| TopicAlias.AliasesResolve | client_mqttbench/src/mqttbench.c:1565-1576 | over every run, resets between any two steps of a publish included, each PUBLISH that reaches the server resolves there to its topic, no alias exceeds the server's maximum, and no turn reads a missing table |
| TopicAlias.LimitIs | client_mqttbench/src/mqttbench.c:1494-1505 | in every run the limit is the configured count, lowered to the first maximum announced, and the table exists from then on |
| TopicAlias.TableIs | client_mqttbench/src/mqttbench.c:1661-1663 | the table marks exactly the topics marked since the last reset |
| TopicAlias.PacketIs | client_mqttbench/src/mqttbench.c:1565-1576 | a packet carries the alias of its topic exactly when it is within that limit, and leaves out the name exactly when the topic was marked as well |
| TopicAlias.HandOverKeeps | client_mqttbench/src/mqttbench.c:1645-1653 | handing over a packet is delivered as meant and keeps the two tables in step |
| TopicAlias.MarkKeeps | client_mqttbench/src/mqttbench.c:1661-1663 | so does marking its topic afterwards |
| TopicAlias.ConnAckExact | client_mqttbench/src/mqttbench.c:1494-1505 | no publish after a CONNACK crashes or breaks the limit exactly when it is the first with a maximum, or its maximum covers the aliases in use, or none is |
| TopicAlias.SameMaximumSuits | client_mqttbench/src/mqttbench.c:1494-1505 | a server that always announces the same maximum meets that condition in every reachable state |
| TopicAlias.NoMaximumFaults | client_mqttbench/src/mqttbench.c:1569-1572 | a first CONNACK without a maximum makes the first publish read a missing table |
| TopicAlias.LowerMaximumRun | client_mqttbench/src/mqttbench.c:1496-1496 | every maximum lowered below an alias in use is reached by a run after which a publish exceeds it |
| TopicAlias.HandOverExact | client_mqttbench/src/mqttbench.c:1641-1653 | a hand-over in any reachable state resolves to its topic within the maximum, and keeps the tables in step, exactly when the topic has no alias in range, or the client is connected and a packet built before a reset carries the name |
| TopicAlias.MarkExact | client_mqttbench/src/mqttbench.c:1661-1663 | marking keeps the tables in step exactly when the topic has no alias in range or no reset came after the hand-over |
| TopicAlias.StaleHandOverRun | client_mqttbench/src/mqttbench.c:1641-1653 | a run that reaches a hand-over the server cannot resolve |
| TopicAlias.StaleMarkRun | client_mqttbench/src/mqttbench.c:1661-1663 | a run that reaches a late mark, after which the next publish cannot be resolved |
| AliasTable.Table.Choose | client_mqttbench/src/mqttbench.c:1565-1582 | what the packet carries, and exactly when there is none: topic out of range, or table missing |
| AliasTable.Table.OnAccepted | client_mqttbench/src/mqttbench.c:1661-1663 | the array mark is the mark step, also after a reset |
| AliasTable.Table.OnReset | client_mqttbench/src/mqttclient.c:204-206 | clearing the array is the reset step |
| AliasTable.Table.OnConnAck | client_mqttbench/src/mqttbench.c:1494-1505 | lowering the limit and allocating the array is the CONNACK step |
| Sampler.RateFilter.constructor | client_mqttbench/src/mqttbenchrate.c:117-143 | the filter starts as the initial state of the runs below |
| Sampler.RateFilter.Calibrate | client_mqttbench/src/mqttbenchrate.c:48-90 | the correction in place is the calibration function |
| Sampler.RateFilter.SelectForSampling | client_mqttbench/src/mqttbenchrate.c:41-105 | a call in place is one step of the runs below |
| Sampler.SamplerExact | client_mqttbench/src/mqttbenchrate.c:41-105 | for every sequence of clock readings the ratio stays in (0,1], the counts differ by less than one, and the number selected is the sum of the ratios used, rounded up |
| Sampler.DampedShape | client_mqttbench/src/mqttbenchrate.c:56-69 | the correction factor is halfway between the time elapsed and one second within a quarter of a second, and the bound on the same side outside |
| Sampler.CalibrationDirection | client_mqttbench/src/mqttbenchrate.c:60-82 | a period shorter than a second lowers the ratio, a longer one raises it up to one, and one second keeps it |
| Sampler.CalibrationMonotone | client_mqttbench/src/mqttbenchrate.c:60-82 | a shorter period never gives a larger ratio than a longer one |
| Sampler.LastTimeIs | client_mqttbench/src/mqttbenchrate.c:50-54 | time is measured from the last call at which a calibration was due |
| Sampler.FirstPeriod | client_mqttbench/src/mqttbenchrate.c:125-139 | until the first calibration, of k messages k times the share of the sampling rate in the message rate are selected, rounded up |
| Sampler.PeriodSelectsTarget | client_mqttbench/src/mqttbenchrate.c:48-90 | over every run, a calibration is due exactly when the messages selected so far are the sampling rate times the periods, the current one included, and they never exceed that |
| Sampler.SelectsRequested | client_mqttbench/src/mqttbenchrate.c:125-128 | that target is the requested rate, or 1000 without one |
| Sampler.RemovedPerPeriod | client_mqttbench/src/mqttbenchrate.c:88-89 | the calibrations together take the sampling rate times their number off the counts |
| Sampler.InitBalanced | client_mqttbench/src/mqttbenchrate.c:117-143 | the filter starts with a ratio in (0,1] exactly when the sampling rate is positive or there is no message rate |
| Sampler.SelectsIff | client_mqttbench/src/mqttbenchrate.c:125-139 | over any nonempty run a message is selected exactly under that condition |
| MicroWait.YieldTimer.constructor | client_mqttbench/src/mqttbenchrate.c:156-190 | the timer starts as the initial state of the runs below |
| MicroWait.InitPaced | client_mqttbench/src/mqttbenchrate.c:160-190 | which is a paced state |
| MicroWait.InitBudget | client_mqttbench/src/mqttbenchrate.c:171-176 | the first estimate of yields a second is one and a half times those measured |
| MicroWait.YieldTimer.Calibrate | client_mqttbench/src/mqttbenchrate.c:227-269 | the correction in place is the calibration function |
| MicroWait.YieldTimer.WaitForTurn | client_mqttbench/src/mqttbenchrate.c:219-282 | the yield loop ends after as many yields as the step function says |
| MicroWait.CalibrationFactor | client_mqttbench/src/mqttbenchrate.c:238-261 | a calibration scales yields per message by a factor in [4/5, 4/3] and keeps it positive |
| MicroWait.ClampedShape | client_mqttbench/src/mqttbenchrate.c:238-258 | the divisor is halfway between the time elapsed and one second, cut at a quarter |
| MicroWait.CalibrationDirection | client_mqttbench/src/mqttbenchrate.c:238-261 | a period longer than a second lowers yields per message, a shorter one raises them, and one second keeps them |
| MicroWait.CalibrationMonotone | client_mqttbench/src/mqttbenchrate.c:238-261 | the longer the period, the fewer yields per message |
| MicroWait.LastTimeIs | client_mqttbench/src/mqttbenchrate.c:229-232 | time is measured from the last wait at which a calibration was due |
| MicroWait.PacingExact | client_mqttbench/src/mqttbenchrate.c:219-282 | after k waits of a period the yields are k times yields per message, rounded up; a period has at most the rate, rounded up, and more than the rate less one yield's worth of waits |
| Barrier.NoneBeforeAllReady | client_mqttbench/src/mqttbench.c:772-844 | over every interleaving the counter is the number of threads that have not reported, and none publishes before all saw their clients connected and subscribed |
| Barrier.ReportsIff | client_mqttbench/src/mqttbench.c:784-812 | at the end of a scan a thread reports exactly when that scan saw all its clients connected and a consumer's subscriptions are complete, and else scans afresh |
| Barrier.ReadyPublishes | client_mqttbench/src/mqttbench.c:824-844 | when all have reported and nobody quits or stops, a waiting thread goes on and publishes |
| Barrier.FlagsAre | client_mqttbench/src/mqttbench.c:220-228 | in every run, quit is set once requested, and stop from a step that sets it until a thread done with its messages ends |
| Barrier.NobodyStranded | client_mqttbench/src/mqttbench.c:820-844 | once no thread is connecting or scanning, a waiting thread can go on exactly when it was told to quit or stop or no thread returned silently in set-up |
| Barrier.SilentBlocksAll | client_mqttbench/src/mqttbench.c:510-583 | after such a return nobody publishes in any continuation |
| Barrier.SilentExitStrands | client_mqttbench/src/mqttbench.c:510-583 | a run that ends with a thread that reported, waiting for ever |
| RoundRobin.SharesComplete | client_mqttbench/src/mqttbench.c:603-612 | the shares of n takers add up to everything dealt out |
| Quota.ComputeQuota | client_mqttbench/src/mqttbench.c:603-612 | a thread's quota is its share |
| Quota.QuotasExact | client_mqttbench/src/mqttbench.c:603-612 | the quotas add up to the requested count exactly when as many threads as messages are left over are numbered below the remainder; for distinct identifiers, exactly when every identifier below the remainder is held by a publishing thread |
| Quota.QuotasAddUp | client_mqttbench/src/mqttbench.c:603-612 | which holds when they are numbered 0 to n-1 |
| Quota.QuotasNeverExceed | client_mqttbench/src/mqttbench.c:603-612 | and with distinct identifiers they never exceed it |
| Quota.ConsumerFirstFallsShort | client_mqttbench/src/mqttbench.c:603-612 | with a consumer-only thread numbered 0 one message of three is never sent |
| Quota.PublishLoop | client_mqttbench/src/mqttbench.c:898-902 | despite refusals a thread submits the accepted messages up to its quota and no more |
| Quota.DoneWhenAllDone | client_mqttbench/src/mqttbench.c:898-902 | together the threads never submit more than the quotas' total, and exactly that once all of them are done |
| JsonWalk.WalkFields | client_mqttbench/src/mbconfig.c:871-906 | the field loop visits exactly the direct children in order, ends right behind the node, and terminates |
| JsonWalk.VisitTopics | client_mqttbench/src/mbconfig.c:1643-1674 | the topic loop visits the children in order up to the first bad one, and passes over a last child that is a single entry |
| JsonWalk.WalkTopics | client_mqttbench/src/mbconfig.c:1636-1690 | a node that is not an array, an empty array and a bad topic are errors; without error all children were visited exactly when the last is not a single entry, and all but that one otherwise |
| JsonWalk.LastUnseenIff | client_mqttbench/src/mbconfig.c:1643-1674 | the last topic is passed over exactly when it is an empty object or array, or a value |
| JsonWalk.EmptyTopicUnseen | client_mqttbench/src/mbconfig.c:1643-1674 | the array of one empty topic is such an input |
| ClientRange.IsClientInCRange | client_mqttbench/src/mbconfig.c:1703-1749 | a client is accepted exactly when there is no range parameter or some token of it covers the client |
| ClientRange.WrittenRangesSelect | client_mqttbench/src/mbconfig.c:1703-1749 | a plainly written list of numbers and ranges accepts exactly the clients it names |
| ClientLists.PickedExactly | client_mqttbench/src/mbconfig.c:2281-2281 | the clients created are exactly those in range, each once and in file order |
| ClientLists.DealtEvenly | client_mqttbench/src/mbconfig.c:2282-2284 | no submitter thread gets two clients more than another |
| ClientLists.BuildClientLists | client_mqttbench/src/mbconfig.c:2264-2329 | the j-th client created is entry j div n of list j mod n; created and skipped add up to processed; the loop fails exactly at the first bad entry in range |
| TopicSelect.SplitTopics | client_mqttbench/src/mbconfig.c:1524-1562 | counting then filling gives the two index arrays, neither overrun nor short |
| TopicSelect.IndexesExact | client_mqttbench/src/mbconfig.c:1549-1562 | which are increasing, hold exactly the topics of their origin and together cover every index |
| TopicSelect.Cursor.Pick | client_mqttbench/src/mqttbench.c:1074-1083 | pick number p takes entry p mod n; there is no entry exactly when the part is empty |
| TopicSelect.PickedEvenly | client_mqttbench/src/mqttbench.c:1074-1083 | after any number of picks two entries' pick counts differ by at most one |
| TopicSelect.CollectTopics | client_mqttbench/src/mbconfig.c:2155-2209 | the topics collected for a client, and exactly when it is refused for want of one |
| TopicSelect.PicksFindIff | client_mqttbench/src/mqttbench.c:1074-1083 | the picks for all messages find an entry exactly when messages without a topic meet a client with topics of its own, and messages with one are in the client's own directory |
| TopicSelect.EmptyPartReached | client_mqttbench/src/mbconfig.c:2187-2195 | a client that is let through and fails this |
| SequenceCheck.StreamTable.constructor | client_mqttbench/src/mqttbench.c:3592-3603 | an empty table satisfies the invariant below |
| SequenceCheck.StreamTable.OnMessage | client_mqttbench/src/mqttbench.c:3506-3636 | a QoS above 2 is rejected and changes nothing; otherwise each stream is what its own checked messages alone make of it, and the two totals are the repeated and the skipped positions of all streams |
| SequenceCheck.CleanIffCounting | client_mqttbench/src/mqttbench.c:3621-3632 | a stream's counters are both zero exactly when the numbers of every QoS level count up from 1 |
| SequenceCheck.CountersExact | client_mqttbench/src/mqttbench.c:3621-3632 | a stream's redelivered counter is the number of positions, over its three levels, at which a number is at most its predecessor and not its successor in 64 bits; its out-of-order counter the number at which numbers are missing |
| SequenceCheck.StreamTable.TotalsExact | client_mqttbench/src/mqttbench.c:3621-3632 | the totals are the sums of those over the streams checked |

## Left out

- WebSocket framing inside the receive callback: the frame types and macros it uses are not part of this model, so its framing results are for MQTT over TCP.
- Stopping in the middle of a receive callback, when the process stops or the socket fails: the bytes are then dropped, not parsed.
- Writes past the end of the partial buffer: the model stops there and says when it happens, not what memory then holds.
- SUBSCRIBE and UNSUBSCRIBE, which share the identifier window: SUBACK and UNSUBACK leave the slot states as they are, so the in-flight count is stated for producers only.
- Sender.AckKeeps: acknowledged identifiers from the window size to 65535, which the source lets through to read past the slot array; the class methods report them as outside the window.
- Sender.PubRecKeeps: the same identifiers.
- Interleaving inside a reset or a CONNACK, which the source handles without the client lock: each is one step.
- A window freed between an acknowledgement handler's look at it and its locked region: the handler is one step.
- What a packet handed over between a reset and the next CONNECT does to the new connection: the model only says that an alias in it exceeds what the server has announced.
- Consumers and clients that both publish and subscribe, whose resets follow other rules.
- The packet writers, property parsing, hash maps, lists and sockets: their outcome is a parameter (accepted or refused, connected or not).
- Per-topic acknowledgement counts, latency histograms and the count of outstanding PUBRELs: easy counters beside the exchanges.
- The barrier without the wait option, where threads publish at once.
- Random choice of clients and topics.
- Floating point rounding in the rate control: the numbers are real.
- MicroWait.YieldTimer.constructor: a clock that does not move during the first thousand yields, where the source divides by zero and gets an infinite number of yields, which is no real number.
- The timer-descriptor branch of the wait and rates below one message a second: operating system calls.
- Wrap-around of the redelivered and out-of-order counters; the sequence numbers themselves do wrap.
- The contents of client and topic entries: whether an entry is acceptable is a parameter.
- Command line, environment, logging, certificates, DNS and the Python scripts.
