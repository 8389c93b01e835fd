# A verified model of the EMANE core

EMANE emulates radio networks. Its core, in Rust, keeps time-binned receive power, moves packets
under token flow control, cuts and reassembles over-the-air messages, speaks a byte protocol across
a boundary, and runs callbacks from queues and timers. In each of these a fast or distributed
mechanism has to agree with a simple meaning. This project states that meaning, models the
mechanism, and proves that they agree, in Dafny 4.11. Check it with `dafny verify dfyconfig.toml`.

What is modelled, hardest first:

- **Noise recorder** (`NoiseWheel`, `NoiseSpan`, `NoiseExact`, `NoiseBands`, `NoiseRecorder`,
  `NoiseArrivals`, `NoiseDevice`). The meaning is a log of receptions; the power of a bin is the sum
  of those that cover it. The mechanism is a ring of slots written modulo its size. `Fits` is the
  exact condition on a reception's bins under which the two agree: `FaithfulExactlyWhenFits` proves
  both directions, with one harmless exception, the clearing of a wheel that holds nothing. The
  condition is weaker than "at most one turn long, not a full turn late, and ending at most a turn
  after the newest bin or starting at least a turn after it": a reception that encloses the recorded
  range may be longer. It also excludes receptions that a caller can well produce, after nearly a
  turn of silence: the gap is cleared after the power is written, so the new power is erased
  (`ClearedOver`, `ClearedOverExample`).
- **Flow control** (`FlowControl`, `FlowProtocol`). Two parties and two ordered channels.
  Acknowledgements carry only a number, so a stale one can be mistaken for the current one; safety
  and convergence hold nevertheless. Convergence needs no assumption about when the client starts.
- **Over-the-air messages** (`OtaParts`, `OtaSender`, `OtaReceiver`, `OtaRoundTrip`, `OtaLink`).
  From the three sections through datagrams in any order, repeated, expired and among other traffic,
  to the three sections; and, separately, consistency of the receiver under arbitrary fragments.
- **Boundary protocol** (`BoundaryCodec`, `BoundaryStream`). A codec proved to be a bijection, and a
  receive loop proved independent of how the stream is cut into reads.
- **Timer service and queued layer** (`TimerService`, `TimerCalls`, `TaskQueue`, `TaskLifecycle`).
  Lock-based components, modelled as transition systems: each stretch under a lock and each call
  made without it is one step, and the theorems are about every interleaving.
- **Smaller kernels** (`NeighborMetrics`, `NeighborRecord`, `Antenna`, `OverlapCache`).

Objects that the source updates in place are classes whose methods are proved against functions on
values; what is proved about the functions then holds of the objects. `Common` holds result types
and big-endian numbers.

Findings about the source, beyond the properties that hold, each with the exact condition:

- the noise recorder loses power in the case above (`FaithfulExactlyWhenFits`);
- with several sub-bands it also overwrites what a reception overlaps when the reception sticks out
  of the recorded range (`Overwritten`, `BandFaithfulExactly`), and after a long silence takes old
  power in a skipped sub-band for current (`SkipStaleExample`, `SkipStaleExactly`);
- a client can be left without tokens while some are available, until the next return: exactly when
  tokens were returned since the last update (`StarvedExample`, `StarvesExactly`,
  `ReturnServesClient`);
- a timer callback can begin after its cancel has returned, exactly when the cancel comes between
  the pop and the call (`CancelTooLateExactly`), although it is never popped after a cancel;
- the missed-frame count goes wrong at exactly the repeats, and frames from before it started, that
  arrive while it is above zero (`RepeatHidesMissedFrame`, `ExactKeptExactly`, `MissedExactly`);
- the running data-rate average can stay at its first sample for ever while the rates rise
  (`BoundIsTight`); a sample below the average plus the number of samples does not raise it
  (`AverageStaysExactly`), and the average is the mean exactly when no division left a remainder
  (`AverageExactly`);
- the least data rate is wrong after a zero rate that is not the last one (`MinExactly`);
- antenna sections of the same name may overlap unnoticed; points in front of a range that begins
  inside another then read as missing (`NestedSectionHides`), unless some range ends right before it
  (`SectionsReadExactly`, `SectionsReadAllExactly`).

## Model

| member | source | states |
|---|---|---|
| NoiseWheel.Wheel.constructor | rust/emane-core/src/noise_recorder.rs:11-17 | a wheel of the given number of slots, all zero |
| NoiseWheel.Wheel.Add | rust/emane-core/src/noise_recorder.rs:31-64 | adds the value to exactly the slots of the run of bins, wrapping once, and to no other |
| NoiseWheel.Wheel.Set | rust/emane-core/src/noise_recorder.rs:66-99 | sets exactly the slots of the run of bins, wrapping once, and no other |
| NoiseWheel.Wheel.Get | rust/emane-core/src/noise_recorder.rs:101-122 | the bins that end at the given slot, oldest first, read across the wrap |
| NoiseSpan.MergeAt | rust/emane-core/src/noise_recorder.rs:424-552 | after the before, after and within writes and the clearing of the gap, a live bin holds its old power plus the reception's share; no wheel call panics |
| NoiseSpan.ApplyRefines | rust/emane-core/src/noise_recorder.rs:375-561 | a reception that fits keeps the invariant: every live bin is the sum of the receptions covering it, and both range fields are zero exactly when nothing was applied |
| NoiseExact.ClearedOver | rust/emane-core/src/noise_recorder.rs:542-551 | a reception beyond the newest bin that ends more than a turn after it has its own power cleared with the gap |
| NoiseExact.ClearedOverExample | rust/emane-core/src/noise_recorder.rs:542-551 | two arrivals at a new recorder, the second of which reads as no power in its last bin, whatever their powers |
| NoiseExact.CountedTwice | rust/emane-core/src/noise_recorder.rs:463-528 | a reception that reaches round to a bin still being added to is counted twice there |
| NoiseExact.Unfaithful | rust/emane-core/src/noise_recorder.rs:375-561 | for every reception that neither fits nor clears a wheel without live power there is a power for which an update panics or a live bin reads wrong |
| NoiseExact.WipesExactly | rust/emane-core/src/noise_recorder.rs:531-541 | a reception whose gap to the range is exactly a turn clears the whole wheel, and is right if and only if no live bin held power |
| NoiseExact.FaithfulExactlyWhenFits | rust/emane-core/src/noise_recorder.rs:375-561 | whatever was recorded before, an update is right for every power if and only if the reception fits, a condition on its bins and the recorded range alone, or clears a wheel without live power |
| NoiseBands.BandIsPlain | rust/emane-core/src/noise_recorder.rs:394-551 | with several sub-bands, a reception that does not stick out of the recorded range it overlaps is written to a sub-band it covers as with a single one |
| NoiseBands.Overwritten | rust/emane-core/src/noise_recorder.rs:441-516 | in a sub-band it covers, a reception that sticks out leaves twice its power in every bin it overlaps, whatever was there |
| NoiseBands.OverwrittenExample | rust/emane-core/src/noise_recorder.rs:441-516 | two overlapping receptions after which a bin reads twice the second power instead of the sum |
| NoiseBands.BandFaithfulExactly | rust/emane-core/src/noise_recorder.rs:375-561 | with several sub-bands, whatever was received or skipped before, an update is right for every power in a sub-band it covers if and only if it would be with a single one and the reception does not stick out |
| NoiseBands.SkipRefines | rust/emane-core/src/noise_recorder.rs:424-552 | while the range goes on, a fitting reception keeps the invariant of a sub-band it does not cover, with no power added |
| NoiseBands.SkipStaleReads | rust/emane-core/src/noise_recorder.rs:400-422 | when the range starts anew, a bin of a reception that skips the sub-band reads as the power of the live bin in whose slot it lies |
| NoiseBands.SkipStaleExample | rust/emane-core/src/noise_recorder.rs:400-422 | a reception in one sub-band and, a turn later, one in another, after which the first power reads as current |
| NoiseBands.SkipStaleExactly | rust/emane-core/src/noise_recorder.rs:400-422 | when the range starts anew, a skipped sub-band is right if and only if no live bin in a slot of the reception held power and its slots of no live bin hold zeros; after a recorded range of a turn or more there are none of the latter |
| NoiseBands.SkipStaleSlots | rust/emane-core/src/noise_recorder.rs:400-422 | when the range starts anew, a skipped sub-band is right if and only if the slots of the reception hold zeros there |
| NoiseBands.BandRunRefines | rust/emane-core/src/noise_recorder.rs:375-561 | over every run of receptions that cover or skip the sub-band and fit, no update panics and every live bin holds the sum of the shares received |
| NoiseRecorder.BinsAreExact | rust/emane-core/src/noise_recorder.rs:259-290 | the bins of a reception are exactly the positive bins whose time it touches |
| NoiseRecorder.StoredMax | rust/emane-core/src/noise_recorder.rs:361-369 | the greatest end bin stored for any of the transmitters, or zero: an upper bound that is attained |
| NoiseRecorder.StartBin | rust/emane-core/src/noise_recorder.rs:289-373 | the applied start is positive and lies after every stored end bin of the arrival's pairs; which bins are applied is said by RunReceives |
| NoiseRecorder.RunRefines | rust/emane-core/src/noise_recorder.rs:272-574 | over every run of fitting arrivals from a new recorder no update panics and the live bins are the summed powers of the log |
| NoiseRecorder.GuardedExactly | rust/emane-core/src/noise_recorder.rs:361-375 | no arrival whatever could put power into a bin that one of its transmitters filled before if and only if no stored end bin lies before a reception of its pair |
| NoiseRecorder.GuardKeptExactly | rust/emane-core/src/noise_recorder.rs:563-571 | an update that ends a transmission keeps that guard if and only if no earlier reception of its pairs ends after it |
| NoiseRecorder.RunCountsOnce | rust/emane-core/src/noise_recorder.rs:361-375 | over every run in which end bins never move back, the applied receptions of a transmitter and antenna are pairwise disjoint |
| NoiseArrivals.RunReceives | rust/emane-core/src/noise_recorder.rs:286-375 | over every run, in terms of the arrivals alone: the summed power of a bin is that of exactly the arrivals whose time touches it behind the last ended transmission of each of their transmitters on that antenna, where an arrival ends one unless more of it follows |
| NoiseDevice.Recorder.constructor | rust/emane-core/src/noise_recorder.rs:197-257 | a new recorder is empty, with clamped bin size, window and wheel size, and a wheel of at least one window |
| NoiseDevice.Recorder.StoredMaxEor | rust/emane-core/src/noise_recorder.rs:361-369 | the latest end bin stored for any transmitter of the arrival |
| NoiseDevice.Recorder.StoreEor | rust/emane-core/src/noise_recorder.rs:563-571 | stores the end bin for every transmitter of the arrival and changes nothing else |
| NoiseDevice.Recorder.MergeInto | rust/emane-core/src/noise_recorder.rs:424-552 | the in-place writes equal the value-level merge and never panic |
| NoiseDevice.Recorder.ApplyReception | rust/emane-core/src/noise_recorder.rs:384-560 | the in-place reset, writes and range update equal the value-level one |
| NoiseDevice.Recorder.Update | rust/emane-core/src/noise_recorder.rs:272-574 | for every arrival that does not panic the new state is the value-level step, and the recorder remains what a run of its arrivals makes of a new one; where the arrival fits, the wheel again agrees with the log |
| NoiseDevice.Recorder.ReadWindow | rust/emane-core/src/noise_recorder.rs:616-663 | each entry is the slot of its bin inside the recorded range and zero outside; for a recorder that agrees with its log, the power that the arrivals left in every bin less than a turn old |
| NoiseDevice.Recorder.TryGet | rust/emane-core/src/noise_recorder.rs:581-669 | answers exactly the accepted queries, so the final refusal is unreachable; the window has the start, length and contents asked for |
| NoiseDevice.QueryExactly | rust/emane-core/src/noise_recorder.rs:581-615 | in terms of time: a query is accepted if and only if it lies between the start of the window that ends in the last bin before now, and now; it returns exactly the positive bins that hold some of the time asked for, up to now for a duration of zero |
| FlowControl.FlowControlManager.constructor | rust/emane-core/src/flow_control_manager.rs:11-16 | no tokens, an acknowledgement pending |
| FlowControl.FlowControlManager.UpdateShadowAndAck | rust/emane-core/src/flow_control_manager.rs:72-78 | offers all available tokens and waits for their acknowledgement |
| FlowControl.FlowControlManager.Start | rust/emane-core/src/flow_control_manager.rs:18-22 | all tokens available and offered |
| FlowControl.FlowControlManager.Stop | rust/emane-core/src/flow_control_manager.rs:24-28 | all counts zero; the last offer and the pending flag stay |
| FlowControl.FlowControlManager.Add | rust/emane-core/src/flow_control_manager.rs:30-43 | tokens are put back only up to the total, and offered when the client is believed to have none |
| FlowControl.FlowControlManager.Remove | rust/emane-core/src/flow_control_manager.rs:45-57 | takes a token unless an acknowledgement is pending or none is available; the shadow count wraps at zero |
| FlowControl.FlowControlManager.ProcessFlowControlMessage | rust/emane-core/src/flow_control_manager.rs:59-70 | a matching acknowledgement ends the wait, any other message makes a new offer |
| FlowControl.FlowControlClient.Start | rust/emane-core/src/flow_control_client.rs:31-35 | reports the tokens held |
| FlowControl.FlowControlClient.Stop | rust/emane-core/src/flow_control_client.rs:37-42 | cancels |
| FlowControl.FlowControlClient.RemoveToken | rust/emane-core/src/flow_control_client.rs:44-58 | waits through states with no token, goes on in the first state with a token or a cancel, and then spends one token, or none when cancelled |
| FlowControl.FlowControlClient.ProcessFlowControlMessage | rust/emane-core/src/flow_control_client.rs:60-68 | holds exactly the tokens offered and acknowledges them |
| FlowProtocol.TokenSafety | rust/emane-core/src/flow_control_manager.rs:18-57 | in every run of manager and client, with restarts, shadow <= available <= total, a packet never takes the shadow count below zero, and a running manager turns a packet away only for a pending acknowledgement |
| FlowProtocol.TokenConservation | rust/emane-core/src/flow_control_manager.rs:30-57 | in every run available tokens are the total less those taken plus those put back, so a return is refused exactly when more would come back than was taken |
| FlowProtocol.OffersExactly | rust/emane-core/src/flow_control_manager.rs:30-43 | once the handshake has settled, returned tokens send an update, for all then available, if and only if the client holds no token and no packet is under way |
| FlowProtocol.ReturnServesClient | rust/emane-core/src/flow_control_manager.rs:30-43 | with nothing in flight and no token left at the client, a return that leaves tokens available sends an update for them, and every schedule of deliveries brings them to the client |
| FlowProtocol.StartServesClient | rust/emane-core/src/flow_control_manager.rs:18-22 | after a start every schedule of deliveries ends with the client holding all tokens |
| FlowProtocol.StarvedExample | rust/emane-core/src/flow_control_manager.rs:30-57 | a run after which the client has no token, nothing is in flight, and a token is available |
| FlowProtocol.StarvesExactly | rust/emane-core/src/flow_control_manager.rs:45-57 | the last packet under way leaves the client without tokens while some are available if and only if some were returned since the last update |
| FlowProtocol.StoppedForGood | rust/emane-core/src/flow_control_client.rs:37-58 | after a stop of the client no packet is sent in any run |
| FlowProtocol.SendsWithToken | rust/emane-core/src/flow_control_client.rs:44-58 | any other client sends exactly when it holds a token, and a packet costs one |
| FlowProtocol.StartAnnounces | rust/emane-core/src/flow_control_client.rs:31-35 | a start of the client announces its tokens, and a manager that waits for another count offers again |
| FlowProtocol.ManagerAloneWraps | rust/emane-core/src/flow_control_manager.rs:45-57 | a sequence of legal calls on the manager alone wraps the shadow count |
| FlowProtocol.ManagerWrapsExactly | rust/emane-core/src/flow_control_manager.rs:45-57 | for a manager alone the shadow count wraps if and only if a removal is granted at shadow zero; otherwise it falls by what was taken |
| FlowProtocol.DeliveryDecreases | rust/emane-core/src/flow_control_manager.rs:59-78 | every delivery of a control message lowers a numeric bound |
| FlowProtocol.QuietAgrees | rust/emane-core/src/flow_control_manager.rs:59-78 | a running manager and its client with nothing in flight agree on the tokens, and no acknowledgement is pending |
| FlowProtocol.HandshakeConverges | rust/emane-core/src/flow_control_manager.rs:59-78 | from every reachable state of a running manager without packets in flight, every schedule of deliveries ends within that bound with empty channels, no acknowledgement pending and client tokens equal to the shadow count |
| OtaParts.InsertSorted | rust/emane-core/src/ota_manager.rs:562-565 | inserting a part keeps the order and replaces only the part at the same offset |
| OtaParts.InsertSum | rust/emane-core/src/ota_manager.rs:562-570 | the stored size changes by the new part less the replaced one, never below zero |
| OtaParts.ReachExactly | rust/emane-core/src/ota_manager.rs:573-586 | the contiguity scan succeeds exactly on parts that follow one another inside the message, and returns their end |
| OtaParts.JoinAt | rust/emane-core/src/ota_manager.rs:588-592 | joined contiguous parts hold every part at its offset |
| OtaSender.TakeBytes | rust/emane-core/src/ota_manager.rs:893-919 | the bytes of a part are the matching slice of events, controls and data in sequence |
| OtaSender.DatagramLayout | rust/emane-core/src/ota_manager.rs:870-925 | the bytes of a datagram, numbers with the high byte first |
| OtaSender.NextPart | rust/emane-core/src/ota_manager.rs:858-891 | a part is not empty, starts where the last one ended, says whether more follow, and its datagram respects the MTU |
| OtaSender.Send | rust/emane-core/src/ota_manager.rs:853-930 | refuses exactly the messages that cannot be cut; otherwise sends a partition of the message, every datagram within the MTU and all but the last filling it |
| OtaSender.PartitionJoins | rust/emane-core/src/ota_manager.rs:858-930 | the parts of a partition are in order of offset and joined give the message |
| OtaReceiver.ParseDatagram | rust/emane-core/src/ota_manager.rs:456-489 | a datagram as sent parses into the part it carries |
| OtaReceiver.ParseExactly | rust/emane-core/src/ota_manager.rs:456-489 | bytes are read as a fragment if and only if they are the datagram that carries it, under a header with 16-bit addresses and a 16-byte UUID that is not the receiver's own |
| OtaReceiver.OwnDatagramIgnored | rust/emane-core/src/ota_manager.rs:484-485 | a datagram under the receiver's own UUID is not read |
| OtaReceiver.Receiver.Scan | rust/emane-core/src/ota_manager.rs:573-582 | the scan over the stored parts finds how far they reach without a gap |
| OtaReceiver.Receiver.Assemble | rust/emane-core/src/ota_manager.rs:588-592 | the payload is the stored parts joined in order |
| OtaReceiver.Receiver.Receive | rust/emane-core/src/ota_manager.rs:490-611 | one fragment changes the store and delivers as the value-level step does |
| OtaReceiver.Receiver.Cleanup | rust/emane-core/src/ota_manager.rs:619-642 | when enough time has passed, exactly the entries that waited too long are removed |
| OtaReceiver.AcceptFrame | rust/emane-core/src/ota_manager.rs:531-611 | a fragment changes no entry but its own |
| OtaReceiver.AcceptSafe | rust/emane-core/src/ota_manager.rs:516-611 | whatever fragment arrives, sizes stay the sums of parts inside the declared total, and a message handed on tiles it, has the declared sections, and is not refused later |
| OtaReceiver.HandedOnExactly | rust/emane-core/src/ota_manager.rs:531-592 | a fragment that reaches its entry completes a message if and only if the stored parts with it tile the declared size |
| OtaReceiver.SingleExactly | rust/emane-core/src/ota_manager.rs:490-502 | a message in one part is handed on, with its sections, if and only if it is as long as declared and not too long; nothing is stored |
| OtaReceiver.ImplausibleIgnored | rust/emane-core/src/ota_manager.rs:516-530 | a part outside the declared message, or a last part that does not end it, changes nothing |
| OtaReceiver.ContradictionDiscards | rust/emane-core/src/ota_manager.rs:556-562 | a part whose declared lengths or UUID contradict the earlier ones discards them |
| OtaReceiver.PartKept | rust/emane-core/src/ota_manager.rs:531-572 | any other part that completes nothing is kept in place of one at the same offset, and renews the entry |
| OtaReceiver.SweepExactly | rust/emane-core/src/ota_manager.rs:619-642 | a sweep removes exactly the entries whose last part is a timeout old |
| OtaReceiver.EveryRunSafe | rust/emane-core/src/ota_manager.rs:516-642 | the store is consistent after every run of arbitrary fragments and sweeps |
| OtaRoundTrip.DatagramParses | rust/emane-core/src/ota_manager.rs:858-891 | every datagram of the sender loop parses into its fragment of the message |
| OtaRoundTrip.SinglePartDelivers | rust/emane-core/src/ota_manager.rs:490-502 | a message in one datagram is delivered when it arrives |
| OtaLink.EveryInputCounts | rust/emane-core/src/ota_manager.rs:456-642 | for every run of incoming bytes and sweeps, the receiver holds of a message exactly the parts that a count of its datagrams says: reset when complete and when expired |
| OtaLink.HandsOnWhenCounted | rust/emane-core/src/ota_manager.rs:504-611 | over every such run a datagram makes the receiver deliver the original three sections if it completes the count, and nothing otherwise |
| OtaLink.CountsArrivals | rust/emane-core/src/ota_manager.rs:531-571 | while a datagram is missing and none has expired, those counted are those that arrived, whatever the order, repeats and other traffic |
| OtaLink.SentIsDelivered | rust/emane-core/src/ota_manager.rs:456-930 | the datagrams of the sender loop, in any order and repeated, deliver the original message at the arrival that leaves none missing, and at no earlier one |
| OtaLink.EchoIgnored | rust/emane-core/src/ota_manager.rs:456-489 | a datagram under the receiver's own UUID delivers nothing and changes nothing, whatever is stored |
| OtaLink.EchoesChangeNothing | rust/emane-core/src/ota_manager.rs:456-489 | over every run an emulator's own datagrams coming back leave no trace |
| BoundaryCodec.EncodeControls | rust/emane-core/src/boundary_message_manager.rs:282-306 | the control bytes, or an error exactly when a count, an id or a length does not fit 16 bits |
| BoundaryCodec.EncodeExactly | rust/emane-core/src/boundary_message_manager.rs:150-193 | what can be sent: at most 65535 control messages with 16-bit kinds and lengths, and at most 64 MiB in all |
| BoundaryCodec.PacketLayout | rust/emane-core/src/boundary_message_manager.rs:150-193 | a packet field by field: kind 1, total length, addresses, lengths, priority, payload, controls, numbers with the high byte first |
| BoundaryCodec.ControlMessageLayout | rust/emane-core/src/boundary_message_manager.rs:150-193 | a control message field by field: kind 2, total length, controls length, controls |
| BoundaryCodec.ControlsLayout | rust/emane-core/src/boundary_message_manager.rs:282-306 | the controls field by field: their number, and kind, length and payload of each |
| BoundaryCodec.DecodeControlsLoop | rust/emane-core/src/boundary_message_manager.rs:308-335 | the consuming loop computes the recursive decoder |
| BoundaryCodec.ControlsRoundTrip | rust/emane-core/src/boundary_message_manager.rs:282-335 | decoding encoded control messages gives them back |
| BoundaryCodec.ControlsInverse | rust/emane-core/src/boundary_message_manager.rs:308-335 | accepted control bytes are the encoding of what they decode to |
| BoundaryCodec.EncodeDecode | rust/emane-core/src/boundary_message_manager.rs:150-193 | decoding what was sent gives the packet or control message back |
| BoundaryCodec.DecodeEncode | rust/emane-core/src/boundary_message_manager.rs:337-402 | every accepted byte string re-encodes to itself, so the codec is a bijection |
| BoundaryStream.SplitAppend | rust/emane-core/src/boundary_message_manager.rs:434-449 | more bytes never change the frames already cut; they continue from the bytes left over |
| BoundaryStream.SplitConserves | rust/emane-core/src/boundary_message_manager.rs:434-449 | frames and left-over bytes together are the stream |
| BoundaryStream.SplitComplete | rust/emane-core/src/boundary_message_manager.rs:434-449 | every frame has the length its header gives, no complete frame is left, and the stream is bad exactly at an impossible length |
| BoundaryStream.DrainFrames | rust/emane-core/src/boundary_message_manager.rs:434-449 | the draining loop terminates and cuts the buffer as the whole-stream split does |
| BoundaryStream.BadFrameSkipped | rust/emane-core/src/boundary_message_manager.rs:434-449 | a frame that does not decode is passed over, and those around it reach the handler |
| BoundaryStream.StreamExactly | rust/emane-core/src/boundary_message_manager.rs:426-434 | the stream is the bytes of all reads up to the first that is closed or empty; timeouts do not matter |
| BoundaryStream.ReceiveStream | rust/emane-core/src/boundary_message_manager.rs:426-455 | for every way of cutting a stream into reads, with timeouts in between, the messages handled and the bytes left over are those of the whole stream |
| BoundaryStream.EncodedStream | rust/emane-core/src/boundary_message_manager.rs:150-193 | a stream of encoded messages is cut into exactly those messages |
| BoundaryStream.SendAndReceive | rust/emane-core/src/boundary_message_manager.rs:404-455 | messages sent one after another reach the handler complete, in order and unchanged, whatever the reads |
| TaskQueue.QueueHistories | rust/emane-core/src/nem_queued_layer.rs:201-230 | in every interleaving executed tasks are accepted tasks in order, each once; every accepted task is in exactly one place; none runs between the return of a stop and the next start |
| TaskLifecycle.AcceptedExactly | rust/emane-core/src/nem_queued_layer.rs:357-383 | in every interleaving a task is accepted, last in the queue and about to be signalled, if and only if the nearest start or stop was a start, and is otherwise refused without a trace; a started layer has a worker |
| TaskLifecycle.TasksProgress | rust/emane-core/src/nem_queued_layer.rs:201-230 | a worker that no stop is after, with a task waiting whose wake-up was given, has a step that runs the oldest task or brings it closer |
| TaskQueue.NoLostWakeup | rust/emane-core/src/nem_queued_layer.rs:357-383 | in every interleaving a queued task has a wake-up pending, about to be written, or read by a worker about to take the queue |
| TaskQueue.DroppedOnlyByStop | rust/emane-core/src/nem_queued_layer.rs:220-228 | accepted tasks are dropped only while a stop is under way |
| TaskQueue.StopTerminates | rust/emane-core/src/nem_queued_layer.rs:340-355 | after a stop has signalled, the worker always has a step and each step brings the join closer, so stop returns |
| TimerService.PeekIsEarliest | rust/emane-core/src/timer_service.rs:47-55 | the heap's greatest entry is the least by expiry, then by id |
| TimerService.TimerHistories | rust/emane-core/src/timer_service.rs:89-152 | in every interleaving no entry is popped to fire after its id was cancelled or before its expiry, a release comes once and last, no id is queued twice, and the ids not retired are those queued or in flight |
| TimerService.TimerPeriods | rust/emane-core/src/timer_service.rs:129-141 | in every interleaving a one-shot fires once, a periodic id fires again one interval after it last fired at the earliest and is queued for exactly then, and an id is given up only when cancelled or done |
| TimerCalls.TimerRequests | rust/emane-core/src/timer_service.rs:89-204 | in every interleaving, in terms of the schedule calls made, the k-th of which has id k: entries and firings carry the interval and free callback asked for, the first firing of an id the time asked for; a periodic timer is given up only when cancelled, and of those given up exactly the ones with a free callback are released |
| TimerCalls.CancelsRecorded | rust/emane-core/src/timer_service.rs:206-215 | the cancellations on record are exactly those that callers asked for |
| TimerService.ThreadDecides | rust/emane-core/src/timer_service.rs:89-152 | at the top of its loop the thread is never stuck: it drops, fires or sleeps on the first entry, or sleeps when there is none |
| TimerService.FiresWhenDue | rust/emane-core/src/timer_service.rs:105-146 | the thread fires the first to expire exactly when it is due, and sleeps exactly when no entry is |
| TimerService.NotifiesThread | rust/emane-core/src/timer_service.rs:194-214 | a cancel, and a new entry that would be the first to expire, wake a sleeping thread |
| TimerService.NeverLate | rust/emane-core/src/timer_service.rs:142-204 | a sleeping thread that was not notified wakes no later than the first expiry |
| TimerService.CancelTooLateExactly | rust/emane-core/src/timer_service.rs:111-124 | from every reachable state, for every id, a callback can begin after its cancel if and only if the thread is between the pop of that id's entry and the call |
| TimerService.PopExample | rust/emane-core/src/timer_service.rs:89-124 | a run that reaches such a state |
| NeighborRecord.NeighborData.constructor | rust/emane-core/src/neighbor_metric_manager.rs:73-79 | an empty record under the all-zero UUID |
| NeighborRecord.NeighborData.ClearData | rust/emane-core/src/neighbor_metric_manager.rs:81-96 | counters, sums, averages and bounds start over; sequence number, UUID and times stay |
| NeighborRecord.NeighborData.UpdateTxActivity | rust/emane-core/src/neighbor_metric_manager.rs:345-358 | count, average, least and greatest are those of all rates sent since the last clear; the time is noted and nothing received changes |
| NeighborRecord.NeighborData.UpdateRxActivity | rust/emane-core/src/neighbor_metric_manager.rs:360-406 | the missed count steps as specified, and rates, utilization and sums are those of all frames received since the last clear |
| NeighborMetrics.HighestHeard | rust/emane-core/src/neighbor_metric_manager.rs:360-381 | the record counts every frame and tracks the highest number heard |
| NeighborMetrics.MissedCount | rust/emane-core/src/neighbor_metric_manager.rs:360-381 | for frames in any order with any repeats the missed count never exceeds the numbers never heard, and equals it without repeats and without frames from before the record started |
| NeighborMetrics.MissedExactly | rust/emane-core/src/neighbor_metric_manager.rs:360-381 | over every run of an emulator's frames the missed count and the old frames that took back a miss add up to the numbers never heard and the late frames that found none to take back; so it is exact if and only if there were equally many of the two |
| NeighborMetrics.ExactKeptExactly | rust/emane-core/src/neighbor_metric_manager.rs:360-381 | a frame keeps an exact count exact if and only if it is not a repeat, or a frame from before the record started, arriving while the count is above zero |
| NeighborMetrics.EveryRunCounts | rust/emane-core/src/neighbor_metric_manager.rs:360-381 | for every run of frames of any emulators, in terms of the frames alone: since the last change of emulator the missed count is based on the number of the frame that changed it and on the count before, and is accounted for as above |
| NeighborMetrics.NoSwitchFollows | rust/emane-core/src/neighbor_metric_manager.rs:366-377 | without a change of emulator the whole run is one emulator's |
| NeighborMetrics.ReceivedPlusMissed | rust/emane-core/src/neighbor_metric_manager.rs:334-381 | under the all-zero UUID with distinct positive numbers, received and missed frames add up to the highest number |
| NeighborMetrics.RepeatHidesMissedFrame | rust/emane-core/src/neighbor_metric_manager.rs:370-372 | a repeated frame makes the record report no missed frame although one is missing |
| NeighborMetrics.AverageBounds | rust/emane-core/src/neighbor_metric_manager.rs:408-414 | after n samples the stored average a is at least the least sample and n a <= sum <= n a + n (n - 1) / 2 |
| NeighborMetrics.BoundIsTight | rust/emane-core/src/neighbor_metric_manager.rs:408-414 | on rising samples the stored average never leaves the first one, so the bound is reached for every n |
| NeighborMetrics.AverageStaysExactly | rust/emane-core/src/neighbor_metric_manager.rs:408-414 | the n-th sample leaves the stored average a unchanged if and only if it is at least a and less than a + n |
| NeighborMetrics.AverageLoses | rust/emane-core/src/neighbor_metric_manager.rs:408-414 | the true sum is the stored average times the count plus the remainders of all the divisions |
| NeighborMetrics.AverageExactly | rust/emane-core/src/neighbor_metric_manager.rs:408-414 | the stored average is the true mean if and only if no division left a remainder |
| NeighborMetrics.MaxIsGreatest | rust/emane-core/src/neighbor_metric_manager.rs:416-423 | the stored maximum is the greatest sample |
| NeighborMetrics.MinExactly | rust/emane-core/src/neighbor_metric_manager.rs:416-423 | the stored minimum is the least sample if and only if no sample is zero or the last one is |
| NeighborMetrics.MinSinceZero | rust/emane-core/src/neighbor_metric_manager.rs:416-423 | in general the stored minimum is the least of the samples since the last zero |
| NeighborMetrics.VarianceIsExact | rust/emane-core/src/neighbor_metric_manager.rs:425-438 | for any number of samples the report recovers the mean and the sample variance about it from the two sums; it is zero exactly when all samples are equal |
| Antenna.LookupInside | rust/emane-core/src/antenna.rs:201-206 | the lookup by upper bounds finds the range that holds the point |
| Antenna.LookupOutside | rust/emane-core/src/antenna.rs:201-206 | a point in no range finds the gap value or nothing |
| Antenna.PointReadsExactly | rust/emane-core/src/antenna.rs:171-206 | where no range has the gap's value, a held point of ranges that may overlap reads as the value of a range that holds it if and only if no range begins behind it before another has ended |
| Antenna.AllReadExactly | rust/emane-core/src/antenna.rs:171-206 | every held point reads as the value of a range that holds it if and only if some range ends right before every range that begins inside another |
| Antenna.PutGains | rust/emane-core/src/antenna.rs:144-168 | the last gain of a range enters under its upper bound, and the gap in front is closed |
| Antenna.BuildBearings | rust/emane-core/src/antenna.rs:105-169 | builds the interval map, or fails exactly on lists that are not accepted |
| Antenna.BearingsAcceptedExactly | rust/emane-core/src/antenna.rs:105-169 | a list of bearings is refused exactly for a malformed one, a gain at the least 16-bit number, or one that begins before the previous ends after some bearing carried a gain |
| Antenna.IncreasingSectionsAccepted | rust/emane-core/src/antenna.rs:63-191 | all sections of increasing ranges, adjacent ones too, are accepted unless there is no range at all |
| Antenna.PutElevation | rust/emane-core/src/antenna.rs:75-183 | a row that lies behind the one before it enters under its upper bound, with the gap in front closed; any other is refused |
| Antenna.Build | rust/emane-core/src/antenna.rs:63-191 | builds the nested interval map of all sections, or fails exactly when a section is not in order or there is no range at all |
| Antenna.GainInCell | rust/emane-core/src/antenna.rs:194-209 | inside a cell the gain read is the cell's, with 360 degrees read as 0, where no two elevation ranges share a point |
| Antenna.RowGainInCell | rust/emane-core/src/antenna.rs:105-209 | a row alone gives the gain of the bearing range that holds the bearing |
| Antenna.SectionsReadExactly | rust/emane-core/src/antenna.rs:63-209 | for every accepted list of sections, however they overlap, an elevation held by a row reads as a row that holds it if and only if it is not hidden or such a row has nothing to read; a hidden elevation reads as missing |
| Antenna.SectionsReadAllExactly | rust/emane-core/src/antenna.rs:63-209 | where every row has something to read, all held elevations read as a row that holds them if and only if some row ends right before every row that begins inside another |
| Antenna.GainOutside | rust/emane-core/src/antenna.rs:194-209 | a point in no cell of any section reads as the missing value, however the sections overlap |
| Antenna.OneSectionApart | rust/emane-core/src/antenna.rs:92-101 | the order check of a section keeps its ranges apart |
| Antenna.NestedSectionHides | rust/emane-core/src/antenna.rs:63-191 | a range of a later section nested in one of an earlier section is accepted, and makes the part of the earlier one in front of it read as missing |
| OverlapCache.BandEdges | rust/emane-core/src/spectral_mask.rs:22-36 | the edges of a band are half its bandwidth to either side, cut off at the ends of the range |
| OverlapCache.OverlapIsIntersection | rust/emane-core/src/spectral_mask.rs:22-59 | the overlap is the intersection of the two bands, present exactly when both have a bandwidth and they meet, with a ratio above 0 and at most 1 |
| OverlapCache.PartTimes | rust/emane-core/src/spectral_mask.rs:38-55 | a width over a bandwidth, times the bandwidth, is the width |
| OverlapCache.OverlapRatio | rust/emane-core/src/spectral_mask.rs:38-55 | the ratio is 1 for a signal inside the band, and otherwise the width of the intersection over the signal's bandwidth |
| OverlapCache.ScanExactly | rust/emane-core/src/spectrum_monitor.rs:493-507 | a scan holds one record for each recorder touched, in their order, and nothing else |
| OverlapCache.SpectrumMonitor.Initialize | rust/emane-core/src/spectrum_monitor.rs:186-207 | the cache is forgotten and the recorders are those asked for, in order |
| OverlapCache.SpectrumMonitor.ScanRecorders | rust/emane-core/src/spectrum_monitor.rs:493-507 | the scan over all recorders, and whether one of them is not touched |
| OverlapCache.SpectrumMonitor.OverlapRecords | rust/emane-core/src/spectrum_monitor.rs:468-523 | in every reachable state, also after re-initialization, the records answered equal a fresh scan, and are remembered |

## Left out

- NoiseBands.BandFaithfulExactly: one sub-band at a time; how a frequency range is turned into sub-bands and shares is not modelled, and the recorder object has a single sub-band.
- Rounding, and the dB, path loss, fading and Doppler arithmetic: power is a real number, frequencies arrive already shifted.
- 64-bit overflow of times, bins, counters and sizes: integers are unbounded; the 16- and 32-bit widths that carry meaning are explicit.
- NoiseWheel.Wheel.Add: calls that panic in the source are excluded by `requires`; `NoiseSpan.Merge` models those panics as a missing result, and fitting receptions are proved never to cause one.
- NoiseDevice.Recorder.Update: a call that panics has no new state; `NoiseRecorder.Step` says which calls those are.
- NoiseDevice.Recorder.TryGet: says nothing about bins a turn or more old, whose slots hold newer bins.
- FlowControl.FlowControlClient.RemoveToken: what other threads do while the call waits is given, as the states it finds when it looks again.
- FlowProtocol.HandshakeConverges: covers a running manager; after a stop the shadow count is zero whatever the client holds.
- OtaReceiver.Receiver.Receive: protobuf decoding is a parameter of the parser; the routing of events and the upstream callbacks behind a delivery are not modelled.
- OtaSender.Send: failures of the socket are not modelled.
- OtaLink.EveryInputCounts: nobody else sends under the message's source and sequence number; without that the receiver has no way to tell messages apart.
- BoundaryCodec.EncodeControls: null payload pointers are not modelled, and the error texts are one error.
- BoundaryStream.ReceiveStream: sockets, timeouts and cancellation are the list of read outcomes given to it.
- TaskQueue.QueueHistories: the lock-based object is a transition system and not a class; file-descriptor callbacks and statistics are not modelled.
- TimerService.TimerHistories: the lock-based object is a transition system and not a class; the binary heap is the collection it holds with a greatest element; the clock is given.
- NeighborRecord.NeighborData.UpdateRxActivity: the tables of neighbors, and the ages and ratios reported from a record, are not modelled.
- NeighborMetrics.VarianceIsExact: gives the square of the reported standard deviation; the square root is not modelled.
- Antenna.Build: the parsing of attributes and numbers is not modelled.
- Antenna.GainInCell: elevation ranges of different sections that overlap are left to `SectionsReadExactly`, since no reading could be that of two ranges at once.
- OverlapCache.SpectrumMonitor.OverlapRecords: covers transmissions without a spectral mask; the cache for masks, which initialization does not empty, and the caches for filters are not modelled.
- Plugin loading, configuration, XML, the control port, logging, formatters and statistics are not part of this model.
