# Verified model of the LCM transport and the bridge's loop prevention

This project models, in Dafny, the two protocols at the heart of `zenoh-plugin-lcm` and proves
what they promise.

**The transport.** A message goes out as one short datagram ("LC02") or as numbered fragments
("LC03") under an MTU; a receiver rebuilds messages from whatever datagrams arrive, in whatever
order, from many senders, under a timeout and a size cap.

* `Primitives.dfy`: machine integers, big-endian bytes, NUL-terminated strings, UTF-8 (section 4 of RFC 3629).
* `Utf8.dfy`: UTF-8 by the encoding of code points (section 3 of RFC 3629).
* `Protocol.dfy`: parsing and encoding of both wire formats.
* `WireLayout.dfy`: both formats byte by byte, in numbers.
* `Reassembly.dfy`: one datagram against the table of fragment sets, and whole traces, on values.
* `FragmentReassembler.dfy`: the reassembler itself, a map of sets whose buffers and masks are filled
  in place, proved equal to the value machine step by step.
* `Isolation.dfy`: keys do not disturb each other; the global sweep is unobservable.
* `Confluence.dfy`: order, duplicates and other traffic do not matter.
* `Batches.dfy`: duplicates that straggle in at any times.
* `Overlaps.dfy`: fragments whose ranges overlap, as those of a channel with a NUL do.
* `Noise.dfy`: what rejected fragments can and cannot do.
* `Provenance.dfy`: every delivered message is made of what arrived, once each, in time.
* `Conservation.dfy`: fragments are delivered, pending or expired; the sweep is exact.
* `Fragmentation.dfy`: capacities, counts, casts and tiling of the sending side.
* `Transport.dfy`: `send` and `recv` over a socket that is a trace.
* `EndToEnd.dfy`, `ExactRoundTrip.dfy`, `Streams.dfy`: the compositions, for one message, under exact
  conditions, and for whole conversations.
* `Loopback.dfy`: the methods composed: a conversation through `send` and `recv`.

**Loop prevention.** Two tasks share a set of recently sent sequence numbers: one sends, then records
and prunes; the other checks and removes.

* `LoopPrevention.dfy`: the set, the bridge and its atomic steps.
* `LoopRuns.dfy`: window, suppression, counting and size over every interleaving and any number of wraparounds.
* `LoopCost.dfy`: what pruning costs, by how much a scan leaves in the set.
* `LoopWitnesses.dfy`: runs that show where size, cost and window guarantees end.
* `BridgeLoop.dfy`: both protocols together: a bridge's messages come back to it among those of others.

## How the world is modelled

* The network is a trace of arrivals. A socket's answers to `send_to` are a trace too, so sends can
  fail at any datagram. `recv` reports `Waiting` where the source would block.
* Processing a fragment reads the clock twice, once to sweep and once if it opens a set; both readings
  come with the arrival. Theorems that need it assume the readings never go backwards.
* A channel is a byte string. Rust's `&str` makes it valid UTF-8 but lets it hold a NUL.
* `usize` is 64 bits: `send` is asked that its own size computation does not overflow. `recv` truncates
  to 65536 bytes; theorems about fragmented messages ask for an MTU of at most that, because no larger
  datagram exists in UDP.
* The bridge's interleavings are runs of four atomic events: a send that succeeds or fails, a record
  with its prune under one lock, and a receive with its check and removal under one lock.

## Results worth knowing

* The round trip is exact, not only sufficient: once the network has delivered all the fragments of a
  message, after any earlier traffic, it comes back unchanged if and only if its channel has no NUL, its
  length fits 32 bits and the cap, either its fragment count fits `u16` or the part that is never sent is
  all zeros, and all of it arrived after any set with another header on its key expired
  (`ExactRoundTrip.RoundTripExactly`). With a larger count the cast wraps: the receiver silently delivers
  the covered prefix followed by zeros, and for a multiple of 65536 nothing is sent at all while `send`
  reports success (`EndToEnd.WrappedCountSendsNothing`, `EndToEnd.WrappedCountExists`). Of 100 million bytes
  at the default MTU the first 9.6 million are sent (`EndToEnd.WrappedCountCoversPrefix`).
* A NUL in a channel, which `&str` allows, cuts the channel and moves its rest to the front of the data. In
  a fragmented message that front overlaps the next chunks, so what is delivered depends on the order of
  arrival (`Overlaps.NulByte`), or nothing is if the front is longer than the payload
  (`Overlaps.NulNeverDelivered`).
* Delivery is not exactly-once on a network that duplicates: after completion the key is forgotten, and
  late duplicates deliver the message again with every whole batch of them, a batch lasting one timeout
  from its first member (`EndToEnd.MessageDeliveredAgain`).
* A rejected fragment cannot change data or timing, but it can rename the message, because the channel is
  stored before the checks. A message has the channel of the last fragment within the size cap that named
  one up to its completion, accepted or not (`Provenance.ChannelIsLastNamed`); so it keeps its own exactly
  when that fragment names it (`Noise.DeliveredDespiteNoise`). `Noise.ImpostorRenames` gives
  failing runs. A set announced with zero fragments silences its key until it expires
  (`Noise.EmptySetBlocksKey`), and a set with another header silences a family
  (`Noise.ForeignSetBlocksFamily`).
* The doc comment on `prune_sent_sequences` promises amortised constant cost. That holds over any number
  of laps of the 32-bit counter while scans leave the set well below its threshold of 10000: if they leave
  at most m, N records scan at most 10001/(10001 - m) N numbers (`LoopCost.AmortisedCost`). In the first lap
  m is 5001; later it is at most 5001 plus the most the set held when the counter wrapped around
  (`LoopCost.WrapsLeaveFew`, `LoopCost.FewLeftoversLeaveLittle`). When a scan leaves 10000 or more the next
  record scans again (`LoopCost.ScansAgainExactly`); in the second lap of a sender whose messages do not
  return every record does, and the promise fails (`LoopWitnesses.AmortisedCostFailsAfterWrap`).
* The window of 5000 survives wraparound for distances counted in sends (`LoopRuns.WindowKept`) in every
  run. Counted modulo 2^32 it holds for every number whose record is less than a lap of sends old
  (`LoopRuns.ModularWindowKept`), which is all of them while every send succeeds, and can fail once a
  send has failed (`LoopWitnesses.ModularWindowFailsAfterFailedSend`). What the set holds in any run is
  characterised exactly by `LoopRuns.HeldExactly`.
* The set stays within 15001 numbers if at every wraparound of the counter at most 10000 are held above
  what the new lap reaches at once, which is so while no 5000 sends in a row fail (`LoopRuns.SizeBound`,
  `LoopRuns.NoOutageHoldsFew`). Otherwise it need not: when the counter is back at zero, some continuation
  within the lap exceeds 15001 if and only if more than 10000 numbers above 5000 are held
  (`LoopWitnesses.LapOverflowsExactly`), and 5000 failures in a row across a wraparound are enough for that
  (`LoopWitnesses.SizeBoundFailsAfterOutage`). In any run the set holds at most 10000 numbers plus 5001 for
  each wraparound (`LoopRuns.SizeInAnyRun`).
* Suppression depends on the interleaving: a message that loops back before its number is recorded is
  forwarded, and its record then swallows the next message of that number (`LoopRuns.EarlyLoopEscapes`).
  It also depends on strangers, because matching is by number only: another sender's message that carries a
  held number and comes first is swallowed, and the bridge's own is then forwarded
  (`BridgeLoop.StrangerSwallowed`).

## Model

| member | source | states |
|---|---|---|
| Protocol.ParseInvertsEncode | lcm-transport/src/protocol.rs:43-173 | Parsing an encoded packet gives it back if and only if its channel is NUL-free UTF-8 and, for fragments, present exactly on number 0 |
| Protocol.EncodeInvertsParse | lcm-transport/src/protocol.rs:60-117 | Whatever parses re-encodes to the exact same bytes, and has the shape the wire can carry |
| Protocol.ParseInjective | lcm-transport/src/protocol.rs:43-58 | No two datagrams parse to the same packet |
| Protocol.FormatsDisjoint | lcm-transport/src/protocol.rs:1-4 | No byte string is both a short message and a fragment |
| WireLayout.ShortLayout | lcm-transport/src/protocol.rs:122-138 | An encoded short message is "LC02", the number in bytes 4 to 7, channel, NUL, data, and nothing else |
| WireLayout.FragmentLayout | lcm-transport/src/protocol.rs:143-173 | An encoded fragment is "LC03", number, payload size, offset, fragment number and count as big-endian numbers at offsets 4, 8, 12, 16 and 18, then channel and NUL if there is a channel, then data |
| WireLayout.ParsesExactly | lcm-transport/src/protocol.rs:43-117 | A datagram parses if and only if it begins with one of the two magics, has a whole header and, except in fragments numbered other than 0, a UTF-8 channel ended by a NUL |
| WireLayout.ParsedFields | lcm-transport/src/protocol.rs:60-117 | And every field is then the number, or the bytes, at its offset |
| WireLayout.Sample | lcm-transport/src/protocol.rs:60-84 | The twelve bytes of a short message parse to its number, channel and data |
| Utf8.ValidUtf8Exactly | lcm-transport/src/protocol.rs:72-74 | The strings accepted as UTF-8 are exactly the encodings of sequences of code points other than surrogates |
| Protocol.NulCutsChannel | lcm-transport/src/protocol.rs:72-77 | In a short message a channel with a NUL arrives cut there, its rest prepended to the payload |
| Protocol.NulCutsFragment | lcm-transport/src/protocol.rs:99-104 | So it does in fragment number 0, whose data grows at the front while its offset stays |
| Protocol.EncodeShortMessageInto | lcm-transport/src/protocol.rs:122-138 | The cleared and refilled buffer holds the short encoding, whatever it held before |
| Protocol.EncodeFragmentInto | lcm-transport/src/protocol.rs:143-173 | The cleared and refilled buffer holds the fragment encoding, whatever it held before |
| Reassembly.StepSetInvariant | lcm-transport/src/fragment.rs:88-150 | One fragment keeps a set sized, counted and incomplete, or it brings the one number missing and the message has the announced size |
| Reassembly.ReachableInvariant | lcm-transport/src/fragment.rs:49-171 | In every reachable table each buffer, mask and counter agree, sizes respect the cap, and no complete set lingers |
| FragmentReassembler.FragmentSet.Open | lcm-transport/src/fragment.rs:74-86 | A new set has a zeroed buffer, a clear mask, no channel and the creation time |
| FragmentReassembler.FragmentSet.CopyFromSlice | lcm-transport/src/fragment.rs:121-135 | The in-place copy changes exactly the bytes of the fragment's range and never leaves the buffer |
| FragmentReassembler.FragmentSet.Absorb | lcm-transport/src/fragment.rs:88-147 | Filling a set in place matches the value machine, and the 16-bit counter never overflows |
| FragmentReassembler.FragmentReassembler.constructor | lcm-transport/src/fragment.rs:37-43 | A new reassembler is empty |
| FragmentReassembler.FragmentReassembler.ExpireStale | lcm-transport/src/fragment.rs:153-171 | Exactly the sets older than the timeout go, the others are untouched |
| FragmentReassembler.FragmentReassembler.Entry | lcm-transport/src/fragment.rs:71-86 | The key's set is found or opened; no other key notices |
| FragmentReassembler.FragmentReassembler.Process | lcm-transport/src/fragment.rs:49-150 | Processing a fragment in place refines the value machine and keeps the invariant, with distinct keys never sharing storage |
| Isolation.EagerIsLazy | lcm-transport/src/fragment.rs:53-73 | For every trace and key, the table with its global sweep delivers what a machine that only looks at its own key delivers |
| Isolation.NonInterference | lcm-transport/src/fragment.rs:49-171 | Dropping all traffic of other keys from a trace changes no delivery of the rest, nor their order |
| Isolation.OneKeyAlone | lcm-transport/src/fragment.rs:8-12 | One key's deliveries are those of its own fragments alone |
| Confluence.AwaitingMore | lcm-transport/src/fragment.rs:116-149 | Until the last missing number arrives nothing is delivered, and the buffer holds exactly the bytes seen over zeros |
| Confluence.DeliveredAtLastMissing | lcm-transport/src/fragment.rs:139-149 | A family of fragments is delivered exactly at the datagram that brings its last missing number, and its key is then forgotten |
| Confluence.OrderDoesNotMatter | lcm-transport/src/fragment.rs:121-150 | Any two traces that complete the same family, from any tables without a live set for it, deliver the same message |
| Confluence.DeliveredIffWhole | lcm-transport/src/fragment.rs:139-149 | From a table without a live set for it, something of a family is delivered if and only if all its numbers arrive |
| Confluence.DeliveredAgainInTime | lcm-transport/src/fragment.rs:139-142 | After a delivery, duplicates within a timeout of each other deliver again if and only if the whole family arrives again |
| Batches.DeliveredPerBatch | lcm-transport/src/fragment.rs:71-150 | Members of a family at any times are delivered exactly with those arrivals that make a batch whole, a batch lasting one timeout from its first member |
| Batches.DeliveredAgainExactly | lcm-transport/src/fragment.rs:139-142 | So after a delivery, late duplicates at any times deliver again exactly with every whole batch |
| Overlaps.FoldDelivered | lcm-transport/src/fragment.rs:121-150 | Fragments of one header, whatever their ranges, deliver the fold of their writes in order of arrival over a zero-filled buffer |
| Overlaps.NulDelivered | lcm-transport/src/multicast.rs:207-232 | A fragmented message whose channel holds a NUL is delivered under the cut channel with the fold of its parsed fragments |
| Overlaps.NulByte | lcm-transport/src/fragment.rs:121-135 | Each byte of it comes from the lengthened fragment number 0 if that covers it and arrives after its own chunk, and from the data otherwise |
| Overlaps.NulNeverDelivered | lcm-transport/src/fragment.rs:121-133 | If that fragment is longer than the payload, nothing is ever delivered |
| Confluence.LateDuplicateReopens | lcm-transport/src/fragment.rs:139-142 | A duplicate after completion opens a new set holding just that fragment |
| Noise.NoiseKeepsData | lcm-transport/src/fragment.rs:95-133 | Fragments rejected by any check change neither the data nor the points of delivery |
| Noise.NoiseRenamesExactly | lcm-transport/src/fragment.rs:88-103 | In any trace from an empty table they leave a delivered message as it is if and only if the last fragment naming a channel, with and without them, names the same one |
| Noise.DeliveredDespiteNoise | lcm-transport/src/fragment.rs:88-150 | A family is delivered whole, at the same datagram, with such fragments mixed in, and with its own channel if and only if the last naming fragment up to completion carries it |
| Noise.NoiseChangesNothing | lcm-transport/src/fragment.rs:88-133 | A case of that which needs no look at the order, for any starting set: they change nothing when every number 0 carries one channel |
| Noise.RejectedFragmentRenames | lcm-transport/src/fragment.rs:57-103 | A rejected fragment anywhere in a trace that completes a family renames the message if it is the last to name a channel up to completion |
| Noise.ImpostorRenames | lcm-transport/src/fragment.rs:57-103 | Any trace completing a family of several fragments becomes such a trace by a number 0 within the cap but with another size put just before its last datagram |
| Noise.EmptySetBlocksKey | lcm-transport/src/fragment.rs:105-114 | A live set announced with zero fragments accepts nothing until it expires |
| Noise.ForeignSetBlocksFamily | lcm-transport/src/fragment.rs:95-103 | While a set with another header lives, nothing of a family is delivered, however often it arrives |
| Noise.ForeignSetExpires | lcm-transport/src/fragment.rs:153-171 | Once it has expired, it leaves the key free |
| Provenance.EverySetJustified | lcm-transport/src/fragment.rs:71-137 | Every set's buffer is the fold, in acceptance order, of writes from distinct-numbered arrivals since its opening, and its channel the last one named |
| Provenance.EveryDeliveryGenuine | lcm-transport/src/fragment.rs:121-150 | Every delivered message is such a fold over n arrivals with distinct numbers, opened no longer than the timeout before the completing sweep |
| Provenance.GenuineUsesEachNumberOnce | lcm-transport/src/fragment.rs:116-119 | Those n arrivals carry every number from 0 to n-1 |
| Provenance.ChannelIsLastNamed | lcm-transport/src/fragment.rs:88-93 | A reassembled message has the channel of the last fragment of its key that named one up to its completion, even if that one was dropped afterwards |
| Conservation.FragmentsConserved | lcm-transport/src/fragment.rs:116-171 | Accepted fragments equal those announced by delivered messages plus pending plus expired ones |
| Conservation.SurvivesExactlyWhileYoung | lcm-transport/src/fragment.rs:153-171 | An unaddressed set survives a sweep unchanged if and only if it is within the timeout |
| Conservation.NothingStaleSurvives | lcm-transport/src/fragment.rs:54-55 | After any run no set is older than the timeout at the last sweep's reading |
| Fragmentation.Job.OneDatagramExactly | lcm-transport/src/multicast.rs:160-166 | A message goes out as its one short datagram if and only if that is at most the MTU |
| Fragmentation.Job.RefusedExactly | lcm-transport/src/multicast.rs:183-197 | Nothing can be sent if and only if it is not, and the MTU is at most 21 plus the channel's length |
| Fragmentation.Job.ManyDatagrams | lcm-transport/src/multicast.rs:168-170 | All other messages go out as fragments, at least two if their count fits u16 |
| Fragmentation.Job.CountIsCeiling | lcm-transport/src/multicast.rs:186-204 | The count is the exact ceiling of channel, NUL and data over the body size, at least two, and its addition never overflows |
| Fragmentation.Job.CountIsOptimal | lcm-transport/src/multicast.rs:198-204 | No packing within the MTU uses fewer datagrams |
| Fragmentation.Job.CastIsLossless | lcm-transport/src/multicast.rs:205 | The cast to u16 keeps the count if and only if the data is at most the first capacity plus 65534 subsequent ones |
| Fragmentation.Job.CountWraps | lcm-transport/src/multicast.rs:199-205 | In any case it takes whole laps of 65536 off the ceiling of channel, NUL and data over the MTU less 20 |
| Fragmentation.Job.WrappedCoverage | lcm-transport/src/multicast.rs:205-232 | With a wrapped count the emitted chunks are the prefix of the data that this many bodies hold beside channel and NUL |
| Fragmentation.Job.StartsAreExact | lcm-transport/src/multicast.rs:207-232 | No chunk starts past the data, and after the full count the offset is the data length |
| Fragmentation.Job.ChunkSizes | lcm-transport/src/multicast.rs:210-217 | Every chunk is non-empty and all but the last fill their capacity |
| Fragmentation.Job.DatagramSizes | lcm-transport/src/multicast.rs:183-189 | Every datagram is at most the MTU, all but the last exactly the MTU |
| Fragmentation.Job.ChunksTile | lcm-transport/src/multicast.rs:210-231 | The first m chunks concatenate to the data up to offset m |
| Fragmentation.Job.EmittedChunksTile | lcm-transport/src/multicast.rs:205-232 | The emitted chunks concatenate to the data if and only if the count fits u16 |
| Transport.TransmitsExactly | lcm-transport/src/multicast.rs:230 | The datagrams before the first refused one reach the wire, and no later one is tried |
| Transport.TruncatedExactly | lcm-transport/src/multicast.rs:14 | The receive buffer cuts a datagram if and only if it is longer than 65536 bytes, and then to that length |
| Transport.ShortIsReturned | lcm-transport/src/multicast.rs:120-150 | When a short message of at most 65536 bytes arrives first, `recv` returns it whole and takes nothing else |
| Transport.LcmTransport.Send | lcm-transport/src/multicast.rs:156-197 | Sending uses up one number whatever happens, emits the planned datagrams up to the first refused one, and reports invalid input exactly when the message exceeds the MTU and the MTU is at most 21 plus the channel's length |
| Transport.LcmTransport.SendFragmented | lcm-transport/src/multicast.rs:175-235 | The loop emits the fragments of the closed-form plan in order, or nothing exactly when the MTU is at most 21 plus the channel's length |
| Transport.LcmTransport.EncodeChunk | lcm-transport/src/multicast.rs:211-231 | One turn encodes chunk i of the closed form and moves the offset to the next start |
| Transport.LcmTransport.Recv | lcm-transport/src/multicast.rs:120-150 | Receiving takes datagrams from the front until one completes a message, which is what the trace semantics says it completes |
| EndToEnd.MessageDelivered | lcm-transport/src/multicast.rs:175-235 | Emitted datagrams in any order, with duplicates and foreign traffic, deliver at the last missing one and not before, the covered data padded with zeros |
| EndToEnd.MessageDeliveredAgain | lcm-transport/src/fragment.rs:139-142 | After that, late duplicates of the emitted datagrams at any times deliver the message again exactly with every whole batch |
| EndToEnd.MessageDeliveredAgainInTime | lcm-transport/src/fragment.rs:139-142 | If they come within a timeout of each other, that is if and only if all of them arrive again |
| EndToEnd.DataSurvivesExactly | lcm-transport/src/multicast.rs:205 | That is the data itself if and only if the count fits u16 or the uncovered part is all zeros |
| EndToEnd.RoundTrip | lcm-transport/src/multicast.rs:156-235 | Fragmenting, encoding, any arrival order, parsing and reassembling compose to the identity on channel, number and data |
| ExactRoundTrip.RoundTripExactly | lcm-transport/src/fragment.rs:57-103 | Once all datagrams arrived, to any reachable table in which the key is free from some point on and before that held by a set with another header, the message comes back unchanged under exactly the listed conditions |
| ExactRoundTrip.FreeFromExists | lcm-transport/src/fragment.rs:153-171 | There is such a point for every set with another header and every trace with a monotone clock |
| ExactRoundTrip.BlockedByForeignSet | lcm-transport/src/fragment.rs:95-103 | While a live set with another header holds its key, no datagram of the message delivers anything |
| ExactRoundTrip.ParsedZeroNamesChannel | lcm-transport/src/protocol.rs:86-117 | Every parsed fragment numbered 0 names a channel |
| ExactRoundTrip.ReassembledWithinLimits | lcm-transport/src/fragment.rs:57-67 | No run delivers a reassembled message over the cap, over 32 bits, or with a NUL in its channel |
| EndToEnd.WrappedCountSendsNothing | lcm-transport/src/multicast.rs:205-234 | When the full count is a multiple of 65536 nothing is emitted and success is reported |
| EndToEnd.WrappedCountExists | lcm-transport/src/multicast.rs:199-205 | There are such messages: 131071 bytes under an MTU of 22 |
| EndToEnd.WrappedCountCoversPrefix | lcm-transport/src/multicast.rs:199-232 | Others wrap to a count in between: of 100 million bytes under an MTU of 1400, 6928 fragments carry the first 9560635 |
| Streams.SenderAlone | lcm-transport/src/multicast.rs:156-173 | One sender's datagrams in order deliver its messages, short and fragmented mixed, once and in order |
| Streams.StreamRoundTrip | lcm-transport/src/multicast.rs:120-150 | So they do when interleaved with any other senders and any unparseable datagrams |
| Streams.ExpectedAt | lcm-transport/src/multicast.rs:157 | The i-th message carries the first number plus i, wrapped around |
| Loopback.RecvAll | lcm-transport/src/multicast.rs:120-150 | Repeated receiving returns all messages the trace delivers, in order |
| Loopback.CarriedIsDelivered | lcm-transport/src/multicast.rs:120-173 | A stream that the network carries in order and in time comes out once and in order among other senders' messages, and alone if nobody else sends |
| Loopback.Conversation | lcm-transport/tests/multicast.rs:38-68 | Every message sent through one transport is received through another, once and in order, over any network that carries the wire, at any clock readings and among other senders |
| LoopPrevention.SentSequences.PruneSentSequences | zenoh-plugin-lcm/src/zenoh_to_lcm.rs:19-24 | Over 10000 numbers, those below latest minus 5000, saturating, go; otherwise nothing changes |
| LoopPrevention.Bridge.SendStep | zenoh-plugin-lcm/src/zenoh_to_lcm.rs:107-108 | Sending takes the next number and leaves it to be recorded exactly when it succeeds |
| LoopPrevention.Bridge.RecordStep | zenoh-plugin-lcm/src/zenoh_to_lcm.rs:109-114 | Recording inserts the number and prunes |
| LoopPrevention.Bridge.ReceiveStep | zenoh-plugin-lcm/src/lcm_to_zenoh.rs:43-54 | A received message is skipped exactly when its number is in the set, and the number is removed |
| LoopRuns.RecordedExactly | zenoh-plugin-lcm/src/zenoh_to_lcm.rs:19-24 | A record inserts its number, and if the set then holds more than 10000, those more than 5000 below it go |
| LoopRuns.WindowKept | zenoh-plugin-lcm/src/zenoh_to_lcm.rs:14-24 | In every run the set is within the unpruned one and keeps everything at most 5000 sends behind the latest record |
| LoopRuns.ModularWindowKept | zenoh-plugin-lcm/src/zenoh_to_lcm.rs:19-24 | So it does for distances modulo 2^32, despite the saturating cutoff, for records less than a lap of sends old |
| LoopRuns.ModularWindowWhenAllSucceed | zenoh-plugin-lcm/src/zenoh_to_lcm.rs:108-113 | While every send succeeds that is every record, and the window holds modulo 2^32 |
| LoopRuns.HeldExactly | zenoh-plugin-lcm/src/lcm_to_zenoh.rs:43-54 | In every run a message is skipped if and only if some step recorded its number and no later step received it or pruned it |
| LoopRuns.LoopSuppressed | zenoh-plugin-lcm/src/lcm_to_zenoh.rs:43-54 | A message that returns after its record is skipped unless its number was received before or over 5000 numbers went by |
| LoopRuns.LoopSuppressedWithinLap | zenoh-plugin-lcm/src/lcm_to_zenoh.rs:43-54 | The same counting the 5000 modulo 2^32, if less than a lap of sends went by |
| LoopRuns.LoopSuppressedWhenAllSucceed | zenoh-plugin-lcm/src/lcm_to_zenoh.rs:43-54 | The same modulo 2^32 however many laps went by, while every send succeeds |
| LoopRuns.EarlyLoopEscapes | zenoh-plugin-lcm/src/zenoh_to_lcm.rs:108-113 | One that returns before its record is forwarded, and its number then waits for the next message to carry it |
| LoopRuns.SkipsNeverExceedRecords | zenoh-plugin-lcm/src/lcm_to_zenoh.rs:46-53 | In every run and for every number, skips never exceed records |
| LoopRuns.SizeInAnyRun | zenoh-plugin-lcm/src/zenoh_to_lcm.rs:19-24 | Whatever sends fail, the set holds at most 10000 numbers plus 5001 for each wraparound |
| LoopRuns.FirstLapSize | zenoh-plugin-lcm/src/zenoh_to_lcm.rs:19-24 | Within one lap of the counter the set never exceeds 10000 numbers, whatever sends fail |
| LoopRuns.SizeBound | zenoh-plugin-lcm/src/zenoh_to_lcm.rs:19-24 | Over any number of laps it never exceeds 15001, if every wraparound finds at most 10000 numbers above what the new lap reaches at once |
| LoopRuns.NoOutageHoldsFew | zenoh-plugin-lcm/src/zenoh_to_lcm.rs:108-122 | Every wraparound does so in a run without 5000 failed sends in a row |
| LoopWitnesses.LapOverflowsExactly | zenoh-plugin-lcm/src/zenoh_to_lcm.rs:19-24 | When the counter is back at zero, some continuation within the lap exceeds 15001 if and only if more than 10000 numbers above 5000 are held |
| LoopRuns.NoOutageWhenAllSucceed | zenoh-plugin-lcm/src/zenoh_to_lcm.rs:108-113 | A run in which all sends succeed has no such outage |
| LoopCost.AmortisedCost | zenoh-plugin-lcm/src/zenoh_to_lcm.rs:14-24 | Over any number of laps, while every scan leaves at most m <= 10000 numbers, N records scan at most 10001/(10001 - m) N numbers and the set stays within 10000 |
| LoopCost.AtMostThreePerRecord | zenoh-plugin-lcm/src/zenoh_to_lcm.rs:14-18 | At most 3 N while scans leave at most 6667 |
| LoopCost.PrunesFarApart | zenoh-plugin-lcm/src/zenoh_to_lcm.rs:16-18 | While scans leave at most m, two effective prunes are at least 10001 - m records apart |
| LoopCost.FewLeftoversLeaveLittle | zenoh-plugin-lcm/src/zenoh_to_lcm.rs:19-24 | A scan that finds at most l numbers of earlier laps leaves at most 5001 + l |
| LoopCost.WrapsLeaveFew | zenoh-plugin-lcm/src/zenoh_to_lcm.rs:19-24 | There are never more of those than the set held when the counter wrapped around |
| LoopCost.ReturnedLeaveFew | zenoh-plugin-lcm/src/lcm_to_zenoh.rs:43-54 | Nor more than there are numbers of earlier laps that were never received back, pruned or not |
| LoopCost.AmortisedInFirstLap | zenoh-plugin-lcm/src/zenoh_to_lcm.rs:14-18 | Within one lap there are none: N records scan at most 10001/5000 N numbers, so at most 3 N |
| LoopCost.PrunesFarApartInFirstLap | zenoh-plugin-lcm/src/zenoh_to_lcm.rs:16-18 | Within one lap two effective prunes are at least 5000 records apart |
| LoopCost.ScansAgainExactly | zenoh-plugin-lcm/src/zenoh_to_lcm.rs:19-24 | Right after an effective prune the next record prunes again if and only if what the prune left, and a new number, together exceed 10000 |
| LoopWitnesses.EveryRecordScans | zenoh-plugin-lcm/src/zenoh_to_lcm.rs:19-24 | In the second lap of a sender whose messages do not return, every record finds 5001 leftovers beside its window and scans over 10000 numbers |
| LoopWitnesses.AmortisedCostFailsAfterWrap | zenoh-plugin-lcm/src/zenoh_to_lcm.rs:14-18 | The documented amortised cost fails for such a run |
| LoopWitnesses.ModularWindowFailsAfterFailedSend | zenoh-plugin-lcm/src/zenoh_to_lcm.rs:108-122 | With a failed send a number one behind the latest record modulo 2^32 can be missing from the set |
| LoopWitnesses.SizeBoundFailsAfterOutage | zenoh-plugin-lcm/src/zenoh_to_lcm.rs:108-122 | A run with exactly 5000 failed sends in a row, across a wraparound, holds more than 15001 numbers |
| BridgeLoop.ForwardedExactly | zenoh-plugin-lcm/src/lcm_to_zenoh.rs:43-54 | Of received messages one is skipped if and only if its number is in the set and it is the first to carry it |
| BridgeLoop.StrangerSwallowed | zenoh-plugin-lcm/src/lcm_to_zenoh.rs:43-54 | A stranger's message with a held number that comes first is swallowed, and our own of that number is then forwarded |
| BridgeLoop.StreamSkipped | zenoh-plugin-lcm/src/lcm_to_zenoh.rs:43-54 | A stream with held numbers, received among messages that avoid those numbers, is skipped whole |
| BridgeLoop.Echo | zenoh-plugin-lcm/src/lcm_to_zenoh.rs:34-54 | Up to 5001 messages that a bridge publishes and that come back to its transport after their record, among those of other senders, are all received in order, and none is forwarded unless a stranger's message carries one of their numbers |

## Left out

- Socket setup, multicast options, the async runtime and `Arc`: calls into foreign code. The order of arrival and the results of `send_to` are arbitrary traces instead.
- The `run` loops of the two tasks (`zenoh-plugin-lcm/src/zenoh_to_lcm.rs:65-123`, `zenoh-plugin-lcm/src/lcm_to_zenoh.rs:34-99`) never end; their bodies' atomic steps are methods, and the theorems quantify over all finite runs of them.
- Zenoh sessions, locality filtering, key mapping, allow and deny lists and configuration: they rest on libraries outside the repository.
- `LcmUrl::parse`: rests on standard library parsers.
- Log output, and the capacity hints of `Vec::with_capacity`.
- The order in which `retain` visits a map: nothing observable depends on it. Pruning cost counts the elements visited, not the hash table's empty slots.
- EndToEnd.RoundTrip: asks for an MTU of at most 65536, the receive buffer's size; larger datagrams do not exist in UDP.
- ExactRoundTrip.RoundTripExactly: says nothing about a key that already holds a live set with the same header; the message is then completed from whatever mixture arrived, which Provenance.EveryDeliveryGenuine describes.
- Loopback.Conversation, BridgeLoop.Echo: every send succeeds; what a refused datagram leaves on the wire is Transport.LcmTransport.Send, and runs with failed sends are those of LoopRuns.
- Overlaps.FoldDelivered, Overlaps.NulDelivered: each fragment of the key arrives once; traffic of other keys can be added by Isolation.NonInterference, and other duplicates are described by Provenance.EveryDeliveryGenuine only.
