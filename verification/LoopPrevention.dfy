/**
 The shared set of recently sent sequence numbers, and the interleaved steps of the two
 bridging tasks that touch it: send, record and prune, check and remove.
 */
module LoopPrevention {
  import opened Primitives
  import opened Reassembly
  import opened Transport
  import opened Fragmentation

  const PRUNE_THRESHOLD := 10_000
  const WINDOW := 5_000

  function Pruned(seqs: set<u32>, latest: u32): set<u32> {
    if |seqs| > PRUNE_THRESHOLD then set s | s in seqs && s >= SaturatingSub(latest, WINDOW) else seqs
  }

  function Recorded(seqs: set<u32>, seqno: u32): set<u32> {
    Pruned(seqs + {seqno}, seqno)
  }

  // ----- the protocol as a state machine -----

  /** The transport's counter, a number sent but not yet recorded, and the recorded numbers. */
  datatype State = State(counter: u32, inflight: Option<u32>, sent: set<u32>)

  datatype Action =
    | Send(ok: bool)
    | Record
    | Receive(seqno: u32)

  const INITIAL := State(0, None, {})

  /** The sending task is sequential: it sends only when nothing waits to be recorded. */
  predicate CanStep(b: State, step: Action) {
    match step
    case Send(_) => b.inflight.None?
    case Record => b.inflight.Some?
    case Receive(_) => true
  }

  function Do(b: State, step: Action): State
    requires CanStep(b, step)
  {
    match step
    case Send(ok) =>
      State((b.counter + 1) % U32_COUNT, if ok then Some(b.counter) else None, b.sent)
    case Record => b.(inflight := None, sent := Recorded(b.sent, b.inflight.value))
    case Receive(seqno) => b.(sent := b.sent - {seqno})
  }

  /** Receiving `seqno` now is taken for a loop and skipped. */
  predicate Skips(b: State, seqno: u32) {
    seqno in b.sent
  }

  /** The state after a run of steps, if every step was possible. */
  function After(steps: seq<Action>): Option<State> {
    if steps == [] then Some(INITIAL)
    else
      var before := After(DropLast(steps));
      if before.Some? && CanStep(before.value, Last(steps)) then Some(Do(before.value, Last(steps))) else None
  }

  // ----- the shared set and the bridge in place -----

  class SentSequences {
    var seqs: set<u32>

    constructor ()
      ensures seqs == {}
    {
      seqs := {};
    }

    method Insert(seqno: u32)
      modifies this
      ensures seqs == old(seqs) + {seqno}
    {
      seqs := seqs + {seqno};
    }

    method PruneSentSequences(latest: u32)
      modifies this
      ensures seqs == Pruned(old(seqs), latest)
    {
      if |seqs| > PRUNE_THRESHOLD {
        var cutoff := SaturatingSub(latest, WINDOW);
        seqs := set s | s in seqs && s >= cutoff;
      }
    }

    method Remove(seqno: u32) returns (present: bool)
      modifies this
      ensures present == (seqno in old(seqs)) && seqs == old(seqs) - {seqno}
    {
      present := seqno in seqs;
      seqs := seqs - {seqno};
    }
  }

  class Bridge {
    const transport: LcmTransport
    const sentSequences: SentSequences
    var inflight: Option<u32>

    ghost function View(): State
      reads this, transport, sentSequences
    {
      State(transport.sequenceCounter, inflight, sentSequences.seqs)
    }

    constructor (transport: LcmTransport)
      requires transport.sequenceCounter == 0
      ensures this.transport == transport && fresh(sentSequences) && View() == INITIAL
    {
      this.transport := transport;
      sentSequences := new SentSequences();
      inflight := None;
    }

    /** The sending task hands one message to the transport. */
    method SendStep(channel: Bytes, data: Bytes) returns (result: SendResult)
      requires CanStep(View(), Send(true))
      requires Job(transport.fragmentMtu, channel, data).ShortSize() <= USIZE_MAX
      modifies this, transport, transport.socket
      ensures View() == Do(old(View()), Send(result.Sent?)) && transport.socket.arrivals == old(transport.socket.arrivals)
      ensures match Job(transport.fragmentMtu, channel, data).Plan(old(transport.sequenceCounter))
        case None => transport.socket.wire == old(transport.socket.wire)
        case Some(ds) =>
          var t := Transmit(ds, old(transport.socket.answers));
          && transport.socket.wire == old(transport.socket.wire) + t.wire
          && transport.socket.answers == t.rest && result.Sent? == t.ok
    {
      result := transport.Send(channel, data);
      if result.Sent? {
        inflight := Some(result.sequenceNumber);
      }
    }

    /** The sending task takes the lock, inserts the number it just used, and prunes. */
    method RecordStep()
      requires CanStep(View(), Record)
      modifies this, sentSequences
      ensures View() == Do(old(View()), Record)
    {
      sentSequences.Insert(inflight.value);
      sentSequences.PruneSentSequences(inflight.value);
      inflight := None;
    }

    /** The receiving task takes the lock and skips the message if its number is in the set. */
    method ReceiveStep(message: LcmMessage) returns (forward: bool)
      modifies sentSequences
      ensures View() == Do(old(View()), Receive(message.sequenceNumber))
      ensures forward == !Skips(old(View()), message.sequenceNumber)
    {
      var present := sentSequences.Remove(message.sequenceNumber);
      forward := !present;
    }
  }
}
