/**
 The whole loop: what the bridge sends comes back to it through the network, and none of it is
 forwarded, unless another sender's message of the same number comes first.
 */
module BridgeLoop {
  import opened Primitives
  import opened Reassembly
  import opened Transport
  import opened Streams
  import opened Loopback
  import opened LoopPrevention
  import opened LoopRuns
  import opened Isolation
  import FragmentReassembler

  /** The number of message `i` of a stream that starts at `first`. */
  function NumberOf(first: u32, i: nat): u32 {
    if i == 0 then first else Next(NumberOf(first, i - 1))
  }

  lemma {:induction false} NumberIsModulo(first: u32, i: nat)
    ensures NumberOf(first, i) == (first + i) % U32_COUNT
  {
    if i == 0 {
      SmallModulo(first);
    } else {
      NumberIsModulo(first, i - 1);
      NextModulo(first + (i - 1));
    }
  }

  /** The bridge's set holds the numbers of messages `from` to `to`. */
  ghost predicate Holds(sent: set<u32>, first: u32, from: nat, to: nat) {
    forall i: nat :: from <= i < to ==> NumberOf(first, i) in sent
  }

  lemma HoldsOneMore(sent: set<u32>, first: u32, n: nat)
    requires n <= WINDOW && Holds(sent, first, 0, n)
    ensures Holds(Recorded(sent, NumberOf(first, n)), first, 0, n + 1)
  {
    forall i: nat | i < n + 1
      ensures NumberOf(first, i) in Recorded(sent, NumberOf(first, n))
    {
      NumberStaysHeld(sent, first, i, n);
    }
  }

  lemma NumberStaysHeld(sent: set<u32>, first: u32, i: nat, n: nat)
    requires i <= n <= WINDOW && (i < n ==> NumberOf(first, i) in sent)
    ensures NumberOf(first, i) in Recorded(sent, NumberOf(first, n))
  {
    NumberIsModulo(first, i);
    NumberIsModulo(first, n);
    KeptByRecord(sent, first + i, first + n);
  }

  /** `send` has no reason of its own to refuse the message. */
  predicate Accepted(mtu: nat, m: Outgoing) {
    var job := JobOf(mtu, m);
    job.ShortSize() <= USIZE_MAX && (job.FitsOneDatagram() || job.Viable())
  }

  /** Sends and records one message. */
  method Publish(bridge: Bridge, m: Outgoing)
    requires bridge.inflight.None? && bridge.transport.socket.answers == []
    requires Accepted(bridge.transport.fragmentMtu, m)
    modifies bridge, bridge.transport, bridge.transport.socket, bridge.sentSequences
    ensures bridge.inflight.None? && bridge.transport.socket.answers == []
    ensures bridge.transport.socket.arrivals == old(bridge.transport.socket.arrivals)
    ensures bridge.transport.sequenceCounter == Next(old(bridge.transport.sequenceCounter))
    ensures bridge.sentSequences.seqs == Recorded(old(bridge.sentSequences.seqs), old(bridge.transport.sequenceCounter))
    ensures bridge.transport.socket.wire == old(bridge.transport.socket.wire)
      + DatagramsOf(bridge.transport.fragmentMtu, old(bridge.transport.sequenceCounter), m)
  {
    TransmitAll(DatagramsOf(bridge.transport.fragmentMtu, bridge.transport.sequenceCounter, m));
    var _ := bridge.SendStep(m.channel, m.data);
    bridge.RecordStep();
  }

  /** Publishes message `i` of a stream: its number joins those of the messages before it. */
  method PublishNext(bridge: Bridge, m: Outgoing, ghost first: u32, ghost i: nat)
    requires bridge.inflight.None? && bridge.transport.socket.answers == [] && i <= WINDOW
    requires Accepted(bridge.transport.fragmentMtu, m)
    requires bridge.transport.sequenceCounter == NumberOf(first, i) && Holds(bridge.sentSequences.seqs, first, 0, i)
    modifies bridge, bridge.transport, bridge.transport.socket, bridge.sentSequences
    ensures bridge.inflight.None? && bridge.transport.socket.answers == []
    ensures bridge.transport.socket.arrivals == old(bridge.transport.socket.arrivals)
    ensures bridge.transport.sequenceCounter == Next(NumberOf(first, i)) == NumberOf(first, i + 1)
    ensures Holds(bridge.sentSequences.seqs, first, 0, i + 1)
    ensures bridge.transport.socket.wire == old(bridge.transport.socket.wire)
      + DatagramsOf(bridge.transport.fragmentMtu, NumberOf(first, i), m)
  {
    HoldsOneMore(bridge.sentSequences.seqs, first, i);
    Publish(bridge, m);
  }

  /** Publishes up to 5001 messages: afterwards all their numbers are in the set. */
  method PublishAll(bridge: Bridge, msgs: seq<Outgoing>)
    requires bridge.inflight.None? && bridge.transport.socket.answers == [] && |msgs| <= WINDOW + 1
    requires forall i :: 0 <= i < |msgs| ==> Accepted(bridge.transport.fragmentMtu, msgs[i])
    modifies bridge, bridge.transport, bridge.transport.socket, bridge.sentSequences
    ensures bridge.inflight.None? && bridge.transport.socket.arrivals == old(bridge.transport.socket.arrivals)
    ensures Holds(bridge.sentSequences.seqs, old(bridge.transport.sequenceCounter), 0, |msgs|)
    ensures bridge.transport.socket.wire == old(bridge.transport.socket.wire)
      + StreamOf(bridge.transport.fragmentMtu, old(bridge.transport.sequenceCounter), msgs)
  {
    ghost var first, mtu := bridge.transport.sequenceCounter, bridge.transport.fragmentMtu;
    ghost var whole := bridge.transport.socket.wire + StreamOf(mtu, first, msgs);
    assert msgs[0..] == msgs;
    for i := 0 to |msgs|
      invariant bridge.inflight.None? && bridge.transport.socket.answers == []
      invariant bridge.transport.socket.arrivals == old(bridge.transport.socket.arrivals)
      invariant bridge.transport.sequenceCounter == NumberOf(first, i)
      invariant Holds(bridge.sentSequences.seqs, first, 0, i)
      invariant bridge.transport.socket.wire + StreamOf(mtu, NumberOf(first, i), msgs[i..]) == whole
    {
      StreamUnfolds(mtu, NumberOf(first, i), msgs, i, bridge.transport.socket.wire);
      PublishNext(bridge, msgs[i], first, i);
    }
    assert msgs[|msgs|..] == [];
  }

  /** The messages carry consecutive numbers from `first`. */
  ghost predicate Consecutive(messages: seq<LcmMessage>, first: u32) {
    forall i :: 0 <= i < |messages| ==> messages[i].sequenceNumber == NumberOf(first, i)
  }

  lemma HoldsAfterRemove(sent: set<u32>, first: u32, i: nat, n: nat)
    requires i < n <= U32_COUNT && Holds(sent, first, i, n)
    ensures Holds(sent - {NumberOf(first, i)}, first, i + 1, n)
  {
    forall j: nat | i + 1 <= j < n
      ensures NumberOf(first, j) in sent - {NumberOf(first, i)}
    {
      NumberIsModulo(first, i);
      NumberIsModulo(first, j);
      NumbersDiffer(first + i, first + j);
    }
  }

  lemma HoldsAfterOther(sent: set<u32>, first: u32, i: nat, n: nat, other: u32)
    requires Holds(sent, first, i, n) && !InStream(other, first, n)
    ensures Holds(sent - {other}, first, i, n)
  {
  }

  // ----- what is forwarded -----

  /** What is left of the set when these messages have been received one after the other. */
  function Held(sent: set<u32>, messages: seq<LcmMessage>): set<u32> {
    if messages == [] then sent else Held(sent, DropLast(messages)) - {Last(messages).sequenceNumber}
  }

  /** The messages among them that are forwarded. */
  function Forwarded(sent: set<u32>, messages: seq<LcmMessage>): seq<LcmMessage> {
    if messages == [] then []
    else
      var m, before := Last(messages), DropLast(messages);
      Forwarded(sent, before) + if m.sequenceNumber in Held(sent, before) then [] else [m]
  }

  lemma {:induction false} HeldUntilReceived(sent: set<u32>, messages: seq<LcmMessage>, s: u32)
    ensures s in Held(sent, messages)
      <==> s in sent && forall j :: 0 <= j < |messages| ==> messages[j].sequenceNumber != s
  {
    if messages == [] {
    } else {
      HeldUntilReceived(sent, DropLast(messages), s);
      assert messages == DropLast(messages) + [Last(messages)];
    }
  }

  lemma FirstToCarry(sent: set<u32>, messages: seq<LcmMessage>, i: nat, s: u32)
    requires i <= |messages|
    ensures s in Held(sent, messages[..i])
      <==> s in sent && forall j :: 0 <= j < i ==> messages[j].sequenceNumber != s
  {
    var before := messages[..i];
    HeldUntilReceived(sent, before, s);
    assert forall j :: 0 <= j < i ==> before[j] == messages[j];
  }

  /** A message is skipped exactly when its number is in the set and it is the first to carry it. */
  lemma ForwardedExactly(sent: set<u32>, messages: seq<LcmMessage>, i: nat)
    requires i < |messages|
    ensures var s := messages[i].sequenceNumber;
      Forwarded(sent, messages[..i + 1]) == Forwarded(sent, messages[..i])
      + if s in sent && (forall j :: 0 <= j < i ==> messages[j].sequenceNumber != s) then [] else [messages[i]]
  {
    assert messages[..i + 1] == messages[..i] + [messages[i]];
    FirstToCarry(sent, messages, i, messages[i].sequenceNumber);
    ForwardedOneMore(sent, messages[..i], messages[i]);
  }

  lemma ForwardedOneMore(sent: set<u32>, before: seq<LcmMessage>, m: LcmMessage)
    ensures Forwarded(sent, before + [m])
      == Forwarded(sent, before) + if m.sequenceNumber in Held(sent, before) then [] else [m]
    ensures Held(sent, before + [m]) == Held(sent, before) - {m.sequenceNumber}
  {
    assert DropLast(before + [m]) == before;
  }

  /**
   Matching is by number only: a stranger's message that carries a held number and comes first is
   swallowed, and our own message of that number is then forwarded.
   */
  lemma StrangerSwallowed(sent: set<u32>, messages: seq<LcmMessage>, stranger: nat, own: nat)
    requires stranger < own < |messages|
    requires messages[stranger].sequenceNumber == messages[own].sequenceNumber && messages[own].sequenceNumber in sent
    requires forall j :: 0 <= j < stranger ==> messages[j].sequenceNumber != messages[own].sequenceNumber
    ensures Forwarded(sent, messages[..stranger + 1]) == Forwarded(sent, messages[..stranger])
    ensures Forwarded(sent, messages[..own + 1]) == Forwarded(sent, messages[..own]) + [messages[own]]
  {
    ForwardedExactly(sent, messages, stranger);
    ForwardedExactly(sent, messages, own);
  }

  lemma {:induction false} ForwardedAreReceived(sent: set<u32>, messages: seq<LcmMessage>)
    ensures forall m :: m in Forwarded(sent, messages) ==> m in messages
  {
    if messages == [] {
    } else {
      ForwardedAreReceived(sent, DropLast(messages));
      assert messages == DropLast(messages) + [Last(messages)];
    }
  }

  /** Receives the messages one after the other and returns those to forward. */
  method ReceiveAll(bridge: Bridge, messages: seq<LcmMessage>) returns (forwarded: seq<LcmMessage>)
    modifies bridge.sentSequences
    ensures forwarded == Forwarded(old(bridge.sentSequences.seqs), messages)
    ensures bridge.sentSequences.seqs == Held(old(bridge.sentSequences.seqs), messages)
  {
    forwarded := [];
    for i := 0 to |messages|
      invariant forwarded == Forwarded(old(bridge.sentSequences.seqs), messages[..i])
      invariant bridge.sentSequences.seqs == Held(old(bridge.sentSequences.seqs), messages[..i])
    {
      assert DropLast(messages[..i + 1]) == messages[..i];
      var forward := bridge.ReceiveStep(messages[i]);
      if forward {
        forwarded := forwarded + [messages[i]];
      }
    }
    assert messages[..|messages|] == messages;
  }

  // ----- a stream among other messages -----

  /** A number of the stream of `n` messages that starts at `first`. */
  ghost predicate InStream(s: u32, first: u32, n: nat) {
    exists i: nat :: i < n && s == NumberOf(first, i)
  }

  ghost predicate NoneInStream(messages: seq<LcmMessage>, first: u32, n: nat) {
    forall m :: m in messages ==> !InStream(m.sequenceNumber, first, n)
  }

  /** Deliveries that are not picked carry no number of the stream. */
  ghost predicate OthersAvoid(inputs: seq<Input>, messages: seq<Option<LcmMessage>>, keep: Input -> bool,
                              first: u32, n: nat)
    requires |messages| == |inputs|
  {
    forall j :: 0 <= j < |inputs| && messages[j].Some? && !keep(inputs[j]) ==>
      !InStream(messages[j].value.sequenceNumber, first, n)
  }

  /** The next delivery of a run: of the stream, of another sender, or none. */
  lemma NextDelivery(sent: set<u32>, messages: seq<LcmMessage>, first: u32, c: nat, n: nat, m: LcmMessage, ours: bool)
    requires Holds(Held(sent, messages), first, c, n) && NoneInStream(Forwarded(sent, messages), first, n)
    requires if ours then c < n <= U32_COUNT && m.sequenceNumber == NumberOf(first, c)
      else !InStream(m.sequenceNumber, first, n)
    ensures Holds(Held(sent, messages + [m]), first, if ours then c + 1 else c, n)
    ensures NoneInStream(Forwarded(sent, messages + [m]), first, n)
  {
    assert DropLast(messages + [m]) == messages;
    if ours {
      HoldsAfterRemove(Held(sent, messages), first, c, n);
      assert NumberOf(first, c) in Held(sent, messages);
    } else {
      HoldsAfterOther(Held(sent, messages), first, c, n, m.sequenceNumber);
    }
  }

  ghost predicate SkippedSoFar(sent: set<u32>, messages: seq<LcmMessage>, own: seq<LcmMessage>, first: u32, n: nat) {
    && Holds(Held(sent, messages), first, |own|, n)
    && NoneInStream(Forwarded(sent, messages), first, n)
  }

  /** While a stream is received among other messages that avoid its numbers, all of it is skipped. */
  lemma {:induction false} StreamSkipped(inputs: seq<Input>, messages: seq<Option<LcmMessage>>, keep: Input -> bool,
                                         sent: set<u32>, first: u32, n: nat)
    requires |messages| == |inputs| && n <= U32_COUNT && OthersAvoid(inputs, messages, keep, first, n)
    requires Holds(sent, first, 0, n)
    requires |Delivered(Pick(inputs, messages, keep))| <= n
    requires Consecutive(Delivered(Pick(inputs, messages, keep)), first)
    ensures SkippedSoFar(sent, Delivered(messages), Delivered(Pick(inputs, messages, keep)), first, n)
  {
    if inputs == [] {
    } else {
      var i, prefix, before := Last(inputs), DropLast(inputs), DropLast(messages);
      var own, all := Delivered(Pick(prefix, before, keep)), Delivered(before);
      PickStep(inputs, messages, keep);
      assert OthersAvoid(prefix, before, keep, first, n) by {
        assert forall j :: 0 <= j < |prefix| ==> prefix[j] == inputs[j] && before[j] == messages[j];
      }
      assert forall j :: 0 <= j < |own| ==> own[j] == Delivered(Pick(inputs, messages, keep))[j];
      StreamSkipped(prefix, before, keep, sent, first, n);
      if Last(messages).Some? {
        NextDelivery(sent, all, first, |own|, n, Last(messages).value, keep(i));
      }
    }
  }

  lemma PickStep(inputs: seq<Input>, messages: seq<Option<LcmMessage>>, keep: Input -> bool)
    requires inputs != [] && |messages| == |inputs|
    ensures var own := Delivered(Pick(DropLast(inputs), DropLast(messages), keep));
      Delivered(Pick(inputs, messages, keep))
      == if keep(Last(inputs)) && Last(messages).Some? then own + [Last(messages).value] else own
    ensures var all := Delivered(DropLast(messages));
      Delivered(messages) == if Last(messages).Some? then all + [Last(messages).value] else all
  {
    var picked := Pick(DropLast(inputs), DropLast(messages), keep);
    assert DropLast(picked + [Last(messages)]) == picked;
    assert picked + [] == picked;
    assert Delivered(DropLast(messages)) + [] == Delivered(DropLast(messages));
    assert Delivered(picked) + [] == Delivered(picked);
  }

  lemma ExpectedConsecutive(first: u32, msgs: seq<Outgoing>)
    ensures |Expected(first, msgs)| == |msgs| && Consecutive(Expected(first, msgs), first)
  {
    if msgs != [] {
      ExpectedAt(first, msgs, 0);
    }
    forall i | 0 <= i < |msgs|
      ensures Expected(first, msgs)[i].sequenceNumber == NumberOf(first, i)
    {
      ExpectedAt(first, msgs, i);
      NumberIsModulo(first, i);
    }
  }

  lemma SendableAccepted(cfg: Config, mtu: nat, msgs: seq<Outgoing>)
    requires AllSendable(cfg, mtu, msgs)
    ensures forall i :: 0 <= i < |msgs| ==> Accepted(mtu, msgs[i])
  {
    assert forall i :: 0 <= i < |msgs| ==> Sendable(cfg, mtu, msgs[i]);
  }

  /** No message delivered for another sender carries a number of the stream. */
  ghost predicate StrangersAvoid(cfg: Config, arrivals: seq<Arrival>, sender: SocketAddr, first: u32, n: nat)
    requires AllDatagrams(arrivals)
  {
    OthersAvoid(InputsOf(arrivals), RunFrom(cfg, map[], InputsOf(arrivals)).messages, i => Ours(sender, i), first, n)
  }

  lemma FirstIsMember(messages: seq<LcmMessage>)
    requires messages != []
    ensures messages[0] in messages
  {
  }

  lemma NothingLeft(forwarded: seq<LcmMessage>, received: seq<LcmMessage>, first: u32, n: nat)
    requires NoneInStream(forwarded, first, n) && Consecutive(received, first) && |received| == n
    requires forall m :: m in forwarded ==> m in received
    ensures forwarded == []
  {
    if forwarded != [] {
      FirstIsMember(forwarded);
      assert false;
    }
  }

  /** What is forwarded of all that arrives, when the stream's numbers are in the set. */
  lemma EchoSkipped(cfg: Config, arrivals: seq<Arrival>, sender: SocketAddr, mtu: nat, first: u32,
                    msgs: seq<Outgoing>, sent: set<u32>)
    requires |msgs| <= U32_COUNT && AllSendable(cfg, mtu, msgs) && Carries(cfg, arrivals, sender, mtu, first, msgs)
    requires Holds(sent, first, 0, |msgs|) && StrangersAvoid(cfg, arrivals, sender, first, |msgs|)
    ensures NoneInStream(Forwarded(sent, Yield(cfg, map[], arrivals)), first, |msgs|)
    ensures OnlySender(arrivals, sender) ==> Forwarded(sent, Yield(cfg, map[], arrivals)) == []
  {
    var inputs, received := InputsOf(arrivals), Yield(cfg, map[], arrivals);
    CarriedIsDelivered(cfg, arrivals, sender, mtu, first, msgs);
    ExpectedConsecutive(first, msgs);
    StreamSkipped(inputs, RunFrom(cfg, map[], inputs).messages, i => Ours(sender, i), sent, first, |msgs|);
    if OnlySender(arrivals, sender) {
      ForwardedAreReceived(sent, received);
      NothingLeft(Forwarded(sent, received), received, first, |msgs|);
    }
  }

  /** Receives all that arrives through the bridge's own transport and a new reassembler. */
  method Consume(bridge: Bridge, cfg: Config) returns (received: seq<LcmMessage>, forwarded: seq<LcmMessage>)
    requires AllDatagrams(bridge.transport.socket.arrivals)
    modifies bridge.transport.socket, bridge.sentSequences
    ensures bridge.transport.socket.wire == old(bridge.transport.socket.wire)
    ensures received == Yield(cfg, map[], old(bridge.transport.socket.arrivals))
    ensures forwarded == Forwarded(old(bridge.sentSequences.seqs), received)
  {
    var reassembler := new FragmentReassembler.FragmentReassembler(cfg.timeout, cfg.maxMessageSize);
    received := RecvAll(bridge.transport, reassembler);
    forwarded := ReceiveAll(bridge, received);
  }

  /**
   A bridge, in any state of its set, publishes up to 5001 messages, and multicast brings them back
   to it after they are recorded, among the messages of other senders. As long as no other sender's
   message carries one of their numbers, none of them is forwarded.
   */
  method Echo(bridge: Bridge, cfg: Config, msgs: seq<Outgoing>, sender: SocketAddr)
    returns (received: seq<LcmMessage>, forwarded: seq<LcmMessage>)
    requires bridge.inflight.None? && bridge.transport.socket.answers == [] && |msgs| <= WINDOW + 1
    requires AllSendable(cfg, bridge.transport.fragmentMtu, msgs)
    requires Carries(cfg, bridge.transport.socket.arrivals, sender,
                     bridge.transport.fragmentMtu, bridge.transport.sequenceCounter, msgs)
    requires StrangersAvoid(cfg, bridge.transport.socket.arrivals, sender, bridge.transport.sequenceCounter, |msgs|)
    modifies bridge, bridge.transport, bridge.transport.socket, bridge.sentSequences
    ensures bridge.transport.socket.wire
      == old(bridge.transport.socket.wire) + BytesOf(Heard(old(bridge.transport.socket.arrivals), sender))
    ensures received == Yield(cfg, map[], old(bridge.transport.socket.arrivals))
    ensures DeliveredFrom(cfg, old(bridge.transport.socket.arrivals), sender)
      == Expected(old(bridge.transport.sequenceCounter), msgs)
    ensures NoneInStream(forwarded, old(bridge.transport.sequenceCounter), |msgs|)
    ensures OnlySender(old(bridge.transport.socket.arrivals), sender) ==> forwarded == []
  {
    ghost var first, arrivals := bridge.transport.sequenceCounter, bridge.transport.socket.arrivals;
    var mtu := bridge.transport.fragmentMtu;
    SendableAccepted(cfg, mtu, msgs);
    CarriedIsDelivered(cfg, arrivals, sender, mtu, first, msgs);
    PublishAll(bridge, msgs);
    EchoSkipped(cfg, arrivals, sender, mtu, first, msgs, bridge.sentSequences.seqs);
    received, forwarded := Consume(bridge, cfg);
  }
}
