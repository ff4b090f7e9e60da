/** Sending a conversation through one transport and receiving it through another, with the real methods. */
module Loopback {
  import opened Primitives
  import opened Reassembly
  import opened Isolation
  import opened Transport
  import opened Streams
  import FragmentReassembler

  // ----- receiving everything -----

  ghost predicate AllDatagrams(arrivals: seq<Arrival>) {
    forall j :: 0 <= j < |arrivals| ==> arrivals[j].Datagram?
  }

  /** What is delivered for the whole of `arrivals` from the table `pending`. */
  ghost function Yield(cfg: Config, pending: Pending, arrivals: seq<Arrival>): seq<LcmMessage>
    requires AllDatagrams(arrivals)
  {
    Delivered(RunFrom(cfg, pending, InputsOf(arrivals)).messages)
  }

  lemma YieldParts(cfg: Config, pending: Pending, arrivals: seq<Arrival>, n: nat)
    requires n <= |arrivals| && AllDatagrams(arrivals)
    ensures Yield(cfg, pending, arrivals) == Yield(cfg, pending, arrivals[..n])
      + Yield(cfg, RunFrom(cfg, pending, InputsOf(arrivals[..n])).pending, arrivals[n..])
  {
    assert InputsOf(arrivals)[..n] == InputsOf(arrivals[..n]);
    assert InputsOf(arrivals)[n..] == InputsOf(arrivals[n..]);
    DeliveredParts(cfg, pending, InputsOf(arrivals), n);
  }

  lemma DeliveredOne(n: nat, m: LcmMessage)
    ensures Delivered(seq(n, _ => None) + [Some(m)]) == [m]
  {
    var none: Option<LcmMessage> := None;
    DeliveredSilent(seq(n, _ => none));
    assert DropLast(seq(n, _ => none) + [Some(m)]) == seq(n, _ => none);
  }

  lemma CompletesYields(cfg: Config, before: Pending, taken: seq<Arrival>, after: Pending, m: LcmMessage)
    requires Completes(cfg, before, taken, after, m)
    ensures Yield(cfg, before, taken) == [m] && RunFrom(cfg, before, InputsOf(taken)).pending == after
  {
    DeliveredOne(|taken| - 1, m);
  }

  lemma ReceivedParts(cfg: Config, before: Pending, arrivals: seq<Arrival>, rest: seq<Arrival>,
                      after: Pending, m: LcmMessage) returns (n: nat)
    requires AllDatagrams(arrivals) && Stopped(cfg, before, arrivals, rest, after, Received(m))
    ensures 0 < n <= |arrivals| && rest == arrivals[n..] && AllDatagrams(arrivals[..n]) && AllDatagrams(rest)
    ensures Completes(cfg, before, arrivals[..n], after, m)
  {
    n := |arrivals| - |rest|;
  }

  lemma YieldOfReceived(cfg: Config, before: Pending, arrivals: seq<Arrival>, rest: seq<Arrival>,
                        after: Pending, m: LcmMessage)
    requires AllDatagrams(arrivals) && Stopped(cfg, before, arrivals, rest, after, Received(m))
    ensures |rest| < |arrivals| && AllDatagrams(rest)
    ensures Yield(cfg, before, arrivals) == [m] + Yield(cfg, after, rest)
  {
    var n := ReceivedParts(cfg, before, arrivals, rest, after, m);
    CompletesYields(cfg, before, arrivals[..n], after, m);
    YieldParts(cfg, before, arrivals, n);
  }

  lemma NoErrorToReport(cfg: Config, before: Pending, arrivals: seq<Arrival>, rest: seq<Arrival>,
                        after: Pending, result: RecvResult)
    requires AllDatagrams(arrivals) && Stopped(cfg, before, arrivals, rest, after, result)
    ensures !result.RecvError?
  {
  }

  lemma YieldOfWaiting(cfg: Config, before: Pending, arrivals: seq<Arrival>, after: Pending)
    requires AllDatagrams(arrivals) && Stopped(cfg, before, arrivals, [], after, Waiting)
    ensures Yield(cfg, before, arrivals) == []
  {
    var none: Option<LcmMessage> := None;
    assert arrivals[..|arrivals|] == arrivals;
    DeliveredSilent(seq(|arrivals|, _ => none));
  }

  /** Calls `recv` once: the first message of what is yielded, or nothing when nothing is yielded. */
  method RecvMessage(transport: LcmTransport, reassembler: FragmentReassembler.FragmentReassembler)
    returns (message: Option<LcmMessage>)
    requires reassembler.Valid() && transport.socket !in reassembler.owner && transport.socket as object != reassembler
    requires AllDatagrams(transport.socket.arrivals)
    modifies transport.socket, reassembler, reassembler.owner.Keys
    ensures reassembler.Valid() && fresh(reassembler.owner.Keys - old(reassembler.owner.Keys))
    ensures transport.socket.wire == old(transport.socket.wire) && AllDatagrams(transport.socket.arrivals)
    ensures var whole := Yield(reassembler.cfg, old(reassembler.View()), old(transport.socket.arrivals));
      match message
      case None => whole == []
      case Some(m) =>
        && |transport.socket.arrivals| < |old(transport.socket.arrivals)|
        && whole == [m] + Yield(reassembler.cfg, reassembler.View(), transport.socket.arrivals)
  {
    ghost var before, arrivals := reassembler.View(), transport.socket.arrivals;
    var result := transport.Recv(reassembler);
    if result.Received? {
      YieldOfReceived(reassembler.cfg, before, arrivals, transport.socket.arrivals, reassembler.View(), result.message);
      message := Some(result.message);
    } else {
      NoErrorToReport(reassembler.cfg, before, arrivals, transport.socket.arrivals, reassembler.View(), result);
      YieldOfWaiting(reassembler.cfg, before, arrivals, reassembler.View());
      message := None;
    }
  }

  /** Calls `recv` until nothing is left; without socket errors this yields every delivered message, in order. */
  method RecvAll(transport: LcmTransport, reassembler: FragmentReassembler.FragmentReassembler)
    returns (messages: seq<LcmMessage>)
    requires reassembler.Valid() && transport.socket !in reassembler.owner && transport.socket as object != reassembler
    requires AllDatagrams(transport.socket.arrivals)
    modifies transport.socket, reassembler, reassembler.owner.Keys
    ensures transport.socket.wire == old(transport.socket.wire)
    ensures messages == Yield(reassembler.cfg, old(reassembler.View()), old(transport.socket.arrivals))
  {
    ghost var whole := Yield(reassembler.cfg, reassembler.View(), transport.socket.arrivals);
    messages := [];
    while true
      invariant reassembler.Valid() && fresh(reassembler.owner.Keys - old(reassembler.owner.Keys))
      invariant transport.socket !in reassembler.owner && AllDatagrams(transport.socket.arrivals)
      invariant transport.socket.wire == old(transport.socket.wire)
      invariant whole == messages + Yield(reassembler.cfg, reassembler.View(), transport.socket.arrivals)
      decreases |transport.socket.arrivals|
    {
      var message := RecvMessage(transport, reassembler);
      if message.None? {
        return;
      }
      Associative(messages, [message.value], Yield(reassembler.cfg, reassembler.View(), transport.socket.arrivals));
      messages := messages + [message.value];
    }
  }

  // ----- a conversation -----

  lemma {:induction false} TransmitAll(ds: seq<Bytes>)
    ensures Transmit(ds, []) == Transmission(ds, [], true)
  {
    if ds == [] {
    } else {
      TransmitAll(DropLast(ds));
      assert ds == DropLast(ds) + [Last(ds)];
    }
  }

  /**
   The network carries the stream of `sender`: its parseable datagrams arrive in order and in time,
   among any traffic of others and anything unparseable.
   */
  ghost predicate Carries(cfg: Config, arrivals: seq<Arrival>, sender: SocketAddr,
                          mtu: nat, seqno: u32, msgs: seq<Outgoing>) {
    && AllDatagrams(arrivals) && Monotone(InputsOf(arrivals))
    && BytesOf(Heard(arrivals, sender)) == StreamOf(mtu, seqno, msgs)
    && InTime(cfg, mtu, seqno, msgs, InputsOf(Heard(arrivals, sender)))
  }

  /** Nobody else sends anything parseable. */
  ghost predicate OnlySender(arrivals: seq<Arrival>, sender: SocketAddr)
    requires AllDatagrams(arrivals)
  {
    forall j :: 0 <= j < |arrivals| && InputOf(arrivals[j]).packet.Some? ==> arrivals[j].sender == sender
  }

  /** Leaving out positions where nothing is delivered changes nothing. */
  lemma {:induction false} PickEverything(inputs: seq<Input>, messages: seq<Option<LcmMessage>>, keep: Input -> bool)
    requires |messages| == |inputs|
    requires forall j :: 0 <= j < |inputs| && !keep(inputs[j]) ==> messages[j].None?
    ensures Delivered(Pick(inputs, messages, keep)) == Delivered(messages)
  {
    if inputs == [] {
    } else {
      assert forall j :: 0 <= j < |inputs| - 1 ==> DropLast(inputs)[j] == inputs[j] && DropLast(messages)[j] == messages[j];
      PickEverything(DropLast(inputs), DropLast(messages), keep);
      var last := if keep(Last(inputs)) then [Last(messages)] else [];
      DeliveredConcat(Pick(DropLast(inputs), DropLast(messages), keep), last);
      assert Last(messages).None? ==> Delivered(last) == [];
    }
  }

  lemma UnparseableDeliversNothing(cfg: Config, pending: Pending, inputs: seq<Input>, j: nat)
    requires j < |inputs| && inputs[j].packet.None?
    ensures RunFrom(cfg, pending, inputs).messages[j].None?
  {
    MessageAt(cfg, pending, inputs, j);
  }

  /** The stream comes out once and in order; and if nobody else sends anything, nothing else comes out. */
  lemma CarriedIsDelivered(cfg: Config, arrivals: seq<Arrival>, sender: SocketAddr,
                           mtu: nat, seqno: u32, msgs: seq<Outgoing>)
    requires AllSendable(cfg, mtu, msgs) && Carries(cfg, arrivals, sender, mtu, seqno, msgs)
    ensures DeliveredFrom(cfg, arrivals, sender) == Expected(seqno, msgs)
    ensures OnlySender(arrivals, sender) ==> Yield(cfg, map[], arrivals) == Expected(seqno, msgs)
  {
    StreamRoundTrip(cfg, arrivals, sender, mtu, seqno, msgs);
    if OnlySender(arrivals, sender) {
      var inputs := InputsOf(arrivals);
      forall j | 0 <= j < |inputs| && !Ours(sender, inputs[j])
        ensures RunFrom(cfg, map[], inputs).messages[j].None?
      {
        UnparseableDeliversNothing(cfg, map[], inputs, j);
      }
      PickEverything(inputs, RunFrom(cfg, map[], inputs).messages, i => Ours(sender, i));
    }
  }

  lemma Associative<T>(a: seq<T>, b: seq<T>, c: seq<T>)
    ensures a + (b + c) == a + b + c
  {
  }

  lemma StreamHead(mtu: nat, seqno: u32, msgs: seq<Outgoing>)
    requires msgs != []
    ensures StreamOf(mtu, seqno, msgs) == DatagramsOf(mtu, seqno, msgs[0]) + StreamOf(mtu, Next(seqno), msgs[1..])
  {
  }

  lemma StreamUnfolds(mtu: nat, seqno: u32, msgs: seq<Outgoing>, i: nat, sent: seq<Bytes>)
    requires i < |msgs|
    ensures sent + StreamOf(mtu, seqno, msgs[i..])
      == sent + DatagramsOf(mtu, seqno, msgs[i]) + StreamOf(mtu, Next(seqno), msgs[i + 1..])
  {
    assert msgs[i..][1..] == msgs[i + 1..];
    StreamHead(mtu, seqno, msgs[i..]);
    Associative(sent, DatagramsOf(mtu, seqno, msgs[i]), StreamOf(mtu, Next(seqno), msgs[i + 1..]));
  }

  /** Sends the messages one after the other; the wire then carries their stream. */
  method SendAll(transport: LcmTransport, msgs: seq<Outgoing>)
    requires transport.socket.answers == []
    requires forall i :: 0 <= i < |msgs| ==> JobOf(transport.fragmentMtu, msgs[i]).ShortSize() <= USIZE_MAX
    modifies transport, transport.socket
    ensures transport.socket.wire
      == old(transport.socket.wire) + StreamOf(transport.fragmentMtu, old(transport.sequenceCounter), msgs)
  {
    ghost var whole := transport.socket.wire + StreamOf(transport.fragmentMtu, transport.sequenceCounter, msgs);
    assert msgs[0..] == msgs;
    for i := 0 to |msgs|
      invariant transport.socket.answers == []
      invariant transport.socket.wire + StreamOf(transport.fragmentMtu, transport.sequenceCounter, msgs[i..]) == whole
    {
      StreamUnfolds(transport.fragmentMtu, transport.sequenceCounter, msgs, i, transport.socket.wire);
      SendOne(transport, msgs[i]);
    }
    assert msgs[|msgs|..] == [];
  }

  method SendOne(transport: LcmTransport, m: Outgoing)
    requires transport.socket.answers == [] && JobOf(transport.fragmentMtu, m).ShortSize() <= USIZE_MAX
    modifies transport, transport.socket
    ensures transport.socket.answers == [] && transport.sequenceCounter == Next(old(transport.sequenceCounter))
    ensures transport.socket.wire
      == old(transport.socket.wire) + DatagramsOf(transport.fragmentMtu, old(transport.sequenceCounter), m)
  {
    TransmitAll(DatagramsOf(transport.fragmentMtu, transport.sequenceCounter, m));
    var _ := transport.Send(m.channel, m.data);
  }

  /** A fresh receiver on a socket with these arrivals. */
  method RecvArrivals(cfg: Config, mtu: nat, arrivals: seq<Arrival>) returns (received: seq<LcmMessage>)
    requires AllDatagrams(arrivals)
    ensures received == Yield(cfg, map[], arrivals)
  {
    var socket := new UdpSocket([], arrivals);
    var transport := new LcmTransport(socket, mtu);
    var reassembler := new FragmentReassembler.FragmentReassembler(cfg.timeout, cfg.maxMessageSize);
    received := RecvAll(transport, reassembler);
  }

  /** A fresh sender's wire after it has sent all messages. */
  method SendWire(mtu: nat, msgs: seq<Outgoing>) returns (wire: seq<Bytes>)
    requires forall i :: 0 <= i < |msgs| ==> JobOf(mtu, msgs[i]).ShortSize() <= USIZE_MAX
    ensures wire == StreamOf(mtu, 0, msgs)
  {
    var socket := new UdpSocket([], []);
    var transport := new LcmTransport(socket, mtu);
    SendAll(transport, msgs);
    wire := socket.wire;
  }

  lemma SendableFits(cfg: Config, mtu: nat, msgs: seq<Outgoing>)
    requires AllSendable(cfg, mtu, msgs)
    ensures forall i :: 0 <= i < |msgs| ==> JobOf(mtu, msgs[i]).ShortSize() <= USIZE_MAX
  {
    assert forall i :: 0 <= i < |msgs| ==> Sendable(cfg, mtu, msgs[i]);
  }

  /**
   What one transport sends is received through another, once and in order, whatever else the
   network delivers in between.
   */
  method Conversation(cfg: Config, mtu: nat, msgs: seq<Outgoing>, sender: SocketAddr, arrivals: seq<Arrival>)
    returns (wire: seq<Bytes>, received: seq<LcmMessage>)
    requires AllSendable(cfg, mtu, msgs) && Carries(cfg, arrivals, sender, mtu, 0, msgs)
    ensures wire == BytesOf(Heard(arrivals, sender))
    ensures received == Yield(cfg, map[], arrivals)
    ensures DeliveredFrom(cfg, arrivals, sender) == Expected(0, msgs)
    ensures OnlySender(arrivals, sender) ==> received == Expected(0, msgs)
  {
    SendableFits(cfg, mtu, msgs);
    wire := SendWire(mtu, msgs);
    received := RecvArrivals(cfg, mtu, arrivals);
    CarriedIsDelivered(cfg, arrivals, sender, mtu, 0, msgs);
  }
}
