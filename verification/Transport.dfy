/** The transport: a sequence counter, the fragmenting send and the reassembling receive over a socket. */
module Transport {
  import opened Primitives
  import opened Protocol
  import opened Reassembly
  import opened Fragmentation
  import FragmentReassembler

  const MAX_DATAGRAM_SIZE := 65536

  // ----- the socket, as a trace -----

  /** What `recv_from` produces next: a datagram with the clock readings its processing takes, or an error. */
  datatype Arrival =
    | Datagram(bytes: Bytes, sender: SocketAddr, now: nat, created: nat)
    | ReceiveError

  /** Everything sent so far, the answers the system gives to coming sends, and the arrivals to come. */
  class UdpSocket {
    var wire: seq<Bytes>
    var answers: seq<bool>
    var arrivals: seq<Arrival>

    constructor (answers: seq<bool>, arrivals: seq<Arrival>)
      ensures wire == [] && this.answers == answers && this.arrivals == arrivals
    {
      wire := [];
      this.answers := answers;
      this.arrivals := arrivals;
    }

    method SendTo(buf: Bytes) returns (ok: bool)
      modifies this
      ensures arrivals == old(arrivals)
      ensures ok == Accepting(old(answers)) && answers == Rest(old(answers))
      ensures wire == if ok then old(wire) + [buf] else old(wire)
    {
      ok := Accepting(answers);
      answers := Rest(answers);
      if ok {
        wire := wire + [buf];
      }
    }

    method RecvFrom() returns (a: Arrival)
      requires arrivals != []
      modifies this
      ensures a == old(arrivals)[0] && arrivals == old(arrivals)[1..]
      ensures wire == old(wire) && answers == old(answers)
    {
      a := arrivals[0];
      arrivals := arrivals[1..];
    }
  }

  predicate Accepting(answers: seq<bool>) {
    answers == [] || answers[0]
  }

  function Rest(answers: seq<bool>): seq<bool> {
    if answers == [] then [] else answers[1..]
  }

  datatype Transmission = Transmission(wire: seq<Bytes>, rest: seq<bool>, ok: bool)

  /** Sending datagrams one by one until the first that the system refuses. */
  function Transmit(ds: seq<Bytes>, answers: seq<bool>): Transmission {
    if ds == [] then Transmission([], answers, true)
    else
      var t := Transmit(DropLast(ds), answers);
      if !t.ok then t
      else if Accepting(t.rest) then Transmission(t.wire + [Last(ds)], Rest(t.rest), true)
      else Transmission(t.wire, Rest(t.rest), false)
  }

  lemma {:induction false} TransmitStops(ds: seq<Bytes>, n: nat, answers: seq<bool>)
    requires n <= |ds| && !Transmit(ds[..n], answers).ok
    ensures Transmit(ds, answers) == Transmit(ds[..n], answers)
  {
    if n == |ds| {
      assert ds[..n] == ds;
    } else {
      assert DropLast(ds)[..n] == ds[..n];
      TransmitStops(DropLast(ds), n, answers);
    }
  }

  /** The system's answer to datagram `i`: it accepts what it has no answer prepared for. */
  predicate Accepts(answers: seq<bool>, i: nat) {
    i < |answers| ==> answers[i]
  }

  /** The answers left when `n` datagrams have been tried. */
  function AnswersFrom(answers: seq<bool>, n: nat): seq<bool> {
    if n <= |answers| then answers[n..] else []
  }

  lemma NextAnswer(answers: seq<bool>, n: nat)
    ensures Accepting(AnswersFrom(answers, n)) == Accepts(answers, n)
    ensures Rest(AnswersFrom(answers, n)) == AnswersFrom(answers, n + 1)
  {
  }

  /** What reached the wire is what came before the first refused datagram, and no later one was tried. */
  ghost predicate UpToRefusal(ds: seq<Bytes>, answers: seq<bool>, t: Transmission) {
    var n := |t.wire|;
    && n <= |ds| && t.wire == ds[..n] && (t.ok <==> n == |ds|)
    && (forall i :: 0 <= i < n ==> Accepts(answers, i)) && (!t.ok ==> !Accepts(answers, n))
    && t.rest == AnswersFrom(answers, if t.ok then n else n + 1)
  }

  lemma OneMoreUpToRefusal(ds: seq<Bytes>, d: Bytes, answers: seq<bool>, t: Transmission)
    requires UpToRefusal(ds, answers, t)
    ensures UpToRefusal(ds + [d], answers,
                        if !t.ok then t
                        else if Accepting(t.rest) then Transmission(t.wire + [d], Rest(t.rest), true)
                        else Transmission(t.wire, Rest(t.rest), false))
  {
    NextAnswer(answers, |t.wire|);
    assert (ds + [d])[..|ds|] == ds;
  }

  /** Sending stops exactly at the first refused datagram. */
  lemma {:induction false} TransmitsExactly(ds: seq<Bytes>, answers: seq<bool>)
    ensures UpToRefusal(ds, answers, Transmit(ds, answers))
  {
    if ds == [] {
    } else {
      TransmitsExactly(DropLast(ds), answers);
      OneMoreUpToRefusal(DropLast(ds), Last(ds), answers, Transmit(DropLast(ds), answers));
      assert ds == DropLast(ds) + [Last(ds)];
    }
  }

  /** What reaches the wire is a prefix of the datagrams, and all of them when nothing was refused. */
  lemma {:induction false} TransmitsPrefix(ds: seq<Bytes>, answers: seq<bool>)
    ensures var t := Transmit(ds, answers);
      t.wire <= ds && (t.ok <==> t.wire == ds)
  {
    if ds == [] {
    } else {
      TransmitsPrefix(DropLast(ds), answers);
      assert ds == DropLast(ds) + [Last(ds)];
    }
  }

  lemma TransmitNothing(ds: seq<Bytes>, answers: seq<bool>)
    ensures ds[..0] == [] && Transmit(ds[..0], answers) == Transmission([], answers, true)
  {
  }

  lemma TransmitOneMore(ds: seq<Bytes>, n: nat, answers: seq<bool>)
    requires n < |ds| && Transmit(ds[..n], answers).ok
    ensures ds[..n] + [ds[n]] == ds[..n + 1]
    ensures var t := Transmit(ds[..n], answers);
      Transmit(ds[..n + 1], answers)
      == Transmission(if Accepting(t.rest) then t.wire + [ds[n]] else t.wire, Rest(t.rest), Accepting(t.rest))
  {
    assert DropLast(ds[..n + 1]) == ds[..n];
  }

  datatype SendResult = Sent(sequenceNumber: u32) | InvalidInput | SendError
  datatype RecvResult = Received(message: LcmMessage) | RecvError | Waiting

  /** `&buf[..len]` over a buffer of `MAX_DATAGRAM_SIZE` bytes. */
  function Truncated(bytes: Bytes): Bytes {
    bytes[..Min(|bytes|, MAX_DATAGRAM_SIZE)]
  }

  /** The receive buffer holds every datagram of up to 65536 bytes, and cuts only longer ones. */
  lemma TruncatedExactly(bytes: Bytes)
    ensures Truncated(bytes) == bytes <==> |bytes| <= 65536
    ensures |bytes| > 65536 ==> Truncated(bytes) == bytes[..65536]
  {
  }

  function InputOf(a: Arrival): Input
    requires a.Datagram?
  {
    Input(a.sender, ParseDatagram(Truncated(a.bytes)), a.now, a.created)
  }

  function InputsOf(arrivals: seq<Arrival>): (inputs: seq<Input>)
    requires forall j :: 0 <= j < |arrivals| ==> arrivals[j].Datagram?
    ensures |inputs| == |arrivals|
    ensures forall j :: 0 <= j < |inputs| ==> inputs[j] == InputOf(arrivals[j])
  {
    seq(|arrivals|, j requires 0 <= j < |arrivals| => InputOf(arrivals[j]))
  }

  /** From `before` to `after`, the datagrams `arrivals` completed no message. */
  ghost predicate Quiet(cfg: Config, before: Pending, arrivals: seq<Arrival>, after: Pending) {
    && (forall j :: 0 <= j < |arrivals| ==> arrivals[j].Datagram?)
    && RunFrom(cfg, before, InputsOf(arrivals)) == Run(after, seq(|arrivals|, _ => None))
  }

  /** The datagrams before the last of `arrivals` completed no message, and the last completed `m`. */
  ghost predicate Completes(cfg: Config, before: Pending, arrivals: seq<Arrival>, after: Pending, m: LcmMessage) {
    && arrivals != [] && (forall j :: 0 <= j < |arrivals| ==> arrivals[j].Datagram?)
    && RunFrom(cfg, before, InputsOf(arrivals)) == Run(after, seq(|arrivals| - 1, _ => None) + [Some(m)])
  }

  /** What `recv` does with the arrivals: it takes some from the front and leaves `rest`. */
  ghost predicate Stopped(cfg: Config, before: Pending, arrivals: seq<Arrival>, rest: seq<Arrival>,
                          after: Pending, result: RecvResult) {
    && |rest| <= |arrivals|
    && var n := |arrivals| - |rest|;
    var taken := arrivals[..n];
    && rest == arrivals[n..]
    && match result
      case Received(m) => Completes(cfg, before, taken, after, m)
      case RecvError => taken != [] && Last(taken) == ReceiveError && Quiet(cfg, before, DropLast(taken), after)
      case Waiting => rest == [] && Quiet(cfg, before, taken, after)
  }

  lemma StopsAfter(cfg: Config, before: Pending, arrivals: seq<Arrival>, n: nat, after: Pending, result: RecvResult)
    requires n <= |arrivals|
    requires match result
      case Received(m) => Completes(cfg, before, arrivals[..n], after, m)
      case RecvError => n > 0 && arrivals[n - 1] == ReceiveError && Quiet(cfg, before, arrivals[..n - 1], after)
      case Waiting => n == |arrivals| && Quiet(cfg, before, arrivals[..n], after)
    ensures Stopped(cfg, before, arrivals, arrivals[n..], after, result)
  {
    assert n > 0 ==> DropLast(arrivals[..n]) == arrivals[..n - 1];
  }

  lemma FirstMessage(cfg: Config, before: Pending, taken: seq<Arrival>, m: LcmMessage)
    requires taken != [] && forall j :: 0 <= j < |taken| ==> taken[j].Datagram?
    requires Receive(cfg, before, InputOf(taken[0])).message == Some(m)
    ensures RunFrom(cfg, before, InputsOf(taken)).messages[0] == Some(m)
  {
    MessageAt(cfg, before, InputsOf(taken), 0);
    assert InputsOf(taken)[..0] == [];
  }

  lemma NotQuiet(cfg: Config, before: Pending, taken: seq<Arrival>, after: Pending, m: LcmMessage)
    requires taken != [] && taken[0].Datagram? && Receive(cfg, before, InputOf(taken[0])).message == Some(m)
    ensures !Quiet(cfg, before, taken, after)
  {
    if Quiet(cfg, before, taken, after) {
      FirstMessage(cfg, before, taken, m);
      assert false;
    }
  }

  lemma CompletesFirst(cfg: Config, before: Pending, taken: seq<Arrival>, after: Pending, m: LcmMessage, other: LcmMessage)
    requires Completes(cfg, before, taken, after, other)
    requires Receive(cfg, before, InputOf(taken[0])).message == Some(m)
    ensures |taken| == 1 && other == m
  {
    FirstMessage(cfg, before, taken, m);
  }

  /** If the first arrival completes a message, `recv` returns that and takes no other. */
  lemma FirstCompletes(cfg: Config, before: Pending, arrivals: seq<Arrival>, rest: seq<Arrival>,
                       after: Pending, result: RecvResult, m: LcmMessage)
    requires Stopped(cfg, before, arrivals, rest, after, result)
    requires arrivals != [] && arrivals[0].Datagram? && Receive(cfg, before, InputOf(arrivals[0])).message == Some(m)
    ensures result == Received(m) && rest == arrivals[1..]
  {
    var taken := arrivals[..|arrivals| - |rest|];
    match result {
      case Received(other) =>
        assert taken[0] == arrivals[0];
        CompletesFirst(cfg, before, taken, after, m, other);
      case RecvError =>
        assert taken[0] == arrivals[0];
        NotQuiet(cfg, before, DropLast(taken), after, m);
        assert false;
      case Waiting =>
        assert taken == arrivals;
        NotQuiet(cfg, before, taken, after, m);
        assert false;
    }
  }

  lemma ShortIsReceived(cfg: Config, pending: Pending, a: Arrival, sequenceNumber: u32, channel: Bytes, data: Bytes)
    requires a.Datagram? && a.bytes == EncodeShort(sequenceNumber, channel, data) && ChannelOnWire(channel)
    requires 9 + |channel| + |data| <= 65536
    ensures Receive(cfg, pending, InputOf(a)) == Step(pending, Some(LcmMessage(channel, sequenceNumber, data)))
  {
    EncodedShortSize(sequenceNumber, channel, data);
    TruncatedExactly(a.bytes);
    ParseInvertsEncode(Short(sequenceNumber, channel, data));
  }

  /** A short message of up to 65536 bytes is returned whole by the `recv` that finds it, and taken alone. */
  lemma ShortIsReturned(cfg: Config, before: Pending, arrivals: seq<Arrival>, rest: seq<Arrival>, after: Pending,
                        result: RecvResult, sequenceNumber: u32, channel: Bytes, data: Bytes)
    requires Stopped(cfg, before, arrivals, rest, after, result)
    requires arrivals != [] && arrivals[0].Datagram? && ChannelOnWire(channel)
    requires arrivals[0].bytes == EncodeShort(sequenceNumber, channel, data) && 9 + |channel| + |data| <= 65536
    ensures result == Received(LcmMessage(channel, sequenceNumber, data)) && rest == arrivals[1..]
  {
    ShortIsReceived(cfg, before, arrivals[0], sequenceNumber, channel, data);
    FirstCompletes(cfg, before, arrivals, rest, after, result, LcmMessage(channel, sequenceNumber, data));
  }

  lemma QuietStep(cfg: Config, before: Pending, arrivals: seq<Arrival>, middle: Pending, a: Arrival)
    requires Quiet(cfg, before, arrivals, middle) && a.Datagram?
    ensures var step := Receive(cfg, middle, InputOf(a));
      && (step.message.None? ==> Quiet(cfg, before, arrivals + [a], step.pending))
      && (step.message.Some? ==> Completes(cfg, before, arrivals + [a], step.pending, step.message.value))
  {
    var all := arrivals + [a];
    assert DropLast(InputsOf(all)) == InputsOf(arrivals);
    var none: Option<LcmMessage> := None;
    assert seq(|all|, _ => none) == seq(|arrivals|, _ => none) + [none];
  }

  /** What one turn of the receive loop does to the table: nothing if the socket reports an error. */
  function Turn(cfg: Config, pending: Pending, a: Arrival): Step {
    if a.Datagram? then Receive(cfg, pending, InputOf(a)) else Step(pending, None)
  }

  lemma TurnQuietOrStopped(cfg: Config, before: Pending, all: seq<Arrival>, n: nat, middle: Pending, turn: Step)
    requires n < |all| && Quiet(cfg, before, all[..n], middle) && turn == Turn(cfg, middle, all[n])
    ensures if all[n].ReceiveError? then Stopped(cfg, before, all, all[n + 1..], turn.pending, RecvError)
      else if turn.message.Some? then
        Stopped(cfg, before, all, all[n + 1..], turn.pending, Received(turn.message.value))
      else Quiet(cfg, before, all[..n + 1], turn.pending)
  {
    assert all[..n + 1] == all[..n] + [all[n]];
    if all[n].ReceiveError? {
      StopsAfter(cfg, before, all, n + 1, turn.pending, RecvError);
    } else {
      QuietStep(cfg, before, all[..n], middle, all[n]);
      if turn.message.Some? {
        StopsAfter(cfg, before, all, n + 1, turn.pending, Received(turn.message.value));
      }
    }
  }

  class LcmTransport {
    const socket: UdpSocket
    const fragmentMtu: nat
    var sequenceCounter: u32

    constructor (socket: UdpSocket, fragmentMtu: nat)
      ensures this.socket == socket && this.fragmentMtu == fragmentMtu && sequenceCounter == 0
    {
      this.socket := socket;
      this.fragmentMtu := fragmentMtu;
      sequenceCounter := 0;
    }

    /** Sends one message; its number is used up even when sending fails. */
    method Send(channel: Bytes, data: Bytes) returns (result: SendResult)
      requires Job(fragmentMtu, channel, data).ShortSize() <= USIZE_MAX
      modifies this, socket
      ensures sequenceCounter == (old(sequenceCounter) + 1) % U32_COUNT
      ensures socket.arrivals == old(socket.arrivals)
      ensures result == InvalidInput <==> 9 + |channel| + |data| > fragmentMtu && fragmentMtu <= 21 + |channel|
      ensures match Job(fragmentMtu, channel, data).Plan(old(sequenceCounter))
        case None =>
          && result == InvalidInput && socket.wire == old(socket.wire) && socket.answers == old(socket.answers)
        case Some(ds) =>
          var t := Transmit(ds, old(socket.answers));
          && socket.wire == old(socket.wire) + t.wire && socket.answers == t.rest
          && result == if t.ok then Sent(old(sequenceCounter)) else SendError
    {
      var seqno := sequenceCounter;
      sequenceCounter := (sequenceCounter + 1) % U32_COUNT;
      var shortSize := 4 + 4 + |channel| + 1 + |data|;
      if shortSize <= fragmentMtu {
        var buf := new ByteVec();
        EncodeShortMessageInto(buf, seqno, channel, data);
        ghost var ds, answers := [buf.bytes], socket.answers;
        assert Job(fragmentMtu, channel, data).Plan(seqno) == Some(ds);
        assert DropLast(ds) == [] && Transmit([], answers) == Transmission([], answers, true);
        var ok := socket.SendTo(buf.bytes);
        if !ok {
          return SendError;
        }
        return Sent(seqno);
      }
      result := SendFragmented(seqno, channel, data);
    }

    method SendFragmented(sequenceNumber: u32, channel: Bytes, data: Bytes) returns (result: SendResult)
      modifies socket
      ensures socket.arrivals == old(socket.arrivals)
      ensures result == InvalidInput <==> fragmentMtu <= 21 + |channel|
      ensures var job := Job(fragmentMtu, channel, data);
        if !job.Viable() then
          result == InvalidInput && socket.wire == old(socket.wire) && socket.answers == old(socket.answers)
        else
          var t := Transmit(EncodeAll(job.Fragments(sequenceNumber)), old(socket.answers));
          && socket.wire == old(socket.wire) + t.wire && socket.answers == t.rest
          && result == if t.ok then Sent(sequenceNumber) else SendError
    {
      ghost var job := Job(fragmentMtu, channel, data);
      var firstCapacity := SaturatingSub(fragmentMtu, FRAGMENT_HEADER_SIZE + |channel| + 1);
      var subsequentCapacity := SaturatingSub(fragmentMtu, FRAGMENT_HEADER_SIZE);
      if firstCapacity == 0 || subsequentCapacity == 0 {
        return InvalidInput;
      }
      var nFragments := CountFragments(channel, data, firstCapacity, subsequentCapacity);

      ghost var ds, answers, wire := EncodeAll(job.Fragments(sequenceNumber)), socket.answers, socket.wire;
      TransmitNothing(ds, answers);
      var buf := new ByteVec();
      var offset: nat := 0;
      for i := 0 to nFragments
        invariant offset == job.Start(i)
        invariant socket.arrivals == old(socket.arrivals)
        invariant Transmit(ds[..i], answers) == Transmission(ds[..i], socket.answers, true)
        invariant socket.wire == wire + ds[..i]
      {
        var ok, next := SendChunk(buf, sequenceNumber, channel, data, i, nFragments, offset, ds, answers, wire);
        if !ok {
          TransmitStops(ds, i + 1, answers);
          return SendError;
        }
        offset := next;
      }
      assert ds[..nFragments] == ds;
      result := Sent(sequenceNumber);
    }

    /** Encodes and sends chunk `i`, the ones before it having been sent; where the next one starts. */
    method SendChunk(buf: ByteVec, sequenceNumber: u32, channel: Bytes, data: Bytes,
                     i: u16, nFragments: u16, offset: nat,
                     ghost ds: seq<Bytes>, ghost answers: seq<bool>, ghost wire: seq<Bytes>)
      returns (ok: bool, next: nat)
      requires var job := Job(fragmentMtu, channel, data);
        job.Viable() && i < nFragments == job.Count() && offset == job.Start(i)
        && ds == EncodeAll(job.Fragments(sequenceNumber))
      requires Transmit(ds[..i], answers) == Transmission(ds[..i], socket.answers, true)
      requires socket.wire == wire + ds[..i]
      modifies buf, socket
      ensures next == Job(fragmentMtu, channel, data).Start(i + 1) && socket.arrivals == old(socket.arrivals)
      ensures var done := if ok then i + 1 else i;
        && Transmit(ds[..i + 1], answers) == Transmission(ds[..done], socket.answers, ok)
        && socket.wire == wire + ds[..done]
    {
      next := EncodeChunk(buf, sequenceNumber, channel, data, i, nFragments, offset);
      ok := SendNext(buf.bytes, i, ds, answers, wire);
    }

    /** Sends datagram `i`, the ones before it having been sent. */
    method SendNext(bytes: Bytes, ghost i: nat, ghost ds: seq<Bytes>, ghost answers: seq<bool>, ghost wire: seq<Bytes>)
      returns (ok: bool)
      requires i < |ds| && bytes == ds[i]
      requires Transmit(ds[..i], answers) == Transmission(ds[..i], socket.answers, true)
      requires socket.wire == wire + ds[..i]
      modifies socket
      ensures socket.arrivals == old(socket.arrivals)
      ensures var done := if ok then i + 1 else i;
        && Transmit(ds[..i + 1], answers) == Transmission(ds[..done], socket.answers, ok)
        && socket.wire == wire + ds[..done]
    {
      TransmitOneMore(ds, i, answers);
      ok := socket.SendTo(bytes);
    }

    method CountFragments(channel: Bytes, data: Bytes, firstCapacity: nat, subsequentCapacity: nat) returns (n: u16)
      requires var job := Job(fragmentMtu, channel, data);
        job.Viable() && firstCapacity == job.FirstCapacity() && subsequentCapacity == job.SubsequentCapacity()
      ensures n == Job(fragmentMtu, channel, data).Count()
    {
      var remainingAfterFirst := SaturatingSub(|data|, firstCapacity);
      var rounded := CheckedAdd(remainingAfterFirst, subsequentCapacity - 1);
      var fullCount := 1 + if rounded.Some? then rounded.value / subsequentCapacity else 0;
      n := fullCount % U16_COUNT;
    }

    /** Encodes chunk `i`, which starts at `offset`, into `buf`, and returns where the next one starts. */
    method EncodeChunk(buf: ByteVec, sequenceNumber: u32, channel: Bytes, data: Bytes,
                       i: u16, nFragments: u16, offset: nat) returns (next: nat)
      requires var job := Job(fragmentMtu, channel, data);
        job.Viable() && i < nFragments == job.Count() && offset == job.Start(i)
      modifies buf
      ensures var job := Job(fragmentMtu, channel, data);
        buf.bytes == EncodeFragment(job.FragmentAt(sequenceNumber, i)) && next == job.Start(i + 1)
    {
      ghost var job := Job(fragmentMtu, channel, data);
      job.StartStep(i);
      var payloadSize: u32 := |data| % U32_COUNT;
      var firstCapacity := SaturatingSub(fragmentMtu, FRAGMENT_HEADER_SIZE + |channel| + 1);
      var subsequentCapacity := SaturatingSub(fragmentMtu, FRAGMENT_HEADER_SIZE);
      var chunk, chan;
      if i == 0 {
        chunk, chan := data[..Min(firstCapacity, |data|)], Some(channel);
      } else {
        chunk, chan := data[offset..Min(offset + subsequentCapacity, |data|)], None;
      }
      assert chunk == job.Chunk(i);
      EncodeFragmentInto(buf, sequenceNumber, payloadSize, offset % U32_COUNT, i, nFragments, chan, chunk);
      next := offset + |chunk|;
    }

    /** Parses one datagram and hands it on; the message it completes, if any. */
    method Dispatch(reassembler: FragmentReassembler.FragmentReassembler, a: Arrival)
      returns (message: Option<LcmMessage>)
      requires reassembler.Valid() && a.Datagram?
      modifies reassembler, reassembler.owner.Keys
      ensures reassembler.Valid() && fresh(reassembler.owner.Keys - old(reassembler.owner.Keys))
      ensures Step(reassembler.View(), message) == Receive(reassembler.cfg, old(reassembler.View()), InputOf(a))
    {
      match ParseDatagram(Truncated(a.bytes)) {
        case Some(Short(sequenceNumber, channel, data)) =>
          message := Some(LcmMessage(channel, sequenceNumber, data));
        case Some(Frag(f)) =>
          message := reassembler.Process(f, a.sender, a.now, a.created);
        case None =>
          message := None;
      }
    }

    /** One turn of the receive loop: takes an arrival and, unless it is an error, dispatches it. */
    method RecvOne(reassembler: FragmentReassembler.FragmentReassembler)
      returns (a: Arrival, message: Option<LcmMessage>)
      requires reassembler.Valid() && socket !in reassembler.owner && socket as object != reassembler
      requires socket.arrivals != []
      modifies socket, reassembler, reassembler.owner.Keys
      ensures reassembler.Valid() && fresh(reassembler.owner.Keys - old(reassembler.owner.Keys))
      ensures socket.wire == old(socket.wire) && socket.answers == old(socket.answers)
      ensures a == old(socket.arrivals)[0] && socket.arrivals == old(socket.arrivals)[1..]
      ensures Step(reassembler.View(), message) == Turn(reassembler.cfg, old(reassembler.View()), a)
    {
      ghost var before := reassembler.View();
      a := socket.RecvFrom();
      message := None;
      assert reassembler.Valid() && reassembler.View() == before;
      if a.Datagram? {
        message := Dispatch(reassembler, a);
      }
    }

    /** Receives until a message is complete, the socket fails, or nothing more arrives. */
    method Recv(reassembler: FragmentReassembler.FragmentReassembler) returns (result: RecvResult)
      requires reassembler.Valid() && socket !in reassembler.owner && socket as object != reassembler
      modifies socket, reassembler, reassembler.owner.Keys
      ensures reassembler.Valid() && fresh(reassembler.owner.Keys - old(reassembler.owner.Keys))
      ensures socket.wire == old(socket.wire) && socket.answers == old(socket.answers)
      ensures Stopped(reassembler.cfg, old(reassembler.View()), old(socket.arrivals), socket.arrivals,
                      reassembler.View(), result)
    {
      ghost var all, before := socket.arrivals, reassembler.View();
      ghost var n := 0;
      assert all[..0] == [];
      while socket.arrivals != []
        invariant reassembler.Valid() && fresh(reassembler.owner.Keys - old(reassembler.owner.Keys))
        invariant socket !in reassembler.owner
        invariant socket.wire == old(socket.wire) && socket.answers == old(socket.answers)
        invariant n <= |all| && socket.arrivals == all[n..]
        invariant Quiet(reassembler.cfg, before, all[..n], reassembler.View())
        decreases |socket.arrivals|
      {
        ghost var middle := reassembler.View();
        var a, message := RecvOne(reassembler);
        TurnQuietOrStopped(reassembler.cfg, before, all, n, middle, Step(reassembler.View(), message));
        n := n + 1;
        if a.ReceiveError? {
          return RecvError;
        }
        if message.Some? {
          return Received(message.value);
        }
      }
      result := Waiting;
      StopsAfter(reassembler.cfg, before, all, n, reassembler.View(), result);
    }
  }
}
