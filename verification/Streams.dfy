/** Whole conversations: what each sender sends comes back once and in order, however the senders interleave. */
module Streams {
  import opened Primitives
  import opened Protocol
  import opened Reassembly
  import opened Isolation
  import opened Confluence
  import opened Fragmentation
  import opened Transport
  import opened EndToEnd

  datatype Outgoing = Outgoing(channel: Bytes, data: Bytes)

  function JobOf(mtu: nat, m: Outgoing): Job {
    Job(mtu, m.channel, m.data)
  }

  function Next(seqno: u32): u32 {
    (seqno + 1) % U32_COUNT
  }

  /**
   `send` accepts the message and the receiver can take it: its short encoding fits the MTU, or the MTU has
   room for fragments, at most 65535 of them, and its length is within 32 bits and the cap.
   */
  predicate Sendable(cfg: Config, mtu: nat, m: Outgoing) {
    && ChannelOnWire(m.channel) && mtu <= 65536
    && 9 + |m.channel| + |m.data| < 0x1_0000_0000_0000_0000
    && (9 + |m.channel| + |m.data| > mtu ==>
      && mtu > 21 + |m.channel| && |m.channel| + 1 + |m.data| <= 65535 * (mtu - 20)
      && |m.data| < 0x1_0000_0000 && |m.data| <= cfg.maxMessageSize)
  }

  ghost predicate AllSendable(cfg: Config, mtu: nat, msgs: seq<Outgoing>) {
    forall i :: 0 <= i < |msgs| ==> Sendable(cfg, mtu, msgs[i])
  }

  /** The datagrams of one message, none if `send` refuses it. */
  function DatagramsOf(mtu: nat, seqno: u32, m: Outgoing): seq<Bytes> {
    var plan := JobOf(mtu, m).Plan(seqno);
    if plan.Some? then plan.value else []
  }

  /** Everything a sender puts on the wire, its numbers counting up from `seqno` and wrapping around. */
  function StreamOf(mtu: nat, seqno: u32, msgs: seq<Outgoing>): seq<Bytes>
    decreases |msgs|
  {
    if msgs == [] then []
    else DatagramsOf(mtu, seqno, msgs[0]) + StreamOf(mtu, Next(seqno), msgs[1..])
  }

  function Expected(seqno: u32, msgs: seq<Outgoing>): seq<LcmMessage>
    decreases |msgs|
  {
    if msgs == [] then []
    else [LcmMessage(msgs[0].channel, seqno, msgs[0].data)] + Expected(Next(seqno), msgs[1..])
  }

  /** Message `i` of a stream carries the first number plus `i`, wrapped around. */
  lemma {:induction false} ExpectedAt(seqno: u32, msgs: seq<Outgoing>, i: nat)
    requires i < |msgs|
    ensures |Expected(seqno, msgs)| == |msgs|
    ensures Expected(seqno, msgs)[i] == LcmMessage(msgs[i].channel, (seqno + i) % U32_COUNT, msgs[i].data)
    decreases |msgs|
  {
    if i > 0 {
      ExpectedAt(Next(seqno), msgs[1..], i - 1);
    } else if |msgs| > 1 {
      ExpectedAt(Next(seqno), msgs[1..], 0);
    } else {
      assert Expected(Next(seqno), msgs[1..]) == [];
    }
  }

  function Delivered(messages: seq<Option<LcmMessage>>): seq<LcmMessage> {
    if messages == [] then []
    else Delivered(DropLast(messages)) + if Last(messages).Some? then [Last(messages).value] else []
  }

  lemma {:induction false} DeliveredConcat(a: seq<Option<LcmMessage>>, b: seq<Option<LcmMessage>>)
    ensures Delivered(a + b) == Delivered(a) + Delivered(b)
  {
    if b == [] {
      assert a + b == a;
    } else {
      assert DropLast(a + b) == a + DropLast(b);
      DeliveredConcat(a, DropLast(b));
    }
  }

  lemma {:induction false} DeliveredSilent(a: seq<Option<LcmMessage>>)
    requires Silent(a)
    ensures Delivered(a) == []
  {
    if a == [] {
    } else {
      DeliveredSilent(DropLast(a));
    }
  }

  // ----- one sender alone -----

  ghost predicate FromSender(inputs: seq<Input>, sender: SocketAddr) {
    forall j :: 0 <= j < |inputs| ==> inputs[j].sender == sender
  }

  ghost predicate NoneFrom(pending: Pending, sender: SocketAddr) {
    forall k :: k in pending ==> k.sender != sender
  }

  /** The inputs are the parses of the datagrams, one for one. */
  ghost predicate ParsesOf(inputs: seq<Input>, ds: seq<Bytes>) {
    && |inputs| == |ds|
    && forall j :: 0 <= j < |inputs| ==> inputs[j].packet == ParseDatagram(Truncated(ds[j]))
  }

  ghost predicate PromptBlock(cfg: Config, block: seq<Input>) {
    forall j :: 0 < j < |block| ==> block[j].now <= block[0].created + cfg.timeout
  }

  /** The datagrams of each message are processed within the timeout of its first. */
  ghost predicate InTime(cfg: Config, mtu: nat, seqno: u32, msgs: seq<Outgoing>, inputs: seq<Input>)
    requires |inputs| == |StreamOf(mtu, seqno, msgs)|
    decreases |msgs|
  {
    msgs != [] ==>
      var n := |DatagramsOf(mtu, seqno, msgs[0])|;
      PromptBlock(cfg, inputs[..n]) && InTime(cfg, mtu, Next(seqno), msgs[1..], inputs[n..])
  }

  lemma SeenOfFragments(inputs: seq<Input>, k: Key, fs: seq<Fragment>, n: nat)
    requires n <= |inputs| && |inputs| == |fs| && OnlyFrom(inputs, k, fs)
    requires forall j :: 0 <= j < |inputs| ==> Concerns(inputs[j], k) && FragmentOf(inputs[j]).fragmentNumber == j
    ensures Seen(inputs[..n], k) == Numbers(n)
  {
    if n == 0 {
    } else {
      SeenOfFragments(inputs, k, fs, n - 1);
      assert DropLast(inputs[..n]) == inputs[..n - 1];
    }
  }

  lemma BlockInputs(cfg: Config, job: Job, sender: SocketAddr, seqno: u32, block: seq<Input>)
    requires Receivable(cfg, job) && FromSender(block, sender)
    requires ParsesOf(block, EncodeAll(job.Fragments(seqno)))
    ensures forall j :: 0 <= j < |block| ==>
      Concerns(block[j], Key(sender, seqno)) && FragmentOf(block[j]) == job.FragmentAt(seqno, j)
  {
    forall j | 0 <= j < |block|
      ensures Concerns(block[j], Key(sender, seqno)) && FragmentOf(block[j]) == job.FragmentAt(seqno, j)
    {
      EmittedParses(cfg, job, seqno, j);
    }
  }

  lemma BlockTimely(cfg: Config, k: Key, block: seq<Input>)
    requires Monotone(block) && PromptBlock(cfg, block)
    ensures Timely(cfg, block, k)
  {
    forall i, j | 0 <= i < j < |block|
      ensures block[j].now <= block[i].created + cfg.timeout
    {
      assert i > 0 ==> block[0].created <= block[i].now <= block[i].created;
    }
  }

  lemma BlockSeen(k: Key, fs: seq<Fragment>, block: seq<Input>)
    requires block != [] && |block| == |fs| && OnlyFrom(block, k, fs)
    requires forall j :: 0 <= j < |block| ==> Concerns(block[j], k) && FragmentOf(block[j]).fragmentNumber == j
    ensures Seen(block[..|block| - 1], k) == Numbers(|fs| - 1)
    ensures Seen(block[..|block| - 1], k) + NumberIn(block[|block| - 1], k) == Numbers(|fs|)
  {
    SeenOfFragments(block, k, fs, |block| - 1);
  }

  lemma BlockClean(cfg: Config, k: Key, fs: seq<Fragment>, block: seq<Input>)
    requires block != [] && |block| == |fs| && OnlyFrom(block, k, fs) && Monotone(block) && PromptBlock(cfg, block)
    ensures Clean(cfg, fs, k, None, block[..|block| - 1] + [block[|block| - 1]])
  {
    BlockTimely(cfg, k, block);
    assert block == block[..|block| - 1] + [block[|block| - 1]];
  }

  lemma BlockCompletes(cfg: Config, job: Job, sender: SocketAddr, seqno: u32, block: seq<Input>)
    requires Receivable(cfg, job) && FromSender(block, sender) && Monotone(block)
    requires ParsesOf(block, EncodeAll(job.Fragments(seqno)))
    requires PromptBlock(cfg, block)
    ensures CompletedAt(cfg, job.Fragments(seqno), Key(sender, seqno), |job.data|, job.channel,
                         None, block, |block| - 1)
  {
    var k, fs := Key(sender, seqno), job.Fragments(seqno);
    BlockInputs(cfg, job, sender, seqno, block);
    FragmentsAreFamily(cfg, job, sender, seqno);
    BlockSeen(k, fs, block);
    BlockClean(cfg, k, fs, block);
    assert |fs| - 1 in Numbers(|fs|);
  }

  lemma {:induction false} OtherKeysUntouched(cfg: Config, pending: Pending, inputs: seq<Input>, k: Key)
    requires Lookup(pending, k).None?
    requires forall j :: 0 <= j < |inputs| ==> !Concerns(inputs[j], k)
    ensures Lookup(RunFrom(cfg, pending, inputs).pending, k).None?
  {
    if inputs == [] {
    } else {
      assert forall j :: 0 <= j < |inputs| - 1 ==> DropLast(inputs)[j] == inputs[j];
      OtherKeysUntouched(cfg, pending, DropLast(inputs), k);
      ReceiveOtherKey(cfg, RunFrom(cfg, pending, DropLast(inputs)).pending, Last(inputs), k);
    }
  }

  lemma BlockMessages(cfg: Config, pending: Pending, job: Job, sender: SocketAddr, seqno: u32, block: seq<Input>)
    requires Receivable(cfg, job) && |job.data| <= job.LosslessLimit()
    requires NoneFrom(pending, sender) && block != []
    requires forall j :: 0 <= j < |block| ==> Concerns(block[j], Key(sender, seqno))
    requires CompletedAt(cfg, job.Fragments(seqno), Key(sender, seqno), |job.data|, job.channel,
                         None, block, |block| - 1)
    ensures var r := RunFrom(cfg, pending, block);
      && Silent(DropLast(r.messages))
      && Last(r.messages) == Some(LcmMessage(job.channel, seqno, job.data))
      && Key(sender, seqno) !in r.pending
  {
    var k, last := Key(sender, seqno), |block| - 1;
    assert Lookup(pending, k) == None;
    DeliveredAtLastMissing(cfg, job.Fragments(seqno), k, |job.data|, job.channel, pending, block, last);
    FamilyAssembles(cfg, job, sender, seqno);
    DataSurvivesExactly(job);
    assert block[..last + 1] == block;
  }

  lemma BlockLeavesOthers(cfg: Config, pending: Pending, k: Key, block: seq<Input>)
    requires NoneFrom(pending, k.sender) && k !in RunFrom(cfg, pending, block).pending
    requires forall j :: 0 <= j < |block| ==> Concerns(block[j], k)
    ensures NoneFrom(RunFrom(cfg, pending, block).pending, k.sender)
  {
    forall k' | k' in RunFrom(cfg, pending, block).pending
      ensures k'.sender != k.sender
    {
      if k'.sender == k.sender {
        OtherKeysUntouched(cfg, pending, block, k');
      }
    }
  }

  /** The datagrams of one fragmented message, undisturbed, deliver it and leave nothing behind. */
  lemma BlockDelivered(cfg: Config, pending: Pending, job: Job, sender: SocketAddr, seqno: u32, block: seq<Input>)
    requires Receivable(cfg, job) && |job.data| <= job.LosslessLimit()
    requires FromSender(block, sender) && Monotone(block) && NoneFrom(pending, sender)
    requires ParsesOf(block, EncodeAll(job.Fragments(seqno))) && PromptBlock(cfg, block)
    ensures var r := RunFrom(cfg, pending, block);
      && Delivered(r.messages) == [LcmMessage(job.channel, seqno, job.data)]
      && NoneFrom(r.pending, sender)
  {
    BlockInputs(cfg, job, sender, seqno, block);
    BlockCompletes(cfg, job, sender, seqno, block);
    BlockMessages(cfg, pending, job, sender, seqno, block);
    BlockLeavesOthers(cfg, pending, Key(sender, seqno), block);
    DeliveredSilent(DropLast(RunFrom(cfg, pending, block).messages));
  }

  lemma ShortDelivered(cfg: Config, pending: Pending, job: Job, seqno: u32, i: Input)
    requires job.FitsOneDatagram() && ChannelOnWire(job.channel) && job.mtu <= 65536
    requires i.packet == ParseDatagram(Truncated(EncodeShort(seqno, job.channel, job.data)))
    ensures Receive(cfg, pending, i) == Step(pending, Some(LcmMessage(job.channel, seqno, job.data)))
  {
    var bytes := EncodeShort(seqno, job.channel, job.data);
    assert Truncated(bytes) == bytes;
    ParseInvertsEncode(Short(seqno, job.channel, job.data));
  }

  /** One message of a stream, short or fragmented. */
  lemma OneDelivered(cfg: Config, pending: Pending, mtu: nat, m: Outgoing,
                     sender: SocketAddr, seqno: u32, block: seq<Input>)
    requires Sendable(cfg, mtu, m)
    requires FromSender(block, sender) && Monotone(block) && NoneFrom(pending, sender)
    requires ParsesOf(block, DatagramsOf(mtu, seqno, m))
    requires PromptBlock(cfg, block)
    ensures var r := RunFrom(cfg, pending, block);
      && Delivered(r.messages) == [LcmMessage(m.channel, seqno, m.data)]
      && NoneFrom(r.pending, sender)
  {
    var job := JobOf(mtu, m);
    if job.FitsOneDatagram() {
      ShortDelivered(cfg, pending, job, seqno, block[0]);
      assert DropLast(block) == [] && RunFrom(cfg, pending, []) == Run(pending, []);
      var r := RunFrom(cfg, pending, block);
      assert r.messages == [Some(LcmMessage(m.channel, seqno, m.data))];
      assert Delivered(DropLast(r.messages)) == [];
    } else {
      job.CastIsLossless();
      job.CountIsCeiling();
      BlockDelivered(cfg, pending, job, sender, seqno, block);
    }
  }

  lemma ParsesOfParts(inputs: seq<Input>, a: seq<Bytes>, b: seq<Bytes>)
    requires ParsesOf(inputs, a + b)
    ensures ParsesOf(inputs[..|a|], a) && ParsesOf(inputs[|a|..], b)
  {
    assert forall j :: 0 <= j < |b| ==> inputs[|a|..][j] == inputs[|a| + j] && (a + b)[|a| + j] == b[j];
    assert forall j :: 0 <= j < |a| ==> inputs[..|a|][j] == inputs[j] && (a + b)[j] == a[j];
  }

  /** All that is asked of one sender's undisturbed trace. */
  ghost predicate Undisturbed(cfg: Config, sender: SocketAddr, mtu: nat, seqno: u32,
                              msgs: seq<Outgoing>, inputs: seq<Input>) {
    && AllSendable(cfg, mtu, msgs)
    && FromSender(inputs, sender) && Monotone(inputs) && ParsesOf(inputs, StreamOf(mtu, seqno, msgs))
    && InTime(cfg, mtu, seqno, msgs, inputs)
  }

  lemma UndisturbedParts(cfg: Config, sender: SocketAddr, mtu: nat, seqno: u32,
                         msgs: seq<Outgoing>, inputs: seq<Input>)
    requires msgs != [] && Undisturbed(cfg, sender, mtu, seqno, msgs, inputs)
    ensures var ds := DatagramsOf(mtu, seqno, msgs[0]);
      && |ds| <= |inputs|
      && FromSender(inputs[..|ds|], sender) && Monotone(inputs[..|ds|]) && ParsesOf(inputs[..|ds|], ds)
      && PromptBlock(cfg, inputs[..|ds|])
      && Undisturbed(cfg, sender, mtu, Next(seqno), msgs[1..], inputs[|ds|..])
  {
    var ds, later := DatagramsOf(mtu, seqno, msgs[0]), StreamOf(mtu, Next(seqno), msgs[1..]);
    MonotoneUpTo(inputs, |ds|);
    MonotoneFrom(inputs, |ds|);
    ParsesOfParts(inputs, ds, later);
  }

  lemma DeliveredParts(cfg: Config, pending: Pending, inputs: seq<Input>, n: nat)
    requires n <= |inputs|
    ensures Delivered(RunFrom(cfg, pending, inputs).messages)
      == Delivered(RunFrom(cfg, pending, inputs[..n]).messages)
         + Delivered(RunFrom(cfg, RunFrom(cfg, pending, inputs[..n]).pending, inputs[n..]).messages)
  {
    var first := RunFrom(cfg, pending, inputs[..n]);
    assert inputs == inputs[..n] + inputs[n..];
    RunConcat(cfg, pending, inputs[..n], inputs[n..]);
    DeliveredConcat(first.messages, RunFrom(cfg, first.pending, inputs[n..]).messages);
  }

  /** A sender's datagrams, alone and in order, deliver exactly its messages, in order. */
  lemma {:induction false} SenderAlone(cfg: Config, pending: Pending, sender: SocketAddr, mtu: nat, seqno: u32,
                                       msgs: seq<Outgoing>, inputs: seq<Input>)
    requires Undisturbed(cfg, sender, mtu, seqno, msgs, inputs) && NoneFrom(pending, sender)
    ensures Delivered(RunFrom(cfg, pending, inputs).messages) == Expected(seqno, msgs)
    decreases |msgs|
  {
    if msgs == [] {
    } else {
      var n := |DatagramsOf(mtu, seqno, msgs[0])|;
      UndisturbedParts(cfg, sender, mtu, seqno, msgs, inputs);
      var first, rest := inputs[..n], inputs[n..];
      OneDelivered(cfg, pending, mtu, msgs[0], sender, seqno, first);
      SenderAlone(cfg, RunFrom(cfg, pending, first).pending, sender, mtu, Next(seqno), msgs[1..], rest);
      DeliveredParts(cfg, pending, inputs, n);
    }
  }

  // ----- any interleaving -----

  /** The parseable datagrams of one sender, in order of arrival. */
  function Heard(arrivals: seq<Arrival>, sender: SocketAddr): (h: seq<Arrival>)
    requires forall j :: 0 <= j < |arrivals| ==> arrivals[j].Datagram?
    ensures forall j :: 0 <= j < |h| ==> h[j].Datagram? && h[j].sender == sender && InputOf(h[j]).packet.Some?
  {
    if arrivals == [] then []
    else
      var a := Last(arrivals);
      Heard(DropLast(arrivals), sender)
      + if a.sender == sender && InputOf(a).packet.Some? then [a] else []
  }

  predicate Ours(sender: SocketAddr, i: Input) {
    i.sender == sender && i.packet.Some?
  }

  lemma {:induction false} FilterHeard(arrivals: seq<Arrival>, sender: SocketAddr)
    requires forall j :: 0 <= j < |arrivals| ==> arrivals[j].Datagram?
    ensures Filter(InputsOf(arrivals), i => Ours(sender, i)) == InputsOf(Heard(arrivals, sender))
  {
    if arrivals == [] {
    } else {
      FilterHeard(DropLast(arrivals), sender);
      assert DropLast(InputsOf(arrivals)) == InputsOf(DropLast(arrivals));
    }
  }

  lemma {:induction false} FilterMonotone(inputs: seq<Input>, keep: Input -> bool)
    requires Monotone(inputs)
    ensures Monotone(Filter(inputs, keep))
    ensures forall j :: 0 <= j < |Filter(inputs, keep)| ==>
      exists i :: 0 <= i < |inputs| && Filter(inputs, keep)[j] == inputs[i]
  {
    if inputs == [] {
    } else {
      MonotonePrefix(inputs);
      FilterMonotone(DropLast(inputs), keep);
      var kept := Filter(DropLast(inputs), keep);
      forall j | 0 <= j < |Filter(inputs, keep)|
        ensures exists i :: 0 <= i < |inputs| && Filter(inputs, keep)[j] == inputs[i]
        ensures j < |kept| ==> kept[j].created <= Last(inputs).now
      {
        if j < |kept| {
          var i :| 0 <= i < |inputs| - 1 && kept[j] == DropLast(inputs)[i];
          assert kept[j] == inputs[i];
        } else {
          assert Filter(inputs, keep)[j] == inputs[|inputs| - 1];
        }
      }
    }
  }

  function BytesOf(arrivals: seq<Arrival>): seq<Bytes>
    requires forall j :: 0 <= j < |arrivals| ==> arrivals[j].Datagram?
  {
    seq(|arrivals|, j requires 0 <= j < |arrivals| => arrivals[j].bytes)
  }

  /** What a run delivers for the datagrams of one sender. */
  function DeliveredFrom(cfg: Config, arrivals: seq<Arrival>, sender: SocketAddr): seq<LcmMessage>
    requires forall j :: 0 <= j < |arrivals| ==> arrivals[j].Datagram?
  {
    var inputs := InputsOf(arrivals);
    Delivered(Pick(inputs, RunFrom(cfg, map[], inputs).messages, i => Ours(sender, i)))
  }

  lemma HeardParses(arrivals: seq<Arrival>, sender: SocketAddr, ds: seq<Bytes>)
    requires forall j :: 0 <= j < |arrivals| ==> arrivals[j].Datagram?
    requires BytesOf(Heard(arrivals, sender)) == ds
    ensures ParsesOf(InputsOf(Heard(arrivals, sender)), ds) && FromSender(InputsOf(Heard(arrivals, sender)), sender)
  {
    var heard := Heard(arrivals, sender);
    assert forall j :: 0 <= j < |heard| ==> BytesOf(heard)[j] == heard[j].bytes;
  }

  /** What the whole trace delivers for one sender is what its own parseable datagrams deliver alone. */
  lemma SenderIsolated(cfg: Config, arrivals: seq<Arrival>, sender: SocketAddr)
    requires forall j :: 0 <= j < |arrivals| ==> arrivals[j].Datagram?
    requires Monotone(InputsOf(arrivals))
    ensures Monotone(InputsOf(Heard(arrivals, sender)))
    ensures DeliveredFrom(cfg, arrivals, sender)
      == Delivered(RunFrom(cfg, map[], InputsOf(Heard(arrivals, sender))).messages)
  {
    var inputs := InputsOf(arrivals);
    FilterHeard(arrivals, sender);
    FilterMonotone(inputs, i => Ours(sender, i));
    NonInterference(cfg, map[], inputs, i => Ours(sender, i), (k: Key) => k.sender == sender);
  }

  /**
   In any trace in which the parseable datagrams of `sender` are its stream, in order and in
   time, its messages are delivered exactly once and in send order, whatever else arrives.
   */
  lemma StreamRoundTrip(cfg: Config, arrivals: seq<Arrival>, sender: SocketAddr,
                        mtu: nat, seqno: u32, msgs: seq<Outgoing>)
    requires forall j :: 0 <= j < |arrivals| ==> arrivals[j].Datagram?
    requires Monotone(InputsOf(arrivals)) && AllSendable(cfg, mtu, msgs)
    requires BytesOf(Heard(arrivals, sender)) == StreamOf(mtu, seqno, msgs)
    requires InTime(cfg, mtu, seqno, msgs, InputsOf(Heard(arrivals, sender)))
    ensures DeliveredFrom(cfg, arrivals, sender) == Expected(seqno, msgs)
  {
    SenderIsolated(cfg, arrivals, sender);
    HeardParses(arrivals, sender, StreamOf(mtu, seqno, msgs));
    SenderAlone(cfg, map[], sender, mtu, seqno, msgs, InputsOf(Heard(arrivals, sender)));
  }
}
