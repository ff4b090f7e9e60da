/**
 The reassembly state machine on values: what one datagram does to the table of
 in-progress fragment sets, and what a whole trace of datagrams delivers.
 */
module Reassembly {
  import opened Primitives
  import opened Protocol

  datatype SocketAddr = SocketAddr(ip: u32, port: u16)
  datatype Key = Key(sender: SocketAddr, sequenceNumber: u32)
  datatype LcmMessage = LcmMessage(channel: Bytes, sequenceNumber: u32, data: Bytes)
  datatype Config = Config(timeout: nat, maxMessageSize: nat)

  datatype SetView = SetView(
    channel: Bytes,
    payloadSize: u32,
    nFragments: u16,
    fragmentsReceived: nat,
    buffer: Bytes,
    receivedMask: seq<bool>,
    createdAt: nat)

  type Slot = Option<SetView>
  type Pending = map<Key, SetView>

  /** A received datagram: its parse, its sender, and the two clock readings its processing takes. */
  datatype Input = Input(sender: SocketAddr, packet: Option<Packet>, now: nat, created: nat)

  // ----- one fragment against one set -----

  function Write(buffer: Bytes, offset: nat, data: Bytes): (w: Bytes)
    requires offset + |data| <= |buffer|
    ensures |w| == |buffer|
    ensures forall p :: 0 <= p < |w| ==>
      w[p] == if offset <= p < offset + |data| then data[p - offset] else buffer[p]
  {
    buffer[..offset] + data + buffer[offset + |data|..]
  }

  function OpenSet(f: Fragment, created: nat): SetView {
    SetView([], f.payloadSize, f.nFragments, 0, Zeros(f.payloadSize), seq(f.nFragments, _ => false), created)
  }

  function StoreChannel(s: SetView, f: Fragment): SetView {
    if f.fragmentNumber == 0 && f.channel.Some? then s.(channel := f.channel.value) else s
  }

  datatype Verdict = Inconsistent | OutOfRange | Duplicate | Overflow | Accepted

  function Judge(s: SetView, f: Fragment): Verdict {
    if f.payloadSize != s.payloadSize || f.nFragments != s.nFragments then Inconsistent
    else if f.fragmentNumber >= |s.receivedMask| then OutOfRange
    else if s.receivedMask[f.fragmentNumber] then Duplicate
    else if f.fragmentOffset + |f.data| > |s.buffer| then Overflow
    else Accepted
  }

  function Accept(s: SetView, f: Fragment): SetView
    requires Judge(s, f) == Accepted
  {
    s.(buffer := Write(s.buffer, f.fragmentOffset, f.data),
       receivedMask := s.receivedMask[f.fragmentNumber := true],
       fragmentsReceived := s.fragmentsReceived + 1)
  }

  datatype Outcome = Outcome(slot: Slot, message: Option<LcmMessage>)

  function StepSet(before: SetView, f: Fragment): Outcome {
    var s := StoreChannel(before, f);
    if Judge(s, f) != Accepted then Outcome(Some(s), None)
    else
      var s' := Accept(s, f);
      if s'.fragmentsReceived == s'.nFragments
      then Outcome(None, Some(LcmMessage(s'.channel, f.sequenceNumber, s'.buffer)))
      else Outcome(Some(s'), None)
  }

  // ----- expiry -----

  predicate Stale(cfg: Config, s: SetView, now: nat) {
    SaturatingSub(now, s.createdAt) > cfg.timeout
  }

  function Sweep(cfg: Config, pending: Pending, now: nat): Pending {
    map k | k in pending && !Stale(cfg, pending[k], now) :: pending[k]
  }

  // ----- one fragment against the table -----

  datatype Step = Step(pending: Pending, message: Option<LcmMessage>)

  function Lookup(pending: Pending, k: Key): Slot {
    if k in pending then Some(pending[k]) else None
  }

  function Store(pending: Pending, k: Key, slot: Slot): Pending {
    if slot.Some? then pending[k := slot.value] else pending - {k}
  }

  lemma StoreOverwrites(pending: Pending, k: Key, s: SetView, slot: Slot)
    ensures Store(pending[k := s], k, slot) == Store(pending, k, slot)
  {
  }

  function Process(cfg: Config, pending: Pending, f: Fragment, sender: SocketAddr, now: nat, created: nat): Step {
    var swept := Sweep(cfg, pending, now);
    if f.payloadSize > cfg.maxMessageSize then Step(swept, None)
    else
      var k := Key(sender, f.sequenceNumber);
      var out := StepSet(if k in swept then swept[k] else OpenSet(f, created), f);
      Step(Store(swept, k, out.slot), out.message)
  }

  /** The receive loop's treatment of one datagram. */
  function Receive(cfg: Config, pending: Pending, i: Input): Step {
    match i.packet
    case None => Step(pending, None)
    case Some(Short(sequenceNumber, channel, data)) =>
      Step(pending, Some(LcmMessage(channel, sequenceNumber, data)))
    case Some(Frag(f)) => Process(cfg, pending, f, i.sender, i.now, i.created)
  }

  // ----- traces -----

  datatype Run = Run(pending: Pending, messages: seq<Option<LcmMessage>>)

  /** The table after a trace, and for every datagram of it the message it completed, if any. */
  function RunFrom(cfg: Config, pending: Pending, inputs: seq<Input>): (r: Run)
    ensures |r.messages| == |inputs|
  {
    if inputs == [] then Run(pending, [])
    else
      var r := RunFrom(cfg, pending, DropLast(inputs));
      var step := Receive(cfg, r.pending, Last(inputs));
      Run(step.pending, r.messages + [step.message])
  }

  lemma {:induction false} RunConcat(cfg: Config, pending: Pending, a: seq<Input>, b: seq<Input>)
    ensures var first := RunFrom(cfg, pending, a);
      var second := RunFrom(cfg, first.pending, b);
      RunFrom(cfg, pending, a + b) == Run(second.pending, first.messages + second.messages)
  {
    if b == [] {
      assert a + b == a;
    } else {
      RunConcat(cfg, pending, a, DropLast(b));
      assert DropLast(a + b) == a + DropLast(b);
    }
  }

  /** Message `i` of a run is what datagram `i` completes after the datagrams before it. */
  lemma {:induction false} MessageAt(cfg: Config, pending: Pending, inputs: seq<Input>, i: nat)
    requires i < |inputs|
    ensures RunFrom(cfg, pending, inputs).messages[i]
      == Receive(cfg, RunFrom(cfg, pending, inputs[..i]).pending, inputs[i]).message
  {
    if i == |inputs| - 1 {
    } else {
      MessageAt(cfg, pending, DropLast(inputs), i);
      assert DropLast(inputs)[..i] == inputs[..i];
    }
  }

  predicate IsFragment(i: Input) {
    i.packet.Some? && i.packet.value.Frag?
  }

  function FragmentOf(i: Input): Fragment
    requires IsFragment(i)
  {
    i.packet.value.fragment
  }

  function KeyOf(i: Input): Key
    requires IsFragment(i)
  {
    Key(i.sender, FragmentOf(i).sequenceNumber)
  }

  /** The monotone clock: every reading is at least every earlier one. */
  ghost predicate Monotone(inputs: seq<Input>) {
    && (forall i :: 0 <= i < |inputs| ==> inputs[i].now <= inputs[i].created)
    && (forall i, j :: 0 <= i < j < |inputs| ==> inputs[i].created <= inputs[j].now)
  }

  // ----- the invariant of every set -----

  function CountTrue(mask: seq<bool>): nat {
    if mask == [] then 0 else CountTrue(DropLast(mask)) + if Last(mask) then 1 else 0
  }

  lemma {:induction false} CountTrueBound(mask: seq<bool>)
    ensures CountTrue(mask) <= |mask|
    ensures CountTrue(mask) == |mask| <==> forall i :: 0 <= i < |mask| ==> mask[i]
  {
    if mask == [] {
    } else {
      CountTrueBound(DropLast(mask));
    }
  }

  lemma {:induction false} CountTrueMark(mask: seq<bool>, i: nat)
    requires i < |mask| && !mask[i]
    ensures CountTrue(mask[i := true]) == CountTrue(mask) + 1
  {
    if i == |mask| - 1 {
      assert DropLast(mask[i := true]) == DropLast(mask);
    } else {
      CountTrueMark(DropLast(mask), i);
      assert DropLast(mask[i := true]) == DropLast(mask)[i := true];
    }
  }

  lemma {:induction false} CountTrueNone(n: nat)
    ensures CountTrue(seq(n, _ => false)) == 0
  {
    if n == 0 {
    } else {
      var mask := seq(n, _ => false);
      assert DropLast(mask) == seq(n - 1, _ => false);
      CountTrueNone(n - 1);
    }
  }

  predicate Balanced(s: SetView) {
    && |s.buffer| == s.payloadSize
    && |s.receivedMask| == s.nFragments
    && s.fragmentsReceived == CountTrue(s.receivedMask)
  }

  /** Sized by its header, within the cap, counting its mask, and never complete. */
  predicate SetInvariant(cfg: Config, s: SetView) {
    && Balanced(s)
    && s.payloadSize <= cfg.maxMessageSize
    && (s.fragmentsReceived < s.nFragments || s.fragmentsReceived == s.nFragments == 0)
  }

  ghost predicate TableInvariant(cfg: Config, pending: Pending) {
    forall k :: k in pending ==> SetInvariant(cfg, pending[k])
  }

  lemma OpenSetInvariant(cfg: Config, f: Fragment, created: nat)
    requires f.payloadSize <= cfg.maxMessageSize
    ensures SetInvariant(cfg, OpenSet(f, created))
  {
    CountTrueNone(f.nFragments);
  }

  /**
   One fragment keeps the invariant. It leaves the set incomplete, or it is the one whose
   number was still missing and the message has the announced size.
   */
  lemma StepSetInvariant(cfg: Config, s: SetView, f: Fragment)
    requires SetInvariant(cfg, s)
    ensures var out := StepSet(s, f);
      && (out.slot.Some? ==> SetInvariant(cfg, out.slot.value) && out.message.None?)
      && (out.slot.None? ==>
        && out.message.Some? && |out.message.value.data| == s.payloadSize
        && f.fragmentNumber < s.nFragments == s.fragmentsReceived + 1
        && (forall j :: 0 <= j < s.nFragments ==> (s.receivedMask[j] <==> j != f.fragmentNumber)))
  {
    var s0 := StoreChannel(s, f);
    if Judge(s0, f) == Accepted {
      var s' := Accept(s0, f);
      CountTrueMark(s0.receivedMask, f.fragmentNumber);
      CountTrueBound(s0.receivedMask);
      CountTrueBound(s'.receivedMask);
      assert forall j :: 0 <= j < s.nFragments && j != f.fragmentNumber ==> s'.receivedMask[j] == s.receivedMask[j];
    }
  }

  lemma ProcessInvariant(cfg: Config, pending: Pending, f: Fragment, sender: SocketAddr, now: nat, created: nat)
    requires TableInvariant(cfg, pending)
    ensures TableInvariant(cfg, Process(cfg, pending, f, sender, now, created).pending)
  {
    if f.payloadSize <= cfg.maxMessageSize {
      var k := Key(sender, f.sequenceNumber);
      var swept := Sweep(cfg, pending, now);
      OpenSetInvariant(cfg, f, created);
      StepSetInvariant(cfg, if k in swept then swept[k] else OpenSet(f, created), f);
    }
  }

  lemma ReceiveInvariant(cfg: Config, pending: Pending, i: Input)
    requires TableInvariant(cfg, pending)
    ensures TableInvariant(cfg, Receive(cfg, pending, i).pending)
  {
    if IsFragment(i) {
      ProcessInvariant(cfg, pending, FragmentOf(i), i.sender, i.now, i.created);
    }
  }

  /** In every reachable table every set satisfies the invariant. */
  lemma {:induction false} ReachableInvariant(cfg: Config, inputs: seq<Input>)
    ensures TableInvariant(cfg, RunFrom(cfg, map[], inputs).pending)
  {
    if inputs == [] {
    } else {
      ReachableInvariant(cfg, DropLast(inputs));
      ReceiveInvariant(cfg, RunFrom(cfg, map[], DropLast(inputs)).pending, Last(inputs));
    }
  }
}
