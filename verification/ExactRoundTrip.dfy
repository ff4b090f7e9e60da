/** The round trip under no other conditions: exactly when an emitted message comes back unchanged. */
module ExactRoundTrip {
  import opened Primitives
  import opened Protocol
  import opened Reassembly
  import opened Isolation
  import opened Confluence
  import opened Fragmentation
  import opened Transport
  import opened EndToEnd
  import Noise
  import Provenance

  /** Whatever a run reassembles is within the cap and 32 bits, and its channel has no NUL. */
  lemma ReassembledWithinLimits(cfg: Config, arrivals: seq<Arrival>, c: nat)
    requires forall j :: 0 <= j < |arrivals| ==> arrivals[j].Datagram?
    requires c < |arrivals| && Monotone(InputsOf(arrivals)) && IsFragment(InputOf(arrivals[c]))
    requires RunFrom(cfg, map[], InputsOf(arrivals)).messages[c].Some?
    ensures var m := RunFrom(cfg, map[], InputsOf(arrivals)).messages[c].value;
      |m.data| < U32_COUNT && |m.data| <= cfg.maxMessageSize && ChannelOnWire(m.channel)
  {
    var inputs, k := InputsOf(arrivals), KeyOf(InputOf(arrivals[c]));
    var m := RunFrom(cfg, map[], inputs).messages[c].value;
    Provenance.EveryDeliveryGenuine(cfg, inputs, c);
    var log :| Provenance.Genuine(cfg, inputs[..c + 1], k, m, log);
    if log.namedAt.Some? {
      EncodeInvertsParse(Truncated(arrivals[log.namedAt.value].bytes));
    }
  }

  /** Parsing guarantees that a fragment numbered 0 names a channel. */
  lemma {:induction false} ParsedZeroNamesChannel(arrivals: seq<Arrival>, k: Key)
    requires forall j :: 0 <= j < |arrivals| ==> arrivals[j].Datagram?
    ensures Provenance.ZeroNamesChannel(InputsOf(arrivals), k)
  {
    forall j | 0 <= j < |arrivals| && Concerns(InputOf(arrivals[j]), k)
      ensures FragmentOf(InputOf(arrivals[j])).fragmentNumber == 0 ==> FragmentOf(InputOf(arrivals[j])).channel.Some?
    {
      EncodeInvertsParse(Truncated(arrivals[j].bytes));
    }
  }

  lemma EmittedIsNoShort(job: Job, seqno: u32, i: nat)
    requires job.Fragmented() && i < job.Count() && job.mtu <= 65536
    ensures var parsed := ParseDatagram(Truncated(EncodeFragment(job.FragmentAt(seqno, i))));
      parsed.Some? ==> parsed.value.Frag?
  {
    var f := job.FragmentAt(seqno, i);
    CountAtMostFull(job);
    job.DatagramSizes(seqno, i);
    assert Truncated(EncodeFragment(f)) == EncodeFragment(f);
    var parsed := ParseDatagram(EncodeFragment(f));
    if parsed.Some? && parsed.value.Short? {
      EncodeInvertsParse(EncodeFragment(f));
      FormatsDisjoint(parsed.value.sequenceNumber, parsed.value.channel, parsed.value.data, f);
    }
  }

  lemma LastArrivalIsEmitted(arrivals: seq<Arrival>, c: nat, sender: SocketAddr, ds: seq<Bytes>) returns (i: nat)
    requires c < |arrivals|
    requires AllArrived(arrivals[..c + 1], sender, ds) && !AllArrived(arrivals[..c], sender, ds)
    ensures i < |ds| && arrivals[c].Datagram? && arrivals[c].sender == sender && arrivals[c].bytes == ds[i]
  {
    i :| 0 <= i < |ds| && !Arrived(arrivals[..c], sender, ds[i]);
    assert Arrived(arrivals[..c + 1], sender, ds[i]);
    var j :| 0 <= j < c + 1 && arrivals[j].Datagram? && arrivals[j].sender == sender && arrivals[j].bytes == ds[i];
  }

  /** The receiver can return the message, and the datagrams cover all of it that is not zero. */
  predicate Returnable(cfg: Config, job: Job)
    requires job.Viable()
  {
    && ChannelOnWire(job.channel) && |job.data| < U32_COUNT && |job.data| <= cfg.maxMessageSize
    && (|job.data| <= job.LosslessLimit()
      || forall p: nat :: job.Start(job.Count()) <= p < |job.data| ==> job.data[p] == 0)
  }

  /** The message `c` of a run that continues an earlier one. */
  lemma LaterMessage(cfg: Config, start: Pending, earlier: seq<Arrival>, arrivals: seq<Arrival>, c: nat)
    requires forall j :: 0 <= j < |earlier| ==> earlier[j].Datagram?
    requires forall j :: 0 <= j < |arrivals| ==> arrivals[j].Datagram?
    requires c < |arrivals|
    ensures var table := RunFrom(cfg, start, InputsOf(earlier)).pending;
      RunFrom(cfg, start, InputsOf(earlier + arrivals)).messages[|earlier| + c]
      == RunFrom(cfg, table, InputsOf(arrivals)).messages[c]
  {
    assert InputsOf(earlier + arrivals) == InputsOf(earlier) + InputsOf(arrivals);
    RunConcat(cfg, start, InputsOf(earlier), InputsOf(arrivals));
  }

  lemma CompletionIsFragment(cfg: Config, job: Job, sender: SocketAddr, seqno: u32,
                             pending: Pending, arrivals: seq<Arrival>, c: nat)
    requires job.Fragmented() && job.mtu <= 65536
    requires forall j :: 0 <= j < |arrivals| ==> arrivals[j].Datagram?
    requires ArrivedAt(cfg, job, sender, seqno, arrivals, c)
    requires RunFrom(cfg, pending, InputsOf(arrivals)).messages[c].Some?
    ensures IsFragment(InputOf(arrivals[c]))
  {
    MessageAt(cfg, pending, InputsOf(arrivals), c);
    var i := LastArrivalIsEmitted(arrivals, c, sender, EncodeAll(job.Fragments(seqno)));
    EmittedIsNoShort(job, seqno, i);
  }

  /** A live set with another header keeps the message from being delivered. */
  lemma BlockedByForeignSet(cfg: Config, job: Job, sender: SocketAddr, seqno: u32,
                            pending: Pending, arrivals: seq<Arrival>, c: nat)
    requires Receivable(cfg, job) && forall j :: 0 <= j < |arrivals| ==> arrivals[j].Datagram?
    requires ArrivedAt(cfg, job, sender, seqno, arrivals, c)
    requires var k := Key(sender, seqno);
      Noise.ForeignSet(cfg, Lookup(pending, k), InputsOf(arrivals[..c + 1]), k, |job.data|, job.Count())
    ensures forall j :: 0 <= j <= c && Concerns(InputOf(arrivals[j]), Key(sender, seqno)) ==>
      RunFrom(cfg, pending, InputsOf(arrivals)).messages[j].None?
  {
    var inputs, k, upto := InputsOf(arrivals), Key(sender, seqno), InputsOf(arrivals[..c + 1]);
    InputsPrefix(arrivals, c + 1);
    FragmentsAreFamily(cfg, job, sender, seqno);
    EmittedOnlyFrom(cfg, job, sender, seqno, arrivals[..c + 1]);
    MonotoneUpTo(inputs, c + 1);
    Noise.ForeignSetBlocksFamily(cfg, job.Fragments(seqno), k, |job.data|, pending, upto);
    PrefixMessages(cfg, pending, inputs, c + 1);
  }

  lemma CompletionConcerns(cfg: Config, job: Job, sender: SocketAddr, seqno: u32, arrivals: seq<Arrival>, c: nat)
    requires Receivable(cfg, job) && forall j :: 0 <= j < |arrivals| ==> arrivals[j].Datagram?
    requires ArrivedAt(cfg, job, sender, seqno, arrivals, c)
    ensures Concerns(InputOf(arrivals[c]), Key(sender, seqno))
  {
    var i := LastArrivalIsEmitted(arrivals, c, sender, EncodeAll(job.Fragments(seqno)));
    EmittedInput(cfg, job, sender, seqno, arrivals[c], i);
  }

  lemma WithinLimits(cfg: Config, all: seq<Arrival>, c: nat, a: Arrival)
    requires forall j :: 0 <= j < |all| ==> all[j].Datagram?
    requires c < |all| && all[c] == a && Monotone(InputsOf(all)) && IsFragment(InputOf(a))
    ensures var m := RunFrom(cfg, map[], InputsOf(all)).messages[c];
      m.Some? ==>
      |m.value.data| < U32_COUNT && |m.value.data| <= cfg.maxMessageSize && ChannelOnWire(m.value.channel)
  {
    if RunFrom(cfg, map[], InputsOf(all)).messages[c].Some? {
      ReassembledWithinLimits(cfg, all, c);
    }
  }

  lemma LaterWithinLimits(cfg: Config, earlier: seq<Arrival>, arrivals: seq<Arrival>, c: nat)
    requires forall j :: 0 <= j < |earlier| ==> earlier[j].Datagram?
    requires forall j :: 0 <= j < |arrivals| ==> arrivals[j].Datagram?
    requires Monotone(InputsOf(earlier + arrivals)) && c < |arrivals| && IsFragment(InputOf(arrivals[c]))
    requires RunFrom(cfg, RunFrom(cfg, map[], InputsOf(earlier)).pending, InputsOf(arrivals)).messages[c].Some?
    ensures var m := RunFrom(cfg, RunFrom(cfg, map[], InputsOf(earlier)).pending, InputsOf(arrivals)).messages[c].value;
      |m.data| < U32_COUNT && |m.data| <= cfg.maxMessageSize && ChannelOnWire(m.channel)
  {
    LaterMessage(cfg, map[], earlier, arrivals, c);
    WithinLimits(cfg, earlier + arrivals, |earlier| + c, arrivals[c]);
  }

  lemma OnlyReceivableReturns(cfg: Config, job: Job, sender: SocketAddr, seqno: u32,
                              earlier: seq<Arrival>, arrivals: seq<Arrival>, c: nat)
    requires job.Fragmented() && job.Count() > 0 && job.mtu <= 65536
    requires forall j :: 0 <= j < |earlier| ==> earlier[j].Datagram?
    requires forall j :: 0 <= j < |arrivals| ==> arrivals[j].Datagram?
    requires Monotone(InputsOf(earlier + arrivals)) && ArrivedAt(cfg, job, sender, seqno, arrivals, c)
    requires RunFrom(cfg, RunFrom(cfg, map[], InputsOf(earlier)).pending, InputsOf(arrivals)).messages[c]
      == Some(LcmMessage(job.channel, seqno, job.data))
    ensures Receivable(cfg, job)
  {
    CompletionIsFragment(cfg, job, sender, seqno, RunFrom(cfg, map[], InputsOf(earlier)).pending, arrivals, c);
    LaterWithinLimits(cfg, earlier, arrivals, c);
  }

  // ----- a set with another header that expires on the way -----

  /** From input `e` on the key has no live set; before, it has one with another header. */
  ghost predicate FreeFrom(cfg: Config, job: Job, k: Key, slot: Slot, inputs: seq<Input>, e: nat)
    requires job.Viable()
  {
    && e <= |inputs| && NoLiveSet(cfg, slot, inputs[e..], k)
    && (e == 0 || Noise.ForeignSet(cfg, slot, inputs[..e], k, |job.data| % U32_COUNT, job.Count()))
  }

  lemma StaleStaysStale(cfg: Config, s: SetView, inputs: seq<Input>, j: nat)
    requires Monotone(inputs) && j < |inputs| - 1 && !Stale(cfg, s, Last(inputs).now)
    ensures !Stale(cfg, s, inputs[j].now)
  {
    assert inputs[j].now <= inputs[j].created <= inputs[|inputs| - 1].now;
  }

  lemma NotYetFree(cfg: Config, job: Job, k: Key, slot: Slot, inputs: seq<Input>)
    requires job.Viable() && Monotone(inputs) && inputs != [] && slot.Some?
    requires slot.value.payloadSize != |job.data| % U32_COUNT || slot.value.nFragments != job.Count()
    requires !Stale(cfg, slot.value, Last(inputs).now)
    ensures FreeFrom(cfg, job, k, slot, inputs, |inputs|)
  {
    assert inputs[..|inputs|] == inputs;
    forall j: nat | j < |inputs| && Concerns(inputs[j], k)
      ensures !Stale(cfg, slot.value, inputs[j].now)
    {
      if j < |inputs| - 1 {
        StaleStaysStale(cfg, slot.value, inputs, j);
      }
    }
  }

  lemma FreeOneMore(cfg: Config, job: Job, k: Key, slot: Slot, inputs: seq<Input>, i: Input, e: nat)
    requires job.Viable() && FreeFrom(cfg, job, k, slot, inputs, e)
    requires slot.Some? && Concerns(i, k) ==> Stale(cfg, slot.value, i.now)
    ensures FreeFrom(cfg, job, k, slot, inputs + [i], e)
  {
    assert (inputs + [i])[..e] == inputs[..e];
    assert (inputs + [i])[e..] == inputs[e..] + [i];
  }

  /** There is such a point for any set with another header. */
  lemma {:induction false} FreeFromExists(cfg: Config, job: Job, k: Key, slot: Slot, inputs: seq<Input>) returns (e: nat)
    requires job.Viable() && Monotone(inputs)
    requires slot.Some? ==>
      slot.value.payloadSize != |job.data| % U32_COUNT || slot.value.nFragments != job.Count()
    ensures FreeFrom(cfg, job, k, slot, inputs, e)
  {
    if inputs == [] || slot.None? {
      e := 0;
    } else if Concerns(Last(inputs), k) && !Stale(cfg, slot.value, Last(inputs).now) {
      e := |inputs|;
      NotYetFree(cfg, job, k, slot, inputs);
    } else {
      MonotonePrefix(inputs);
      e := FreeFromExists(cfg, job, k, slot, DropLast(inputs));
      FreeOneMore(cfg, job, k, slot, DropLast(inputs), Last(inputs), e);
      assert inputs == DropLast(inputs) + [Last(inputs)];
    }
  }

  lemma SliceArrived(arrivals: seq<Arrival>, e: nat, c: nat, sender: SocketAddr, ds: seq<Bytes>)
    requires e <= c <= |arrivals| && AllArrived(arrivals[e..c], sender, ds)
    ensures AllArrived(arrivals[..c], sender, ds)
  {
    forall i | 0 <= i < |ds|
      ensures Arrived(arrivals[..c], sender, ds[i])
    {
      assert Arrived(arrivals[e..c], sender, ds[i]);
      var j :| 0 <= j < c - e && arrivals[e..c][j].Datagram? && arrivals[e..c][j].sender == sender
        && arrivals[e..c][j].bytes == ds[i];
      assert arrivals[..c][e + j] == arrivals[e..c][j];
    }
  }

  /** From the point where the key is free, the emitted traffic up to `c` is in order for any theorem about it. */
  lemma SliceIsClean(cfg: Config, job: Job, sender: SocketAddr, seqno: u32, arrivals: seq<Arrival>, c: nat, e: nat)
    requires job.Viable() && forall j :: 0 <= j < |arrivals| ==> arrivals[j].Datagram?
    requires ArrivedAt(cfg, job, sender, seqno, arrivals, c) && e <= c
    ensures var slice := arrivals[e..c + 1];
      && Monotone(InputsOf(slice)) && OnlyEmitted(slice, sender, job, seqno)
      && Timely(cfg, InputsOf(slice), Key(sender, seqno))
      && InputsOf(slice) == InputsOf(arrivals[..c + 1])[e..]
  {
    var slice, upto, inputs := arrivals[e..c + 1], InputsOf(arrivals[..c + 1]), InputsOf(arrivals);
    assert forall j :: 0 <= j < |slice| ==> slice[j] == arrivals[..c + 1][e + j];
    assert InputsOf(slice) == upto[e..];
    assert forall j :: 0 <= j < |slice| ==> InputsOf(slice)[j] == upto[e + j] == inputs[e + j];
  }

  /** Emitted traffic, in time, to a table without a live set for it. */
  ghost predicate CleanSlice(cfg: Config, job: Job, sender: SocketAddr, seqno: u32, middle: Pending, slice: seq<Arrival>)
    requires job.Viable() && forall j :: 0 <= j < |slice| ==> slice[j].Datagram?
  {
    var k := Key(sender, seqno);
    && Monotone(InputsOf(slice)) && OnlyEmitted(slice, sender, job, seqno) && Timely(cfg, InputsOf(slice), k)
    && NoLiveSet(cfg, Lookup(middle, k), InputsOf(slice), k)
  }

  /** What such a slice delivers at its end. */
  lemma SliceDelivers(cfg: Config, job: Job, sender: SocketAddr, seqno: u32, middle: Pending, slice: seq<Arrival>)
    requires Receivable(cfg, job) && slice != [] && forall j :: 0 <= j < |slice| ==> slice[j].Datagram?
    requires CleanSlice(cfg, job, sender, seqno, middle, slice)
    requires !AllArrived(DropLast(slice), sender, EncodeAll(job.Fragments(seqno)))
    requires Concerns(InputOf(Last(slice)), Key(sender, seqno))
    ensures Last(RunFrom(cfg, middle, InputsOf(slice)).messages)
      == if AllArrived(slice, sender, EncodeAll(job.Fragments(seqno)))
         then Some(LcmMessage(job.channel, seqno, Assembled(job))) else None
  {
    var c := |slice| - 1;
    assert slice[..c + 1] == slice;
    if AllArrived(slice, sender, EncodeAll(job.Fragments(seqno))) {
      MessageDelivered(cfg, job, sender, seqno, middle, slice, c);
    } else {
      SliceSilent(cfg, job, sender, seqno, middle, slice);
    }
  }

  lemma SliceSilent(cfg: Config, job: Job, sender: SocketAddr, seqno: u32, middle: Pending, slice: seq<Arrival>)
    requires Receivable(cfg, job) && forall j :: 0 <= j < |slice| ==> slice[j].Datagram?
    requires CleanSlice(cfg, job, sender, seqno, middle, slice)
    requires !AllArrived(slice, sender, EncodeAll(job.Fragments(seqno)))
    ensures !SomeDelivered(InputsOf(slice), Key(sender, seqno), 0, RunFrom(cfg, middle, InputsOf(slice)).messages)
  {
    FragmentsAreFamily(cfg, job, sender, seqno);
    EmittedOnlyFrom(cfg, job, sender, seqno, slice);
    SeenAllIffArrived(cfg, job, sender, seqno, slice);
    DeliveredIffWhole(cfg, job.Fragments(seqno), Key(sender, seqno), |job.data|, job.channel, middle, InputsOf(slice));
  }

  /** After the set with another header, the key is free for the slice. */
  lemma FreeAfterForeign(cfg: Config, job: Job, sender: SocketAddr, seqno: u32,
                         pending: Pending, arrivals: seq<Arrival>, c: nat, e: nat)
    requires Receivable(cfg, job) && forall j :: 0 <= j < |arrivals| ==> arrivals[j].Datagram?
    requires ArrivedAt(cfg, job, sender, seqno, arrivals, c) && e <= c
    requires FreeFrom(cfg, job, Key(sender, seqno), Lookup(pending, Key(sender, seqno)), InputsOf(arrivals[..c + 1]), e)
    ensures var k, middle := Key(sender, seqno), RunFrom(cfg, pending, InputsOf(arrivals[..e])).pending;
      NoLiveSet(cfg, Lookup(middle, k), InputsOf(arrivals[..c + 1])[e..], k)
  {
    var k, upto := Key(sender, seqno), InputsOf(arrivals[..c + 1]);
    if e == 0 {
      assert InputsOf(arrivals[..e]) == [];
      assert RunFrom(cfg, pending, InputsOf(arrivals[..e])).pending == pending;
    } else {
      SmallModulo(|job.data|);
      FragmentsAreFamily(cfg, job, sender, seqno);
      EmittedOnlyFrom(cfg, job, sender, seqno, arrivals[..c + 1]);
      assert arrivals[..c + 1][..e] == arrivals[..e];
      InputsPrefix(arrivals[..c + 1], e);
      InputsPrefix(arrivals, c + 1);
      MonotoneUpTo(InputsOf(arrivals), c + 1);
      Noise.ForeignSetExpires(cfg, job.Fragments(seqno), k, |job.data|, pending, upto, e);
    }
  }

  lemma NothingArrived(cfg: Config, job: Job, sender: SocketAddr, seqno: u32, arrivals: seq<Arrival>, c: nat)
    requires Receivable(cfg, job) && c < |arrivals|
    ensures !AllArrived(arrivals[c + 1..c + 1], sender, EncodeAll(job.Fragments(seqno)))
  {
    assert !Arrived(arrivals[c + 1..c + 1], sender, EncodeAll(job.Fragments(seqno))[0]);
  }

  lemma SliceIncomplete(arrivals: seq<Arrival>, e: nat, c: nat, sender: SocketAddr, ds: seq<Bytes>)
    requires e <= c < |arrivals| && !AllArrived(arrivals[..c], sender, ds)
    ensures !AllArrived(DropLast(arrivals[e..c + 1]), sender, ds)
  {
    assert DropLast(arrivals[e..c + 1]) == arrivals[e..c];
    if AllArrived(arrivals[e..c], sender, ds) {
      SliceArrived(arrivals, e, c, sender, ds);
    }
  }

  lemma UpToMessage(cfg: Config, pending: Pending, arrivals: seq<Arrival>, c: nat)
    requires c < |arrivals| && forall j :: 0 <= j < |arrivals| ==> arrivals[j].Datagram?
    ensures RunFrom(cfg, pending, InputsOf(arrivals)).messages[c]
      == RunFrom(cfg, pending, InputsOf(arrivals[..c + 1])).messages[c]
  {
    InputsPrefix(arrivals, c + 1);
    PrefixMessages(cfg, pending, InputsOf(arrivals), c + 1);
  }

  lemma SliceMessage(cfg: Config, pending: Pending, arrivals: seq<Arrival>, c: nat, e: nat)
    requires e <= c < |arrivals| && forall j :: 0 <= j < |arrivals| ==> arrivals[j].Datagram?
    ensures var middle := RunFrom(cfg, pending, InputsOf(arrivals[..e])).pending;
      RunFrom(cfg, pending, InputsOf(arrivals)).messages[c]
      == Last(RunFrom(cfg, middle, InputsOf(arrivals[e..c + 1])).messages)
  {
    var before, slice := arrivals[..e], arrivals[e..c + 1];
    assert arrivals[..c + 1] == before + slice;
    LaterMessage(cfg, pending, before, slice, c - e);
    UpToMessage(cfg, pending, arrivals, c);
  }

  lemma SliceComesClean(cfg: Config, job: Job, sender: SocketAddr, seqno: u32,
                        pending: Pending, arrivals: seq<Arrival>, c: nat, e: nat)
    requires Receivable(cfg, job) && forall j :: 0 <= j < |arrivals| ==> arrivals[j].Datagram?
    requires ArrivedAt(cfg, job, sender, seqno, arrivals, c) && e <= c
    requires FreeFrom(cfg, job, Key(sender, seqno), Lookup(pending, Key(sender, seqno)), InputsOf(arrivals[..c + 1]), e)
    ensures var middle := RunFrom(cfg, pending, InputsOf(arrivals[..e])).pending;
      CleanSlice(cfg, job, sender, seqno, middle, arrivals[e..c + 1])
  {
    SliceIsClean(cfg, job, sender, seqno, arrivals, c, e);
    FreeAfterForeign(cfg, job, sender, seqno, pending, arrivals, c, e);
  }

  lemma SliceReturns(cfg: Config, job: Job, sender: SocketAddr, seqno: u32, pending: Pending,
                     arrivals: seq<Arrival>, c: nat, e: nat, slice: seq<Arrival>, expected: Option<LcmMessage>)
    requires Receivable(cfg, job) && forall j :: 0 <= j < |arrivals| ==> arrivals[j].Datagram?
    requires e <= c < |arrivals| && slice == arrivals[e..c + 1]
    requires CleanSlice(cfg, job, sender, seqno, RunFrom(cfg, pending, InputsOf(arrivals[..e])).pending, slice)
    requires !AllArrived(DropLast(slice), sender, EncodeAll(job.Fragments(seqno)))
    requires Concerns(InputOf(Last(slice)), Key(sender, seqno))
    requires expected == if AllArrived(slice, sender, EncodeAll(job.Fragments(seqno)))
      then Some(LcmMessage(job.channel, seqno, Assembled(job))) else None
    ensures RunFrom(cfg, pending, InputsOf(arrivals)).messages[c] == expected
  {
    SliceMessage(cfg, pending, arrivals, c, e);
    SliceDelivers(cfg, job, sender, seqno, RunFrom(cfg, pending, InputsOf(arrivals[..e])).pending, slice);
  }

  lemma SliceEnds(arrivals: seq<Arrival>, c: nat, e: nat, slice: seq<Arrival>, k: Key, sender: SocketAddr, ds: seq<Bytes>)
    requires e <= c < |arrivals| && slice == arrivals[e..c + 1] && arrivals[c].Datagram?
    requires !AllArrived(arrivals[..c], sender, ds) && Concerns(InputOf(arrivals[c]), k)
    ensures slice != [] && Last(slice).Datagram? && Concerns(InputOf(Last(slice)), k)
    ensures !AllArrived(DropLast(slice), sender, ds)
  {
    assert Last(slice) == arrivals[c];
    SliceIncomplete(arrivals, e, c, sender, ds);
  }

  lemma CleanSliceReturns(cfg: Config, job: Job, sender: SocketAddr, seqno: u32, pending: Pending,
                          arrivals: seq<Arrival>, c: nat, e: nat, slice: seq<Arrival>, expected: Option<LcmMessage>)
    requires Receivable(cfg, job) && forall j :: 0 <= j < |arrivals| ==> arrivals[j].Datagram?
    requires e <= c < |arrivals| && slice == arrivals[e..c + 1]
    requires !AllArrived(arrivals[..c], sender, EncodeAll(job.Fragments(seqno)))
    requires CleanSlice(cfg, job, sender, seqno, RunFrom(cfg, pending, InputsOf(arrivals[..e])).pending, slice)
    requires Concerns(InputOf(arrivals[c]), Key(sender, seqno))
    requires expected == if AllArrived(slice, sender, EncodeAll(job.Fragments(seqno)))
      then Some(LcmMessage(job.channel, seqno, Assembled(job))) else None
    ensures RunFrom(cfg, pending, InputsOf(arrivals)).messages[c] == expected
  {
    SliceEnds(arrivals, c, e, slice, Key(sender, seqno), sender, EncodeAll(job.Fragments(seqno)));
    SliceReturns(cfg, job, sender, seqno, pending, arrivals, c, e, slice, expected);
  }

  lemma ReceivableReturns(cfg: Config, job: Job, sender: SocketAddr, seqno: u32,
                          pending: Pending, arrivals: seq<Arrival>, c: nat, e: nat, expected: Option<LcmMessage>)
    requires Receivable(cfg, job) && forall j :: 0 <= j < |arrivals| ==> arrivals[j].Datagram?
    requires ArrivedAt(cfg, job, sender, seqno, arrivals, c)
    requires FreeFrom(cfg, job, Key(sender, seqno), Lookup(pending, Key(sender, seqno)), InputsOf(arrivals[..c + 1]), e)
    requires expected == if AllArrived(arrivals[e..c + 1], sender, EncodeAll(job.Fragments(seqno)))
      then Some(LcmMessage(job.channel, seqno, Assembled(job))) else None
    ensures RunFrom(cfg, pending, InputsOf(arrivals)).messages[c] == expected
  {
    CompletionConcerns(cfg, job, sender, seqno, arrivals, c);
    if e == c + 1 {
      NeverFree(cfg, job, sender, seqno, pending, arrivals, c);
    } else {
      SliceComesClean(cfg, job, sender, seqno, pending, arrivals, c, e);
      CleanSliceReturns(cfg, job, sender, seqno, pending, arrivals, c, e, arrivals[e..c + 1], expected);
    }
  }

  lemma NeverFree(cfg: Config, job: Job, sender: SocketAddr, seqno: u32,
                  pending: Pending, arrivals: seq<Arrival>, c: nat)
    requires Receivable(cfg, job) && forall j :: 0 <= j < |arrivals| ==> arrivals[j].Datagram?
    requires ArrivedAt(cfg, job, sender, seqno, arrivals, c) && Concerns(InputOf(arrivals[c]), Key(sender, seqno))
    requires var k, upto := Key(sender, seqno), InputsOf(arrivals[..c + 1]);
      FreeFrom(cfg, job, k, Lookup(pending, k), upto, c + 1)
    ensures RunFrom(cfg, pending, InputsOf(arrivals)).messages[c].None?
    ensures !AllArrived(arrivals[c + 1..c + 1], sender, EncodeAll(job.Fragments(seqno)))
  {
    NothingArrived(cfg, job, sender, seqno, arrivals, c);
    SmallModulo(|job.data|);
    assert InputsOf(arrivals[..c + 1])[..c + 1] == InputsOf(arrivals[..c + 1]);
    BlockedByForeignSet(cfg, job, sender, seqno, pending, arrivals, c);
  }

  /**
   Once the network has done its part, after any earlier traffic, the message comes back unchanged
   exactly when it is returnable and all of it arrives after any set with another header expired.
   */
  lemma RoundTripExactly(cfg: Config, job: Job, sender: SocketAddr, seqno: u32,
                         earlier: seq<Arrival>, arrivals: seq<Arrival>, c: nat, e: nat)
    requires job.Fragmented() && job.Count() > 0 && job.mtu <= 65536
    requires forall j :: 0 <= j < |earlier| ==> earlier[j].Datagram?
    requires forall j :: 0 <= j < |arrivals| ==> arrivals[j].Datagram?
    requires Monotone(InputsOf(earlier + arrivals)) && ArrivedAt(cfg, job, sender, seqno, arrivals, c)
    requires var k, table := Key(sender, seqno), RunFrom(cfg, map[], InputsOf(earlier)).pending;
      FreeFrom(cfg, job, k, Lookup(table, k), InputsOf(arrivals[..c + 1]), e)
    ensures var table := RunFrom(cfg, map[], InputsOf(earlier)).pending;
      RunFrom(cfg, table, InputsOf(arrivals)).messages[c] == Some(LcmMessage(job.channel, seqno, job.data))
      <==> Returnable(cfg, job) && AllArrived(arrivals[e..c + 1], sender, EncodeAll(job.Fragments(seqno)))
  {
    var table := RunFrom(cfg, map[], InputsOf(earlier)).pending;
    if Receivable(cfg, job) {
      var whole := AllArrived(arrivals[e..c + 1], sender, EncodeAll(job.Fragments(seqno)));
      ReceivableReturns(cfg, job, sender, seqno, table, arrivals, c, e,
                        if whole then Some(LcmMessage(job.channel, seqno, Assembled(job))) else None);
      DataSurvivesExactly(job);
    } else if RunFrom(cfg, table, InputsOf(arrivals)).messages[c] == Some(LcmMessage(job.channel, seqno, job.data)) {
      OnlyReceivableReturns(cfg, job, sender, seqno, earlier, arrivals, c);
    }
  }
}
