/**
 Fragments whose byte ranges overlap: the order of arrival decides. A channel with a NUL makes
 such fragments, because its remainder ends up in front of the data of fragment number 0.
 */
module Overlaps {
  import opened Primitives
  import opened Protocol
  import opened Reassembly
  import opened Isolation
  import opened Confluence
  import opened Fragmentation
  import opened Transport
  import opened EndToEnd
  import Provenance

  // ----- fragments of one header in any order -----

  /** Distinct numbers below `n`. */
  ghost predicate Order(order: seq<nat>, n: nat) {
    && (forall a :: 0 <= a < |order| ==> order[a] < n)
    && (forall a, b :: 0 <= a < b < |order| ==> order[a] != order[b])
  }

  function InOrder(fs: seq<Fragment>, order: seq<nat>): (r: seq<Fragment>)
    requires forall a :: 0 <= a < |order| ==> order[a] < |fs|
    ensures |r| == |order| && forall a :: 0 <= a < |r| ==> r[a] == fs[order[a]]
  {
    seq(|order|, a requires 0 <= a < |order| => fs[order[a]])
  }

  /** The set after the fragments of `order` have been written one after the other. */
  ghost predicate Filling(s: SetView, fs: seq<Fragment>, k: Key, size: u32, channel: Bytes, order: seq<nat>)
    requires Headers(fs, k, size) && Order(order, |fs|)
  {
    && s.payloadSize == size && s.nFragments == |fs| && Balanced(s) && s.fragmentsReceived == |order|
    && (forall q: nat :: q < |fs| ==> (s.receivedMask[q] <==> q in order))
    && (0 in order ==> s.channel == channel)
    && s.buffer == Assemble(size, InOrder(fs, order))
  }

  lemma OneMoreWrite(fs: seq<Fragment>, k: Key, size: u32, order: seq<nat>, i: nat)
    requires Headers(fs, k, size) && Order(order, |fs|) && i < |fs| && i !in order
    ensures Order(order + [i], |fs|)
    ensures Assemble(size, InOrder(fs, order + [i]))
      == Write(Assemble(size, InOrder(fs, order)), fs[i].fragmentOffset, fs[i].data)
  {
    assert DropLast(InOrder(fs, order + [i])) == InOrder(fs, order);
  }

  lemma WholeOrder(order: seq<nat>, n: nat)
    requires Order(order, n) && |order| == n && n > 0
    ensures 0 in order
  {
    Provenance.InjectiveIsOnto(order, n, 0);
  }

  lemma StepFilling(s: SetView, fs: seq<Fragment>, k: Key, size: u32, channel: Bytes, order: seq<nat>, i: nat)
    requires Headers(fs, k, size) && Order(order, |fs|) && i < |fs| && i !in order && fs[0].channel == Some(channel)
    requires Filling(s, fs, k, size, channel, order) && |order| < |fs|
    ensures Order(order + [i], |fs|)
    ensures var out := StepSet(s, fs[i]);
      if |order| + 1 == |fs| then
        out == Outcome(None, Some(LcmMessage(channel, k.sequenceNumber, Assemble(size, InOrder(fs, order + [i])))))
      else
        out.message.None? && out.slot.Some? && out.slot.value.createdAt == s.createdAt
        && Filling(out.slot.value, fs, k, size, channel, order + [i])
  {
    var s0 := StoreChannel(s, fs[i]);
    assert Judge(s0, fs[i]) == Accepted;
    CountTrueMark(s0.receivedMask, i);
    OneMoreWrite(fs, k, size, order, i);
    if |order| + 1 == |fs| {
      WholeOrder(order + [i], |fs|);
    }
  }

  lemma OpenIsFilling(fs: seq<Fragment>, k: Key, size: u32, channel: Bytes, i: nat, created: nat)
    requires Headers(fs, k, size) && i < |fs|
    ensures Filling(OpenSet(fs[i], created), fs, k, size, channel, [])
  {
    CountTrueNone(|fs|);
    assert InOrder(fs, []) == [];
  }

  /** The inputs carry the fragments in this order, all in time for the set that the first of them opens. */
  ghost predicate ArriveInOrder(cfg: Config, fs: seq<Fragment>, k: Key, order: seq<nat>, inputs: seq<Input>) {
    && |inputs| == |order|
    && forall j :: 0 <= j < |inputs| ==>
      && order[j] < |fs| && Concerns(inputs[j], k) && FragmentOf(inputs[j]) == fs[order[j]]
      && (j > 0 ==> inputs[j].now <= inputs[0].created + cfg.timeout)
  }

  lemma OrderPrefix(order: seq<nat>, n: nat)
    requires order != [] && Order(order, n)
    ensures Order(DropLast(order), n) && Last(order) < n
    ensures Last(order) !in DropLast(order) && order == DropLast(order) + [Last(order)]
  {
  }

  lemma ArrivePrefix(cfg: Config, fs: seq<Fragment>, k: Key, order: seq<nat>, inputs: seq<Input>)
    requires inputs != [] && ArriveInOrder(cfg, fs, k, order, inputs)
    ensures ArriveInOrder(cfg, fs, k, DropLast(order), DropLast(inputs))
    ensures Last(order) < |fs| && Concerns(Last(inputs), k) && FragmentOf(Last(inputs)) == fs[Last(order)]
    ensures if |order| == 1 then Last(inputs) == inputs[0] else Last(inputs).now <= inputs[0].created + cfg.timeout
  {
    assert forall j :: 0 <= j < |inputs| - 1 ==> DropLast(inputs)[j] == inputs[j] && DropLast(order)[j] == order[j];
  }

  /** The slot after the fragments of `order`, the first of which opened the set. */
  ghost predicate FillingSlot(slot: Slot, fs: seq<Fragment>, k: Key, size: u32, channel: Bytes,
                              order: seq<nat>, openedAt: nat)
    requires Headers(fs, k, size) && Order(order, |fs|)
  {
    if order == [] then slot.None?
    else slot.Some? && slot.value.createdAt == openedAt && Filling(slot.value, fs, k, size, channel, order)
  }

  lemma OneArrives(cfg: Config, fs: seq<Fragment>, k: Key, size: u32, channel: Bytes,
                   slot: Slot, order: seq<nat>, openedAt: nat, n: nat, i: Input, after: seq<nat>)
    requires Headers(fs, k, size) && size <= cfg.maxMessageSize && fs[0].channel == Some(channel)
    requires Order(order, |fs|) && |order| < |fs| && n < |fs| && n !in order
    requires FillingSlot(slot, fs, k, size, channel, order, openedAt)
    requires Concerns(i, k) && FragmentOf(i) == fs[n]
    requires if order == [] then i.created == openedAt else i.now <= openedAt + cfg.timeout
    requires after == order + [n]
    ensures Order(after, |fs|)
    ensures var out := LazyReceive(cfg, k, slot, i);
      if |after| == |fs| then
        out.message == Some(LcmMessage(channel, k.sequenceNumber, Assemble(size, InOrder(fs, after))))
      else FillingSlot(out.slot, fs, k, size, channel, after, openedAt)
  {
    if order == [] {
      OpenIsFilling(fs, k, size, channel, n, i.created);
      StepFilling(OpenSet(fs[n], i.created), fs, k, size, channel, order, n);
    } else {
      StepFilling(slot.value, fs, k, size, channel, order, n);
    }
  }

  lemma LastStep(cfg: Config, k: Key, inputs: seq<Input>)
    requires inputs != []
    ensures var out := LazyReceive(cfg, k, LazyRun(cfg, k, None, DropLast(inputs)).slot, Last(inputs));
      && LazyRun(cfg, k, None, inputs).slot == out.slot
      && LazyRun(cfg, k, None, inputs).messages[|inputs| - 1] == out.message
  {
  }

  /** Before the last of them the set holds the writes so far. */
  lemma {:induction false} FillingRun(cfg: Config, fs: seq<Fragment>, k: Key, size: u32, channel: Bytes,
                                      order: seq<nat>, inputs: seq<Input>, openedAt: nat)
    requires Headers(fs, k, size) && size <= cfg.maxMessageSize && fs[0].channel == Some(channel)
    requires Order(order, |fs|) && |order| < |fs| && ArriveInOrder(cfg, fs, k, order, inputs)
    requires inputs != [] ==> inputs[0].created == openedAt
    ensures FillingSlot(LazyRun(cfg, k, None, inputs).slot, fs, k, size, channel, order, openedAt)
  {
    if inputs == [] {
    } else {
      var prefix, before, i := DropLast(inputs), DropLast(order), Last(inputs);
      OrderPrefix(order, |fs|);
      ArrivePrefix(cfg, fs, k, order, inputs);
      FillingRun(cfg, fs, k, size, channel, before, prefix, openedAt);
      OneArrives(cfg, fs, k, size, channel, LazyRun(cfg, k, None, prefix).slot, before, openedAt, Last(order), i, order);
      LastStep(cfg, k, inputs);
    }
  }

  /**
   Fragments of one header, whatever their ranges, deliver with the last of them the fold of their
   writes in order of arrival over a zero-filled buffer.
   */
  lemma FoldDelivered(cfg: Config, fs: seq<Fragment>, k: Key, size: u32, channel: Bytes,
                      pending: Pending, order: seq<nat>, inputs: seq<Input>)
    requires Headers(fs, k, size) && size <= cfg.maxMessageSize && fs[0].channel == Some(channel)
    requires Order(order, |fs|) && |order| == |fs| && ArriveInOrder(cfg, fs, k, order, inputs)
    requires Lookup(pending, k).None? && Monotone(inputs)
    ensures RunFrom(cfg, pending, inputs).messages[|inputs| - 1]
      == Some(LcmMessage(channel, k.sequenceNumber, Assemble(size, InOrder(fs, order))))
  {
    var last := |inputs| - 1;
    FoldLazily(cfg, fs, k, size, channel, order, inputs);
    EagerIsLazy(cfg, pending, inputs, k);
    assert Concerns(inputs[last], k);
  }

  /** What the order's last fragment finds. */
  lemma BeforeLast(cfg: Config, fs: seq<Fragment>, k: Key, size: u32, channel: Bytes,
                   order: seq<nat>, inputs: seq<Input>)
    requires Headers(fs, k, size) && size <= cfg.maxMessageSize && fs[0].channel == Some(channel)
    requires Order(order, |fs|) && |order| == |fs| && ArriveInOrder(cfg, fs, k, order, inputs)
    ensures Order(DropLast(order), |fs|)
    ensures FillingSlot(LazyRun(cfg, k, None, DropLast(inputs)).slot, fs, k, size, channel, DropLast(order), inputs[0].created)
  {
    OrderPrefix(order, |fs|);
    ArrivePrefix(cfg, fs, k, order, inputs);
    FillingRun(cfg, fs, k, size, channel, DropLast(order), DropLast(inputs), inputs[0].created);
  }

  lemma LastArrives(cfg: Config, fs: seq<Fragment>, k: Key, size: u32, channel: Bytes,
                    slot: Slot, before: seq<nat>, openedAt: nat, n: nat, i: Input, order: seq<nat>)
    requires Headers(fs, k, size) && size <= cfg.maxMessageSize && fs[0].channel == Some(channel)
    requires Order(before, |fs|) && |before| + 1 == |fs| && n < |fs| && n !in before && order == before + [n]
    requires FillingSlot(slot, fs, k, size, channel, before, openedAt) && Concerns(i, k) && FragmentOf(i) == fs[n]
    requires if before == [] then i.created == openedAt else i.now <= openedAt + cfg.timeout
    ensures Order(order, |fs|) && LazyReceive(cfg, k, slot, i).message
      == Some(LcmMessage(channel, k.sequenceNumber, Assemble(size, InOrder(fs, order))))
  {
    OneArrives(cfg, fs, k, size, channel, slot, before, openedAt, n, i, order);
  }

  lemma FoldLazily(cfg: Config, fs: seq<Fragment>, k: Key, size: u32, channel: Bytes,
                   order: seq<nat>, inputs: seq<Input>)
    requires Headers(fs, k, size) && size <= cfg.maxMessageSize && fs[0].channel == Some(channel)
    requires Order(order, |fs|) && |order| == |fs| && ArriveInOrder(cfg, fs, k, order, inputs)
    ensures LazyRun(cfg, k, None, inputs).messages[|inputs| - 1]
      == Some(LcmMessage(channel, k.sequenceNumber, Assemble(size, InOrder(fs, order))))
  {
    BeforeLast(cfg, fs, k, size, channel, order, inputs);
    LastStep(cfg, k, inputs);
    OrderPrefix(order, |fs|);
    ArrivePrefix(cfg, fs, k, order, inputs);
    LastArrives(cfg, fs, k, size, channel, LazyRun(cfg, k, None, DropLast(inputs)).slot, DropLast(order),
                inputs[0].created, Last(order), Last(inputs), order);
  }

  lemma OneWriter(size: nat, fs: seq<Fragment>, p: nat)
    requires fs != [] && (forall i :: 0 <= i < |fs| ==> Fits(fs[i], size)) && p < size
    ensures var f := Last(fs);
      Assemble(size, fs)[p]
      == if Covers(f, p) then f.data[p - f.fragmentOffset] else Assemble(size, DropLast(fs))[p]
  {
  }

  /** The last fragment that covers a byte decides it. */
  lemma {:induction false} LastWriter(size: nat, fs: seq<Fragment>, a: nat, p: nat)
    requires forall i :: 0 <= i < |fs| ==> Fits(fs[i], size)
    requires a < |fs| && Covers(fs[a], p) && p < size && forall b :: a < b < |fs| ==> !Covers(fs[b], p)
    ensures Assemble(size, fs)[p] == fs[a].data[p - fs[a].fragmentOffset]
  {
    OneWriter(size, fs, p);
    if a == |fs| - 1 {
    } else {
      LastWriter(size, DropLast(fs), a, p);
    }
  }

  // ----- a channel with a NUL -----

  /** A fragmented message whose channel, as any `&str`, may hold a NUL, and does. */
  predicate NulJob(job: Job) {
    && job.Fragmented() && |job.data| <= job.LosslessLimit() && |job.data| < U32_COUNT
    && job.mtu <= 65536 && ValidUtf8(job.channel) && 0 in job.channel
  }

  /** What the emitted fragments parse to. */
  function CutFragments(job: Job, seqno: u32): (fs: seq<Fragment>)
    requires NulJob(job) && job.Count() > 0
    ensures |fs| == job.Count() && fs[0] == CutAtNul(job.FragmentAt(seqno, 0))
    ensures forall i :: 1 <= i < |fs| ==> fs[i] == job.FragmentAt(seqno, i)
  {
    job.Fragments(seqno)[0 := CutAtNul(job.FragmentAt(seqno, 0))]
  }

  lemma CountPositive(job: Job)
    requires NulJob(job)
    ensures job.Count() == job.FullCount() >= 2
  {
    job.CastIsLossless();
    job.CountIsCeiling();
  }

  lemma NulFragmentsParse(job: Job, seqno: u32, i: nat)
    requires NulJob(job) && job.Count() > 0 && i < job.Count()
    ensures ParseDatagram(Truncated(EncodeFragment(job.FragmentAt(seqno, i)))) == Some(Frag(CutFragments(job, seqno)[i]))
  {
    var f := job.FragmentAt(seqno, i);
    CountAtMostFull(job);
    job.DatagramSizes(seqno, i);
    assert Truncated(EncodeFragment(f)) == EncodeFragment(f);
    if i == 0 {
      NulCutsFragment(f);
    } else {
      ParseInvertsEncode(Frag(f));
    }
  }

  /** The data of fragment number 0 as it arrives. */
  function Front(job: Job): Bytes
    requires NulJob(job)
  {
    job.channel[NulPosition(job.channel).value + 1..] + [0] + job.Chunk(0)
  }

  lemma StartsAtZero(job: Job, seqno: u32)
    requires NulJob(job) && job.Count() > 0
    ensures job.FragmentAt(seqno, 0).fragmentOffset == 0
  {
    SmallModulo(job.Start(0));
  }

  lemma CutFront(job: Job, seqno: u32)
    requires NulJob(job) && job.Count() > 0
    ensures var f, cut := job.FragmentAt(seqno, 0), CutFragments(job, seqno)[0];
      cut == f.(channel := cut.channel, data := Front(job))
  {
  }

  lemma CutHeader(job: Job, sender: SocketAddr, seqno: u32, i: nat)
    requires NulJob(job) && i < job.Count() && |Front(job)| <= |job.data|
    ensures Header(CutFragments(job, seqno)[i], Key(sender, seqno), |job.data|, job.Count(), i)
  {
    FragmentHeader(job, sender, seqno, i);
    if i == 0 {
      CutFront(job, seqno);
      StartsAtZero(job, seqno);
    }
  }

  lemma CutHeaders(job: Job, sender: SocketAddr, seqno: u32)
    requires NulJob(job) && job.Count() > 0 && |Front(job)| <= |job.data|
    ensures Headers(CutFragments(job, seqno), Key(sender, seqno), |job.data|)
  {
    var fs := CutFragments(job, seqno);
    forall i | 0 <= i < |fs|
      ensures Header(fs[i], Key(sender, seqno), |job.data|, |fs|, i)
    {
      CutHeader(job, sender, seqno, i);
    }
  }

  /** The front is longer than the first chunk, so it reaches into the range of the next ones. */
  lemma FrontCovers(job: Job, seqno: u32, i: nat, p: nat)
    requires NulJob(job) && job.Count() > 0 && i < job.Count()
    ensures job.Start(1) < |Front(job)|
    ensures Covers(CutFragments(job, seqno)[i], p)
      <==> if i == 0 then p < |Front(job)| else job.Start(i) <= p < job.Start(i + 1)
    ensures Covers(CutFragments(job, seqno)[i], p) ==>
      CutFragments(job, seqno)[i].data[p - CutFragments(job, seqno)[i].fragmentOffset]
      == if i == 0 then Front(job)[p] else job.data[p]
  {
    job.StartStep(0);
    if i == 0 {
      SmallModulo(job.Start(0));
    } else {
      ChunkOffset(job, seqno, i);
      CoversChunk(job, seqno, i, p);
    }
  }

  /**
   What such a message delivers depends on the order: byte `p` of chunk `i` comes from the front of
   fragment number 0 if that reaches it and arrives after the chunk, and from the data otherwise.
   */
  lemma NulByte(job: Job, sender: SocketAddr, seqno: u32, order: seq<nat>, zero: nat, a: nat, i: nat, p: nat)
    requires NulJob(job) && job.Count() > 0 && |Front(job)| <= |job.data|
    requires Headers(CutFragments(job, seqno), Key(sender, seqno), |job.data|)
    requires Order(order, job.Count()) && zero < |order| && a < |order| && order[zero] == 0 && order[a] == i
    requires job.Start(i) <= p < job.Start(i + 1)
    ensures Assemble(|job.data|, InOrder(CutFragments(job, seqno), order))[p]
      == if i == 0 || (p < |Front(job)| && a < zero) then Front(job)[p] else job.data[p]
  {
    var fs := InOrder(CutFragments(job, seqno), order);
    NulWriter(job, seqno, order, fs, zero, a, i, p);
  }

  /** The position in the order of the fragment that decides byte `p` of chunk `i`. */
  function Writer(job: Job, zero: nat, a: nat, i: nat, p: nat): nat
    requires NulJob(job)
  {
    if i == 0 || (p < |Front(job)| && a < zero) then zero else a
  }

  lemma WriterCovers(job: Job, seqno: u32, order: seq<nat>, zero: nat, a: nat, i: nat, p: nat)
    requires NulJob(job) && Order(order, job.Count())
    requires zero < |order| && a < |order| && order[zero] == 0 && order[a] == i
    requires job.Start(i) <= p < job.Start(i + 1)
    ensures var w := Writer(job, zero, a, i, p);
      var f := CutFragments(job, seqno)[order[w]];
      Covers(f, p) && f.data[p - f.fragmentOffset] == if w == zero then Front(job)[p] else job.data[p]
  {
    if i == 0 {
      FrontCovers(job, seqno, 0, p);
      job.StartStep(0);
    } else {
      FrontCovers(job, seqno, order[Writer(job, zero, a, i, p)], p);
    }
  }

  lemma NoLaterWriter(job: Job, seqno: u32, order: seq<nat>, zero: nat, a: nat, i: nat, p: nat, b: nat)
    requires NulJob(job) && Order(order, job.Count())
    requires zero < |order| && a < |order| && b < |order| && order[zero] == 0 && order[a] == i
    requires job.Start(i) <= p < job.Start(i + 1) && b > Writer(job, zero, a, i, p)
    ensures !Covers(CutFragments(job, seqno)[order[b]], p)
  {
    FrontCovers(job, seqno, order[b], p);
    if order[b] == 0 {
      assert b == zero;
    } else if Covers(CutFragments(job, seqno)[order[b]], p) {
      OnlyChunk(job, i, order[b], p);
    }
  }

  lemma NulWriter(job: Job, seqno: u32, order: seq<nat>, fs: seq<Fragment>, zero: nat, a: nat, i: nat, p: nat)
    requires NulJob(job) && Order(order, job.Count()) && job.Count() > 0
    requires fs == InOrder(CutFragments(job, seqno), order) && forall b :: 0 <= b < |fs| ==> Fits(fs[b], |job.data|)
    requires zero < |order| && a < |order| && order[zero] == 0 && order[a] == i
    requires job.Start(i) <= p < job.Start(i + 1)
    ensures Assemble(|job.data|, fs)[p] == if Writer(job, zero, a, i, p) == zero then Front(job)[p] else job.data[p]
  {
    var w := Writer(job, zero, a, i, p);
    WriterCovers(job, seqno, order, zero, a, i, p);
    forall b: nat | w < b < |fs|
      ensures !Covers(fs[b], p)
    {
      assert fs[b] == CutFragments(job, seqno)[order[b]];
      NoLaterWriter(job, seqno, order, zero, a, i, p, b);
    }
    assert fs[w] == CutFragments(job, seqno)[order[w]];
    LastWriter(|job.data|, fs, w, p);
  }

  lemma OnlyChunk(job: Job, i: nat, j: nat, p: nat)
    requires job.Start(i) <= p < job.Start(i + 1) && job.Start(j) <= p < job.Start(j + 1)
    ensures i == j
  {
    if i < j {
      StartsIncrease(job, i + 1, j);
    } else if j < i {
      StartsIncrease(job, j + 1, i);
    }
  }

  /** A message whose channel holds a NUL comes out under the channel before it, with those bytes. */
  lemma NulDelivered(cfg: Config, job: Job, sender: SocketAddr, seqno: u32,
                     pending: Pending, order: seq<nat>, arrivals: seq<Arrival>)
    requires NulJob(job) && job.Count() > 0 && |Front(job)| <= |job.data| <= cfg.maxMessageSize
    requires forall j :: 0 <= j < |arrivals| ==> arrivals[j].Datagram?
    requires Order(order, job.Count()) && |order| == |arrivals| == job.Count()
    requires forall j :: 0 <= j < |arrivals| ==>
      && arrivals[j].sender == sender && arrivals[j].bytes == EncodeFragment(job.FragmentAt(seqno, order[j]))
      && (j > 0 ==> arrivals[j].now <= arrivals[0].created + cfg.timeout)
    requires Lookup(pending, Key(sender, seqno)).None? && Monotone(InputsOf(arrivals))
    ensures Headers(CutFragments(job, seqno), Key(sender, seqno), |job.data|)
    ensures RunFrom(cfg, pending, InputsOf(arrivals)).messages[|arrivals| - 1]
      == Some(LcmMessage(job.channel[..NulPosition(job.channel).value], seqno,
                         Assemble(|job.data|, InOrder(CutFragments(job, seqno), order))))
  {
    var fs, k := CutFragments(job, seqno), Key(sender, seqno);
    CutHeaders(job, sender, seqno);
    forall j | 0 <= j < |arrivals|
      ensures Concerns(InputOf(arrivals[j]), k) && FragmentOf(InputOf(arrivals[j])) == fs[order[j]]
    {
      NulFragmentsParse(job, seqno, order[j]);
    }
    FoldDelivered(cfg, fs, k, |job.data|, job.channel[..NulPosition(job.channel).value], pending, order,
                  InputsOf(arrivals));
  }

  /** And if the front is longer than the whole payload, nothing of it is ever delivered, in any order. */
  lemma NulNeverDelivered(cfg: Config, job: Job, sender: SocketAddr, seqno: u32, inputs: seq<Input>, c: nat)
    requires NulJob(job) && job.Count() > 0 && |Front(job)| > |job.data|
    requires Monotone(inputs) && OnlyFrom(inputs, Key(sender, seqno), CutFragments(job, seqno))
    requires c < |inputs| && Concerns(inputs[c], Key(sender, seqno))
    ensures RunFrom(cfg, map[], inputs).messages[c].None?
  {
    var fs, k, upto := CutFragments(job, seqno), Key(sender, seqno), inputs[..c + 1];
    if RunFrom(cfg, map[], inputs).messages[c].Some? {
      var m := RunFrom(cfg, map[], inputs).messages[c].value;
      Provenance.EveryDeliveryGenuine(cfg, inputs, c);
      var log :| Provenance.Genuine(cfg, upto, k, m, log);
      Provenance.GenuineUsesEachNumberOnce(cfg, upto, k, m, log, 0);
      var a :| 0 <= a < |log.picks| && FragmentOf(upto[log.picks[a]]).fragmentNumber == 0;
      assert upto[log.picks[a]] == inputs[log.picks[a]];
      SmallModulo(|job.data|);
      assert false;
    }
  }
}
