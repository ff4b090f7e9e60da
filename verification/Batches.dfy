/**
 Late and straggling duplicates: fragments of one family that arrive at any times are collected in
 batches, each lasting one timeout from its first member, and every whole batch is delivered.
 */
module Batches {
  import opened Primitives
  import opened Protocol
  import opened Reassembly
  import opened Isolation
  import opened Confluence

  /** The numbers collected since a first member opened the batch. */
  datatype Batch = Batch(openedAt: nat, seen: set<nat>)

  /** The batch a fragment is part of: the current one if it is in time for it, or else a new one. */
  function Joined(cfg: Config, current: Option<Batch>, i: Input): Batch
    requires IsFragment(i)
  {
    var number: nat := FragmentOf(i).fragmentNumber;
    if current.Some? && i.now <= current.value.openedAt + cfg.timeout
    then current.value.(seen := current.value.seen + {number})
    else Batch(i.created, {number})
  }

  /** The batch of `k` under way after these inputs, for a family of `n` fragments. */
  function Current(cfg: Config, inputs: seq<Input>, k: Key, n: nat): Option<Batch> {
    if inputs == [] then None
    else
      var before, i := Current(cfg, DropLast(inputs), k, n), Last(inputs);
      if !Concerns(i, k) then before
      else if Joined(cfg, before, i).seen == Numbers(n) then None
      else Some(Joined(cfg, before, i))
  }

  /** Input `j` makes its batch whole. */
  predicate Completes(cfg: Config, inputs: seq<Input>, k: Key, n: nat, j: nat)
    requires j < |inputs|
  {
    Concerns(inputs[j], k) && Joined(cfg, Current(cfg, inputs[..j], k, n), inputs[j]).seen == Numbers(n)
  }

  /** The set of the key is the batch under way, or what was there before any batch. */
  ghost predicate Matches(fs: seq<Fragment>, size: u32, channel: Bytes, start: Slot, slot: Slot, batch: Option<Batch>) {
    match batch
    case None => slot.None? || slot == start
    case Some(b) =>
      && slot.Some? && slot.value.createdAt == b.openedAt
      && PartOf(slot.value, fs, b.seen, size, channel) && b.seen < Numbers(|fs|)
  }

  /** A member of a family, whatever its time, against the batch under way. */
  lemma NextOfBatch(cfg: Config, fs: seq<Fragment>, k: Key, size: u32, channel: Bytes,
                    start: Slot, slot: Slot, batch: Option<Batch>, i: Input)
    requires Family(fs, k, size, channel) && size <= cfg.maxMessageSize
    requires Matches(fs, size, channel, start, slot, batch)
    requires Concerns(i, k) && FragmentOf(i).fragmentNumber < |fs|
    requires FragmentOf(i) == fs[FragmentOf(i).fragmentNumber]
    requires start.Some? ==> Stale(cfg, start.value, i.now)
    ensures var out, joined := LazyReceive(cfg, k, slot, i), Joined(cfg, batch, i);
      && (joined.seen == Numbers(|fs|) ==>
        out == Outcome(None, Some(LcmMessage(channel, k.sequenceNumber, Assemble(size, fs)))))
      && (joined.seen != Numbers(|fs|) ==>
        out.message.None? && Matches(fs, size, channel, start, out.slot, Some(joined)))
  {
    var n: nat := FragmentOf(i).fragmentNumber;
    assert n in Numbers(|fs|);
    if batch.Some? && i.now <= batch.value.openedAt + cfg.timeout {
      assert Live(cfg, slot, i.now) == slot;
      StepPart(slot.value, fs, k, size, channel, batch.value.seen, n);
    } else {
      assert Live(cfg, slot, i.now).None?;
      assert {} + {n} == {n};
      OpenIsPart(fs, k, size, channel, n, i.created);
      StepPart(OpenSet(fs[n], i.created), fs, k, size, channel, {}, n);
    }
  }

  /** What is delivered at `j`: the family's message if a batch becomes whole, and nothing otherwise. */
  ghost predicate DeliveredByBatch(cfg: Config, fs: seq<Fragment>, k: Key, size: u32, channel: Bytes,
                                   inputs: seq<Input>, j: nat, message: Option<LcmMessage>)
    requires j < |inputs| && forall i :: 0 <= i < |fs| ==> Fits(fs[i], size)
  {
    message == if Completes(cfg, inputs, k, |fs|, j)
      then Some(LcmMessage(channel, k.sequenceNumber, Assemble(size, fs))) else None
  }

  /** One more input, whosever it is. */
  lemma OneMoreInput(cfg: Config, fs: seq<Fragment>, k: Key, size: u32, channel: Bytes,
                     start: Slot, inputs: seq<Input>, i: Input, slot: Slot)
    requires Family(fs, k, size, channel) && size <= cfg.maxMessageSize
    requires OnlyFrom(inputs + [i], k, fs) && NoLiveSet(cfg, start, inputs + [i], k)
    requires Matches(fs, size, channel, start, slot, Current(cfg, inputs, k, |fs|))
    ensures var all, out := inputs + [i], LazyReceive(cfg, k, slot, i);
      && Matches(fs, size, channel, start, out.slot, Current(cfg, all, k, |fs|))
      && DeliveredByBatch(cfg, fs, k, size, channel, all, |inputs|, out.message)
  {
    var all := inputs + [i];
    assert all[|inputs|] == i && DropLast(all) == inputs && all[..|inputs|] == inputs;
    if Concerns(i, k) {
      NextOfBatch(cfg, fs, k, size, channel, start, slot, Current(cfg, inputs, k, |fs|), i);
    }
  }

  lemma EarlierDeliveries(cfg: Config, fs: seq<Fragment>, k: Key, size: u32, channel: Bytes,
                          inputs: seq<Input>, i: Input, messages: seq<Option<LcmMessage>>)
    requires |messages| == |inputs| && forall a :: 0 <= a < |fs| ==> Fits(fs[a], size)
    requires forall j :: 0 <= j < |inputs| ==> DeliveredByBatch(cfg, fs, k, size, channel, inputs, j, messages[j])
    ensures forall j :: 0 <= j < |inputs| ==> DeliveredByBatch(cfg, fs, k, size, channel, inputs + [i], j, messages[j])
  {
    var all := inputs + [i];
    assert forall j :: 0 <= j < |inputs| ==> all[j] == inputs[j] && all[..j] == inputs[..j];
  }

  lemma {:induction false} LazyBatches(cfg: Config, fs: seq<Fragment>, k: Key, size: u32, channel: Bytes,
                                       start: Slot, inputs: seq<Input>)
    requires Family(fs, k, size, channel) && size <= cfg.maxMessageSize
    requires OnlyFrom(inputs, k, fs) && NoLiveSet(cfg, start, inputs, k)
    ensures var r := LazyRun(cfg, k, start, inputs);
      && Matches(fs, size, channel, start, r.slot, Current(cfg, inputs, k, |fs|))
      && forall j :: 0 <= j < |inputs| ==> DeliveredByBatch(cfg, fs, k, size, channel, inputs, j, r.messages[j])
  {
    if inputs == [] {
    } else {
      var prefix, i := DropLast(inputs), Last(inputs);
      var before := LazyRun(cfg, k, start, prefix);
      assert inputs == prefix + [i];
      assert forall j :: 0 <= j < |prefix| ==> prefix[j] == inputs[j];
      LazyBatches(cfg, fs, k, size, channel, start, prefix);
      OneMoreInput(cfg, fs, k, size, channel, start, prefix, i, before.slot);
      EarlierDeliveries(cfg, fs, k, size, channel, prefix, i, before.messages);
      LazyRunStep(cfg, k, start, prefix, i);
    }
  }

  /**
   From a table without a live set for `k`, members of a family at any times are delivered exactly
   when a batch becomes whole.
   */
  lemma {:induction false} DeliveredPerBatch(cfg: Config, fs: seq<Fragment>, k: Key, size: u32, channel: Bytes,
                                             pending: Pending, inputs: seq<Input>, j: nat)
    requires Family(fs, k, size, channel) && size <= cfg.maxMessageSize && Monotone(inputs)
    requires OnlyFrom(inputs, k, fs) && NoLiveSet(cfg, Lookup(pending, k), inputs, k)
    requires j < |inputs| && Concerns(inputs[j], k)
    ensures DeliveredByBatch(cfg, fs, k, size, channel, inputs, j, RunFrom(cfg, pending, inputs).messages[j])
  {
    LazyBatches(cfg, fs, k, size, channel, Lookup(pending, k), inputs);
    EagerIsLazy(cfg, pending, inputs, k);
  }

  /** So after a family has been delivered, late duplicates deliver it again exactly with every whole batch of them. */
  lemma {:induction false} DeliveredAgainExactly(cfg: Config, fs: seq<Fragment>, k: Key, size: u32, channel: Bytes,
                                                 pending: Pending, inputs: seq<Input>, c: nat, j: nat)
    requires CompletedAt(cfg, fs, k, size, channel, Lookup(pending, k), inputs, c)
    requires OnlyFrom(inputs[c + 1..], k, fs)
    requires c < j < |inputs| && Concerns(inputs[j], k)
    ensures DeliveredByBatch(cfg, fs, k, size, channel, inputs[c + 1..], j - c - 1,
                             RunFrom(cfg, pending, inputs).messages[j])
  {
    var middle, rest := RunFrom(cfg, pending, inputs[..c + 1]).pending, inputs[c + 1..];
    DeliveredAtLastMissing(cfg, fs, k, size, channel, pending, inputs, c);
    MonotoneFrom(inputs, c + 1);
    assert rest[j - c - 1] == inputs[j];
    DeliveredPerBatch(cfg, fs, k, size, channel, middle, rest, j - c - 1);
    SuffixMessages(cfg, pending, inputs, c + 1, RunFrom(cfg, middle, rest).messages);
  }
}
