/**
 The order of arrival does not matter: a family of fragments with one header and
 disjoint byte ranges assembles to one message, delivered exactly when its last
 missing member arrives, whatever the order, the duplicates and the other traffic.
 */
module Confluence {
  import opened Primitives
  import opened Protocol
  import opened Reassembly
  import opened Isolation

  predicate Covers(f: Fragment, p: nat) {
    f.fragmentOffset <= p < f.fragmentOffset + |f.data|
  }

  predicate Fits(f: Fragment, size: nat) {
    f.fragmentOffset + |f.data| <= size
  }

  /** The writes of `fs`, in order, over a zero-filled buffer. */
  function Assemble(size: nat, fs: seq<Fragment>): (b: Bytes)
    requires forall i :: 0 <= i < |fs| ==> Fits(fs[i], size)
    ensures |b| == size
  {
    if fs == [] then Zeros(size)
    else assert Fits(Last(fs), size); Write(Assemble(size, DropLast(fs)), Last(fs).fragmentOffset, Last(fs).data)
  }

  // ----- families -----

  predicate Header(f: Fragment, k: Key, size: u32, n: nat, i: nat) {
    && f.sequenceNumber == k.sequenceNumber
    && f.payloadSize == size
    && f.nFragments == n
    && f.fragmentNumber == i
    && Fits(f, size)
  }

  ghost predicate Headers(fs: seq<Fragment>, k: Key, size: u32) {
    0 < |fs| < U16_COUNT && forall i :: 0 <= i < |fs| ==> Header(fs[i], k, size, |fs|, i)
  }

  ghost predicate DisjointRanges(fs: seq<Fragment>) {
    forall i, j, p: nat :: 0 <= i < |fs| && 0 <= j < |fs| && Covers(fs[i], p) && Covers(fs[j], p) ==> i == j
  }

  /** One header, numbers 0 to n-1, disjoint byte ranges inside the payload, a channel on number 0. */
  ghost predicate Family(fs: seq<Fragment>, k: Key, size: u32, channel: Bytes) {
    Headers(fs, k, size) && DisjointRanges(fs) && fs[0].channel == Some(channel)
  }

  /** The numbers 0 to n-1. */
  function Numbers(n: nat): (s: set<nat>)
    ensures forall i: nat :: i in s <==> i < n
  {
    if n == 0 then {} else Numbers(n - 1) + {n - 1}
  }

  /** The fragment numbers of key `k` in a trace. */
  function Seen(inputs: seq<Input>, k: Key): set<nat> {
    if inputs == [] then {} else Seen(DropLast(inputs), k) + NumberIn(Last(inputs), k)
  }

  function NumberIn(i: Input, k: Key): set<nat> {
    if Concerns(i, k) then {FragmentOf(i).fragmentNumber} else {}
  }

  /** All traffic of key `k` consists of members of the family. */
  ghost predicate OnlyFrom(inputs: seq<Input>, k: Key, fs: seq<Fragment>) {
    forall j :: 0 <= j < |inputs| && Concerns(inputs[j], k) ==>
      && FragmentOf(inputs[j]).fragmentNumber < |fs|
      && FragmentOf(inputs[j]) == fs[FragmentOf(inputs[j]).fragmentNumber]
  }

  /** Any two fragments of the key are processed within the timeout of each other. */
  ghost predicate Timely(cfg: Config, inputs: seq<Input>, k: Key) {
    forall i, j :: 0 <= i < j < |inputs| && Concerns(inputs[i], k) && Concerns(inputs[j], k) ==>
      inputs[j].now <= inputs[i].created + cfg.timeout
  }

  /** The key has no set, or one that every fragment of the key will find expired. */
  ghost predicate NoLiveSet(cfg: Config, slot: Slot, inputs: seq<Input>, k: Key) {
    slot.Some? ==>
      forall j :: 0 <= j < |inputs| && Concerns(inputs[j], k) ==> Stale(cfg, slot.value, inputs[j].now)
  }

  /** What the traffic of `k` must be for its family to assemble. */
  ghost predicate Clean(cfg: Config, fs: seq<Fragment>, k: Key, slot: Slot, inputs: seq<Input>) {
    OnlyFrom(inputs, k, fs) && Timely(cfg, inputs, k) && NoLiveSet(cfg, slot, inputs, k)
  }

  lemma CleanPrefix(cfg: Config, fs: seq<Fragment>, k: Key, slot: Slot, before: seq<Input>, i: Input)
    requires Clean(cfg, fs, k, slot, before + [i])
    ensures Clean(cfg, fs, k, slot, before)
  {
    var all := before + [i];
    assert forall j :: 0 <= j < |before| ==> before[j] == all[j];
  }

  // ----- what a partly filled buffer holds -----

  ghost predicate Filled(b: Bytes, fs: seq<Fragment>, seen: set<nat>) {
    && (forall i, p: nat :: i in seen && i < |fs| && p < |b| && Covers(fs[i], p) ==>
      b[p] == fs[i].data[p - fs[i].fragmentOffset])
    && (forall p: nat :: p < |b| && (forall i :: i in seen && i < |fs| ==> !Covers(fs[i], p)) ==> b[p] == 0)
  }

  lemma FilledByWrite(b: Bytes, fs: seq<Fragment>, seen: set<nat>, i: nat)
    requires i < |fs| && Fits(fs[i], |b|) && i !in seen && DisjointRanges(fs) && Filled(b, fs, seen)
    ensures Filled(Write(b, fs[i].fragmentOffset, fs[i].data), fs, seen + {i})
  {
    var w, after := Write(b, fs[i].fragmentOffset, fs[i].data), seen + {i};
    forall j, p: nat | j in after && j < |fs| && p < |w| && Covers(fs[j], p)
      ensures w[p] == fs[j].data[p - fs[j].fragmentOffset]
    {
      if j != i {
        assert !Covers(fs[i], p);
      }
    }
    forall p: nat | p < |w| && forall j :: j in after && j < |fs| ==> !Covers(fs[j], p)
      ensures w[p] == 0
    {
      assert i in after && !Covers(fs[i], p);
      assert forall j :: j in seen && j < |fs| ==> j in after;
    }
  }

  lemma FilledUnique(a: Bytes, b: Bytes, fs: seq<Fragment>, seen: set<nat>)
    requires |a| == |b| && Filled(a, fs, seen) && Filled(b, fs, seen)
    ensures a == b
  {
    forall p: nat | p < |a|
      ensures a[p] == b[p]
    {
      if i :| i in seen && i < |fs| && Covers(fs[i], p) {
        assert a[p] == fs[i].data[p - fs[i].fragmentOffset];
      }
    }
  }

  lemma {:induction false} AssembleFilled(size: nat, fs: seq<Fragment>, m: nat)
    requires m <= |fs| && DisjointRanges(fs) && forall i :: 0 <= i < |fs| ==> Fits(fs[i], size)
    ensures Filled(Assemble(size, fs[..m]), fs, Numbers(m))
  {
    if m == 0 {
    } else {
      AssembleFilled(size, fs, m - 1);
      assert DropLast(fs[..m]) == fs[..m - 1];
      assert Numbers(m) == Numbers(m - 1) + {m - 1};
      FilledByWrite(Assemble(size, fs[..m - 1]), fs, Numbers(m - 1), m - 1);
    }
  }

  // ----- the state after part of a family -----

  ghost predicate PartOf(s: SetView, fs: seq<Fragment>, seen: set<nat>, size: u32, channel: Bytes) {
    && s.payloadSize == size && s.nFragments == |fs| && Balanced(s)
    && (forall i :: 0 <= i < |fs| ==> (s.receivedMask[i] <==> i in seen))
    && (0 in seen ==> s.channel == channel)
    && Filled(s.buffer, fs, seen)
  }

  lemma OpenIsPart(fs: seq<Fragment>, k: Key, size: u32, channel: Bytes, i: nat, created: nat)
    requires Family(fs, k, size, channel) && i < |fs|
    ensures PartOf(OpenSet(fs[i], created), fs, {}, size, channel)
  {
    CountTrueNone(|fs|);
  }

  lemma StepPart(s: SetView, fs: seq<Fragment>, k: Key, size: u32, channel: Bytes, seen: set<nat>, i: nat)
    requires Family(fs, k, size, channel) && i < |fs|
    requires PartOf(s, fs, seen, size, channel) && seen < Numbers(|fs|)
    ensures var out, after := StepSet(s, fs[i]), seen + {i};
      && (after == Numbers(|fs|) ==>
        out == Outcome(None, Some(LcmMessage(channel, k.sequenceNumber, Assemble(size, fs)))))
      && (after != Numbers(|fs|) ==>
        && out.message.None? && out.slot.Some? && PartOf(out.slot.value, fs, after, size, channel)
        && out.slot.value.createdAt == s.createdAt)
  {
    var s0, after := StoreChannel(s, fs[i]), seen + {i};
    if i in seen {
      assert after == seen && Judge(s0, fs[i]) == Duplicate;
    } else {
      assert Judge(s0, fs[i]) == Accepted;
      var s' := Accept(s0, fs[i]);
      CountTrueMark(s0.receivedMask, i);
      FilledByWrite(s.buffer, fs, seen, i);
      assert PartOf(s', fs, after, size, channel);
      CountTrueBound(s'.receivedMask);
      if after == Numbers(|fs|) {
        WholeFamily(s', fs, k, size, channel);
      } else {
        var missing :| missing in Numbers(|fs|) && missing !in after;
        assert !s'.receivedMask[missing];
      }
    }
  }

  lemma WholeFamily(s: SetView, fs: seq<Fragment>, k: Key, size: u32, channel: Bytes)
    requires Family(fs, k, size, channel) && PartOf(s, fs, Numbers(|fs|), size, channel)
    ensures s.fragmentsReceived == s.nFragments && s.channel == channel && s.buffer == Assemble(size, fs)
  {
    CountTrueBound(s.receivedMask);
    AssembleFilled(size, fs, |fs|);
    assert fs[..|fs|] == fs;
    FilledUnique(s.buffer, Assemble(size, fs), fs, Numbers(|fs|));
    assert 0 in Numbers(|fs|);
  }

  /** Some fragment of the key opened the set, at the time the set records. */
  ghost predicate OpenedDuring(inputs: seq<Input>, k: Key, createdAt: nat) {
    exists j :: 0 <= j < |inputs| && Concerns(inputs[j], k) && inputs[j].created == createdAt
  }

  ghost predicate AwaitingSlot(fs: seq<Fragment>, k: Key, size: u32, channel: Bytes,
                               slot: Slot, inputs: seq<Input>, now: Slot) {
    && (Seen(inputs, k) == {} ==> now == slot)
    && (Seen(inputs, k) != {} ==>
      && now.Some? && PartOf(now.value, fs, Seen(inputs, k), size, channel)
      && OpenedDuring(inputs, k, now.value.createdAt))
  }

  ghost predicate Silent(messages: seq<Option<LcmMessage>>) {
    forall j :: 0 <= j < |messages| ==> messages[j].None?
  }

  lemma OpenedStays(inputs: seq<Input>, i: Input, k: Key, createdAt: nat)
    requires OpenedDuring(inputs, k, createdAt)
    ensures OpenedDuring(inputs + [i], k, createdAt)
  {
    var j :| 0 <= j < |inputs| && Concerns(inputs[j], k) && inputs[j].created == createdAt;
    assert (inputs + [i])[j] == inputs[j];
  }

  lemma SeenWithin(inputs: seq<Input>, k: Key, fs: seq<Fragment>)
    requires OnlyFrom(inputs, k, fs)
    ensures Seen(inputs, k) <= Numbers(|fs|)
  {
    if inputs == [] {
    } else {
      var prefix := DropLast(inputs);
      assert forall j :: 0 <= j < |prefix| ==> prefix[j] == inputs[j];
      SeenWithin(prefix, k, fs);
    }
  }

  /** What the next member of a family does while the family is still incomplete. */
  lemma NextMember(cfg: Config, fs: seq<Fragment>, k: Key, size: u32, channel: Bytes,
                   slot: Slot, inputs: seq<Input>, now: Slot, i: Input)
    requires Family(fs, k, size, channel) && size <= cfg.maxMessageSize
    requires Clean(cfg, fs, k, slot, inputs + [i])
    requires Concerns(i, k) && Seen(inputs, k) < Numbers(|fs|)
    requires AwaitingSlot(fs, k, size, channel, slot, inputs, now)
    ensures var out := LazyReceive(cfg, k, now, i);
      var after := Seen(inputs, k) + {FragmentOf(i).fragmentNumber};
      && (after == Numbers(|fs|) ==>
        out == Outcome(None, Some(LcmMessage(channel, k.sequenceNumber, Assemble(size, fs)))))
      && (after != Numbers(|fs|) ==>
        && out.message.None? && out.slot.Some? && PartOf(out.slot.value, fs, after, size, channel)
        && OpenedDuring(inputs + [i], k, out.slot.value.createdAt))
  {
    var all := inputs + [i];
    assert all[|inputs|] == i;
    var n := FragmentOf(i).fragmentNumber;
    if Seen(inputs, k) == {} {
      assert Live(cfg, now, i.now).None?;
      OpenIsPart(fs, k, size, channel, n, i.created);
      StepPart(OpenSet(fs[n], i.created), fs, k, size, channel, {}, n);
    } else {
      var j :| 0 <= j < |inputs| && Concerns(inputs[j], k) && inputs[j].created == now.value.createdAt;
      assert all[j] == inputs[j];
      assert Live(cfg, now, i.now) == now;
      StepPart(now.value, fs, k, size, channel, Seen(inputs, k), n);
    }
  }

  ghost predicate Awaiting(fs: seq<Fragment>, k: Key, size: u32, channel: Bytes,
                           slot: Slot, inputs: seq<Input>, r: KeyRun) {
    AwaitingSlot(fs, k, size, channel, slot, inputs, r.slot) && Silent(r.messages)
  }

  lemma AwaitingOneMore(cfg: Config, fs: seq<Fragment>, k: Key, size: u32, channel: Bytes,
                        slot: Slot, inputs: seq<Input>, i: Input)
    requires Family(fs, k, size, channel) && size <= cfg.maxMessageSize
    requires Clean(cfg, fs, k, slot, inputs + [i])
    requires Seen(inputs, k) + NumberIn(i, k) < Numbers(|fs|)
    requires Awaiting(fs, k, size, channel, slot, inputs, LazyRun(cfg, k, slot, inputs))
    ensures Awaiting(fs, k, size, channel, slot, inputs + [i], LazyRun(cfg, k, slot, inputs + [i]))
  {
    OneMore(cfg, fs, k, size, channel, slot, inputs, LazyRun(cfg, k, slot, inputs).slot, i);
    LazyRunStep(cfg, k, slot, inputs, i);
  }

  /** Until its last missing member arrives, a family is held and nothing is delivered for its key. */
  lemma {:induction false} AwaitingMore(cfg: Config, fs: seq<Fragment>, k: Key, size: u32, channel: Bytes,
                                        slot: Slot, inputs: seq<Input>)
    requires Family(fs, k, size, channel) && size <= cfg.maxMessageSize
    requires Clean(cfg, fs, k, slot, inputs)
    requires Seen(inputs, k) != Numbers(|fs|)
    ensures AwaitingSlot(fs, k, size, channel, slot, inputs, LazyRun(cfg, k, slot, inputs).slot)
    ensures Silent(LazyRun(cfg, k, slot, inputs).messages)
  {
    if inputs == [] {
    } else {
      var prefix, i := DropLast(inputs), Last(inputs);
      assert inputs == prefix + [i];
      CleanPrefix(cfg, fs, k, slot, prefix, i);
      SeenWithin(inputs, k, fs);
      SeenStep(prefix, i, k);
      AwaitingMore(cfg, fs, k, size, channel, slot, prefix);
      AwaitingOneMore(cfg, fs, k, size, channel, slot, prefix, i);
    }
  }

  lemma SeenStep(inputs: seq<Input>, i: Input, k: Key)
    ensures Seen(inputs + [i], k) == Seen(inputs, k) + NumberIn(i, k)
  {
    assert DropLast(inputs + [i]) == inputs;
  }

  lemma LazyRunStep(cfg: Config, k: Key, slot: Slot, inputs: seq<Input>, i: Input)
    ensures var r := LazyRun(cfg, k, slot, inputs);
      var out := LazyReceive(cfg, k, r.slot, i);
      LazyRun(cfg, k, slot, inputs + [i]) == KeyRun(out.slot, r.messages + [out.message])
  {
    assert DropLast(inputs + [i]) == inputs;
  }

  lemma OneMore(cfg: Config, fs: seq<Fragment>, k: Key, size: u32, channel: Bytes,
                slot: Slot, inputs: seq<Input>, now: Slot, i: Input)
    requires Family(fs, k, size, channel) && size <= cfg.maxMessageSize
    requires Clean(cfg, fs, k, slot, inputs + [i])
    requires Seen(inputs, k) + NumberIn(i, k) < Numbers(|fs|)
    requires AwaitingSlot(fs, k, size, channel, slot, inputs, now)
    ensures var out := LazyReceive(cfg, k, now, i);
      out.message.None? && AwaitingSlot(fs, k, size, channel, slot, inputs + [i], out.slot)
  {
    assert DropLast(inputs + [i]) == inputs;
    if Concerns(i, k) {
      NextMember(cfg, fs, k, size, channel, slot, inputs, now, i);
    } else if Seen(inputs, k) != {} {
      OpenedStays(inputs, i, k, now.value.createdAt);
    }
  }

  lemma LazilyDelivered(cfg: Config, fs: seq<Fragment>, k: Key, size: u32, channel: Bytes,
                        slot: Slot, before: seq<Input>, i: Input)
    requires Family(fs, k, size, channel) && size <= cfg.maxMessageSize
    requires Clean(cfg, fs, k, slot, before + [i])
    requires Seen(before, k) != Numbers(|fs|) && Seen(before, k) + NumberIn(i, k) == Numbers(|fs|)
    ensures var r := LazyRun(cfg, k, slot, before);
      && Silent(r.messages)
      && LazyRun(cfg, k, slot, before + [i]) == KeyRun(None,
        r.messages + [Some(LcmMessage(channel, k.sequenceNumber, Assemble(size, fs)))])
  {
    assert DropLast(before + [i]) == before;
    CleanPrefix(cfg, fs, k, slot, before, i);
    SeenWithin(before, k, fs);
    AwaitingMore(cfg, fs, k, size, channel, slot, before);
    NextMember(cfg, fs, k, size, channel, slot, before, LazyRun(cfg, k, slot, before).slot, i);
  }

  /** The trace up to and including datagram `c` carries a whole family for the first time. */
  ghost predicate CompletedAt(cfg: Config, fs: seq<Fragment>, k: Key, size: u32, channel: Bytes,
                              slot: Slot, inputs: seq<Input>, c: nat) {
    && Family(fs, k, size, channel) && size <= cfg.maxMessageSize
    && Monotone(inputs) && c < |inputs|
    && Clean(cfg, fs, k, slot, inputs[..c] + [inputs[c]])
    && Seen(inputs[..c], k) != Numbers(|fs|)
    && Seen(inputs[..c], k) + NumberIn(inputs[c], k) == Numbers(|fs|)
  }

  /**
   In any trace from a table without a live set for `k`, the family is delivered once:
   at the datagram that brings the last missing number, and not before.
   */
  lemma DeliveredAtLastMissing(cfg: Config, fs: seq<Fragment>, k: Key, size: u32, channel: Bytes,
                               pending: Pending, inputs: seq<Input>, c: nat)
    requires CompletedAt(cfg, fs, k, size, channel, Lookup(pending, k), inputs, c)
    ensures var messages := RunFrom(cfg, pending, inputs).messages;
      && messages[c] == Some(LcmMessage(channel, k.sequenceNumber, Assemble(size, fs)))
      && (forall j :: 0 <= j < c && Concerns(inputs[j], k) ==> messages[j].None?)
    ensures Lookup(RunFrom(cfg, pending, inputs[..c + 1]).pending, k).None?
  {
    var slot, upto, before := Lookup(pending, k), inputs[..c + 1], inputs[..c];
    assert upto == before + [inputs[c]];
    LazilyDelivered(cfg, fs, k, size, channel, slot, before, inputs[c]);
    MonotoneUpTo(inputs, c + 1);
    EagerIsLazy(cfg, pending, upto, k);
    assert Concerns(upto[c], k);
    PrefixMessages(cfg, pending, inputs, c + 1);
  }

  lemma PrefixMessages(cfg: Config, pending: Pending, inputs: seq<Input>, n: nat)
    requires n <= |inputs|
    ensures forall j :: 0 <= j < n ==>
      inputs[..n][j] == inputs[j]
      && RunFrom(cfg, pending, inputs).messages[j] == RunFrom(cfg, pending, inputs[..n]).messages[j]
  {
    assert inputs == inputs[..n] + inputs[n..];
    RunConcat(cfg, pending, inputs[..n], inputs[n..]);
  }

  /** Confluence: two traces that complete the same family deliver the same message, whatever the tables hold. */
  lemma OrderDoesNotMatter(cfg: Config, fs: seq<Fragment>, k: Key, size: u32, channel: Bytes,
                           table: Pending, one: seq<Input>, c: nat, table': Pending, other: seq<Input>, d: nat)
    requires CompletedAt(cfg, fs, k, size, channel, Lookup(table, k), one, c)
    requires CompletedAt(cfg, fs, k, size, channel, Lookup(table', k), other, d)
    ensures RunFrom(cfg, table, one).messages[c] == RunFrom(cfg, table', other).messages[d] != None
  {
    DeliveredAtLastMissing(cfg, fs, k, size, channel, table, one, c);
    DeliveredAtLastMissing(cfg, fs, k, size, channel, table', other, d);
  }

  // ----- again -----

  lemma {:induction false} FirstWhole(inputs: seq<Input>, k: Key, fs: seq<Fragment>) returns (c: nat)
    requires fs != [] && Seen(inputs, k) == Numbers(|fs|)
    ensures c < |inputs| && Seen(inputs[..c], k) != Numbers(|fs|)
    ensures Seen(inputs[..c], k) + NumberIn(inputs[c], k) == Numbers(|fs|)
  {
    assert 0 in Numbers(|fs|);
    var prefix := DropLast(inputs);
    if Seen(prefix, k) == Numbers(|fs|) {
      c := FirstWhole(prefix, k, fs);
      assert prefix[..c] == inputs[..c];
    } else {
      c := |inputs| - 1;
    }
  }

  lemma CleanUpTo(cfg: Config, fs: seq<Fragment>, k: Key, slot: Slot, inputs: seq<Input>, n: nat)
    requires n <= |inputs| && Clean(cfg, fs, k, slot, inputs)
    ensures Clean(cfg, fs, k, slot, inputs[..n])
  {
    assert forall j :: 0 <= j < n ==> inputs[..n][j] == inputs[j];
  }

  ghost predicate SomeDelivered(inputs: seq<Input>, k: Key, from: nat, messages: seq<Option<LcmMessage>>)
    requires |messages| == |inputs|
  {
    exists j :: from <= j < |inputs| && Concerns(inputs[j], k) && messages[j].Some?
  }

  /** From a table without a live set for `k`, something is delivered exactly when the whole family arrives. */
  lemma {:induction false} DeliveredIffWhole(cfg: Config, fs: seq<Fragment>, k: Key, size: u32, channel: Bytes,
                          pending: Pending, inputs: seq<Input>)
    requires Family(fs, k, size, channel) && size <= cfg.maxMessageSize && Monotone(inputs)
    requires Clean(cfg, fs, k, Lookup(pending, k), inputs)
    ensures SomeDelivered(inputs, k, 0, RunFrom(cfg, pending, inputs).messages)
      <==> Seen(inputs, k) == Numbers(|fs|)
  {
    if Seen(inputs, k) == Numbers(|fs|) {
      var c := FirstWhole(inputs, k, fs);
      CleanUpTo(cfg, fs, k, Lookup(pending, k), inputs, c + 1);
      assert inputs[..c + 1] == inputs[..c] + [inputs[c]];
      DeliveredAtLastMissing(cfg, fs, k, size, channel, pending, inputs, c);
    } else {
      AwaitingMore(cfg, fs, k, size, channel, Lookup(pending, k), inputs);
      EagerIsLazy(cfg, pending, inputs, k);
    }
  }

  lemma MonotoneFrom(inputs: seq<Input>, n: nat)
    requires n <= |inputs| && Monotone(inputs)
    ensures Monotone(inputs[n..])
  {
    assert forall j :: 0 <= j < |inputs| - n ==> inputs[n..][j] == inputs[n + j];
  }

  lemma SuffixMessages(cfg: Config, pending: Pending, inputs: seq<Input>, n: nat, later: seq<Option<LcmMessage>>)
    requires n <= |inputs|
    requires later == RunFrom(cfg, RunFrom(cfg, pending, inputs[..n]).pending, inputs[n..]).messages
    ensures RunFrom(cfg, pending, inputs).messages[n..] == later
  {
    assert inputs == inputs[..n] + inputs[n..];
    RunConcat(cfg, pending, inputs[..n], inputs[n..]);
  }

  lemma SomeDeliveredFrom(inputs: seq<Input>, k: Key, n: nat, messages: seq<Option<LcmMessage>>)
    requires n <= |inputs| == |messages|
    ensures SomeDelivered(inputs, k, n, messages) <==> SomeDelivered(inputs[n..], k, 0, messages[n..])
  {
    if j :| n <= j < |inputs| && Concerns(inputs[j], k) && messages[j].Some? {
      assert inputs[n..][j - n] == inputs[j] && messages[n..][j - n] == messages[j];
    }
    if j :| 0 <= j < |inputs| - n && Concerns(inputs[n..][j], k) && messages[n..][j].Some? {
      assert inputs[n..][j] == inputs[n + j] && messages[n..][j] == messages[n + j];
    }
  }

  /**
   After a family has been delivered, late duplicates within a timeout of each other deliver it again
   exactly when all of it arrives again.
   */
  lemma {:induction false} DeliveredAgainInTime(cfg: Config, fs: seq<Fragment>, k: Key, size: u32, channel: Bytes,
                                                pending: Pending, inputs: seq<Input>, c: nat)
    requires CompletedAt(cfg, fs, k, size, channel, Lookup(pending, k), inputs, c)
    requires Clean(cfg, fs, k, None, inputs[c + 1..])
    ensures SomeDelivered(inputs, k, c + 1, RunFrom(cfg, pending, inputs).messages)
      <==> Seen(inputs[c + 1..], k) == Numbers(|fs|)
  {
    DeliveredAtLastMissing(cfg, fs, k, size, channel, pending, inputs, c);
    MonotoneFrom(inputs, c + 1);
    var middle := RunFrom(cfg, pending, inputs[..c + 1]).pending;
    DeliveredIffWhole(cfg, fs, k, size, channel, middle, inputs[c + 1..]);
    SuffixMessages(cfg, pending, inputs, c + 1, RunFrom(cfg, middle, inputs[c + 1..]).messages);
    SomeDeliveredFrom(inputs, k, c + 1, RunFrom(cfg, pending, inputs).messages);
  }

  /** A completed key is forgotten: a late duplicate opens a new set that waits for all the others again. */
  lemma LateDuplicateReopens(cfg: Config, fs: seq<Fragment>, k: Key, size: u32, channel: Bytes,
                             pending: Pending, i: Input)
    requires Family(fs, k, size, channel) && size <= cfg.maxMessageSize && |fs| > 1
    requires Lookup(pending, k).None? && Concerns(i, k)
    requires FragmentOf(i).fragmentNumber < |fs| && FragmentOf(i) == fs[FragmentOf(i).fragmentNumber]
    ensures var step := Receive(cfg, pending, i);
      && step.message.None? && Lookup(step.pending, k).Some?
      && PartOf(step.pending[k], fs, {FragmentOf(i).fragmentNumber}, size, channel)
      && step.pending[k].fragmentsReceived == 1
  {
    var n: nat := FragmentOf(i).fragmentNumber;
    OpenIsPart(fs, k, size, channel, n, i.created);
    assert 0 in Numbers(|fs|) && 1 in Numbers(|fs|);
    assert {} + {n} == {n} && !(0 in {n} && 1 in {n});
    StepPart(OpenSet(fs[n], i.created), fs, k, size, channel, {}, n);
    ReceiveOwnKey(cfg, pending, i, k);
    CountTrueNone(|fs|);
  }

  lemma MonotoneUpTo(inputs: seq<Input>, n: nat)
    requires n <= |inputs| && Monotone(inputs)
    ensures Monotone(inputs[..n])
  {
    assert forall j :: 0 <= j < n ==> inputs[..n][j] == inputs[j];
  }
}
