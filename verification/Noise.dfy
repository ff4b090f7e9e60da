/**
 Rejected fragments are harmless: a trace with them delivers, datagram by datagram,
 what the same trace delivers when they carry nothing at all.
 */
module Noise {
  import opened Primitives
  import opened Protocol
  import opened Reassembly
  import opened Isolation
  import opened Confluence
  import opened Provenance

  /** The trace in which the marked datagrams carry nothing. */
  function Mute(inputs: seq<Input>, noise: seq<bool>): (m: seq<Input>)
    requires |noise| == |inputs|
    ensures |m| == |inputs|
    ensures forall j :: 0 <= j < |m| ==> m[j] == if noise[j] then inputs[j].(packet := None) else inputs[j]
  {
    seq(|inputs|, j requires 0 <= j < |inputs| => if noise[j] then inputs[j].(packet := None) else inputs[j])
  }

  /** The fragment meets a live set and fails the size, metadata, index, duplicate or overflow check. */
  predicate Rejected(cfg: Config, slot: Slot, i: Input)
    requires IsFragment(i)
  {
    && slot.Some? && !Stale(cfg, slot.value, i.now)
    && (FragmentOf(i).payloadSize > cfg.maxMessageSize
      || Judge(StoreChannel(slot.value, FragmentOf(i)), FragmentOf(i)) != Accepted)
  }

  /** Every marked datagram is a fragment of `k` that is rejected where it arrives. */
  ghost predicate OnlyRejected(cfg: Config, k: Key, slot: Slot, inputs: seq<Input>, noise: seq<bool>)
    requires |noise| == |inputs|
  {
    forall j :: 0 <= j < |inputs| && noise[j] ==>
      Concerns(inputs[j], k) && Rejected(cfg, LazyRun(cfg, k, slot, inputs[..j]).slot, inputs[j])
  }

  lemma OnlyRejectedPrefix(cfg: Config, k: Key, slot: Slot, inputs: seq<Input>, noise: seq<bool>)
    requires inputs != [] && |noise| == |inputs| && OnlyRejected(cfg, k, slot, inputs, noise)
    ensures OnlyRejected(cfg, k, slot, DropLast(inputs), DropLast(noise))
    ensures DropLast(Mute(inputs, noise)) == Mute(DropLast(inputs), DropLast(noise))
  {
    forall j | 0 <= j < |inputs| - 1 && noise[j]
      ensures Concerns(inputs[j], k) && Rejected(cfg, LazyRun(cfg, k, slot, DropLast(inputs)[..j]).slot, inputs[j])
    {
      assert DropLast(inputs)[..j] == inputs[..j];
    }
  }

  // ----- equal up to the channel, for any noise -----

  predicate SlotsAlike(a: Slot, b: Slot) {
    && (a.Some? <==> b.Some?)
    && (a.Some? ==> a.value.(channel := []) == b.value.(channel := []))
  }

  predicate MessagesAlike(a: Option<LcmMessage>, b: Option<LcmMessage>) {
    && (a.Some? <==> b.Some?)
    && (a.Some? ==> a.value.(channel := []) == b.value.(channel := []))
  }

  lemma AlikeStep(cfg: Config, k: Key, a: Slot, b: Slot, i: Input)
    requires SlotsAlike(a, b)
    ensures var x, y := LazyReceive(cfg, k, a, i), LazyReceive(cfg, k, b, i);
      SlotsAlike(x.slot, y.slot) && MessagesAlike(x.message, y.message)
  {
  }

  /** Noise changes neither the data nor the points of delivery. */
  lemma {:induction false} NoiseKeepsData(cfg: Config, k: Key, slot: Slot, inputs: seq<Input>, noise: seq<bool>)
    requires |noise| == |inputs| && OnlyRejected(cfg, k, slot, inputs, noise)
    ensures var noisy, clean := LazyRun(cfg, k, slot, inputs), LazyRun(cfg, k, slot, Mute(inputs, noise));
      && SlotsAlike(noisy.slot, clean.slot)
      && forall j :: 0 <= j < |inputs| ==> MessagesAlike(noisy.messages[j], clean.messages[j])
  {
    if inputs == [] {
    } else {
      OnlyRejectedPrefix(cfg, k, slot, inputs, noise);
      NoiseKeepsData(cfg, k, slot, DropLast(inputs), DropLast(noise));
      var a := LazyRun(cfg, k, slot, DropLast(inputs)).slot;
      var b := LazyRun(cfg, k, slot, Mute(DropLast(inputs), DropLast(noise))).slot;
      if Last(noise) {
        assert inputs[..|inputs| - 1] == DropLast(inputs);
      } else {
        AlikeStep(cfg, k, a, b, Last(inputs));
      }
    }
  }

  // ----- equal, when number 0 always carries one channel -----

  /** Every fragment numbered 0 of the key carries `channel`. */
  ghost predicate OneChannel(inputs: seq<Input>, k: Key, channel: Bytes) {
    forall j :: 0 <= j < |inputs| && Concerns(inputs[j], k) && FragmentOf(inputs[j]).fragmentNumber == 0 ==>
      FragmentOf(inputs[j]).channel == Some(channel)
  }

  /** A well-formed set that knows the channel once it has taken number 0. */
  predicate Settled(cfg: Config, slot: Slot, channel: Bytes) {
    slot.Some? ==>
      && SetInvariant(cfg, slot.value)
      && (slot.value.nFragments > 0 && slot.value.receivedMask[0] ==> slot.value.channel == channel)
  }

  lemma SettledStep(cfg: Config, k: Key, slot: Slot, i: Input, channel: Bytes)
    requires Settled(cfg, slot, channel) && OneChannel([i], k, channel)
    ensures var out := LazyReceive(cfg, k, slot, i);
      Settled(cfg, out.slot, channel) && (out.message.Some? ==> out.message.value.channel == channel)
  {
    if Concerns(i, k) {
      var f, live := FragmentOf(i), Live(cfg, slot, i.now);
      assert [i][0] == i;
      assert f.fragmentNumber == 0 ==> f.channel == Some(channel);
      if f.payloadSize <= cfg.maxMessageSize {
        OpenSetInvariant(cfg, f, i.created);
        var s := if live.Some? then live.value else OpenSet(f, i.created);
        StepSetInvariant(cfg, s, f);
      }
    }
  }

  lemma OneChannelPrefix(inputs: seq<Input>, k: Key, channel: Bytes)
    requires inputs != [] && OneChannel(inputs, k, channel)
    ensures OneChannel(DropLast(inputs), k, channel) && OneChannel([Last(inputs)], k, channel)
  {
    assert forall j :: 0 <= j < |inputs| - 1 ==> DropLast(inputs)[j] == inputs[j];
  }

  lemma {:induction false} DeliversChannel(cfg: Config, k: Key, slot: Slot, inputs: seq<Input>, channel: Bytes)
    requires Settled(cfg, slot, channel) && OneChannel(inputs, k, channel)
    ensures var r := LazyRun(cfg, k, slot, inputs);
      && Settled(cfg, r.slot, channel)
      && forall j :: 0 <= j < |inputs| && r.messages[j].Some? ==> r.messages[j].value.channel == channel
  {
    if inputs == [] {
    } else {
      OneChannelPrefix(inputs, k, channel);
      DeliversChannel(cfg, k, slot, DropLast(inputs), channel);
      SettledStep(cfg, k, LazyRun(cfg, k, slot, DropLast(inputs)).slot, Last(inputs), channel);
    }
  }

  /** Noise changes nothing at all unless a fragment numbered 0 brings another channel. */
  lemma NoiseChangesNothing(cfg: Config, k: Key, slot: Slot, inputs: seq<Input>, noise: seq<bool>, channel: Bytes)
    requires |noise| == |inputs| && OnlyRejected(cfg, k, slot, inputs, noise)
    requires Settled(cfg, slot, channel) && OneChannel(inputs, k, channel)
    ensures LazyRun(cfg, k, slot, inputs).messages == LazyRun(cfg, k, slot, Mute(inputs, noise)).messages
  {
    var muted := Mute(inputs, noise);
    NoiseKeepsData(cfg, k, slot, inputs, noise);
    DeliversChannel(cfg, k, slot, inputs, channel);
    DeliversChannel(cfg, k, slot, muted, channel);
    var noisy, clean := LazyRun(cfg, k, slot, inputs).messages, LazyRun(cfg, k, slot, muted).messages;
    forall j | 0 <= j < |inputs|
      ensures noisy[j] == clean[j]
    {
      assert MessagesAlike(noisy[j], clean[j]);
    }
  }

  lemma {:induction false} SilentElsewhere(cfg: Config, k: Key, slot: Slot, inputs: seq<Input>)
    ensures forall j :: 0 <= j < |inputs| && !Concerns(inputs[j], k) ==> LazyRun(cfg, k, slot, inputs).messages[j].None?
  {
    if inputs == [] {
    } else {
      SilentElsewhere(cfg, k, slot, DropLast(inputs));
    }
  }

  // ----- the channel exactly -----

  lemma NoiseKeepsRun(cfg: Config, k: Key, inputs: seq<Input>, noise: seq<bool>, c: nat)
    requires |noise| == |inputs| && OnlyRejected(cfg, k, None, inputs, noise) && Monotone(inputs)
    requires c < |inputs| && Concerns(inputs[c], k)
    ensures Monotone(Mute(inputs, noise))
    ensures MessagesAlike(RunFrom(cfg, map[], inputs).messages[c],
                          if noise[c] then None else RunFrom(cfg, map[], Mute(inputs, noise)).messages[c])
  {
    var muted, empty: Pending := Mute(inputs, noise), map[];
    NoiseKeepsData(cfg, k, None, inputs, noise);
    EagerIsLazy(cfg, empty, inputs, k);
    EagerIsLazy(cfg, empty, muted, k);
    SilentElsewhere(cfg, k, None, muted);
  }

  lemma MutedNames(inputs: seq<Input>, noise: seq<bool>, k: Key)
    requires |noise| == |inputs| && ZeroNamesChannel(inputs, k)
    ensures ZeroNamesChannel(Mute(inputs, noise), k)
  {
  }

  /**
   Noise changes a delivered message exactly when, up to its completion, the last fragment that
   names a channel and the last one that does so without the noise name different ones.
   */
  lemma NoiseRenamesExactly(cfg: Config, k: Key, inputs: seq<Input>, noise: seq<bool>, c: nat)
    returns (last: nat, genuine: nat)
    requires |noise| == |inputs| && OnlyRejected(cfg, k, None, inputs, noise) && Monotone(inputs)
    requires c < |inputs| && Concerns(inputs[c], k) && ZeroNamesChannel(inputs, k)
    requires RunFrom(cfg, map[], inputs).messages[c].Some?
    ensures LastNaming(cfg, inputs, k, c, last) && LastNaming(cfg, Mute(inputs, noise), k, c, genuine)
    ensures RunFrom(cfg, map[], inputs).messages[c] == RunFrom(cfg, map[], Mute(inputs, noise)).messages[c]
      <==> FragmentOf(inputs[last]).channel == FragmentOf(inputs[genuine]).channel
  {
    NoiseKeepsRun(cfg, k, inputs, noise, c);
    MutedNames(inputs, noise, k);
    last := ChannelIsLastNamed(cfg, inputs, c);
    genuine := ChannelIsLastNamed(cfg, Mute(inputs, noise), c);
  }

  /**
   A family is still delivered whole, and at the same datagram, when noise is mixed in. It keeps its
   channel exactly when the last fragment that names one up to its completion names that channel.
   */
  lemma DeliveredDespiteNoise(cfg: Config, fs: seq<Fragment>, k: Key, size: u32, channel: Bytes,
                              inputs: seq<Input>, noise: seq<bool>, c: nat) returns (last: nat)
    requires |noise| == |inputs| && OnlyRejected(cfg, k, None, inputs, noise)
    requires CompletedAt(cfg, fs, k, size, channel, None, Mute(inputs, noise), c)
    requires ZeroNamesChannel(inputs, k)
    ensures LastNaming(cfg, inputs, k, c, last)
    ensures var messages := RunFrom(cfg, map[], inputs).messages;
      && messages[c]
         == Some(LcmMessage(FragmentOf(inputs[last]).channel.value, k.sequenceNumber, Assemble(size, fs)))
      && (messages[c] == Some(LcmMessage(channel, k.sequenceNumber, Assemble(size, fs)))
        <==> FragmentOf(inputs[last]).channel == Some(channel))
      && (forall j :: 0 <= j < c && Concerns(inputs[j], k) ==> messages[j].None?)
  {
    var muted := Mute(inputs, noise);
    DeliveredAtLastMissing(cfg, fs, k, size, channel, map[], muted, c);
    assert Concerns(muted[c], k);
    assert Monotone(inputs);
    forall j | 0 <= j <= c && Concerns(inputs[j], k)
      ensures MessagesAlike(RunFrom(cfg, map[], inputs).messages[j],
                            if noise[j] then None else RunFrom(cfg, map[], muted).messages[j])
    {
      NoiseKeepsRun(cfg, k, inputs, noise, j);
    }
    last := ChannelIsLastNamed(cfg, inputs, c);
  }

  // ----- what rejected fragments can still do -----

  /**
   The channel is stored before the checks: a rejected fragment renames the message if it is the
   last up to completion that names a channel, wherever it arrives.
   */
  lemma RejectedFragmentRenames(cfg: Config, fs: seq<Fragment>, k: Key, size: u32, channel: Bytes,
                                inputs: seq<Input>, noise: seq<bool>, b: nat, c: nat, other: Bytes)
    requires |noise| == |inputs| && OnlyRejected(cfg, k, None, inputs, noise)
    requires CompletedAt(cfg, fs, k, size, channel, None, Mute(inputs, noise), c)
    requires ZeroNamesChannel(inputs, k)
    requires b < c && noise[b] && LastNaming(cfg, inputs, k, c, b) && FragmentOf(inputs[b]).channel == Some(other)
    ensures var messages := RunFrom(cfg, map[], inputs).messages;
      && messages[b].None?
      && messages[c] == Some(LcmMessage(other, k.sequenceNumber, Assemble(size, fs)))
  {
    var last := DeliveredDespiteNoise(cfg, fs, k, size, channel, inputs, noise, c);
    assert last == b;
  }

  /** A fragment numbered 0 that names a channel, is within the cap, and fails the metadata check. */
  predicate Impostor(cfg: Config, i: Input, k: Key, size: u32, other: Bytes) {
    && Names(cfg, i, k) && FragmentOf(i).channel == Some(other) && FragmentOf(i).payloadSize != size
  }

  lemma ImpostorStored(cfg: Config, k: Key, s: SetView, i: Input, other: Bytes)
    requires Impostor(cfg, i, k, s.payloadSize, other) && !Stale(cfg, s, i.now)
    ensures LazyReceive(cfg, k, Some(s), i) == Outcome(Some(s.(channel := other)), None)
  {
  }

  lemma RenamedCompletion(cfg: Config, fs: seq<Fragment>, k: Key, size: u32, channel: Bytes, seen: set<nat>,
                          s: SetView, other: Bytes, i: Input)
    requires Family(fs, k, size, channel) && size <= cfg.maxMessageSize && PartOf(s, fs, seen, size, channel)
    requires Concerns(i, k) && 0 < FragmentOf(i).fragmentNumber < |fs|
    requires FragmentOf(i) == fs[FragmentOf(i).fragmentNumber]
    requires seen < Numbers(|fs|) && seen + {FragmentOf(i).fragmentNumber} == Numbers(|fs|) && !Stale(cfg, s, i.now)
    ensures LazyReceive(cfg, k, Some(s.(channel := other)), i)
      == Outcome(None, Some(LcmMessage(other, k.sequenceNumber, Assemble(size, fs))))
  {
    StepPart(s, fs, k, size, channel, seen, FragmentOf(i).fragmentNumber);
  }

  lemma OneMissing(fs: seq<Fragment>, k: Key, seen: set<nat>, i: Input)
    requires |fs| > 1 && seen != Numbers(|fs|) && seen + NumberIn(i, k) == Numbers(|fs|)
    ensures Concerns(i, k) && seen != {} && seen < Numbers(|fs|)
    ensures FragmentOf(i).fragmentNumber < |fs| && seen + {FragmentOf(i).fragmentNumber} == Numbers(|fs|)
  {
    assert 0 in Numbers(|fs|) && 1 in Numbers(|fs|);
  }

  lemma StillLive(cfg: Config, k: Key, before: seq<Input>, bad: Input, i: Input, s: SetView)
    requires Monotone(before + [bad] + [i]) && Timely(cfg, before + [i], k) && Concerns(i, k)
    requires OpenedDuring(before, k, s.createdAt)
    ensures !Stale(cfg, s, bad.now) && !Stale(cfg, s, i.now)
  {
    var all, trace := before + [i], before + [bad] + [i];
    var j :| 0 <= j < |before| && Concerns(before[j], k) && before[j].created == s.createdAt;
    assert all[j] == before[j] && all[|before|] == i;
    assert trace[|before|] == bad && trace[|before| + 1] == i;
  }

  /**
   There are such traces: in any trace that completes a family, an impostor put just before the last
   datagram is rejected, and the message comes out with the impostor's channel.
   */
  lemma ImpostorRenames(cfg: Config, fs: seq<Fragment>, k: Key, size: u32, channel: Bytes,
                        before: seq<Input>, bad: Input, i: Input, other: Bytes)
    requires CompletedAt(cfg, fs, k, size, channel, None, before + [i], |before|)
    requires |fs| > 1 && FragmentOf(i).fragmentNumber != 0
    requires Impostor(cfg, bad, k, size, other) && Monotone(before + [bad] + [i])
    ensures var messages := RunFrom(cfg, map[], before + [bad] + [i]).messages;
      && messages[|before|].None?
      && messages[|before| + 1] == Some(LcmMessage(other, k.sequenceNumber, Assemble(size, fs)))
  {
    var all, trace, empty: Pending := before + [i], before + [bad] + [i], map[];
    assert all[..|before|] == before && all[|before|] == i;
    CleanPrefix(cfg, fs, k, None, before, i);
    AwaitingMore(cfg, fs, k, size, channel, None, before);
    var slot := LazyRun(cfg, k, None, before).slot;
    OneMissing(fs, k, Seen(before, k), i);
    StillLive(cfg, k, before, bad, i, slot.value);
    ImpostorStored(cfg, k, slot.value, bad, other);
    RenamedCompletion(cfg, fs, k, size, channel, Seen(before, k), slot.value, other, i);
    LazyRunStep(cfg, k, None, before, bad);
    LazyRunStep(cfg, k, None, before + [bad], i);
    EagerIsLazy(cfg, empty, trace, k);
    assert trace[|before|] == bad && trace[|before| + 1] == i;
  }

  // ----- sets that block their key -----

  /** The set takes no fragment of this header, or none at all. */
  predicate Refuses(s: SetView, f: Fragment) {
    f.payloadSize != s.payloadSize || f.nFragments != s.nFragments || s.receivedMask == []
  }

  lemma {:induction false} RefusingSetBlocks(cfg: Config, k: Key, s: SetView, inputs: seq<Input>)
    requires forall j :: 0 <= j < |inputs| && Concerns(inputs[j], k) ==>
      Refuses(s, FragmentOf(inputs[j])) && inputs[j].now <= s.createdAt + cfg.timeout
    ensures var r := LazyRun(cfg, k, Some(s), inputs);
      && Silent(r.messages)
      && r.slot.Some? && r.slot.value.(channel := s.channel) == s
  {
    if inputs == [] {
    } else {
      assert forall j :: 0 <= j < |inputs| - 1 ==> DropLast(inputs)[j] == inputs[j];
      RefusingSetBlocks(cfg, k, s, DropLast(inputs));
    }
  }

  /** A live set announced with no fragments takes none: it silences its key until it expires. */
  lemma {:induction false} EmptySetBlocksKey(cfg: Config, k: Key, s: SetView, inputs: seq<Input>)
    requires s.nFragments == 0 && s.receivedMask == []
    requires forall j :: 0 <= j < |inputs| && Concerns(inputs[j], k) ==> inputs[j].now <= s.createdAt + cfg.timeout
    ensures var r := LazyRun(cfg, k, Some(s), inputs);
      && Silent(r.messages)
      && r.slot.Some? && r.slot.value.(channel := s.channel) == s
  {
    RefusingSetBlocks(cfg, k, s, inputs);
  }

  /** The key has a set with another header than the family, and every fragment of the key finds it live. */
  ghost predicate ForeignSet(cfg: Config, slot: Slot, inputs: seq<Input>, k: Key, size: u32, n: nat) {
    && slot.Some? && (slot.value.payloadSize != size || slot.value.nFragments != n)
    && forall j :: 0 <= j < |inputs| && Concerns(inputs[j], k) ==> !Stale(cfg, slot.value, inputs[j].now)
  }

  /** While such a set lives, nothing of the family is delivered, however often it arrives. */
  lemma {:induction false} ForeignSetBlocksFamily(cfg: Config, fs: seq<Fragment>, k: Key, size: u32,
                                                  pending: Pending, inputs: seq<Input>)
    requires Headers(fs, k, size) && OnlyFrom(inputs, k, fs) && Monotone(inputs)
    requires ForeignSet(cfg, Lookup(pending, k), inputs, k, size, |fs|)
    ensures forall j :: 0 <= j < |inputs| && Concerns(inputs[j], k) ==>
      RunFrom(cfg, pending, inputs).messages[j].None?
  {
    RefusingSetBlocks(cfg, k, pending[k], inputs);
    EagerIsLazy(cfg, pending, inputs, k);
  }

  /** Once it has expired, it leaves the key free. */
  lemma ForeignSetExpires(cfg: Config, fs: seq<Fragment>, k: Key, size: u32,
                          pending: Pending, inputs: seq<Input>, e: nat)
    requires Headers(fs, k, size) && OnlyFrom(inputs, k, fs) && Monotone(inputs) && e <= |inputs|
    requires ForeignSet(cfg, Lookup(pending, k), inputs[..e], k, size, |fs|)
    requires NoLiveSet(cfg, Lookup(pending, k), inputs[e..], k)
    ensures NoLiveSet(cfg, Lookup(RunFrom(cfg, pending, inputs[..e]).pending, k), inputs[e..], k)
  {
    var before := inputs[..e];
    assert forall j :: 0 <= j < e ==> before[j] == inputs[j];
    MonotoneUpTo(inputs, e);
    RefusingSetBlocks(cfg, k, pending[k], before);
    EagerIsLazy(cfg, pending, before, k);
  }
}
