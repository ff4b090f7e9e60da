/**
 Where a delivered message comes from: a log of trace positions justifies every
 set in the table and, in the end, every message, its bytes, its channel and its age.
 */
module Provenance {
  import opened Primitives
  import opened Protocol
  import opened Reassembly
  import opened Isolation
  import opened Confluence

  /** Positions in a trace: where the set was opened, what it accepted, and who named its channel. */
  datatype Log = Log(openedAt: nat, picks: seq<nat>, namedAt: Option<nat>)

  /** A fragment that sets the channel of its set, even if it is dropped afterwards. */
  predicate Names(cfg: Config, i: Input, k: Key) {
    && Concerns(i, k) && FragmentOf(i).payloadSize <= cfg.maxMessageSize
    && FragmentOf(i).fragmentNumber == 0 && FragmentOf(i).channel.Some?
  }

  /** `picks` are increasing positions of fragments of `k` with one header and distinct numbers. */
  ghost predicate Picks(inputs: seq<Input>, k: Key, size: u32, n: u16, from: nat, picks: seq<nat>) {
    && (forall a :: 0 <= a < |picks| ==>
      && from <= picks[a] < |inputs| && Concerns(inputs[picks[a]], k)
      && FragmentOf(inputs[picks[a]]).payloadSize == size
      && FragmentOf(inputs[picks[a]]).nFragments == n
      && FragmentOf(inputs[picks[a]]).fragmentNumber < n
      && Fits(FragmentOf(inputs[picks[a]]), size))
    && (forall a, b :: 0 <= a < b < |picks| ==>
      && picks[a] < picks[b]
      && FragmentOf(inputs[picks[a]]).fragmentNumber != FragmentOf(inputs[picks[b]]).fragmentNumber)
  }

  function FragmentsAt(inputs: seq<Input>, picks: seq<nat>): (fs: seq<Fragment>)
    requires forall a :: 0 <= a < |picks| ==> picks[a] < |inputs| && IsFragment(inputs[picks[a]])
    ensures |fs| == |picks|
    ensures forall a :: 0 <= a < |fs| ==> fs[a] == FragmentOf(inputs[picks[a]])
  {
    seq(|picks|, a requires 0 <= a < |picks| => FragmentOf(inputs[picks[a]]))
  }

  /** The channel is the one given by the last naming fragment between opening and `upto`. */
  ghost predicate NamedBy(cfg: Config, inputs: seq<Input>, upto: nat, k: Key, log: Log, channel: Bytes)
    requires upto <= |inputs|
  {
    && (log.namedAt.None? ==> channel == [])
    && (log.namedAt.Some? ==>
      && log.openedAt <= log.namedAt.value < upto && Names(cfg, inputs[log.namedAt.value], k)
      && FragmentOf(inputs[log.namedAt.value]).channel == Some(channel))
    && (forall j :: log.openedAt <= j < upto && Names(cfg, inputs[j], k) ==>
      log.namedAt.Some? && j <= log.namedAt.value)
  }

  ghost predicate Picked(inputs: seq<Input>, picks: seq<nat>, q: nat)
    requires forall a :: 0 <= a < |picks| ==> picks[a] < |inputs| && IsFragment(inputs[picks[a]])
  {
    exists a :: 0 <= a < |picks| && FragmentOf(inputs[picks[a]]).fragmentNumber == q
  }

  ghost predicate Marks(inputs: seq<Input>, picks: seq<nat>, mask: seq<bool>)
    requires forall a :: 0 <= a < |picks| ==> picks[a] < |inputs| && IsFragment(inputs[picks[a]])
  {
    forall q: nat :: q < |mask| ==> (mask[q] <==> Picked(inputs, picks, q))
  }

  /** `log` accounts for the whole state of the set `s` of key `k`. */
  ghost predicate Accounts(cfg: Config, inputs: seq<Input>, upto: nat, k: Key, s: SetView, log: Log) {
    && upto <= |inputs| && log.openedAt < |inputs|
    && Concerns(inputs[log.openedAt], k) && inputs[log.openedAt].created == s.createdAt
    && Picks(inputs, k, s.payloadSize, s.nFragments, log.openedAt, log.picks)
    && |log.picks| == s.fragmentsReceived
    && Marks(inputs, log.picks, s.receivedMask)
    && s.buffer == Assemble(s.payloadSize, FragmentsAt(inputs, log.picks))
    && NamedBy(cfg, inputs, upto, k, log, s.channel)
  }

  lemma AccountsExtend(cfg: Config, inputs: seq<Input>, i: Input, k: Key, s: SetView, log: Log)
    requires Accounts(cfg, inputs, |inputs|, k, s, log)
    ensures Accounts(cfg, inputs + [i], |inputs|, k, s, log)
  {
    var all := inputs + [i];
    assert forall j :: 0 <= j < |inputs| ==> all[j] == inputs[j];
    assert FragmentsAt(all, log.picks) == FragmentsAt(inputs, log.picks);
  }

  lemma AccountsSkip(cfg: Config, inputs: seq<Input>, k: Key, s: SetView, log: Log)
    requires inputs != [] && Accounts(cfg, inputs, |inputs| - 1, k, s, log) && !Names(cfg, Last(inputs), k)
    ensures Accounts(cfg, inputs, |inputs|, k, s, log)
  {
  }

  lemma AccountsOpen(cfg: Config, inputs: seq<Input>, k: Key)
    requires inputs != [] && Concerns(Last(inputs), k)
    ensures var f := FragmentOf(Last(inputs));
      Accounts(cfg, inputs, |inputs| - 1, k, OpenSet(f, Last(inputs).created), Log(|inputs| - 1, [], None))
  {
    assert FragmentsAt(inputs, []) == [];
  }

  function Rename(log: Log, f: Fragment, at: nat): Log {
    if f.fragmentNumber == 0 && f.channel.Some? then log.(namedAt := Some(at)) else log
  }

  lemma AccountsStore(cfg: Config, inputs: seq<Input>, k: Key, s: SetView, log: Log)
    requires inputs != [] && Accounts(cfg, inputs, |inputs| - 1, k, s, log)
    requires Concerns(Last(inputs), k) && FragmentOf(Last(inputs)).payloadSize <= cfg.maxMessageSize
    requires log.openedAt <= |inputs| - 1
    ensures var f := FragmentOf(Last(inputs));
      Accounts(cfg, inputs, |inputs|, k, StoreChannel(s, f), Rename(log, f, |inputs| - 1))
  {
  }

  lemma PicksMore(inputs: seq<Input>, k: Key, size: u32, n: u16, from: nat, picks: seq<nat>)
    requires inputs != [] && from < |inputs| && Picks(inputs, k, size, n, from, picks)
    requires Concerns(Last(inputs), k) && FragmentOf(Last(inputs)).payloadSize == size
    requires FragmentOf(Last(inputs)).nFragments == n && FragmentOf(Last(inputs)).fragmentNumber < n
    requires Fits(FragmentOf(Last(inputs)), size)
    requires forall a :: 0 <= a < |picks| ==>
      && picks[a] < |inputs| - 1
      && FragmentOf(inputs[picks[a]]).fragmentNumber != FragmentOf(Last(inputs)).fragmentNumber
    ensures Picks(inputs, k, size, n, from, picks + [|inputs| - 1])
  {
  }

  lemma AccountsAccept(cfg: Config, inputs: seq<Input>, k: Key, s: SetView, log: Log)
    requires inputs != [] && Accounts(cfg, inputs, |inputs|, k, s, log) && Balanced(s)
    requires Concerns(Last(inputs), k) && Judge(s, FragmentOf(Last(inputs))) == Accepted
    requires forall a :: 0 <= a < |log.picks| ==> log.picks[a] < |inputs| - 1
    ensures Accounts(cfg, inputs, |inputs|, k, Accept(s, FragmentOf(Last(inputs))),
                     log.(picks := log.picks + [|inputs| - 1]))
  {
    var f, at, picks := FragmentOf(Last(inputs)), |inputs| - 1, log.picks + [|inputs| - 1];
    forall a | 0 <= a < |log.picks|
      ensures FragmentOf(inputs[log.picks[a]]).fragmentNumber != f.fragmentNumber
    {
      assert Picked(inputs, log.picks, FragmentOf(inputs[log.picks[a]]).fragmentNumber);
    }
    PicksMore(inputs, k, s.payloadSize, s.nFragments, log.openedAt, log.picks);
    assert DropLast(FragmentsAt(inputs, picks)) == FragmentsAt(inputs, log.picks);
    MarksMore(inputs, log.picks, s.receivedMask, at);
  }

  lemma MarksMore(inputs: seq<Input>, picks: seq<nat>, mask: seq<bool>, at: nat)
    requires forall a :: 0 <= a < |picks| ==> picks[a] < |inputs| && IsFragment(inputs[picks[a]])
    requires at < |inputs| && IsFragment(inputs[at]) && FragmentOf(inputs[at]).fragmentNumber < |mask|
    requires Marks(inputs, picks, mask)
    ensures Marks(inputs, picks + [at], mask[FragmentOf(inputs[at]).fragmentNumber := true])
  {
    var more, n := picks + [at], FragmentOf(inputs[at]).fragmentNumber;
    assert more[|picks|] == at;
    forall q: nat | q < |mask|
      ensures mask[n := true][q] <==> Picked(inputs, more, q)
    {
      if q != n && mask[q] {
        var a :| 0 <= a < |picks| && FragmentOf(inputs[picks[a]]).fragmentNumber == q;
        assert more[a] == picks[a];
      }
    }
  }

  // ----- the theorem about delivered messages -----

  /**
   `m` is made of one fragment for each number, all taken at positions between the
   opening and the end of `inputs`, and the completing one is the last input.
   */
  ghost predicate Genuine(cfg: Config, inputs: seq<Input>, k: Key, m: LcmMessage, log: Log) {
    && inputs != [] && Concerns(Last(inputs), k)
    && var f := FragmentOf(Last(inputs));
    && f.payloadSize <= cfg.maxMessageSize
    && log.openedAt < |inputs| && Concerns(inputs[log.openedAt], k)
    && Picks(inputs, k, f.payloadSize, f.nFragments, log.openedAt, log.picks)
    && log.picks != [] && Last(log.picks) == |inputs| - 1 && |log.picks| == f.nFragments
    && m.sequenceNumber == k.sequenceNumber
    && m.data == Assemble(f.payloadSize, FragmentsAt(inputs, log.picks))
    && NamedBy(cfg, inputs, |inputs|, k, log, m.channel)
    && Last(inputs).now <= inputs[log.openedAt].created + cfg.timeout
  }

  ghost predicate ComesFrom(cfg: Config, inputs: seq<Input>, k: Key, m: LcmMessage) {
    exists log :: Genuine(cfg, inputs, k, m, log)
  }

  ghost predicate Accounted(cfg: Config, inputs: seq<Input>, k: Key, s: SetView) {
    exists log :: Accounts(cfg, inputs, |inputs|, k, s, log)
  }

  ghost predicate Justified(cfg: Config, inputs: seq<Input>, pending: Pending) {
    forall k :: k in pending ==> Accounted(cfg, inputs, k, pending[k])
  }

  /** Taking one fragment into an accounted set leaves an accounted set or a genuine message. */
  lemma AbsorbAccounted(cfg: Config, inputs: seq<Input>, k: Key, s: SetView, log: Log)
    requires inputs != [] && Accounts(cfg, inputs, |inputs| - 1, k, s, log) && SetInvariant(cfg, s)
    requires Concerns(Last(inputs), k) && FragmentOf(Last(inputs)).payloadSize <= cfg.maxMessageSize
    requires log.openedAt <= |inputs| - 1 && forall a :: 0 <= a < |log.picks| ==> log.picks[a] < |inputs| - 1
    requires Last(inputs).now <= s.createdAt + cfg.timeout
    ensures var out := StepSet(s, FragmentOf(Last(inputs)));
      && (out.slot.Some? ==> Accounted(cfg, inputs, k, out.slot.value))
      && (out.message.Some? ==> ComesFrom(cfg, inputs, k, out.message.value))
  {
    var f := FragmentOf(Last(inputs));
    var s0, log0 := StoreChannel(s, f), Rename(log, f, |inputs| - 1);
    AccountsStore(cfg, inputs, k, s, log);
    if Judge(s0, f) == Accepted {
      var log1 := log0.(picks := log0.picks + [|inputs| - 1]);
      AccountsAccept(cfg, inputs, k, s0, log0);
      var s1 := Accept(s0, f);
      if s1.fragmentsReceived == s1.nFragments {
        assert Genuine(cfg, inputs, k, LcmMessage(s1.channel, f.sequenceNumber, s1.buffer), log1);
      }
    }
  }

  lemma PicksBefore(cfg: Config, inputs: seq<Input>, k: Key, s: SetView, log: Log)
    requires Accounts(cfg, inputs, |inputs|, k, s, log)
    ensures log.openedAt < |inputs| && forall a :: 0 <= a < |log.picks| ==> log.picks[a] < |inputs|
  {
  }

  lemma JustifiedOther(cfg: Config, inputs: seq<Input>, i: Input, k: Key, s: SetView)
    requires Accounted(cfg, inputs, k, s)
    requires !Names(cfg, i, k)
    ensures Accounted(cfg, inputs + [i], k, s)
  {
    var log :| Accounts(cfg, inputs, |inputs|, k, s, log);
    AccountsExtend(cfg, inputs, i, k, s, log);
    AccountsSkip(cfg, inputs + [i], k, s, log);
  }

  lemma JustifiedOwn(cfg: Config, inputs: seq<Input>, i: Input, k: Key, slot: Slot)
    requires slot.Some? ==>
      SetInvariant(cfg, slot.value) && Accounted(cfg, inputs, k, slot.value)
    requires Concerns(i, k) && i.now <= i.created
    ensures var all, out := inputs + [i], LazyReceive(cfg, k, slot, i);
      && (out.slot.Some? ==> Accounted(cfg, all, k, out.slot.value))
      && (out.message.Some? ==> ComesFrom(cfg, all, k, out.message.value))
  {
    var all, f, live := inputs + [i], FragmentOf(i), Live(cfg, slot, i.now);
    assert Last(all) == i;
    if f.payloadSize > cfg.maxMessageSize {
      if live.Some? {
        JustifiedOther(cfg, inputs, i, k, live.value);
      }
    } else if live.Some? {
      var log :| Accounts(cfg, inputs, |inputs|, k, live.value, log);
      PicksBefore(cfg, inputs, k, live.value, log);
      AccountsExtend(cfg, inputs, i, k, live.value, log);
      AbsorbAccounted(cfg, all, k, live.value, log);
    } else {
      OpenSetInvariant(cfg, f, i.created);
      AccountsOpen(cfg, all, k);
      AbsorbAccounted(cfg, all, k, OpenSet(f, i.created), Log(|inputs|, [], None));
    }
  }

  lemma {:induction false} EverySetJustified(cfg: Config, inputs: seq<Input>)
    requires Monotone(inputs)
    ensures Justified(cfg, inputs, RunFrom(cfg, map[], inputs).pending)
  {
    if inputs == [] {
    } else {
      var prefix, i := DropLast(inputs), Last(inputs);
      assert inputs == prefix + [i];
      MonotonePrefix(inputs);
      EverySetJustified(cfg, prefix);
      ReachableInvariant(cfg, prefix);
      var before := RunFrom(cfg, map[], prefix).pending;
      var after := RunFrom(cfg, map[], inputs).pending;
      forall k | k in after
        ensures Accounted(cfg, inputs, k, after[k])
      {
        StepBoth(cfg, before, i, k);
        assert Lookup(after, k) == Some(after[k]);
        if Concerns(i, k) {
          JustifiedOwn(cfg, prefix, i, k, Lookup(before, k));
        } else {
          JustifiedOther(cfg, prefix, i, k, before[k]);
        }
      }
    }
  }

  /** Every reassembled message is genuine: no run makes up, mixes or resurrects data. */
  lemma EveryDeliveryGenuine(cfg: Config, inputs: seq<Input>, c: nat)
    requires Monotone(inputs) && c < |inputs| && IsFragment(inputs[c])
    requires RunFrom(cfg, map[], inputs).messages[c].Some?
    ensures ComesFrom(cfg, inputs[..c + 1], KeyOf(inputs[c]), RunFrom(cfg, map[], inputs).messages[c].value)
  {
    var prefix, i, k := inputs[..c], inputs[c], KeyOf(inputs[c]);
    assert inputs[..c + 1] == prefix + [i];
    MonotoneUpTo(inputs, c);
    EverySetJustified(cfg, prefix);
    ReachableInvariant(cfg, prefix);
    MessageAt(cfg, map[], inputs, c);
    var before := RunFrom(cfg, map[], prefix).pending;
    ReceiveOwnKey(cfg, before, i, k);
    JustifiedOwn(cfg, prefix, i, k, Lookup(before, k));
  }

  /** The picks of a genuine message carry each number below n exactly once. */
  lemma GenuineUsesEachNumberOnce(cfg: Config, inputs: seq<Input>, k: Key, m: LcmMessage, log: Log, q: nat)
    requires Genuine(cfg, inputs, k, m, log) && q < FragmentOf(Last(inputs)).nFragments
    ensures Picked(inputs, log.picks, q)
  {
    var n: nat := FragmentOf(Last(inputs)).nFragments;
    var numbers := seq(n, a requires 0 <= a < n => FragmentOf(inputs[log.picks[a]]).fragmentNumber as nat);
    InjectiveIsOnto(numbers, n, q);
    var a :| 0 <= a < n && numbers[a] == q;
  }

  /** Every fragment of `k` numbered 0 names a channel, as parsing guarantees. */
  ghost predicate ZeroNamesChannel(inputs: seq<Input>, k: Key) {
    forall j :: 0 <= j < |inputs| && Concerns(inputs[j], k) && FragmentOf(inputs[j]).fragmentNumber == 0 ==>
      FragmentOf(inputs[j]).channel.Some?
  }

  /** Of the inputs up to `c`, `last` is the last that names a channel for `k`. */
  ghost predicate LastNaming(cfg: Config, inputs: seq<Input>, k: Key, c: nat, last: nat) {
    && last <= c < |inputs| && Names(cfg, inputs[last], k)
    && forall j :: last < j <= c ==> !Names(cfg, inputs[j], k)
  }

  lemma GenuineIsNamed(cfg: Config, inputs: seq<Input>, k: Key, m: LcmMessage, log: Log) returns (last: nat)
    requires Genuine(cfg, inputs, k, m, log) && ZeroNamesChannel(inputs, k)
    ensures LastNaming(cfg, inputs, k, |inputs| - 1, last) && FragmentOf(inputs[last]).channel == Some(m.channel)
  {
    GenuineUsesEachNumberOnce(cfg, inputs, k, m, log, 0);
    var a :| 0 <= a < |log.picks| && FragmentOf(inputs[log.picks[a]]).fragmentNumber == 0;
    assert Names(cfg, inputs[log.picks[a]], k);
    last := log.namedAt.value;
  }

  /**
   A reassembled message has the channel of the last fragment that named one for its key in the
   whole trace up to its completion, whether that fragment was accepted or not.
   */
  lemma ChannelIsLastNamed(cfg: Config, inputs: seq<Input>, c: nat) returns (last: nat)
    requires Monotone(inputs) && c < |inputs| && IsFragment(inputs[c])
    requires RunFrom(cfg, map[], inputs).messages[c].Some? && ZeroNamesChannel(inputs, KeyOf(inputs[c]))
    ensures LastNaming(cfg, inputs, KeyOf(inputs[c]), c, last)
    ensures FragmentOf(inputs[last]).channel == Some(RunFrom(cfg, map[], inputs).messages[c].value.channel)
  {
    var k, upto, m := KeyOf(inputs[c]), inputs[..c + 1], RunFrom(cfg, map[], inputs).messages[c].value;
    EveryDeliveryGenuine(cfg, inputs, c);
    var log :| Genuine(cfg, upto, k, m, log);
    assert forall j :: 0 <= j <= c ==> upto[j] == inputs[j];
    last := GenuineIsNamed(cfg, upto, k, m, log);
  }

  lemma InjectiveIsOnto(xs: seq<nat>, n: nat, q: nat)
    requires |xs| == n && q < n
    requires forall a :: 0 <= a < n ==> xs[a] < n
    requires forall a, b :: 0 <= a < b < n ==> xs[a] != xs[b]
    ensures q in xs
  {
    var image := set x | x in xs;
    ImageSize(xs, image);
    NumbersSize(n);
    assert image <= Numbers(n);
    SubsetOfEqualSize(image, Numbers(n));
    assert q in image;
  }

  lemma {:induction false} ImageSize(xs: seq<nat>, image: set<nat>)
    requires image == set x | x in xs
    requires forall a, b :: 0 <= a < b < |xs| ==> xs[a] != xs[b]
    ensures |image| == |xs|
  {
    if xs == [] {
    } else {
      var rest := set x | x in DropLast(xs);
      ImageSize(DropLast(xs), rest);
      assert xs == DropLast(xs) + [Last(xs)];
      assert image == rest + {Last(xs)};
    }
  }

  lemma {:induction false} NumbersSize(n: nat)
    ensures |Numbers(n)| == n
  {
    if n == 0 {
    } else {
      NumbersSize(n - 1);
    }
  }

  lemma SubsetOfEqualSize(a: set<nat>, b: set<nat>)
    requires a <= b && |a| == |b|
    ensures a == b
  {
    assert b == a + (b - a);
    assert |b| == |a| + |b - a|;
  }
}
