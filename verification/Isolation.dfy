/**
 Keys do not disturb each other. The reassembler sweeps the whole table on every
 fragment, but nobody can tell that from a machine that only looks at its own key.
 */
module Isolation {
  import opened Primitives
  import opened Reassembly

  // ----- the lazy reference machine of one key -----

  predicate Concerns(i: Input, k: Key) {
    IsFragment(i) && KeyOf(i) == k
  }

  function Live(cfg: Config, slot: Slot, now: nat): Slot {
    if slot.Some? && Stale(cfg, slot.value, now) then None else slot
  }

  /** One datagram against one key: expiry is looked at only when that key is addressed. */
  function LazyReceive(cfg: Config, k: Key, slot: Slot, i: Input): Outcome {
    if !Concerns(i, k) then Outcome(slot, None)
    else
      var live := Live(cfg, slot, i.now);
      var f := FragmentOf(i);
      if f.payloadSize > cfg.maxMessageSize then Outcome(live, None)
      else StepSet(if live.Some? then live.value else OpenSet(f, i.created), f)
  }

  datatype KeyRun = KeyRun(slot: Slot, messages: seq<Option<LcmMessage>>)

  function LazyRun(cfg: Config, k: Key, slot: Slot, inputs: seq<Input>): (r: KeyRun)
    ensures |r.messages| == |inputs|
  {
    if inputs == [] then KeyRun(slot, [])
    else
      var r := LazyRun(cfg, k, slot, DropLast(inputs));
      var out := LazyReceive(cfg, k, r.slot, Last(inputs));
      KeyRun(out.slot, r.messages + [out.message])
  }

  // ----- eager and lazy expiry agree -----

  function Horizon(inputs: seq<Input>): nat {
    if inputs == [] then 0 else Last(inputs).now
  }

  /** The slots agree, or the first has already lost a set that the second will find stale. */
  predicate SameUnlessStale(cfg: Config, a: Slot, b: Slot, now: nat) {
    a == b || (a.None? && b.Some? && Stale(cfg, b.value, now))
  }

  lemma ReceiveOwnKey(cfg: Config, pending: Pending, i: Input, k: Key)
    requires Concerns(i, k)
    ensures var step := Receive(cfg, pending, i);
      Outcome(Lookup(step.pending, k), step.message) == LazyReceive(cfg, k, Lookup(pending, k), i)
  {
  }

  lemma ReceiveOtherKey(cfg: Config, pending: Pending, i: Input, k: Key)
    requires !Concerns(i, k)
    ensures Lookup(Receive(cfg, pending, i).pending, k)
      == if IsFragment(i) then Live(cfg, Lookup(pending, k), i.now) else Lookup(pending, k)
  {
  }

  lemma MonotonePrefix(inputs: seq<Input>)
    requires inputs != [] && Monotone(inputs)
    ensures Monotone(DropLast(inputs)) && Horizon(DropLast(inputs)) <= Last(inputs).now
  {
    var prefix := DropLast(inputs);
    assert forall j :: 0 <= j < |prefix| ==> prefix[j] == inputs[j];
    if prefix != [] {
      assert inputs[|prefix| - 1].now <= inputs[|prefix| - 1].created <= inputs[|prefix|].now;
    }
  }

  /** On every datagram of a key, the eager table delivers what the lazy machine of that key delivers. */
  lemma {:induction false} EagerIsLazy(cfg: Config, pending: Pending, inputs: seq<Input>, k: Key)
    requires Monotone(inputs)
    ensures var eager := RunFrom(cfg, pending, inputs);
      var own := LazyRun(cfg, k, Lookup(pending, k), inputs);
      && (forall j :: 0 <= j < |inputs| && Concerns(inputs[j], k) ==> eager.messages[j] == own.messages[j])
      && SameUnlessStale(cfg, Lookup(eager.pending, k), own.slot, Horizon(inputs))
  {
    if inputs == [] {
    } else {
      MonotonePrefix(inputs);
      EagerIsLazy(cfg, pending, DropLast(inputs), k);
      var before := RunFrom(cfg, pending, DropLast(inputs)).pending;
      if Concerns(Last(inputs), k) {
        ReceiveOwnKey(cfg, before, Last(inputs), k);
      } else {
        ReceiveOtherKey(cfg, before, Last(inputs), k);
      }
    }
  }

  // ----- leaving out foreign traffic changes nothing -----

  function Filter(inputs: seq<Input>, keep: Input -> bool): seq<Input> {
    if inputs == [] then []
    else Filter(DropLast(inputs), keep) + if keep(Last(inputs)) then [Last(inputs)] else []
  }

  /** The entries of `xs` at the positions of the kept inputs. */
  function Pick<T>(inputs: seq<Input>, xs: seq<T>, keep: Input -> bool): seq<T>
    requires |xs| == |inputs|
  {
    if inputs == [] then []
    else Pick(DropLast(inputs), DropLast(xs), keep) + if keep(Last(inputs)) then [Last(xs)] else []
  }

  /** `keep` separates the fragments of the keys in `mine` from all other fragments. */
  ghost predicate Separates(inputs: seq<Input>, keep: Input -> bool, mine: Key -> bool) {
    forall j :: 0 <= j < |inputs| && IsFragment(inputs[j]) ==> (keep(inputs[j]) <==> mine(KeyOf(inputs[j])))
  }

  lemma SeparatesPrefix(inputs: seq<Input>, keep: Input -> bool, mine: Key -> bool)
    requires inputs != [] && Separates(inputs, keep, mine)
    ensures Separates(DropLast(inputs), keep, mine)
  {
    assert forall j :: 0 <= j < |inputs| - 1 ==> DropLast(inputs)[j] == inputs[j];
  }

  lemma RunOne(cfg: Config, pending: Pending, inputs: seq<Input>, i: Input)
    ensures var r := RunFrom(cfg, pending, inputs);
      var step := Receive(cfg, r.pending, i);
      RunFrom(cfg, pending, inputs + [i]) == Run(step.pending, r.messages + [step.message])
  {
    assert DropLast(inputs + [i]) == inputs;
  }

  /** Receiving an input in one table, and in the other only if it is kept, leaves them the same for `k`. */
  lemma SameStep(cfg: Config, all: Pending, kept: Pending, i: Input, keeping: bool, k: Key, now: nat)
    requires now <= i.now && SameUnlessStale(cfg, Lookup(all, k), Lookup(kept, k), now)
    requires !keeping ==> !Concerns(i, k)
    ensures SameUnlessStale(cfg, Lookup(Receive(cfg, all, i).pending, k),
                            Lookup(if keeping then Receive(cfg, kept, i).pending else kept, k), i.now)
  {
    StepBoth(cfg, all, i, k);
    StepBoth(cfg, kept, i, k);
  }

  lemma {:induction false} KeptRun(cfg: Config, pending: Pending, inputs: seq<Input>,
                                   keep: Input -> bool, mine: Key -> bool, k: Key)
    requires Monotone(inputs) && Separates(inputs, keep, mine) && mine(k)
    ensures var all := RunFrom(cfg, pending, inputs).pending;
      var kept := RunFrom(cfg, pending, Filter(inputs, keep)).pending;
      SameUnlessStale(cfg, Lookup(all, k), Lookup(kept, k), Horizon(inputs))
  {
    if inputs == [] {
    } else {
      var i, prefix := Last(inputs), DropLast(inputs);
      MonotonePrefix(inputs);
      SeparatesPrefix(inputs, keep, mine);
      KeptRun(cfg, pending, prefix, keep, mine, k);
      RunOne(cfg, pending, Filter(prefix, keep), i);
      SameStep(cfg, RunFrom(cfg, pending, prefix).pending, RunFrom(cfg, pending, Filter(prefix, keep)).pending,
               i, keep(i), k, Horizon(prefix));
      assert Filter(prefix, keep) + [] == Filter(prefix, keep);
    }
  }

  lemma StepBoth(cfg: Config, pending: Pending, i: Input, k: Key)
    ensures Lookup(Receive(cfg, pending, i).pending, k)
      == if Concerns(i, k) then LazyReceive(cfg, k, Lookup(pending, k), i).slot
         else if IsFragment(i) then Live(cfg, Lookup(pending, k), i.now)
         else Lookup(pending, k)
  {
    if Concerns(i, k) {
      ReceiveOwnKey(cfg, pending, i, k);
    } else {
      ReceiveOtherKey(cfg, pending, i, k);
    }
  }

  lemma SameMessage(cfg: Config, a: Pending, b: Pending, i: Input, now: nat)
    requires IsFragment(i) && now <= i.now && SameUnlessStale(cfg, Lookup(a, KeyOf(i)), Lookup(b, KeyOf(i)), now)
    ensures Receive(cfg, a, i).message == Receive(cfg, b, i).message
  {
    ReceiveOwnKey(cfg, a, i, KeyOf(i));
    ReceiveOwnKey(cfg, b, i, KeyOf(i));
  }

  /** A run restricted to the traffic of some keys delivers, for that traffic, the same messages in the same order. */
  lemma {:induction false} NonInterference(cfg: Config, pending: Pending, inputs: seq<Input>,
                                           keep: Input -> bool, mine: Key -> bool)
    requires Monotone(inputs) && Separates(inputs, keep, mine)
    ensures Pick(inputs, RunFrom(cfg, pending, inputs).messages, keep)
      == RunFrom(cfg, pending, Filter(inputs, keep)).messages
  {
    if inputs == [] {
    } else {
      var i, prefix := Last(inputs), DropLast(inputs);
      MonotonePrefix(inputs);
      assert forall j :: 0 <= j < |prefix| ==> prefix[j] == inputs[j];
      NonInterference(cfg, pending, prefix, keep, mine);
      var r := RunFrom(cfg, pending, inputs);
      assert DropLast(r.messages) == RunFrom(cfg, pending, prefix).messages;
      if keep(i) {
        assert DropLast(Filter(prefix, keep) + [i]) == Filter(prefix, keep);
        if IsFragment(i) {
          KeptRun(cfg, pending, prefix, keep, mine, KeyOf(i));
          SameMessage(cfg, RunFrom(cfg, pending, prefix).pending,
                      RunFrom(cfg, pending, Filter(prefix, keep)).pending, i, Horizon(prefix));
        }
      } else {
        assert Filter(inputs, keep) == Filter(prefix, keep);
      }
    }
  }

  /** In particular the other keys' fragments can be dropped. */
  lemma OneKeyAlone(cfg: Config, pending: Pending, inputs: seq<Input>, k: Key)
    requires Monotone(inputs)
    ensures var keep := i => Concerns(i, k);
      Pick(inputs, RunFrom(cfg, pending, inputs).messages, keep)
      == RunFrom(cfg, pending, Filter(inputs, keep)).messages
  {
    NonInterference(cfg, pending, inputs, i => Concerns(i, k), j => j == k);
  }
}
