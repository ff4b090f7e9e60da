/** What goes into the table of fragment sets comes out of it, and nothing stays in it too long. */
module Conservation {
  import opened Primitives
  import opened Reassembly
  import opened Isolation

  function Received(slot: Slot): nat {
    if slot.Some? then slot.value.fragmentsReceived else 0
  }

  /** Datagram `i` is a fragment of `k` that passes every check against `pending`. */
  predicate Accepts(cfg: Config, pending: Pending, i: Input, k: Key) {
    && Concerns(i, k) && FragmentOf(i).payloadSize <= cfg.maxMessageSize
    && var live := Live(cfg, Lookup(pending, k), i.now);
    && var s := if live.Some? then live.value else OpenSet(FragmentOf(i), i.created);
    && Judge(StoreChannel(s, FragmentOf(i)), FragmentOf(i)) == Accepted
  }

  /** Fragments of `k` thrown away by the sweep that datagram `i` triggers. */
  function SweptAway(cfg: Config, pending: Pending, i: Input, k: Key): nat {
    if IsFragment(i) && Live(cfg, Lookup(pending, k), i.now).None? then Received(Lookup(pending, k)) else 0
  }

  datatype Ledger = Ledger(accepted: nat, delivered: nat, expired: nat)

  /** Along a run: fragments accepted for `k`, announced by its delivered messages, and lost to expiry. */
  function Tally(cfg: Config, pending: Pending, inputs: seq<Input>, k: Key): Ledger {
    if inputs == [] then Ledger(0, 0, 0)
    else
      var i, before := Last(inputs), RunFrom(cfg, pending, DropLast(inputs)).pending;
      var t := Tally(cfg, pending, DropLast(inputs), k);
      Ledger(
        t.accepted + (if Accepts(cfg, before, i, k) then 1 else 0),
        t.delivered + (if Concerns(i, k) && Receive(cfg, before, i).message.Some? then FragmentOf(i).nFragments else 0),
        t.expired + SweptAway(cfg, before, i, k))
  }

  lemma StepConserves(cfg: Config, pending: Pending, i: Input, k: Key)
    ensures var step := Receive(cfg, pending, i);
      Received(Lookup(pending, k)) + (if Accepts(cfg, pending, i, k) then 1 else 0)
      == Received(Lookup(step.pending, k))
         + (if Concerns(i, k) && step.message.Some? then FragmentOf(i).nFragments else 0)
         + SweptAway(cfg, pending, i, k)
  {
    if Concerns(i, k) {
      ReceiveOwnKey(cfg, pending, i, k);
    } else {
      ReceiveOtherKey(cfg, pending, i, k);
    }
  }

  /** Accepted fragments are delivered, still pending, or expired: none is lost or counted twice. */
  lemma {:induction false} FragmentsConserved(cfg: Config, pending: Pending, inputs: seq<Input>, k: Key)
    ensures var t := Tally(cfg, pending, inputs, k);
      Received(Lookup(pending, k)) + t.accepted
      == t.delivered + Received(Lookup(RunFrom(cfg, pending, inputs).pending, k)) + t.expired
  {
    if inputs == [] {
    } else {
      FragmentsConserved(cfg, pending, DropLast(inputs), k);
      StepConserves(cfg, RunFrom(cfg, pending, DropLast(inputs)).pending, Last(inputs), k);
    }
  }

  // ----- the sweep -----

  /** A set no datagram addresses survives a step unchanged, exactly while it is within the timeout. */
  lemma {:induction false} SurvivesExactlyWhileYoung(cfg: Config, pending: Pending, i: Input, k: Key)
    requires IsFragment(i) && KeyOf(i) != k && k in pending
    ensures var after := Receive(cfg, pending, i).pending;
      && (k in after <==> i.now <= pending[k].createdAt + cfg.timeout)
      && (k in after ==> after[k] == pending[k])
  {
    ReceiveOtherKey(cfg, pending, i, k);
  }

  function LastSweep(inputs: seq<Input>): nat {
    if inputs == [] then 0
    else if IsFragment(Last(inputs)) then Last(inputs).now
    else LastSweep(DropLast(inputs))
  }

  /** After any run, no set is older than the timeout at the reading of the last sweep. */
  lemma {:induction false} NothingStaleSurvives(cfg: Config, inputs: seq<Input>, k: Key)
    requires Monotone(inputs) && k in RunFrom(cfg, map[], inputs).pending
    ensures LastSweep(inputs) <= RunFrom(cfg, map[], inputs).pending[k].createdAt + cfg.timeout
  {
    if inputs == [] {
    } else {
      var i, before := Last(inputs), RunFrom(cfg, map[], DropLast(inputs)).pending;
      MonotonePrefix(inputs);
      StepBoth(cfg, before, i, k);
      if !IsFragment(i) {
        NothingStaleSurvives(cfg, DropLast(inputs), k);
      } else if Concerns(i, k) && FragmentOf(i).payloadSize <= cfg.maxMessageSize {
        CreatedByStep(cfg, k, Lookup(before, k), i);
      }
    }
  }

  lemma CreatedByStep(cfg: Config, k: Key, slot: Slot, i: Input)
    requires Concerns(i, k) && i.now <= i.created && LazyReceive(cfg, k, slot, i).slot.Some?
    ensures i.now <= LazyReceive(cfg, k, slot, i).slot.value.createdAt + cfg.timeout
  {
  }
}
