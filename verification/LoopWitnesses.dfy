/**
 What goes wrong after the counter has wrapped around: concrete runs of a steady sender whose
 messages do not come back, or whose sends fail.

 The constants 2^32 and 5000 come in as the parameters `lap` and `window`: Dafny would unfold the
 recursive functions of this file on literal arguments, thousands of levels deep.
 */
module LoopWitnesses {
  import opened Primitives
  import opened LoopPrevention
  import opened LoopRuns
  import opened LoopCost

  // ----- a steady sender whose messages do not come back -----

  function Steady(n: nat): seq<Action> {
    if n == 0 then [] else Steady(n - 1) + [Send(true), Record]
  }

  function SteadySent(n: nat): (sent: set<u32>) {
    if n == 0 then {} else Recorded(SteadySent(n - 1), (n - 1) % U32_COUNT)
  }

  lemma {:induction false} SteadyRun(n: nat)
    ensures After(Steady(n)) == Some(State(n % U32_COUNT, None, SteadySent(n)))
    ensures Issued(Steady(n)) == n && RecordCount(Steady(n)) == n && AllSucceed(Steady(n))
    ensures LatestIndex(Steady(n)) == if n == 0 then None else Some(n - 1)
  {
    if n == 0 {
    } else {
      SteadyRun(n - 1);
      NextModulo(n - 1);
      SendThenRecord(Steady(n - 1), After(Steady(n - 1)).value);
    }
  }

  lemma SteadyStep(n: nat)
    ensures Outstanding(Steady(n + 1)) == Outstanding(Steady(n))[n % U32_COUNT := n]
    ensures Scanned(Steady(n + 1))
      == Scanned(Steady(n)) + ScanCost(State((n + 1) % U32_COUNT, Some(n % U32_COUNT), SteadySent(n)))
  {
    SteadyRun(n);
    NextModulo(n);
    SendThenRecord(Steady(n), After(Steady(n)).value);
  }

  lemma SteadyCost(n: nat, seqno: u32)
    requires seqno == n % U32_COUNT && |SteadySent(n) + {seqno}| > PRUNE_THRESHOLD
    ensures Scanned(Steady(n + 1)) > Scanned(Steady(n)) + PRUNE_THRESHOLD
  {
    SteadyStep(n);
  }

  lemma {:induction false} SteadyOutstanding(n: nat, i: nat)
    requires i < n <= i + U32_COUNT
    ensures i % U32_COUNT in Outstanding(Steady(n)) && Outstanding(Steady(n))[i % U32_COUNT] == i
  {
    SteadyStep(n - 1);
    if i < n - 1 {
      SteadyOutstanding(n - 1, i);
      NumbersDiffer(i, n - 1);
    }
  }

  /** The last 5001 numbers of a steady sender are in the set. */
  lemma SteadyWindow(n: nat, i: nat)
    requires i < n <= i + WINDOW + 1
    ensures i % U32_COUNT in SteadySent(n)
  {
    SteadyRun(n);
    WindowKept(Steady(n));
    SteadyOutstanding(n, i);
  }

  lemma SecondLapNumber(s: u32)
    ensures (U32_COUNT + s) % U32_COUNT == s
  {
  }

  lemma SecondLapStep(lap: nat, s: u32)
    requires lap == U32_COUNT
    ensures SteadySent(lap + s + 1) == Recorded(SteadySent(lap + s), s)
  {
    SecondLapNumber(s);
  }

  lemma NearNumberStays(sent: set<u32>, s: u32, n: u32)
    requires s in sent && n <= s + WINDOW
    ensures s in Recorded(sent, n)
  {
  }

  /** Numbers from the end of the first lap stay until the second comes near them. */
  lemma {:induction false} OldNumbersStay(lap: nat, m: nat, s: u32)
    requires lap == U32_COUNT && m <= lap && m <= s + WINDOW + 1 && lap - WINDOW - 1 <= s
    ensures s in SteadySent(lap + m)
  {
    if m == 0 {
      SmallModulo(s);
      SteadyWindow(lap, s);
    } else {
      OldNumbersStay(lap, m - 1, s);
      SecondLapStep(lap, m - 1);
      NearNumberStays(SteadySent(lap + (m - 1)), s, m - 1);
    }
  }

  function Range(lo: u32, hi: nat): (r: set<u32>)
    requires lo <= hi <= U32_COUNT
    ensures |r| == hi - lo && forall s :: s in r <==> lo <= s < hi
    decreases hi
  {
    if lo == hi then {} else Range(lo, hi - 1) + {hi - 1}
  }

  lemma RecentInSecondLap(lap: nat, m: nat, s: u32)
    requires lap == U32_COUNT && s < m <= s + WINDOW + 1
    ensures s in SteadySent(lap + m)
  {
    SecondLapNumber(s);
    SteadyWindow(lap + m, lap + s);
  }

  lemma RangeAbove(sent: set<u32>, m: u32, lo: u32, hi: nat)
    requires m < lo <= hi <= U32_COUNT && forall s: u32 :: lo <= s < hi ==> s in sent
    ensures |Above(sent, m)| >= hi - lo
  {
    SubsetSize(Range(lo, hi), Above(sent, m));
  }

  lemma RangeInWindow(sent: set<u32>, m: u32)
    requires WINDOW <= m && forall s: u32 :: m - WINDOW <= s < m ==> s in sent
    ensures |InWindow(sent + {m}, m)| >= WINDOW + 1
  {
    SubsetSize(Range(m - WINDOW, m + 1), InWindow(sent + {m}, m));
  }

  lemma LeftoversInSecondLap(lap: nat, m: u32, sent: set<u32>)
    requires lap == U32_COUNT && m < lap - WINDOW - 1 && sent == SteadySent(lap + m)
    ensures |Above(sent, m)| >= WINDOW + 1
  {
    forall s: u32 | lap - WINDOW - 1 <= s
      ensures s in sent
    {
      OldNumbersStay(lap, m, s);
    }
    RangeAbove(sent, m, lap - WINDOW - 1, lap);
  }

  lemma WindowInSecondLap(lap: nat, m: u32, sent: set<u32>)
    requires lap == U32_COUNT && WINDOW <= m && sent == SteadySent(lap + m)
    ensures |InWindow(sent + {m}, m)| >= WINDOW + 1
  {
    forall s: u32 | m - WINDOW <= s < m
      ensures s in sent
    {
      RecentInSecondLap(lap, m, s);
    }
    RangeInWindow(sent, m);
  }

  /** In the second lap a record finds 5001 leftovers beside its window, and so scans more than 10000 numbers. */
  lemma EveryRecordScans(lap: nat, m: nat)
    requires lap == U32_COUNT && WINDOW <= m < lap - WINDOW - 1
    ensures Scanned(Steady(lap + m + 1)) > Scanned(Steady(lap + m)) + PRUNE_THRESHOLD
  {
    var sent := SteadySent(lap + m);
    LeftoversInSecondLap(lap, m, sent);
    WindowInSecondLap(lap, m, sent);
    ScansWhenFull(State(0, Some(m), sent), m);
    SecondLapNumber(m);
    SteadyCost(lap + m, m);
  }

  lemma {:induction false} SecondLapCost(lap: nat, m: nat)
    requires lap == U32_COUNT && WINDOW <= m < lap - WINDOW
    ensures Scanned(Steady(lap + m)) >= PRUNE_THRESHOLD * (m - WINDOW)
  {
    if m == WINDOW {
    } else {
      SecondLapCost(lap, m - 1);
      EveryRecordScans(lap, m - 1);
    }
  }

  /** The documented amortised cost fails for a sender that goes a little way into its second lap. */
  lemma AmortisedCostFailsAfterWrap(lap: nat, m: nat)
    requires lap == U32_COUNT && m == 2_000_000
    ensures Possible(Steady(lap + m)) && AllSucceed(Steady(lap + m))
    ensures Scanned(Steady(lap + m)) > 3 * RecordCount(Steady(lap + m))
  {
    SecondLapCost(lap, m);
    SteadyRun(lap + m);
  }

  // ----- the window and failed sends -----

  lemma FirstLapStep(n: nat)
    requires n < U32_COUNT
    ensures SteadySent(n + 1) == Recorded(SteadySent(n), n)
  {
    SmallModulo(n);
  }

  lemma RecordedFromRange(sent: set<u32>, n: u32)
    requires n <= PRUNE_THRESHOLD && sent == Range(0, n)
    ensures n < PRUNE_THRESHOLD ==> Recorded(sent, n) == Range(0, n + 1)
    ensures n == PRUNE_THRESHOLD ==> 0 !in Recorded(sent, n)
  {
    assert sent + {n} == Range(0, n + 1);
  }

  lemma {:induction false} FirstNumbers(n: nat)
    requires n <= PRUNE_THRESHOLD
    ensures SteadySent(n) == Range(0, n)
  {
    if n == 0 {
    } else {
      FirstNumbers(n - 1);
      FirstLapStep(n - 1);
      RecordedFromRange(SteadySent(n - 1), n - 1);
    }
  }

  lemma {:induction false} ZeroIsPruned(n: nat)
    requires PRUNE_THRESHOLD < n <= U32_COUNT
    ensures 0 !in SteadySent(n)
  {
    FirstLapStep(n - 1);
    if n - 1 == PRUNE_THRESHOLD {
      FirstNumbers(n - 1);
      RecordedFromRange(SteadySent(n - 1), n - 1);
    } else {
      ZeroIsPruned(n - 1);
      assert 0 !in Recorded(SteadySent(n - 1), n - 1);
    }
  }

  lemma FailThenSend(pre: seq<Action>, b: State)
    requires After(pre) == Some(b) && b.inflight.None?
    ensures var failed := pre + [Send(false)];
      && After(failed) == Some(State((b.counter + 1) % U32_COUNT, None, b.sent))
      && Issued(failed) == Issued(pre) + 1 && Outstanding(failed) == Outstanding(pre)
  {
    assert DropLast(pre + [Send(false)]) == pre;
  }

  /**
   Counting modulo 2^32 is not enough when sends fail: number 0, pruned in the first lap and lost
   when its second send fails, is one behind the latest record, never received, and not in the set.
   */
  lemma ModularWindowFailsAfterFailedSend(lap: nat) returns (steps: seq<Action>)
    requires lap == U32_COUNT
    ensures Possible(steps) && 0 in Outstanding(steps) && LatestIndex(steps).Some?
    ensures Behind(LatestIndex(steps).value % U32_COUNT, 0) == 1
    ensures !Skips(After(steps).value, 0)
  {
    SteadyRun(lap);
    SteadyOutstanding(lap, 0);
    ZeroIsPruned(lap);
    var failed := Steady(lap) + [Send(false)];
    FailThenSend(Steady(lap), After(Steady(lap)).value);
    SecondLapNumber(0);
    SecondLapNumber(1);
    SmallModulo(1);
    SendThenRecord(failed, State(1, None, SteadySent(lap)));
    steps := failed + [Send(true), Record];
  }

  // ----- the size and long outages -----

  function Failures(n: nat): seq<Action> {
    if n == 0 then [] else Failures(n - 1) + [Send(false)]
  }

  lemma OneFailure(pre: seq<Action>, n: nat, sent: set<u32>)
    requires After(pre) == Some(State(n % U32_COUNT, None, sent))
    ensures After(pre + [Send(false)]) == Some(State((n + 1) % U32_COUNT, None, sent))
  {
    StepAfter(pre, State(n % U32_COUNT, None, sent), Send(false));
    NextModulo(n);
  }

  lemma {:induction false} FailuresRun(pre: seq<Action>, first: nat, sent: set<u32>, n: nat)
    requires After(pre) == Some(State(first % U32_COUNT, None, sent))
    ensures After(pre + Failures(n)) == Some(State((first + n) % U32_COUNT, None, sent))
  {
    if n == 0 {
      assert pre + Failures(n) == pre;
    } else {
      FailuresRun(pre, first, sent, n - 1);
      assert pre + Failures(n) == pre + Failures(n - 1) + [Send(false)];
      OneFailure(pre + Failures(n - 1), first + (n - 1), sent);
    }
  }

  lemma NothingPruned(sent: set<u32>, n: u32)
    requires n <= WINDOW
    ensures Recorded(sent, n) == sent + {n}
  {
  }

  lemma NewLapState(sent: set<u32>, n: u32)
    requires n <= WINDOW
    ensures Do(Do(State(n, None, sent), Send(true)), Record) == State(n + 1, None, sent + {n})
  {
    NothingPruned(sent, n);
    SmallModulo(n + 1);
  }

  lemma OneMoreInNewLap(pre: seq<Action>, sent: set<u32>, n: u32)
    requires After(pre) == Some(State(n, None, sent)) && n <= WINDOW
    ensures After(pre + [Send(true), Record]) == Some(State(n + 1, None, sent + {n}))
  {
    var sending := Do(State(n, None, sent), Send(true));
    StepAfter(pre, State(n, None, sent), Send(true));
    StepAfter(pre + [Send(true)], sending, Record);
    NewLapState(sent, n);
    assert pre + [Send(true)] + [Record] == pre + [Send(true), Record];
  }

  function Grown(sent: set<u32>, n: nat): (g: set<u32>)
    requires n <= U32_COUNT
    ensures g == sent + Range(0, n)
  {
    if n == 0 then sent else Grown(sent, n - 1) + {n - 1}
  }

  lemma SteadyAppends(pre: seq<Action>, n: nat)
    requires n > 0
    ensures pre + Steady(n) == pre + Steady(n - 1) + [Send(true), Record]
  {
  }

  /** From number 0 on, the first 5001 records prune nothing: their cutoff saturates at zero. */
  lemma {:induction false} NewLapPrunesNothing(pre: seq<Action>, sent: set<u32>, n: nat)
    requires After(pre) == Some(State(0, None, sent)) && n <= WINDOW + 1
    ensures After(pre + Steady(n)) == Some(State(n, None, Grown(sent, n)))
  {
    if n == 0 {
      assert pre + Steady(n) == pre;
    } else {
      NewLapPrunesNothing(pre, sent, n - 1);
      SteadyAppends(pre, n);
      OneMoreInNewLap(pre + Steady(n - 1), Grown(sent, n - 1), n - 1);
    }
  }

  // ----- the size: exactly when a lap overflows -----

  /** Going on from `pre` with `mid`, within one lap, the set exceeds 15001 numbers. */
  ghost predicate Overflows(pre: seq<Action>, mid: seq<Action>) {
    && Possible(pre + mid) && Issued(mid) <= U32_COUNT
    && |After(pre + mid).value.sent| > PRUNE_THRESHOLD + WINDOW + 1
  }

  lemma FullWindowOverflows(pre: seq<Action>, sent: set<u32>, window: nat)
    requires After(pre) == Some(State(0, None, sent)) && |Above(sent, WINDOW)| > PRUNE_THRESHOLD && window == WINDOW
    ensures Overflows(pre, Steady(window + 1))
  {
    SteadyRun(window + 1);
    NewLapPrunesNothing(pre, sent, window + 1);
    assert Above(sent, WINDOW) !! Range(0, window + 1);
    SubsetSize(Above(sent, WINDOW) + Range(0, window + 1), Grown(sent, window + 1));
  }

  /**
   When the counter is back at zero, some continuation within the lap exceeds 15001 numbers exactly
   when more than 10000 numbers above 5000 are held.
   */
  lemma LapOverflowsExactly(pre: seq<Action>, sent: set<u32>, window: nat)
    requires After(pre) == Some(State(0, None, sent)) && window == WINDOW
    ensures (exists mid :: Overflows(pre, mid)) <==> |Above(sent, WINDOW)| > PRUNE_THRESHOLD
  {
    if |Above(sent, WINDOW)| > PRUNE_THRESHOLD {
      FullWindowOverflows(pre, sent, window);
    } else if mid :| Overflows(pre, mid) {
      BoundedInLap(pre, mid, sent);
      BoundedSize(After(pre + mid).value.sent, LatestInLap(LatestIndex(mid)));
    }
  }

  /** Nearly two laps of a steady sender, then 5000 failures in a row across the wraparound. */
  function OutageRun(lap: nat, window: nat): seq<Action>
    requires window <= lap
  {
    Steady(lap + (lap - window)) + Failures(window)
  }

  lemma BeforeOutage(lap: nat, sent: set<u32>)
    requires lap == U32_COUNT && sent == SteadySent(lap + (lap - WINDOW))
    ensures |Above(sent, WINDOW)| > PRUNE_THRESHOLD
  {
    forall s: u32 | lap - PRUNE_THRESHOLD - 1 <= s
      ensures s in sent
    {
      if s < lap - WINDOW {
        RecentInSecondLap(lap, lap - WINDOW, s);
      } else {
        OldNumbersStay(lap, lap - WINDOW, s);
      }
    }
    RangeAbove(sent, WINDOW, lap - PRUNE_THRESHOLD - 1, lap);
  }

  lemma BackToZero(lap: nat)
    requires lap == U32_COUNT
    ensures (lap + lap) % U32_COUNT == 0
  {
  }

  lemma AfterOutage(lap: nat, window: nat)
    requires lap == U32_COUNT && window == WINDOW
    ensures After(OutageRun(lap, window)) == Some(State(0, None, SteadySent(lap + (lap - window))))
  {
    var n := lap + (lap - window);
    SteadyRun(n);
    FailuresRun(Steady(n), n, SteadySent(n), window);
    BackToZero(lap);
  }

  /** The bound of 15001 needs a premise: 5000 failures in a row, and then 5001 messages, are enough to exceed it. */
  lemma SizeBoundFailsAfterOutage(lap: nat, window: nat)
    requires lap == U32_COUNT && window == WINDOW
    ensures Overflows(OutageRun(lap, window), Steady(window + 1))
    ensures !WrapsHoldFew(OutageRun(lap, window) + Steady(window + 1))
    ensures !NoOutage(OutageRun(lap, window) + Steady(window + 1))
  {
    var run := OutageRun(lap, window) + Steady(window + 1);
    AfterOutage(lap, window);
    BeforeOutage(lap, SteadySent(lap + (lap - window)));
    FullWindowOverflows(OutageRun(lap, window), SteadySent(lap + (lap - window)), window);
    if NoOutage(run) {
      NoOutageHoldsFew(run);
    }
    if WrapsHoldFew(run) {
      SizeBound(run);
    }
  }
}
