/**
 What pruning costs. It is amortised constant, as its documentation says, while scans leave the set
 well below its threshold; if they do not, a record can scan again right after a scan.
 */
module LoopCost {
  import opened Primitives
  import opened LoopPrevention
  import opened LoopRuns

  /** Elements that pruning visits when the number in flight is recorded. */
  function ScanCost(b: State): nat {
    if b.inflight.Some? && |b.sent + {b.inflight.value}| > PRUNE_THRESHOLD then |b.sent + {b.inflight.value}| else 0
  }

  function RecordCount(steps: seq<Action>): nat {
    if steps == [] then 0 else RecordCount(DropLast(steps)) + if Last(steps).Record? then 1 else 0
  }

  /** The cost of the last step of a run. */
  function LastCost(steps: seq<Action>): nat
    requires steps != []
  {
    var before := After(DropLast(steps));
    if Last(steps).Record? && before.Some? then ScanCost(before.value) else 0
  }

  function Scanned(steps: seq<Action>): nat {
    if steps == [] then 0 else Scanned(DropLast(steps)) + LastCost(steps)
  }

  /** The last step of the run is a record that prunes. */
  predicate Prunes(steps: seq<Action>) {
    steps != [] && LastCost(steps) > 0
  }

  // ----- what a scan leaves -----

  /** The numbers of the current lap that pruning at `n` keeps. */
  function InWindow(sent: set<u32>, n: u32): set<u32> {
    set s | s in sent && SaturatingSub(n, WINDOW) <= s <= n
  }

  /** What a scan at `n` leaves: the leftovers and the window. */
  lemma ScanLeaves(sent: set<u32>, n: u32)
    requires |sent + {n}| > PRUNE_THRESHOLD
    ensures Recorded(sent, n) == Above(sent, n) + InWindow(sent + {n}, n)
    ensures |Recorded(sent, n)| == |Above(sent, n)| + |InWindow(sent + {n}, n)|
  {
    assert Above(sent, n) !! InWindow(sent + {n}, n);
    assert Recorded(sent, n) == Above(sent, n) + InWindow(sent + {n}, n);
  }

  /** What is left when recording in state `b` scans: the numbers of earlier laps and the window. */
  function Remains(b: State): nat
    requires b.inflight.Some?
  {
    var n := b.inflight.value;
    |Above(b.sent, n)| + |InWindow(b.sent + {n}, n)|
  }

  /** Every record that scans leaves at most `m` numbers. */
  ghost predicate ScansLeave(steps: seq<Action>, m: nat) {
    steps != [] ==>
      && ScansLeave(DropLast(steps), m)
      && (Prunes(steps) ==> Remains(After(DropLast(steps)).value) <= m)
  }

  /** Below the threshold a record adds at most one number, and if it scans, it scans one more than the threshold. */
  lemma RecordBelowThreshold(b: State, m: nat)
    requires b.inflight.Some? && |b.sent| <= PRUNE_THRESHOLD && m <= PRUNE_THRESHOLD
    requires ScanCost(b) > 0 ==> Remains(b) <= m
    ensures var after := Recorded(b.sent, b.inflight.value);
      && |after| <= PRUNE_THRESHOLD && |after| <= |b.sent| + 1
      && (ScanCost(b) > 0 ==>
        |b.sent| == PRUNE_THRESHOLD && ScanCost(b) == PRUNE_THRESHOLD + 1 && |after| <= m)
  {
    SubsetSize(Recorded(b.sent, b.inflight.value), b.sent + {b.inflight.value});
    if ScanCost(b) > 0 {
      ScanLeaves(b.sent, b.inflight.value);
    }
  }

  // ----- the amortised cost -----

  /** The product, by addition. */
  function Times(rate: nat, n: nat): nat {
    if n == 0 then 0 else Times(rate, n - 1) + rate
  }

  lemma {:induction false} TimesIsProduct(rate: nat, n: nat)
    ensures Times(rate, n) == rate * n
  {
    if n == 0 {
    } else {
      TimesIsProduct(rate, n - 1);
      assert rate * n == rate * (n - 1) + rate;
    }
  }

  lemma TimesOfSum(rate: nat, a: nat, b: nat)
    ensures Times(rate, a + b) == Times(rate, a) + rate * b
  {
    TimesIsProduct(rate, a + b);
    TimesIsProduct(rate, a);
    assert rate * (a + b) == rate * a + rate * b;
  }

  /** Scans are paid for by the records since the set was small. */
  ghost predicate Paid(scanned: nat, size: nat, records: nat, m: nat)
    requires m <= PRUNE_THRESHOLD
  {
    Times(PRUNE_THRESHOLD + 1 - m, scanned) + (PRUNE_THRESHOLD + 1) * SaturatingSub(size, m)
      <= (PRUNE_THRESHOLD + 1) * records
  }

  lemma RecordPays(scanned: nat, size: nat, records: nat, m: nat, cost: nat, after: nat)
    requires m <= PRUNE_THRESHOLD && Paid(scanned, size, records, m)
    requires (cost == 0 && after <= size + 1)
      || (cost == PRUNE_THRESHOLD + 1 && size == PRUNE_THRESHOLD && after <= m)
    ensures Paid(scanned + cost, after, records + 1, m)
  {
    TimesOfSum(PRUNE_THRESHOLD + 1 - m, scanned, cost);
  }

  ghost predicate Solvent(scanned: nat, sent: set<u32>, records: nat, m: nat)
    requires m <= PRUNE_THRESHOLD
  {
    |sent| <= PRUNE_THRESHOLD && Paid(scanned, |sent|, records, m)
  }

  lemma SmallerStaysSolvent(scanned: nat, sent: set<u32>, records: nat, m: nat, after: set<u32>)
    requires m <= PRUNE_THRESHOLD && Solvent(scanned, sent, records, m) && after <= sent
    ensures Solvent(scanned, after, records, m)
  {
    SubsetSize(after, sent);
  }

  lemma RecordStaysSolvent(b: State, scanned: nat, records: nat, m: nat, scanned': nat, records': nat)
    requires m <= PRUNE_THRESHOLD && Solvent(scanned, b.sent, records, m) && b.inflight.Some?
    requires ScanCost(b) > 0 ==> Remains(b) <= m
    requires scanned' == scanned + ScanCost(b) && records' == records + 1
    ensures Solvent(scanned', Recorded(b.sent, b.inflight.value), records', m)
  {
    RecordBelowThreshold(b, m);
    RecordPays(scanned, |b.sent|, records, m, ScanCost(b), |Recorded(b.sent, b.inflight.value)|);
  }

  lemma {:induction false} StaysSolvent(steps: seq<Action>, m: nat)
    requires Possible(steps) && m <= PRUNE_THRESHOLD && ScansLeave(steps, m)
    ensures Solvent(Scanned(steps), After(steps).value.sent, RecordCount(steps), m)
  {
    if steps == [] {
    } else {
      var prefix := DropLast(steps);
      var b := After(prefix).value;
      StaysSolvent(prefix, m);
      if Last(steps).Record? {
        RecordStaysSolvent(b, Scanned(prefix), RecordCount(prefix), m, Scanned(steps), RecordCount(steps));
      } else {
        SmallerStaysSolvent(Scanned(prefix), b.sent, RecordCount(prefix), m, After(steps).value.sent);
      }
    }
  }

  /**
   Over any number of laps, while every scan leaves at most `m` numbers, N records scan at most
   10001/(10001 - m) elements each on average, and the set never exceeds its threshold.
   */
  lemma AmortisedCost(steps: seq<Action>, m: nat)
    requires Possible(steps) && m <= PRUNE_THRESHOLD && ScansLeave(steps, m)
    ensures |After(steps).value.sent| <= PRUNE_THRESHOLD
    ensures (PRUNE_THRESHOLD + 1 - m) * Scanned(steps)
      + (PRUNE_THRESHOLD + 1) * SaturatingSub(|After(steps).value.sent|, m)
      <= (PRUNE_THRESHOLD + 1) * RecordCount(steps)
  {
    StaysSolvent(steps, m);
    TimesIsProduct(PRUNE_THRESHOLD + 1 - m, Scanned(steps));
  }

  lemma ThreePerRecord(rate: nat, scanned: nat, records: nat)
    requires rate >= 3334 && rate * scanned <= (PRUNE_THRESHOLD + 1) * records
    ensures scanned <= 3 * records
  {
    assert rate * scanned == 3334 * scanned + (rate - 3334) * scanned;
  }

  /** In particular at most three per record, the documented constant, while scans leave at most 6667. */
  lemma AtMostThreePerRecord(steps: seq<Action>, m: nat)
    requires Possible(steps) && m <= 6667 && ScansLeave(steps, m)
    ensures Scanned(steps) <= 3 * RecordCount(steps)
  {
    AmortisedCost(steps, m);
    ThreePerRecord(PRUNE_THRESHOLD + 1 - m, Scanned(steps), RecordCount(steps));
  }

  // ----- the distance between scans -----

  lemma LeftAfterPrune(pre: seq<Action>, m: nat)
    requires Possible(pre) && Prunes(pre) && m <= PRUNE_THRESHOLD && ScansLeave(pre, m)
    ensures |After(DropLast(pre)).value.sent| == PRUNE_THRESHOLD
    ensures |After(pre).value.sent| <= m
  {
    AmortisedCost(DropLast(pre), m);
    RecordBelowThreshold(After(DropLast(pre)).value, m);
  }

  lemma StepGrowth(steps: seq<Action>, m: nat)
    requires steps != [] && Possible(steps) && m <= PRUNE_THRESHOLD && ScansLeave(steps, m)
    ensures |After(steps).value.sent| - |After(DropLast(steps)).value.sent|
      <= RecordCount(steps) - RecordCount(DropLast(steps))
  {
    var b := After(DropLast(steps)).value;
    AmortisedCost(DropLast(steps), m);
    match Last(steps) {
      case Send(_) =>
      case Record => RecordBelowThreshold(b, m);
      case Receive(s) => SubsetSize(b.sent - {s}, b.sent);
    }
  }

  lemma {:induction false} GrowthSincePrune(pre: seq<Action>, mid: seq<Action>, m: nat)
    requires Possible(pre + mid) && m <= PRUNE_THRESHOLD && ScansLeave(pre + mid, m)
    requires Possible(pre) && Prunes(pre)
    ensures RecordCount(pre) <= RecordCount(pre + mid)
    ensures |After(pre + mid).value.sent| <= m + RecordCount(pre + mid) - RecordCount(pre)
  {
    if mid == [] {
      assert pre + mid == pre;
      LeftAfterPrune(pre, m);
    } else {
      assert DropLast(pre + mid) == pre + DropLast(mid);
      GrowthSincePrune(pre, DropLast(mid), m);
      StepGrowth(pre + mid, m);
    }
  }

  /** While every scan leaves at most `m` numbers, two records that prune are at least 10001 - m records apart. */
  lemma PrunesFarApart(pre: seq<Action>, mid: seq<Action>, m: nat)
    requires mid != [] && Possible(pre + mid) && m <= PRUNE_THRESHOLD && ScansLeave(pre + mid, m)
    requires Possible(pre) && Prunes(pre) && Prunes(pre + mid)
    ensures RecordCount(pre + mid) >= RecordCount(pre) + PRUNE_THRESHOLD + 1 - m
  {
    assert DropLast(pre + mid) == pre + DropLast(mid);
    GrowthSincePrune(pre, DropLast(mid), m);
    LeftAfterPrune(pre + mid, m);
  }

  // ----- when scans leave little -----

  /** Every record finds at most `l` numbers above its own, left behind by earlier laps. */
  ghost predicate FewLeftovers(steps: seq<Action>, l: nat) {
    steps != [] ==>
      && FewLeftovers(DropLast(steps), l)
      && (Last(steps).Record? && Possible(DropLast(steps)) ==>
        var b := After(DropLast(steps)).value;
        b.inflight.Some? ==> |Above(b.sent, b.inflight.value)| <= l)
  }

  lemma RemainsOfFew(b: State, l: nat)
    requires b.inflight.Some? && |Above(b.sent, b.inflight.value)| <= l
    ensures Remains(b) <= WINDOW + 1 + l
  {
    var n := b.inflight.value;
    IntervalSize(InWindow(b.sent + {n}, n), SaturatingSub(n, WINDOW), n);
  }

  /** Then a scan leaves at most them and a full window. */
  lemma {:induction false} FewLeftoversLeaveLittle(steps: seq<Action>, l: nat)
    requires Possible(steps) && FewLeftovers(steps, l)
    ensures ScansLeave(steps, WINDOW + 1 + l)
  {
    if steps == [] {
    } else {
      FewLeftoversLeaveLittle(DropLast(steps), l);
      if Last(steps).Record? {
        RemainsOfFew(After(DropLast(steps)).value, l);
      }
    }
  }

  /** The counter has wrapped around between the latest record and number `n`. */
  predicate Wraps(latest: Option<nat>, n: int) {
    latest.Some? && latest.value / U32_COUNT < n / U32_COUNT
  }

  /** Whenever the counter has wrapped around since the latest record, the next finds at most `l` numbers. */
  ghost predicate WrapsFindFew(steps: seq<Action>, l: nat) {
    steps != [] ==>
      var prefix := DropLast(steps);
      && WrapsFindFew(prefix, l)
      && (Last(steps).Record? && Possible(prefix) && Wraps(LatestIndex(prefix), Issued(prefix) - 1) ==>
        |After(prefix).value.sent| <= l)
  }

  lemma LeftoversAtRecord(sent: set<u32>, p: nat, n: nat, l: nat)
    requires p < n && |Above(sent, p % U32_COUNT)| <= l
    requires p / U32_COUNT < n / U32_COUNT ==> |sent| <= l
    ensures |Above(sent, n % U32_COUNT)| <= l && |Above(Recorded(sent, n % U32_COUNT), n % U32_COUNT)| <= l
  {
    LapsPass(p, n);
    AboveAfterRecord(sent, p, n);
    if p / U32_COUNT == n / U32_COUNT {
      SubsetSize(Above(sent, n % U32_COUNT), Above(sent, p % U32_COUNT));
    } else {
      SubsetSize(Above(sent, n % U32_COUNT), sent);
    }
  }

  ghost predicate FewAbove(latest: Option<nat>, sent: set<u32>, l: nat) {
    if latest.None? then sent == {} else |Above(sent, latest.value % U32_COUNT)| <= l
  }

  lemma NextFewAbove(latest: Option<nat>, sent: set<u32>, n: nat, l: nat)
    requires FewAbove(latest, sent, l) && (latest.Some? ==> latest.value < n)
    requires Wraps(latest, n) ==> |sent| <= l
    ensures |Above(sent, n % U32_COUNT)| <= l && FewAbove(Some(n), Recorded(sent, n % U32_COUNT), l)
  {
    if latest.Some? {
      LeftoversAtRecord(sent, latest.value, n, l);
    } else {
      assert Above(sent, n % U32_COUNT) == {} && Above(Recorded(sent, n % U32_COUNT), n % U32_COUNT) == {};
    }
  }

  lemma ReceiveFewAbove(latest: Option<nat>, sent: set<u32>, s: u32, l: nat)
    requires FewAbove(latest, sent, l)
    ensures FewAbove(latest, sent - {s}, l)
  {
    if latest.Some? {
      SubsetSize(Above(sent - {s}, latest.value % U32_COUNT), Above(sent, latest.value % U32_COUNT));
    }
  }

  /** What a lap leaves over is at most what the set held when the counter wrapped around. */
  lemma {:induction false} WrapsLeaveFew(steps: seq<Action>, l: nat)
    requires Possible(steps) && WrapsFindFew(steps, l)
    ensures FewLeftovers(steps, l) && FewAbove(LatestIndex(steps), After(steps).value.sent, l)
  {
    if steps == [] {
    } else {
      var prefix := DropLast(steps);
      WrapsLeaveFew(prefix, l);
      CounterIsIssued(prefix);
      var sent := After(prefix).value.sent;
      match Last(steps) {
        case Send(_) =>
        case Record => NextFewAbove(LatestIndex(prefix), sent, Issued(prefix) - 1, l);
        case Receive(s) => ReceiveFewAbove(LatestIndex(prefix), sent, s, l);
      }
    }
  }

  /** At every record, at most `l` numbers of earlier laps above its own have never been received back. */
  ghost predicate MostReturned(steps: seq<Action>, l: nat) {
    steps != [] ==>
      var prefix := DropLast(steps);
      && MostReturned(prefix, l)
      && (Last(steps).Record? && Issued(prefix) > 0 ==>
        |Above(Outstanding(prefix).Keys, (Issued(prefix) - 1) % U32_COUNT)| <= l)
  }

  /** What has come back is not left over. */
  lemma {:induction false} ReturnedLeaveFew(steps: seq<Action>, l: nat)
    requires Possible(steps) && MostReturned(steps, l)
    ensures FewLeftovers(steps, l)
  {
    if steps == [] {
    } else {
      var prefix := DropLast(steps);
      ReturnedLeaveFew(prefix, l);
      var b := After(prefix).value;
      if Last(steps).Record? {
        CounterIsIssued(prefix);
        WindowKept(prefix);
        SubsetSize(Above(b.sent, b.inflight.value), Above(Outstanding(prefix).Keys, b.inflight.value));
      }
    }
  }

  lemma {:induction false} NoWrapInFirstLap(steps: seq<Action>)
    requires Possible(steps) && Issued(steps) <= U32_COUNT
    ensures WrapsFindFew(steps, 0)
  {
    if steps == [] {
    } else {
      NoWrapInFirstLap(DropLast(steps));
      if Last(steps).Record? {
        CounterIsIssued(DropLast(steps));
        SameLap(Issued(DropLast(steps)) - 1);
      }
    }
  }

  lemma SameLap(n: nat)
    requires n < U32_COUNT
    ensures n / U32_COUNT == 0
  {
  }

  /** Within one lap of the counter nothing is left over, and a scan leaves at most a window. */
  lemma FirstLapLeavesWindow(steps: seq<Action>)
    requires Possible(steps) && Issued(steps) <= U32_COUNT
    ensures ScansLeave(steps, WINDOW + 1)
  {
    NoWrapInFirstLap(steps);
    WrapsLeaveFew(steps, 0);
    FewLeftoversLeaveLittle(steps, 0);
  }

  /** Within one lap, N records scan at most 10001/5000 elements each, and so at most 3 N. */
  lemma AmortisedInFirstLap(steps: seq<Action>)
    requires Possible(steps) && Issued(steps) <= U32_COUNT
    ensures WINDOW * Scanned(steps) + (PRUNE_THRESHOLD + 1) * SaturatingSub(|After(steps).value.sent|, WINDOW + 1)
      <= (PRUNE_THRESHOLD + 1) * RecordCount(steps)
    ensures Scanned(steps) <= 3 * RecordCount(steps)
  {
    FirstLapLeavesWindow(steps);
    AmortisedCost(steps, WINDOW + 1);
  }

  /** Within one lap, two records that prune are at least 5000 records apart. */
  lemma PrunesFarApartInFirstLap(pre: seq<Action>, mid: seq<Action>)
    requires mid != [] && Possible(pre + mid) && Issued(pre + mid) <= U32_COUNT
    requires Possible(pre) && Prunes(pre) && Prunes(pre + mid)
    ensures RecordCount(pre + mid) >= RecordCount(pre) + WINDOW
  {
    FirstLapLeavesWindow(pre + mid);
    PrunesFarApart(pre, mid, WINDOW + 1);
  }

  // ----- when there are many -----

  lemma SendThenRecord(pre: seq<Action>, b: State)
    requires After(pre) == Some(b) && b.inflight.None?
    ensures var both := pre + [Send(true), Record];
      && After(both) == Some(State((b.counter + 1) % U32_COUNT, None, Recorded(b.sent, b.counter)))
      && Issued(both) == Issued(pre) + 1 && RecordCount(both) == RecordCount(pre) + 1
      && AllSucceed(both) == AllSucceed(pre)
      && LatestIndex(both) == Some(Issued(pre))
      && Outstanding(both) == Outstanding(pre)[Issued(pre) % U32_COUNT := Issued(pre)]
      && Scanned(both) == Scanned(pre) + ScanCost(State((b.counter + 1) % U32_COUNT, Some(b.counter), b.sent))
  {
    var sending, both := pre + [Send(true)], pre + [Send(true), Record];
    assert DropLast(sending) == pre && DropLast(both) == sending;
    assert After(sending) == Some(State((b.counter + 1) % U32_COUNT, Some(b.counter), b.sent));
  }

  lemma NextIsOneMore(pre: seq<Action>)
    requires Possible(pre) && Prunes(pre)
    ensures After(DropLast(pre)).value.inflight.Some? && After(pre).value.inflight.None?
    ensures After(pre).value.counter == (After(DropLast(pre)).value.inflight.value + 1) % U32_COUNT
  {
    CounterIsIssued(DropLast(pre));
    NextModulo(Issued(DropLast(pre)) - 1);
  }

  lemma NextIsNew(sent: set<u32>, n: u32, next: u32)
    requires next == (n + 1) % U32_COUNT
    ensures next in Above(sent, n) + InWindow(sent + {n}, n) <==> n + 1 in sent
  {
    if n == U32_COUNT - 1 {
      assert next == 0;
    } else {
      assert next == n + 1;
    }
  }

  lemma NextRecordPrunes(pre: seq<Action>, b: State)
    requires After(pre) == Some(b) && b.inflight.None?
    ensures Possible(pre + [Send(true), Record])
    ensures Prunes(pre + [Send(true), Record]) <==> |b.sent + {b.counter}| > PRUNE_THRESHOLD
  {
    var sending, both := pre + [Send(true)], pre + [Send(true), Record];
    assert DropLast(sending) == pre && DropLast(both) == sending;
    assert After(sending) == Some(State((b.counter + 1) % U32_COUNT, Some(b.counter), b.sent));
  }

  lemma ScanSize(sent: set<u32>, n: u32, next: u32)
    requires |sent + {n}| > PRUNE_THRESHOLD && next == (n + 1) % U32_COUNT
    ensures |Recorded(sent, n) + {next}|
      == |Above(sent, n)| + |InWindow(sent + {n}, n)| + if n + 1 in sent then 0 else 1
  {
    ScanLeaves(sent, n);
    NextIsNew(sent, n, next);
    if n + 1 in sent {
      assert Recorded(sent, n) + {next} == Recorded(sent, n);
    }
  }

  /**
   The next record scans again right after a scan exactly when the numbers left by earlier laps, the
   window, and the new number if it is new exceed the threshold.
   */
  lemma ScansAgainExactly(pre: seq<Action>, b: State, n: u32)
    requires Possible(pre) && Prunes(pre) && After(DropLast(pre)) == Some(b) && b.inflight == Some(n)
    ensures Possible(pre + [Send(true), Record])
    ensures Prunes(pre + [Send(true), Record]) <==>
      Remains(b) + (if n + 1 in b.sent then 0 else 1) > PRUNE_THRESHOLD
  {
    NextIsOneMore(pre);
    ScanSize(b.sent, n, After(pre).value.counter);
    NextRecordPrunes(pre, After(pre).value);
  }

  /** A record scans whenever leftovers and window exceed the threshold. */
  lemma ScansWhenFull(b: State, n: u32)
    requires b.inflight == Some(n) && Remains(b) > PRUNE_THRESHOLD
    ensures ScanCost(b) > PRUNE_THRESHOLD
  {
    assert Above(b.sent, n) !! InWindow(b.sent + {n}, n);
    SubsetSize(Above(b.sent, n) + InWindow(b.sent + {n}, n), b.sent + {n});
  }
}
