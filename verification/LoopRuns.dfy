/** What the loop prevention guarantees over every interleaving of the two tasks. */
module LoopRuns {
  import opened Primitives
  import opened LoopPrevention

  // ----- one record -----

  /**
   A record inserts its number; if the set then holds more than 10000 numbers, those more than 5000
   below the new one go.
   */
  lemma RecordedExactly(sent: set<u32>, n: u32, s: u32)
    ensures s in Recorded(sent, n)
      <==> (s in sent || s == n) && (|sent + {n}| > 10_000 ==> s + 5_000 >= n)
  {
  }

  // ----- the history of a run, with unbounded indices -----

  /** How many numbers the transport has given out; the next one is this, modulo 2^32. */
  function Issued(steps: seq<Action>): nat {
    if steps == [] then 0 else Issued(DropLast(steps)) + if Last(steps).Send? then 1 else 0
  }

  /** The index of the number recorded last. */
  function LatestIndex(steps: seq<Action>): Option<nat> {
    if steps == [] then None
    else if Last(steps).Record? && Issued(DropLast(steps)) > 0 then Some(Issued(DropLast(steps)) - 1)
    else LatestIndex(DropLast(steps))
  }

  /** Recorded and not received since, with the index of the record: the set if it were never pruned. */
  function Outstanding(steps: seq<Action>): map<u32, nat> {
    if steps == [] then map[]
    else
      var before := Outstanding(DropLast(steps));
      match Last(steps)
      case Send(_) => before
      case Record =>
        var issued := Issued(DropLast(steps));
        if issued == 0 then before else before[(issued - 1) % U32_COUNT := issued - 1]
      case Receive(seqno) => before - {seqno}
  }

  ghost predicate Possible(steps: seq<Action>) {
    After(steps).Some?
  }

  /** The transport's counter, the number in flight and the latest record are those of the history. */
  ghost predicate Tracks(b: State, issued: nat, latest: Option<nat>) {
    && b.counter == issued % U32_COUNT
    && (b.inflight.Some? ==>
      issued > 0 && b.inflight.value == (issued - 1) % U32_COUNT && (latest.Some? ==> latest.value < issued - 1))
    && (latest.Some? ==> latest.value < issued)
  }

  lemma StepTracks(b: State, step: Action, issued: nat, latest: Option<nat>)
    requires CanStep(b, step) && Tracks(b, issued, latest)
    ensures Tracks(Do(b, step), if step.Send? then issued + 1 else issued,
                   if step.Record? then Some(issued - 1) else latest)
  {
    NextModulo(issued);
  }

  lemma {:induction false} CounterIsIssued(steps: seq<Action>)
    requires Possible(steps)
    ensures Tracks(After(steps).value, Issued(steps), LatestIndex(steps))
  {
    if steps == [] {
    } else {
      CounterIsIssued(DropLast(steps));
      StepTracks(After(DropLast(steps)).value, Last(steps), Issued(DropLast(steps)), LatestIndex(DropLast(steps)));
    }
  }

  // ----- the pruned set against the unpruned one -----

  lemma WithinWindow(i: nat, n: nat)
    requires i <= n <= i + WINDOW
    ensures i % U32_COUNT >= SaturatingSub(n % U32_COUNT, WINDOW)
  {
    if n / U32_COUNT == i / U32_COUNT {
    } else {
      assert n / U32_COUNT == i / U32_COUNT + 1;
    }
  }

  /**
   Every run keeps, of the unpruned set, everything at most 5000 numbers behind the latest
   record, and never holds anything else; wrapping around makes no difference.
   */
  ghost predicate Faithful(steps: seq<Action>, sent: set<u32>) {
    FaithfulTo(Outstanding(steps), LatestIndex(steps), sent)
  }

  ghost predicate FaithfulTo(outstanding: map<u32, nat>, latest: Option<nat>, sent: set<u32>) {
    && sent <= outstanding.Keys
    && (outstanding != map[] ==> latest.Some?)
    && forall s :: s in outstanding ==>
      && outstanding[s] % U32_COUNT == s && outstanding[s] <= latest.value
      && (latest.value <= outstanding[s] + WINDOW ==> s in sent)
  }

  lemma KeptByRecord(sent: set<u32>, i: nat, n: nat)
    requires i <= n <= i + WINDOW && (i == n || i % U32_COUNT in sent)
    ensures i % U32_COUNT in Recorded(sent, n % U32_COUNT)
  {
    WithinWindow(i, n);
  }

  lemma FaithfulRecord(sent: set<u32>, before: map<u32, nat>, latest: Option<nat>, n: nat)
    requires FaithfulTo(before, latest, sent) && (latest.Some? ==> latest.value < n)
    ensures FaithfulTo(before[n % U32_COUNT := n], Some(n), Recorded(sent, n % U32_COUNT))
  {
    var after := before[n % U32_COUNT := n];
    forall s | s in after && n <= after[s] + WINDOW
      ensures s in Recorded(sent, n % U32_COUNT)
    {
      KeptByRecord(sent, after[s], n);
    }
  }

  lemma StepFaithful(b: State, step: Action, issued: nat, before: map<u32, nat>, latest: Option<nat>,
                     after: map<u32, nat>, latest': Option<nat>)
    requires CanStep(b, step) && Tracks(b, issued, latest) && FaithfulTo(before, latest, b.sent)
    requires match step
      case Send(_) => after == before && latest' == latest
      case Record => after == before[(issued - 1) % U32_COUNT := issued - 1] && latest' == Some(issued - 1)
      case Receive(s) => after == before - {s} && latest' == latest
    ensures FaithfulTo(after, latest', Do(b, step).sent)
  {
    if step.Record? {
      FaithfulRecord(b.sent, before, latest, issued - 1);
    }
  }

  lemma {:induction false} WindowKept(steps: seq<Action>)
    requires Possible(steps)
    ensures Faithful(steps, After(steps).value.sent)
  {
    if steps == [] {
    } else {
      var prefix := DropLast(steps);
      WindowKept(prefix);
      CounterIsIssued(prefix);
      StepFaithful(After(prefix).value, Last(steps), Issued(prefix), Outstanding(prefix), LatestIndex(prefix),
                   Outstanding(steps), LatestIndex(steps));
    }
  }

  predicate AllSucceed(steps: seq<Action>) {
    steps != [] ==> AllSucceed(DropLast(steps)) && (Last(steps).Send? ==> Last(steps).ok)
  }

  /** While every send succeeds, the number recorded last is the one issued last but for one in flight. */
  lemma {:induction false} RecordsFollowIssues(steps: seq<Action>)
    requires Possible(steps) && AllSucceed(steps)
    ensures var recorded := Issued(steps) - if After(steps).value.inflight.Some? then 1 else 0;
      recorded >= 0 && LatestIndex(steps) == if recorded == 0 then None else Some(recorded - 1)
  {
    if steps == [] {
    } else {
      RecordsFollowIssues(DropLast(steps));
      CounterIsIssued(DropLast(steps));
    }
  }

  ghost predicate WithinLap(outstanding: map<u32, nat>, n: nat) {
    forall s :: s in outstanding ==> n < outstanding[s] + U32_COUNT
  }

  lemma WithinLapRecord(outstanding: map<u32, nat>, n: nat)
    requires forall s :: s in outstanding ==> outstanding[s] % U32_COUNT == s
    requires n > 0 ==> WithinLap(outstanding, n - 1)
    requires n == 0 ==> outstanding == map[]
    ensures WithinLap(outstanding[n % U32_COUNT := n], n)
  {
  }

  /** While every send succeeds, no index in the unpruned set is a whole lap old. */
  lemma {:induction false} OneLap(steps: seq<Action>)
    requires Possible(steps) && AllSucceed(steps) && LatestIndex(steps).Some?
    ensures WithinLap(Outstanding(steps), LatestIndex(steps).value)
  {
    var prefix := DropLast(steps);
    RecordsFollowIssues(prefix);
    CounterIsIssued(prefix);
    WindowKept(prefix);
    if LatestIndex(prefix).Some? {
      OneLap(prefix);
    }
    if Last(steps).Record? {
      WithinLapRecord(Outstanding(prefix), Issued(prefix) - 1);
    }
  }

  /** Distance backwards from `latest` to `s` on the circle of 32-bit numbers. */
  function Behind(latest: u32, s: u32): nat {
    (latest - s) % U32_COUNT
  }

  lemma BehindIsDistance(i: nat, n: nat)
    requires i <= n < i + U32_COUNT
    ensures Behind(n % U32_COUNT, i % U32_COUNT) == n - i
  {
    var d := n - i;
    assert n == n / U32_COUNT * U32_COUNT + n % U32_COUNT && i == i / U32_COUNT * U32_COUNT + i % U32_COUNT;
    assert n % U32_COUNT - i % U32_COUNT == d || n % U32_COUNT - i % U32_COUNT == d - U32_COUNT;
  }

  lemma NumbersDiffer(i: nat, n: nat)
    requires i < n < i + U32_COUNT
    ensures i % U32_COUNT != n % U32_COUNT
  {
    BehindIsDistance(i, n);
  }

  /**
   A recorded number, not received since and at most 5000 behind the latest record modulo 2^32,
   is in the set although the cutoff saturates at zero, unless its record is a whole lap of sends old.
   */
  lemma ModularWindowKept(steps: seq<Action>, s: u32)
    requires Possible(steps) && s in Outstanding(steps) && LatestIndex(steps).Some?
    requires Behind(LatestIndex(steps).value % U32_COUNT, s) <= WINDOW
    requires LatestIndex(steps).value < Outstanding(steps)[s] + U32_COUNT
    ensures Skips(After(steps).value, s)
  {
    WindowKept(steps);
    BehindIsDistance(Outstanding(steps)[s], LatestIndex(steps).value);
  }

  /** While every send succeeds no record gets that old, and the window holds modulo 2^32. */
  lemma ModularWindowWhenAllSucceed(steps: seq<Action>, s: u32)
    requires Possible(steps) && AllSucceed(steps) && s in Outstanding(steps) && LatestIndex(steps).Some?
    requires Behind(LatestIndex(steps).value % U32_COUNT, s) <= WINDOW
    ensures Skips(After(steps).value, s)
  {
    OneLap(steps);
    ModularWindowKept(steps, s);
  }

  // ----- exactly what the set holds -----

  ghost predicate RecordedAt(steps: seq<Action>, r: nat, s: u32) {
    && r < |steps| && steps[r].Record?
    && Possible(steps[..r]) && After(steps[..r]).value.inflight == Some(s)
  }

  /** Recording in state `b` finds more than 10000 numbers, and `s` more than 5000 below the recorded one. */
  predicate PrunesAway(b: State, s: u32) {
    b.inflight.Some? && |b.sent + {b.inflight.value}| > PRUNE_THRESHOLD && s + WINDOW < b.inflight.value
  }

  ghost predicate DroppedAt(steps: seq<Action>, j: nat, s: u32) {
    && j < |steps|
    && (steps[j] == Receive(s)
      || (steps[j].Record? && Possible(steps[..j]) && PrunesAway(After(steps[..j]).value, s)))
  }

  ghost predicate HeldSince(steps: seq<Action>, r: nat, s: u32) {
    RecordedAt(steps, r, s) && forall j :: r < j < |steps| ==> !DroppedAt(steps, j, s)
  }

  lemma HeldSinceStep(steps: seq<Action>, r: nat, s: u32)
    requires steps != [] && r < |steps| - 1
    ensures HeldSince(steps, r, s)
      <==> HeldSince(DropLast(steps), r, s) && !DroppedAt(steps, |steps| - 1, s)
  {
    var prefix := DropLast(steps);
    assert prefix[..r] == steps[..r];
    forall j | r < j < |prefix|
      ensures DroppedAt(steps, j, s) == DroppedAt(prefix, j, s)
    {
      assert prefix[..j] == steps[..j];
    }
  }

  /**
   In every run a number is in the set, and so a message carrying it is skipped, exactly when
   some step recorded it and no later step received it or pruned it.
   */
  lemma {:induction false} HeldExactly(steps: seq<Action>, s: u32)
    requires Possible(steps)
    ensures Skips(After(steps).value, s) <==> exists r :: HeldSince(steps, r, s)
  {
    if steps == [] {
    } else {
      var last := |steps| - 1;
      HeldExactly(DropLast(steps), s);
      assert steps[..last] == DropLast(steps);
      assert HeldSince(steps, last, s) == RecordedAt(steps, last, s);
      forall r: nat | r < last
        ensures HeldSince(steps, r, s)
          <==> HeldSince(DropLast(steps), r, s) && !DroppedAt(steps, last, s)
      {
        HeldSinceStep(steps, r, s);
      }
    }
  }

  // ----- loop suppression -----

  lemma {:induction false} StaysOutstanding(pre: seq<Action>, mid: seq<Action>, s: u32)
    requires s in Outstanding(pre) && Possible(pre + mid)
    requires forall j :: 0 <= j < |mid| ==> mid[j] != Receive(s)
    ensures s in Outstanding(pre + mid) && Outstanding(pre + mid)[s] >= Outstanding(pre)[s]
  {
    if mid == [] {
      assert pre + mid == pre;
    } else {
      assert DropLast(pre + mid) == pre + DropLast(mid);
      StaysOutstanding(pre, DropLast(mid), s);
      WindowKept(pre + DropLast(mid));
      CounterIsIssued(pre + DropLast(mid));
    }
  }

  /** The record of `s`, which is in flight after `pre`, and what happens then: no message numbered `s` is received. */
  ghost predicate RecordedThen(pre: seq<Action>, mid: seq<Action>, s: u32) {
    && Possible(pre + [Record] + mid) && Possible(pre) && After(pre).value.inflight == Some(s)
    && (forall j :: 0 <= j < |mid| ==> mid[j] != Receive(s))
    && LatestIndex(pre + [Record] + mid).Some?
  }

  lemma RecordOutstanding(pre: seq<Action>, s: u32)
    requires Possible(pre) && After(pre).value.inflight == Some(s)
    ensures Issued(pre) > 0 && s in Outstanding(pre + [Record]) && Outstanding(pre + [Record])[s] == Issued(pre) - 1
  {
    assert DropLast(pre + [Record]) == pre;
    CounterIsIssued(pre);
  }

  /**
   A message of ours that comes back after it was recorded is skipped, whatever happened in
   between, unless a message with its number was received or more than 5000 numbers went by.
   */
  lemma LoopSuppressed(pre: seq<Action>, mid: seq<Action>, s: u32)
    requires RecordedThen(pre, mid, s)
    requires LatestIndex(pre + [Record] + mid).value <= Issued(pre) - 1 + WINDOW
    ensures Skips(After(pre + [Record] + mid).value, s)
  {
    RecordOutstanding(pre, s);
    StaysOutstanding(pre + [Record], mid, s);
    WindowKept(pre + [Record] + mid);
  }

  /** The same counting modulo 2^32: it is skipped if less than a lap of sends went by. */
  lemma LoopSuppressedWithinLap(pre: seq<Action>, mid: seq<Action>, s: u32)
    requires RecordedThen(pre, mid, s)
    requires Behind(LatestIndex(pre + [Record] + mid).value % U32_COUNT, s) <= WINDOW
    requires LatestIndex(pre + [Record] + mid).value < Issued(pre) - 1 + U32_COUNT
    ensures Skips(After(pre + [Record] + mid).value, s)
  {
    RecordOutstanding(pre, s);
    StaysOutstanding(pre + [Record], mid, s);
    ModularWindowKept(pre + [Record] + mid, s);
  }

  /** And while every send succeeds it is skipped however many laps went by. */
  lemma LoopSuppressedWhenAllSucceed(pre: seq<Action>, mid: seq<Action>, s: u32)
    requires RecordedThen(pre, mid, s) && AllSucceed(pre + [Record] + mid)
    requires Behind(LatestIndex(pre + [Record] + mid).value % U32_COUNT, s) <= WINDOW
    ensures Skips(After(pre + [Record] + mid).value, s)
  {
    RecordOutstanding(pre, s);
    StaysOutstanding(pre + [Record], mid, s);
    ModularWindowWhenAllSucceed(pre + [Record] + mid, s);
  }

  lemma StepAfter(steps: seq<Action>, b: State, step: Action)
    requires After(steps) == Some(b) && CanStep(b, step)
    ensures After(steps + [step]) == Some(Do(b, step))
  {
    assert DropLast(steps + [step]) == steps;
  }

  /** A message that comes back before it was recorded is forwarded, and its record then waits for a stranger. */
  lemma EarlyLoopEscapes(pre: seq<Action>, s: u32)
    requires Possible(pre) && After(pre).value.inflight == Some(s)
    requires s !in Outstanding(pre)
    ensures !Skips(After(pre).value, s)
    ensures Possible(pre + [Receive(s)] + [Record]) && Skips(After(pre + [Receive(s)] + [Record]).value, s)
  {
    WindowKept(pre);
    var b := After(pre).value;
    StepAfter(pre, b, Receive(s));
    StepAfter(pre + [Receive(s)], Do(b, Receive(s)), Record);
    KeptByRecord(Do(b, Receive(s)).sent, s, s);
    SmallModulo(s);
  }

  // ----- skips never exceed records -----

  function Records(steps: seq<Action>, s: u32): nat {
    if steps == [] then 0
    else
      var before := After(DropLast(steps));
      Records(DropLast(steps), s)
      + if Last(steps).Record? && before.Some? && before.value.inflight == Some(s) then 1 else 0
  }

  function SkipCount(steps: seq<Action>, s: u32): nat {
    if steps == [] then 0
    else
      var before := After(DropLast(steps));
      SkipCount(DropLast(steps), s)
      + if Last(steps) == Receive(s) && before.Some? && Skips(before.value, s) then 1 else 0
  }

  /** Every skip uses up a record of the same number. */
  lemma {:induction false} SkipsNeverExceedRecords(steps: seq<Action>, s: u32)
    requires Possible(steps)
    ensures SkipCount(steps, s) + (if Skips(After(steps).value, s) then 1 else 0) <= Records(steps, s)
  {
    if steps == [] {
    } else {
      SkipsNeverExceedRecords(DropLast(steps), s);
    }
  }

  // ----- the size of the set -----

  /** A set of numbers between `lo` and `hi` has at most `hi - lo + 1` of them. */
  lemma {:induction false} IntervalSize(a: set<u32>, lo: nat, hi: int)
    requires lo <= hi + 1 && forall s :: s in a ==> lo <= s <= hi
    ensures |a| <= hi - lo + 1
    decreases hi
  {
    if hi + 1 == lo {
      assert a == {};
    } else {
      IntervalSize(a - (set s | s in a && s == hi), lo, hi - 1);
      if hi in a {
        var top: u32 := hi;
        assert a == (a - {top}) + {top};
        assert a - (set s | s in a && s == hi) == a - {top};
      } else {
        assert a - (set s | s in a && s == hi) == a;
      }
    }
  }

  lemma SubsetSize(a: set<u32>, b: set<u32>)
    requires a <= b
    ensures |a| <= |b|
  {
    assert b == a + (b - a);
  }

  /** The numbers of the lap before, which no pruning reaches until the counter comes round again. */
  function Above(sent: set<u32>, latest: u32): set<u32> {
    set s | s in sent && s > latest
  }

  function UpTo(sent: set<u32>, latest: u32): set<u32> {
    set s | s in sent && s <= latest
  }

  lemma Split(sent: set<u32>, latest: u32)
    ensures |sent| == |Above(sent, latest)| + |UpTo(sent, latest)|
  {
    assert sent == Above(sent, latest) + UpTo(sent, latest);
  }

  /** At most `leftover` numbers of earlier laps; and the current lap is pruned if there are too many. */
  ghost predicate Layered(sent: set<u32>, latest: u32, leftover: nat) {
    && |Above(sent, latest)| <= leftover
    && (|sent| <= PRUNE_THRESHOLD || |UpTo(sent, latest)| <= WINDOW + 1)
  }

  lemma LayeredSubset(a: set<u32>, b: set<u32>, latest: u32, leftover: nat)
    requires a <= b && Layered(b, latest, leftover)
    ensures Layered(a, latest, leftover)
  {
    SubsetSize(Above(a, latest), Above(b, latest));
    SubsetSize(UpTo(a, latest), UpTo(b, latest));
    SubsetSize(a, b);
  }

  // ----- its size in any run -----

  /**
   Every wraparound can leave behind one window's worth of numbers that no later pruning reaches,
   on top of what the first lap may hold.
   */
  function Leftover(laps: nat): nat {
    if laps == 0 then 0 else PRUNE_THRESHOLD + (WINDOW + 1) * (laps - 1)
  }

  ghost predicate Stacked(sent: set<u32>, n: nat) {
    Layered(sent, n % U32_COUNT, Leftover(n / U32_COUNT))
  }

  lemma StackedSize(sent: set<u32>, n: nat)
    requires Stacked(sent, n)
    ensures |sent| <= PRUNE_THRESHOLD + (WINDOW + 1) * (n / U32_COUNT)
  {
    Split(sent, n % U32_COUNT);
  }

  lemma LapsPass(p: nat, n: nat)
    requires p < n
    ensures p / U32_COUNT <= n / U32_COUNT
    ensures p / U32_COUNT == n / U32_COUNT ==> p % U32_COUNT < n % U32_COUNT
  {
  }

  lemma AboveAfterRecord(sent: set<u32>, p: nat, n: nat)
    requires p < n
    ensures |Above(Recorded(sent, n % U32_COUNT), n % U32_COUNT)|
      <= if p / U32_COUNT == n / U32_COUNT then |Above(sent, p % U32_COUNT)| else |sent|
  {
    LapsPass(p, n);
    var after: set<u32> := Above(Recorded(sent, n % U32_COUNT), n % U32_COUNT);
    SubsetSize(after, sent);
    if p / U32_COUNT == n / U32_COUNT {
      SubsetSize(after, Above(sent, p % U32_COUNT));
    }
  }

  lemma UpToAfterRecord(sent: set<u32>, next: u32)
    ensures |Recorded(sent, next)| <= PRUNE_THRESHOLD || |UpTo(Recorded(sent, next), next)| <= WINDOW + 1
  {
    if |sent + {next}| > PRUNE_THRESHOLD {
      IntervalSize(UpTo(Recorded(sent, next), next), SaturatingSub(next, WINDOW), next);
    }
  }

  lemma StackedRecord(sent: set<u32>, p: nat, n: nat)
    requires p < n && Stacked(sent, p)
    ensures Stacked(Recorded(sent, n % U32_COUNT), n)
  {
    LapsPass(p, n);
    StackedSize(sent, p);
    AboveAfterRecord(sent, p, n);
    UpToAfterRecord(sent, n % U32_COUNT);
  }

  lemma FirstRecord(n: nat)
    ensures Stacked(Recorded({}, n % U32_COUNT), n) && Bounded(Recorded({}, n % U32_COUNT), n % U32_COUNT)
  {
    assert {} + {n % U32_COUNT} == {n % U32_COUNT};
    assert Above({n % U32_COUNT}, n % U32_COUNT) == {};
  }

  ghost predicate StackedUpTo(latest: Option<nat>, sent: set<u32>) {
    if latest.None? then sent == {} else Stacked(sent, latest.value)
  }

  lemma StackedNext(latest: Option<nat>, sent: set<u32>, n: nat)
    requires StackedUpTo(latest, sent) && (latest.Some? ==> latest.value < n)
    ensures Stacked(Recorded(sent, n % U32_COUNT), n)
  {
    if latest.Some? {
      StackedRecord(sent, latest.value, n);
    } else {
      FirstRecord(n);
    }
  }

  lemma {:induction false} StackedRun(steps: seq<Action>)
    requires Possible(steps)
    ensures StackedUpTo(LatestIndex(steps), After(steps).value.sent)
  {
    if steps == [] {
    } else {
      var prefix := DropLast(steps);
      StackedRun(prefix);
      var b := After(prefix).value;
      match Last(steps) {
        case Send(_) =>
        case Record =>
          CounterIsIssued(prefix);
          StackedNext(LatestIndex(prefix), b.sent, Issued(prefix) - 1);
        case Receive(s) =>
          if LatestIndex(prefix).Some? {
            var n := LatestIndex(prefix).value;
            LayeredSubset(b.sent - {s}, b.sent, n % U32_COUNT, Leftover(n / U32_COUNT));
          }
      }
    }
  }

  /** Whatever sends fail, each completed lap adds at most 5001 to the 10000 numbers of the first. */
  lemma SizeInAnyRun(steps: seq<Action>)
    requires Possible(steps)
    ensures var laps := if LatestIndex(steps).Some? then LatestIndex(steps).value / U32_COUNT else 0;
      |After(steps).value.sent| <= PRUNE_THRESHOLD + (WINDOW + 1) * laps
  {
    StackedRun(steps);
    if LatestIndex(steps).Some? {
      StackedSize(After(steps).value.sent, LatestIndex(steps).value);
    }
  }

  /** Within one lap of the counter, the set never exceeds 10000 numbers, none of them above the latest. */
  lemma FirstLapSize(steps: seq<Action>)
    requires Possible(steps) && Issued(steps) <= U32_COUNT
    ensures var sent := After(steps).value.sent;
      && |sent| <= PRUNE_THRESHOLD
      && forall s :: s in sent ==> LatestIndex(steps).Some? && s <= LatestIndex(steps).value
  {
    SizeInAnyRun(steps);
    StackedRun(steps);
    CounterIsIssued(steps);
    if LatestIndex(steps).Some? {
      assert LatestIndex(steps).value / U32_COUNT == 0;
      forall s | s in After(steps).value.sent
        ensures s <= LatestIndex(steps).value
      {
        assert s !in Above(After(steps).value.sent, LatestIndex(steps).value);
      }
    }
  }

  // ----- its size over many laps -----

  /** No 5000 sends in a row fail: successive records are at most 5000 numbers apart. */
  predicate NoOutage(steps: seq<Action>) {
    steps != [] ==>
      var prefix := DropLast(steps);
      && NoOutage(prefix)
      && (Last(steps).Record? && LatestIndex(prefix).Some? ==>
        Issued(prefix) - 1 <= LatestIndex(prefix).value + WINDOW)
  }

  /** The first 5000 numbers of a lap are never pruned before the next lap. */
  function Reach(latest: u32): u32 {
    if latest < WINDOW then WINDOW else latest
  }

  /** At most 10000 numbers that the current lap has yet to pass; and if it is past its first window, it is pruned. */
  ghost predicate Bounded(sent: set<u32>, latest: u32) {
    && |Above(sent, Reach(latest))| <= PRUNE_THRESHOLD
    && (latest <= WINDOW || |sent| <= PRUNE_THRESHOLD || |UpTo(sent, latest)| <= WINDOW + 1)
  }

  lemma BoundedSize(sent: set<u32>, latest: u32)
    requires Bounded(sent, latest)
    ensures |sent| <= PRUNE_THRESHOLD + WINDOW + 1
  {
    Split(sent, Reach(latest));
    if latest <= WINDOW {
      IntervalSize(UpTo(sent, Reach(latest)), 0, Reach(latest));
    }
  }

  lemma BoundedSubset(a: set<u32>, b: set<u32>, latest: u32)
    requires a <= b && Bounded(b, latest)
    ensures Bounded(a, latest)
  {
    SubsetSize(Above(a, Reach(latest)), Above(b, Reach(latest)));
    SubsetSize(UpTo(a, latest), UpTo(b, latest));
    SubsetSize(a, b);
  }

  lemma BoundedRecord(sent: set<u32>, latest: u32, next: u32)
    requires Bounded(sent, latest)
    requires next <= latest ==> |Above(sent, Reach(next))| <= PRUNE_THRESHOLD
    ensures Bounded(Recorded(sent, next), next)
  {
    UpToAfterRecord(sent, next);
    SubsetSize(Above(Recorded(sent, next), Reach(next)), Above(sent, Reach(next)));
    if latest < next {
      SubsetSize(Above(sent, Reach(next)), Above(sent, Reach(latest)));
    }
  }

  lemma FirstIsBounded(next: u32)
    ensures Bounded(Recorded({}, next), next)
  {
    assert {} + {next} == {next} && Above({next}, Reach(next)) == {};
  }

  /**
   Whenever the counter wraps around, at most 10000 numbers are held beyond what the new lap
   reaches at once.
   */
  ghost predicate WrapsHoldFew(steps: seq<Action>) {
    steps != [] ==>
      var prefix := DropLast(steps);
      && WrapsHoldFew(prefix)
      && (Last(steps).Record? && Possible(prefix) && LatestIndex(prefix).Some? && Issued(prefix) > 0 ==>
        HoldsFew(After(prefix).value.sent, LatestIndex(prefix).value % U32_COUNT, (Issued(prefix) - 1) % U32_COUNT))
  }

  ghost predicate HoldsFew(sent: set<u32>, latest: u32, next: u32) {
    next <= latest ==> |Above(sent, Reach(next))| <= PRUNE_THRESHOLD
  }

  ghost predicate BoundedUpTo(latest: Option<nat>, sent: set<u32>) {
    if latest.None? then sent == {} else Bounded(sent, latest.value % U32_COUNT)
  }

  lemma StepBounded(b: State, step: Action, issued: nat, latest: Option<nat>, latest': Option<nat>)
    requires CanStep(b, step) && Tracks(b, issued, latest) && BoundedUpTo(latest, b.sent)
    requires step.Record? && latest.Some? ==> HoldsFew(b.sent, latest.value % U32_COUNT, (issued - 1) % U32_COUNT)
    requires latest' == if step.Record? then Some(issued - 1) else latest
    ensures BoundedUpTo(latest', Do(b, step).sent)
  {
    match step {
      case Send(_) =>
      case Record =>
        if latest.Some? {
          BoundedRecord(b.sent, latest.value % U32_COUNT, b.inflight.value);
        } else {
          FirstIsBounded(b.inflight.value);
        }
      case Receive(s) =>
        if latest.Some? {
          BoundedSubset(b.sent - {s}, b.sent, latest.value % U32_COUNT);
        }
    }
  }

  lemma {:induction false} BoundedRun(steps: seq<Action>)
    requires Possible(steps) && WrapsHoldFew(steps)
    ensures BoundedUpTo(LatestIndex(steps), After(steps).value.sent)
  {
    if steps == [] {
    } else {
      var prefix := DropLast(steps);
      BoundedRun(prefix);
      CounterIsIssued(prefix);
      StepBounded(After(prefix).value, Last(steps), Issued(prefix), LatestIndex(prefix), LatestIndex(steps));
    }
  }

  /** Over any number of laps the set holds at most 15001 numbers, if it holds few at every wraparound. */
  lemma SizeBound(steps: seq<Action>)
    requires Possible(steps) && WrapsHoldFew(steps)
    ensures |After(steps).value.sent| <= PRUNE_THRESHOLD + WINDOW + 1
  {
    BoundedRun(steps);
    if LatestIndex(steps).Some? {
      BoundedSize(After(steps).value.sent, LatestIndex(steps).value % U32_COUNT);
    }
  }

  lemma ShortGap(p: nat, n: nat)
    requires p < n <= p + WINDOW && n % U32_COUNT <= p % U32_COUNT
    ensures p % U32_COUNT >= U32_COUNT - WINDOW
  {
  }

  lemma ShortGapHoldsFew(sent: set<u32>, p: nat, n: nat)
    requires Bounded(sent, p % U32_COUNT) && p < n <= p + WINDOW
    ensures HoldsFew(sent, p % U32_COUNT, n % U32_COUNT)
  {
    var latest: u32, next: u32 := p % U32_COUNT, n % U32_COUNT;
    if next <= latest {
      ShortGap(p, n);
      SubsetSize(Above(sent, Reach(next)), sent);
      Split(sent, latest);
      IntervalSize(Above(sent, latest), latest + 1, U32_COUNT - 1);
    }
  }

  /** It does while no 5000 sends in a row fail. */
  lemma {:induction false} NoOutageHoldsFew(steps: seq<Action>)
    requires Possible(steps) && NoOutage(steps)
    ensures WrapsHoldFew(steps)
  {
    if steps == [] {
    } else {
      var prefix := DropLast(steps);
      NoOutageHoldsFew(prefix);
      BoundedRun(prefix);
      CounterIsIssued(prefix);
      if Last(steps).Record? && LatestIndex(prefix).Some? {
        ShortGapHoldsFew(After(prefix).value.sent, LatestIndex(prefix).value, Issued(prefix) - 1);
      }
    }
  }

  /** In particular when every send succeeds. */
  lemma {:induction false} NoOutageWhenAllSucceed(steps: seq<Action>)
    requires Possible(steps) && AllSucceed(steps)
    ensures NoOutage(steps)
  {
    if steps == [] {
    } else {
      NoOutageWhenAllSucceed(DropLast(steps));
      RecordsFollowIssues(DropLast(steps));
    }
  }

  // ----- one lap from a wraparound on -----

  /** A continuation counts as a history of its own when the counter is back at zero. */
  lemma {:induction false} TracksFromZero(pre: seq<Action>, mid: seq<Action>, sent: set<u32>)
    requires After(pre) == Some(State(0, None, sent)) && Possible(pre + mid)
    ensures Tracks(After(pre + mid).value, Issued(mid), LatestIndex(mid))
  {
    if mid == [] {
      assert pre + mid == pre;
    } else {
      assert DropLast(pre + mid) == pre + DropLast(mid);
      TracksFromZero(pre, DropLast(mid), sent);
      StepTracks(After(pre + DropLast(mid)).value, Last(mid), Issued(DropLast(mid)), LatestIndex(DropLast(mid)));
    }
  }

  function LatestInLap(latest: Option<nat>): u32
    requires latest.Some? ==> latest.value < U32_COUNT
  {
    if latest.Some? then latest.value else 0
  }

  lemma StepBoundedInLap(b: State, step: Action, issued: nat, latest: Option<nat>, latest': Option<nat>)
    requires CanStep(b, step) && Tracks(b, issued, latest) && issued <= U32_COUNT
    requires Bounded(b.sent, LatestInLap(latest))
    requires latest' == if step.Record? then Some(issued - 1) else latest
    ensures latest'.Some? ==> latest'.value < U32_COUNT
    ensures Bounded(Do(b, step).sent, LatestInLap(latest'))
  {
    match step {
      case Send(_) =>
      case Record =>
        SmallModulo(issued - 1);
        BoundedRecord(b.sent, LatestInLap(latest), b.inflight.value);
      case Receive(s) =>
        BoundedSubset(b.sent - {s}, b.sent, LatestInLap(latest));
    }
  }

  lemma {:induction false} BoundedInLap(pre: seq<Action>, mid: seq<Action>, sent: set<u32>)
    requires After(pre) == Some(State(0, None, sent)) && Possible(pre + mid) && Issued(mid) <= U32_COUNT
    requires |Above(sent, WINDOW)| <= PRUNE_THRESHOLD
    ensures LatestIndex(mid).Some? ==> LatestIndex(mid).value < U32_COUNT
    ensures Bounded(After(pre + mid).value.sent, LatestInLap(LatestIndex(mid)))
  {
    if mid == [] {
      assert pre + mid == pre;
    } else {
      var shorter := DropLast(mid);
      assert DropLast(pre + mid) == pre + shorter;
      BoundedInLap(pre, shorter, sent);
      TracksFromZero(pre, shorter, sent);
      StepBoundedInLap(After(pre + shorter).value, Last(mid), Issued(shorter), LatestIndex(shorter), LatestIndex(mid));
    }
  }
}
