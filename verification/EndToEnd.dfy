/** Fragmenting, encoding, any network order, parsing and reassembling compose to the identity. */
module EndToEnd {
  import opened Primitives
  import opened Protocol
  import opened Reassembly
  import opened Isolation
  import opened Confluence
  import opened Fragmentation
  import opened Transport
  import Batches

  /** What the emitted fragments assemble to: the covered part of the data, then zeros. */
  function Assembled(job: Job): Bytes
    requires job.Viable()
  {
    job.data[..job.Start(job.Count())] + Zeros(|job.data| - job.Start(job.Count()))
  }

  /** The receiving side can take it: 32-bit length, within the cap, datagrams within its buffer. */
  predicate Receivable(cfg: Config, job: Job) {
    && job.Fragmented() && job.Count() > 0
    && ChannelOnWire(job.channel) && job.mtu <= 65536
    && |job.data| < U32_COUNT && |job.data| <= cfg.maxMessageSize
  }

  lemma {:induction false} StartsIncrease(job: Job, i: nat, j: nat)
    requires i <= j
    ensures job.Start(i) <= job.Start(j)
  {
    if i == j {
    } else {
      StartsIncrease(job, i, j - 1);
      job.StartStep(j - 1);
    }
  }

  lemma CoversChunk(job: Job, seqno: u32, i: nat, p: nat)
    requires job.Viable() && i < job.Count() && |job.data| < U32_COUNT
    ensures Covers(job.FragmentAt(seqno, i), p) <==> job.Start(i) <= p < job.Start(i + 1)
    ensures Covers(job.FragmentAt(seqno, i), p) ==> job.FragmentAt(seqno, i).data[p - job.Start(i)] == job.data[p]
  {
    job.StartStep(i);
    SmallModulo(job.Start(i));
  }

  lemma ChunksDisjoint(job: Job, seqno: u32)
    requires job.Viable() && |job.data| < U32_COUNT
    ensures DisjointRanges(job.Fragments(seqno))
  {
    var fs := job.Fragments(seqno);
    forall i, j, p: nat | 0 <= i < |fs| && 0 <= j < |fs| && Covers(fs[i], p) && Covers(fs[j], p)
      ensures i == j
    {
      CoversChunk(job, seqno, i, p);
      CoversChunk(job, seqno, j, p);
      if i < j {
        StartsIncrease(job, i + 1, j);
      } else if j < i {
        StartsIncrease(job, j + 1, i);
      }
    }
  }

  lemma FragmentHeader(job: Job, sender: SocketAddr, seqno: u32, i: nat)
    requires job.Viable() && i < job.Count() && |job.data| < U32_COUNT
    ensures Header(job.FragmentAt(seqno, i), Key(sender, seqno), |job.data|, job.Count(), i)
  {
    job.StartStep(i);
    SmallModulo(job.Start(i));
    SmallModulo(|job.data|);
  }

  lemma FragmentsAreFamily(cfg: Config, job: Job, sender: SocketAddr, seqno: u32)
    requires Receivable(cfg, job)
    ensures Family(job.Fragments(seqno), Key(sender, seqno), |job.data|, job.channel)
  {
    var fs := job.Fragments(seqno);
    forall i | 0 <= i < |fs|
      ensures Header(fs[i], Key(sender, seqno), |job.data|, |fs|, i)
    {
      FragmentHeader(job, sender, seqno, i);
    }
    ChunksDisjoint(job, seqno);
  }

  lemma {:induction false} ChunkHolding(job: Job, m: nat, p: nat) returns (i: nat)
    requires p < job.Start(m)
    ensures i < m && job.Start(i) <= p < job.Start(i + 1)
  {
    if job.Start(m - 1) <= p {
      i := m - 1;
    } else {
      i := ChunkHolding(job, m - 1, p);
    }
  }

  lemma CoveredBeforeEnd(job: Job, seqno: u32, p: nat) returns (i: nat)
    requires job.Viable() && |job.data| < U32_COUNT && p < job.Start(job.Count())
    ensures i in Numbers(job.Count()) && Covers(job.Fragments(seqno)[i], p)
  {
    i := ChunkHolding(job, job.Count(), p);
    CoversChunk(job, seqno, i, p);
  }

  lemma AssembledHoldsChunk(job: Job, i: nat, p: nat)
    requires job.Viable() && i < job.Count() && job.Start(i) <= p < job.Start(i + 1)
    ensures Assembled(job)[p] == job.data[p]
  {
    StartsIncrease(job, i + 1, job.Count());
  }

  lemma AssembledZeroElsewhere(job: Job, seqno: u32, p: nat)
    requires job.Viable() && |job.data| < U32_COUNT && p < |job.data|
    requires forall i :: i in Numbers(job.Count()) ==> !Covers(job.Fragments(seqno)[i], p)
    ensures Assembled(job)[p] == 0
  {
    if p < job.Start(job.Count()) {
      var i := CoveredBeforeEnd(job, seqno, p);
      assert false;
    }
  }

  lemma ChunkOffset(job: Job, seqno: u32, i: nat)
    requires job.Viable() && |job.data| < U32_COUNT && i < job.Count()
    ensures job.FragmentAt(seqno, i).fragmentOffset == job.Start(i)
  {
    SmallModulo(job.Start(i));
  }

  lemma AssembledIsFilled(job: Job, seqno: u32, fs: seq<Fragment>, whole: Bytes)
    requires job.Viable() && |job.data| < U32_COUNT
    requires fs == job.Fragments(seqno) && whole == Assembled(job)
    ensures Filled(whole, fs, Numbers(|fs|))
  {
    forall i, p: nat | i in Numbers(|fs|) && i < |fs| && p < |whole| && Covers(fs[i], p)
      ensures whole[p] == fs[i].data[p - fs[i].fragmentOffset]
    {
      ChunkOffset(job, seqno, i);
      CoversChunk(job, seqno, i, p);
      AssembledHoldsChunk(job, i, p);
    }
    forall p: nat | p < |whole| && forall i :: i in Numbers(|fs|) && i < |fs| ==> !Covers(fs[i], p)
      ensures whole[p] == 0
    {
      AssembledZeroElsewhere(job, seqno, p);
    }
  }

  lemma FamilyAssembles(cfg: Config, job: Job, sender: SocketAddr, seqno: u32)
    requires Receivable(cfg, job)
    requires Family(job.Fragments(seqno), Key(sender, seqno), |job.data|, job.channel)
    ensures Assemble(|job.data|, job.Fragments(seqno)) == Assembled(job)
  {
    var fs := job.Fragments(seqno);
    AssembledIsFilled(job, seqno, fs, Assembled(job));
    AssembleFilled(|job.data|, fs, |fs|);
    assert fs[..|fs|] == fs;
    FilledUnique(Assembled(job), Assemble(|job.data|, fs), fs, Numbers(|fs|));
  }

  // ----- bytes on the wire -----

  lemma EmittedParses(cfg: Config, job: Job, seqno: u32, i: nat)
    requires Receivable(cfg, job) && i < job.Count()
    ensures ParseDatagram(Truncated(EncodeFragment(job.FragmentAt(seqno, i)))) == Some(Frag(job.FragmentAt(seqno, i)))
  {
    var f := job.FragmentAt(seqno, i);
    job.CastIsLossless();
    CountAtMostFull(job);
    job.DatagramSizes(seqno, i);
    assert Truncated(EncodeFragment(f)) == EncodeFragment(f);
    ParseInvertsEncode(Frag(f));
  }

  lemma CountAtMostFull(job: Job)
    requires job.Viable()
    ensures job.Count() <= job.FullCount()
  {
  }

  ghost predicate Arrived(arrivals: seq<Arrival>, sender: SocketAddr, bytes: Bytes) {
    exists j :: 0 <= j < |arrivals| && arrivals[j].Datagram? && arrivals[j].sender == sender && arrivals[j].bytes == bytes
  }

  ghost predicate AllArrived(arrivals: seq<Arrival>, sender: SocketAddr, ds: seq<Bytes>) {
    forall i :: 0 <= i < |ds| ==> Arrived(arrivals, sender, ds[i])
  }

  lemma {:induction false} SeenExactly(inputs: seq<Input>, k: Key, n: nat)
    ensures n in Seen(inputs, k) <==>
      exists j :: 0 <= j < |inputs| && Concerns(inputs[j], k) && FragmentOf(inputs[j]).fragmentNumber == n
  {
    if inputs == [] {
    } else {
      SeenExactly(DropLast(inputs), k, n);
      assert forall j :: 0 <= j < |inputs| - 1 ==> DropLast(inputs)[j] == inputs[j];
      if n in NumberIn(Last(inputs), k) {
        assert Concerns(inputs[|inputs| - 1], k);
      }
    }
  }

  /** All traffic of the message's key is what the sender emitted. */
  ghost predicate OnlyEmitted(arrivals: seq<Arrival>, sender: SocketAddr, job: Job, seqno: u32)
    requires job.Viable() && forall j :: 0 <= j < |arrivals| ==> arrivals[j].Datagram?
  {
    forall j :: 0 <= j < |arrivals| && Concerns(InputOf(arrivals[j]), Key(sender, seqno)) ==>
      arrivals[j].bytes in EncodeAll(job.Fragments(seqno))
  }

  lemma EmittedInput(cfg: Config, job: Job, sender: SocketAddr, seqno: u32, a: Arrival, i: nat)
    requires Receivable(cfg, job) && i < job.Count() && a.Datagram?
    requires a.sender == sender && a.bytes == EncodeFragment(job.FragmentAt(seqno, i))
    ensures Concerns(InputOf(a), Key(sender, seqno)) && FragmentOf(InputOf(a)) == job.FragmentAt(seqno, i)
  {
    EmittedParses(cfg, job, seqno, i);
  }

  lemma EmittedOnlyFrom(cfg: Config, job: Job, sender: SocketAddr, seqno: u32, arrivals: seq<Arrival>)
    requires Receivable(cfg, job) && forall j :: 0 <= j < |arrivals| ==> arrivals[j].Datagram?
    requires OnlyEmitted(arrivals, sender, job, seqno)
    ensures OnlyFrom(InputsOf(arrivals), Key(sender, seqno), job.Fragments(seqno))
  {
    var inputs, k, fs := InputsOf(arrivals), Key(sender, seqno), job.Fragments(seqno);
    forall j | 0 <= j < |inputs| && Concerns(inputs[j], k)
      ensures FragmentOf(inputs[j]).fragmentNumber < |fs|
      ensures FragmentOf(inputs[j]) == fs[FragmentOf(inputs[j]).fragmentNumber]
    {
      var i :| 0 <= i < |fs| && arrivals[j].bytes == EncodeAll(fs)[i];
      EmittedInput(cfg, job, sender, seqno, arrivals[j], i);
    }
  }

  lemma SeenIffArrived(cfg: Config, job: Job, sender: SocketAddr, seqno: u32, arrivals: seq<Arrival>, i: nat)
    requires Receivable(cfg, job) && forall j :: 0 <= j < |arrivals| ==> arrivals[j].Datagram?
    requires OnlyEmitted(arrivals, sender, job, seqno) && i < job.Count()
    ensures i in Seen(InputsOf(arrivals), Key(sender, seqno))
      <==> Arrived(arrivals, sender, EncodeFragment(job.FragmentAt(seqno, i)))
  {
    var inputs, k, fs := InputsOf(arrivals), Key(sender, seqno), job.Fragments(seqno);
    SeenExactly(inputs, k, i);
    var bytes := EncodeFragment(job.FragmentAt(seqno, i));
    if j :| 0 <= j < |arrivals| && arrivals[j].sender == sender && arrivals[j].bytes == bytes {
      EmittedInput(cfg, job, sender, seqno, arrivals[j], i);
      assert Concerns(inputs[j], k);
    }
    if j :| 0 <= j < |inputs| && Concerns(inputs[j], k) && FragmentOf(inputs[j]).fragmentNumber == i {
      var i' :| 0 <= i' < |fs| && arrivals[j].bytes == EncodeAll(fs)[i'];
      EmittedInput(cfg, job, sender, seqno, arrivals[j], i');
      assert arrivals[j].sender == sender;
    }
  }

  /** All numbers have been seen exactly when all emitted datagrams have arrived. */
  lemma SeenAllIffArrived(cfg: Config, job: Job, sender: SocketAddr, seqno: u32, arrivals: seq<Arrival>)
    requires Receivable(cfg, job) && forall j :: 0 <= j < |arrivals| ==> arrivals[j].Datagram?
    requires OnlyEmitted(arrivals, sender, job, seqno)
    ensures Seen(InputsOf(arrivals), Key(sender, seqno)) == Numbers(job.Count())
      <==> AllArrived(arrivals, sender, EncodeAll(job.Fragments(seqno)))
  {
    var seen, fs := Seen(InputsOf(arrivals), Key(sender, seqno)), job.Fragments(seqno);
    EmittedOnlyFrom(cfg, job, sender, seqno, arrivals);
    SeenWithin(InputsOf(arrivals), Key(sender, seqno), fs);
    forall i: nat | i < |fs|
      ensures i in seen <==> Arrived(arrivals, sender, EncodeAll(fs)[i])
    {
      SeenIffArrived(cfg, job, sender, seqno, arrivals, i);
    }
  }

  /**
   The network did its part by datagram `c`: among any other traffic, the emitted datagrams
   arrived, in any order and with any duplicates, `c` bringing the last of them, in time.
   */
  ghost predicate ArrivedAt(cfg: Config, job: Job, sender: SocketAddr, seqno: u32, arrivals: seq<Arrival>, c: nat)
    requires job.Viable() && forall j :: 0 <= j < |arrivals| ==> arrivals[j].Datagram?
  {
    var k, ds := Key(sender, seqno), EncodeAll(job.Fragments(seqno));
    && c < |arrivals| && Monotone(InputsOf(arrivals))
    && OnlyEmitted(arrivals[..c + 1], sender, job, seqno)
    && AllArrived(arrivals[..c + 1], sender, ds) && !AllArrived(arrivals[..c], sender, ds)
    && Timely(cfg, InputsOf(arrivals[..c + 1]), k)
  }

  /** And they came to a table without a live set for them. */
  ghost predicate DeliveredAt(cfg: Config, job: Job, sender: SocketAddr, seqno: u32,
                              pending: Pending, arrivals: seq<Arrival>, c: nat)
    requires job.Viable() && forall j :: 0 <= j < |arrivals| ==> arrivals[j].Datagram?
  {
    var k := Key(sender, seqno);
    && ArrivedAt(cfg, job, sender, seqno, arrivals, c)
    && NoLiveSet(cfg, Lookup(pending, k), InputsOf(arrivals[..c + 1]), k)
  }

  lemma InputsPrefix(arrivals: seq<Arrival>, n: nat)
    requires n <= |arrivals| && forall j :: 0 <= j < |arrivals| ==> arrivals[j].Datagram?
    ensures InputsOf(arrivals[..n]) == InputsOf(arrivals)[..n]
  {
  }

  lemma CompletesFamily(cfg: Config, job: Job, sender: SocketAddr, seqno: u32,
                        pending: Pending, arrivals: seq<Arrival>, c: nat)
    requires Receivable(cfg, job) && forall j :: 0 <= j < |arrivals| ==> arrivals[j].Datagram?
    requires DeliveredAt(cfg, job, sender, seqno, pending, arrivals, c)
    ensures var k := Key(sender, seqno);
      CompletedAt(cfg, job.Fragments(seqno), k, |job.data|, job.channel, Lookup(pending, k), InputsOf(arrivals), c)
  {
    var inputs, k, fs := InputsOf(arrivals), Key(sender, seqno), job.Fragments(seqno);
    FragmentsAreFamily(cfg, job, sender, seqno);
    EmittedOnlyFrom(cfg, job, sender, seqno, arrivals[..c + 1]);
    InputsPrefix(arrivals, c + 1);
    assert inputs[..c + 1] == inputs[..c] + [inputs[c]];
    assert Clean(cfg, fs, k, Lookup(pending, k), inputs[..c] + [inputs[c]]);
    SeenAroundCompletion(cfg, job, sender, seqno, pending, arrivals, c);
  }

  lemma SeenAroundCompletion(cfg: Config, job: Job, sender: SocketAddr, seqno: u32,
                             pending: Pending, arrivals: seq<Arrival>, c: nat)
    requires Receivable(cfg, job) && forall j :: 0 <= j < |arrivals| ==> arrivals[j].Datagram?
    requires DeliveredAt(cfg, job, sender, seqno, pending, arrivals, c)
    ensures var inputs, k := InputsOf(arrivals), Key(sender, seqno);
      && Seen(inputs[..c], k) != Numbers(job.Count())
      && Seen(inputs[..c], k) + NumberIn(inputs[c], k) == Numbers(job.Count())
  {
    var inputs := InputsOf(arrivals);
    InputsPrefix(arrivals, c);
    InputsPrefix(arrivals, c + 1);
    SeenAllIffArrived(cfg, job, sender, seqno, arrivals[..c + 1]);
    assert OnlyEmitted(arrivals[..c], sender, job, seqno) by {
      assert forall j :: 0 <= j < c ==> arrivals[..c][j] == arrivals[..c + 1][j];
    }
    SeenAllIffArrived(cfg, job, sender, seqno, arrivals[..c]);
    assert DropLast(inputs[..c + 1]) == inputs[..c];
  }

  /** A fragmented message is delivered once, with the last of its datagrams, whatever their order. */
  lemma MessageDelivered(cfg: Config, job: Job, sender: SocketAddr, seqno: u32,
                         pending: Pending, arrivals: seq<Arrival>, c: nat)
    requires Receivable(cfg, job) && forall j :: 0 <= j < |arrivals| ==> arrivals[j].Datagram?
    requires DeliveredAt(cfg, job, sender, seqno, pending, arrivals, c)
    ensures var messages := RunFrom(cfg, pending, InputsOf(arrivals)).messages;
      && messages[c] == Some(LcmMessage(job.channel, seqno, Assembled(job)))
      && forall j :: 0 <= j < c && Concerns(InputOf(arrivals[j]), Key(sender, seqno)) ==> messages[j].None?
  {
    var inputs, k := InputsOf(arrivals), Key(sender, seqno);
    CompletesFamily(cfg, job, sender, seqno, pending, arrivals, c);
    DeliveredAtLastMissing(cfg, job.Fragments(seqno), k, |job.data|, job.channel, pending, inputs, c);
    FamilyAssembles(cfg, job, sender, seqno);
  }

  lemma InputsSuffix(arrivals: seq<Arrival>, n: nat)
    requires n <= |arrivals| && forall j :: 0 <= j < |arrivals| ==> arrivals[j].Datagram?
    ensures InputsOf(arrivals[n..]) == InputsOf(arrivals)[n..]
  {
  }

  /** After that, late duplicates at any times deliver it again with exactly every whole batch of them. */
  lemma MessageDeliveredAgain(cfg: Config, job: Job, sender: SocketAddr, seqno: u32,
                              pending: Pending, arrivals: seq<Arrival>, c: nat, j: nat)
    requires Receivable(cfg, job) && forall j :: 0 <= j < |arrivals| ==> arrivals[j].Datagram?
    requires DeliveredAt(cfg, job, sender, seqno, pending, arrivals, c)
    requires OnlyEmitted(arrivals[c + 1..], sender, job, seqno)
    requires c < j < |arrivals| && Concerns(InputOf(arrivals[j]), Key(sender, seqno))
    ensures RunFrom(cfg, pending, InputsOf(arrivals)).messages[j]
      == if Batches.Completes(cfg, InputsOf(arrivals[c + 1..]), Key(sender, seqno), job.Count(), j - c - 1)
         then Some(LcmMessage(job.channel, seqno, Assembled(job))) else None
  {
    var inputs, k, fs := InputsOf(arrivals), Key(sender, seqno), job.Fragments(seqno);
    CompletesFamily(cfg, job, sender, seqno, pending, arrivals, c);
    EmittedOnlyFrom(cfg, job, sender, seqno, arrivals[c + 1..]);
    InputsSuffix(arrivals, c + 1);
    Batches.DeliveredAgainExactly(cfg, fs, k, |job.data|, job.channel, pending, inputs, c, j);
    FamilyAssembles(cfg, job, sender, seqno);
  }

  /** If they come within a timeout of each other, that is if and only if all the datagrams arrive again. */
  lemma MessageDeliveredAgainInTime(cfg: Config, job: Job, sender: SocketAddr, seqno: u32,
                              pending: Pending, arrivals: seq<Arrival>, c: nat)
    requires Receivable(cfg, job) && forall j :: 0 <= j < |arrivals| ==> arrivals[j].Datagram?
    requires DeliveredAt(cfg, job, sender, seqno, pending, arrivals, c)
    requires OnlyEmitted(arrivals[c + 1..], sender, job, seqno)
    requires Timely(cfg, InputsOf(arrivals[c + 1..]), Key(sender, seqno))
    ensures SomeDelivered(InputsOf(arrivals), Key(sender, seqno), c + 1,
                          RunFrom(cfg, pending, InputsOf(arrivals)).messages)
      <==> AllArrived(arrivals[c + 1..], sender, EncodeAll(job.Fragments(seqno)))
  {
    var inputs, k := InputsOf(arrivals), Key(sender, seqno);
    CompletesFamily(cfg, job, sender, seqno, pending, arrivals, c);
    EmittedOnlyFrom(cfg, job, sender, seqno, arrivals[c + 1..]);
    SeenAllIffArrived(cfg, job, sender, seqno, arrivals[c + 1..]);
    InputsSuffix(arrivals, c + 1);
    DeliveredAgainInTime(cfg, job.Fragments(seqno), k, |job.data|, job.channel, pending, inputs, c);
  }

  /**
   What is delivered is the data itself exactly when the fragment count fits `u16`
   or the part the surviving fragments miss is all zeros anyway.
   */
  lemma DataSurvivesExactly(job: Job)
    requires job.Fragmented()
    ensures Assembled(job) == job.data <==>
      |job.data| <= job.LosslessLimit()
      || (forall p: nat :: job.Start(job.Count()) <= p < |job.data| ==> job.data[p] == 0)
  {
    var end := job.Start(job.Count());
    job.CoverageIsExact();
    assert job.data == job.data[..end] + job.data[end..];
    if Assembled(job) == job.data {
      forall p: nat | end <= p < |job.data|
        ensures job.data[p] == 0
      {
        assert Assembled(job)[p] == 0;
      }
    }
  }

  /** End to end: channel, number and data come out as they went in. */
  lemma RoundTrip(cfg: Config, job: Job, sender: SocketAddr, seqno: u32,
                  pending: Pending, arrivals: seq<Arrival>, c: nat)
    requires job.Fragmented() && ChannelOnWire(job.channel) && job.mtu <= 65536
    requires |job.data| < 0x1_0000_0000 && |job.data| <= cfg.maxMessageSize
    requires |job.channel| + 1 + |job.data| <= 65535 * (job.mtu - 20)
    requires forall j :: 0 <= j < |arrivals| ==> arrivals[j].Datagram?
    requires DeliveredAt(cfg, job, sender, seqno, pending, arrivals, c)
    ensures var messages := RunFrom(cfg, pending, InputsOf(arrivals)).messages;
      && messages[c] == Some(LcmMessage(job.channel, seqno, job.data))
      && forall j :: 0 <= j < c && Concerns(InputOf(arrivals[j]), Key(sender, seqno)) ==> messages[j].None?
  {
    job.CastIsLossless();
    job.CountIsCeiling();
    MessageDelivered(cfg, job, sender, seqno, pending, arrivals, c);
    DataSurvivesExactly(job);
  }

  // ----- when nothing is sent -----

  /** When the full count is a multiple of 65536 the cast leaves none: `send` emits nothing and reports success. */
  lemma WrappedCountSendsNothing(job: Job, seqno: u32, answers: seq<bool>)
    requires job.Fragmented() && job.FullCount() % U16_COUNT == 0
    ensures job.Plan(seqno) == Some([]) && Transmit([], answers).ok
    ensures job.data != [] && Concat(job.Chunks(job.Count())) == []
  {
    job.CountIsCeiling();
  }

  /** Such messages exist: 131071 bytes in chunks of two, the first of one, make 65536 fragments. */
  lemma WrappedCountExists(data: Bytes)
    requires |data| == 131071
    ensures Job(22, [], data).Fragmented() && Job(22, [], data).FullCount() == U16_COUNT
  {
  }

  /** And others that wrap to a count in between: of 100 million bytes at the default MTU, the first 9.6 million are sent. */
  lemma WrappedCountCoversPrefix(channel: Bytes, data: Bytes)
    requires |channel| == 4 && |data| == 100_000_000
    ensures var job := Job(1400, channel, data);
      job.Fragmented() && job.Count() == 6928 && Concat(job.Chunks(job.Count())) == data[..9_560_635]
  {
    var job := Job(1400, channel, data);
    var laps := job.CountWraps();
    assert laps * 65536 + job.Count() == 72464;
    assert laps == 1;
    job.WrappedCoverage();
  }
}
