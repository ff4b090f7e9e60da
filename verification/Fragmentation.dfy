/** How a message is cut into datagrams: capacities, counts, offsets, and the casts they go through. */
module Fragmentation {
  import opened Primitives
  import opened Protocol

  function CheckedAdd(a: nat, b: nat): Option<nat> {
    if a + b <= USIZE_MAX then Some(a + b) else None
  }

  function Concat(parts: seq<Bytes>): Bytes {
    if parts == [] then [] else Concat(DropLast(parts)) + Last(parts)
  }

  /** One call of `send`: the transport's MTU and the message. */
  datatype Job = Job(mtu: nat, channel: Bytes, data: Bytes) {

    function ShortSize(): nat {
      4 + 4 + |channel| + 1 + |data|
    }

    predicate FitsOneDatagram() {
      ShortSize() <= mtu
    }

    function FirstCapacity(): nat {
      SaturatingSub(mtu, FRAGMENT_HEADER_SIZE + |channel| + 1)
    }

    function SubsequentCapacity(): nat {
      SaturatingSub(mtu, FRAGMENT_HEADER_SIZE)
    }

    /** The MTU leaves room for data beside the channel. */
    predicate Viable() {
      FirstCapacity() > 0 && SubsequentCapacity() > 0
    }

    function RemainingAfterFirst(): nat {
      SaturatingSub(|data|, FirstCapacity())
    }

    /** The fragment count before it is cast to `u16`. */
    function FullCount(): nat
      requires Viable()
    {
      1 + match CheckedAdd(RemainingAfterFirst(), SubsequentCapacity() - 1)
          case Some(v) => v / SubsequentCapacity()
          case None => 0
    }

    function Count(): u16
      requires Viable()
    {
      FullCount() % U16_COUNT
    }

    /** Where chunk `i` starts: the first capacity, then whole subsequent capacities, clamped to the data. */
    function Start(i: nat): (s: nat)
      ensures s <= |data|
    {
      if i == 0 then 0 else Min(|data|, FirstCapacity() + (i - 1) * SubsequentCapacity())
    }

    lemma StartStep(i: nat)
      ensures Start(i) <= Start(i + 1)
      ensures Start(i + 1) == Min(Start(i) + if i == 0 then FirstCapacity() else SubsequentCapacity(), |data|)
    {
      if i > 0 {
        assert i * SubsequentCapacity() == (i - 1) * SubsequentCapacity() + SubsequentCapacity();
      }
    }

    function Chunk(i: nat): Bytes {
      StartStep(i);
      data[Start(i)..Start(i + 1)]
    }

    function FragmentAt(sequenceNumber: u32, i: nat): Fragment
      requires Viable() && i < Count()
    {
      Fragment(sequenceNumber, |data| % U32_COUNT, Start(i) % U32_COUNT, i, Count(),
               if i == 0 then Some(channel) else None, Chunk(i))
    }

    function Fragments(sequenceNumber: u32): (fs: seq<Fragment>)
      requires Viable()
      ensures |fs| == Count()
      ensures forall i :: 0 <= i < |fs| ==> fs[i] == FragmentAt(sequenceNumber, i)
    {
      seq(Count(), i requires 0 <= i < Count() => FragmentAt(sequenceNumber, i))
    }

    /** The datagrams `send` hands to the socket, or nothing when the MTU is too small. */
    function Plan(sequenceNumber: u32): Option<seq<Bytes>> {
      if FitsOneDatagram() then Some([EncodeShort(sequenceNumber, channel, data)])
      else if !Viable() then None
      else Some(EncodeAll(Fragments(sequenceNumber)))
    }

    // ----- one datagram, many, or none -----

    /** A message goes out as one short datagram exactly when its encoding fits the MTU. */
    lemma OneDatagramExactly(sequenceNumber: u32)
      ensures var short := EncodeShort(sequenceNumber, channel, data);
        |short| <= mtu <==> Plan(sequenceNumber) == Some([short])
    {
      EncodedShortSize(sequenceNumber, channel, data);
      if !FitsOneDatagram() && Viable() && |Fragments(sequenceNumber)| == 1 {
        EncodingsDiffer(sequenceNumber);
      }
    }

    lemma EncodingsDiffer(sequenceNumber: u32)
      requires Viable() && |Fragments(sequenceNumber)| == 1
      ensures EncodeAll(Fragments(sequenceNumber)) != [EncodeShort(sequenceNumber, channel, data)]
    {
      var f := FragmentAt(sequenceNumber, 0);
      FormatsDisjoint(sequenceNumber, channel, data, f);
      assert EncodeAll(Fragments(sequenceNumber))[0] == EncodeFragment(f);
    }

    /** `send` has nothing to send exactly when that does not fit and a fragment has no room for data beside the channel. */
    lemma RefusedExactly(sequenceNumber: u32)
      ensures Plan(sequenceNumber).None?
        <==> |EncodeShort(sequenceNumber, channel, data)| > mtu && mtu <= 21 + |channel|
    {
      EncodedShortSize(sequenceNumber, channel, data);
    }

    /** And it goes out as fragments, at least two unless the count wraps, in all other cases. */
    lemma ManyDatagrams(sequenceNumber: u32)
      requires Fragmented()
      ensures Plan(sequenceNumber) == Some(EncodeAll(Fragments(sequenceNumber)))
      ensures |channel| + 1 + |data| <= 65535 * (mtu - 20) ==> |Plan(sequenceNumber).value| >= 2
    {
      CountIsCeiling();
      if |channel| + 1 + |data| <= 65535 * (mtu - 20) {
        CastIsLossless();
      }
    }

    // ----- the count -----

    /**
     The short encoding exceeds the MTU but not 64 bits, and the MTU leaves room in the first fragment
     for data beside header, channel and NUL. Stated on the message alone, not on how it is cut.
     */
    predicate Fragmented() {
      && 9 + |channel| + |data| > mtu && 9 + |channel| + |data| < 0x1_0000_0000_0000_0000
      && mtu > 21 + |channel|
    }

    /** The size of everything the datagrams carry besides their headers. */
    function CarriedSize(): nat {
      |channel| + 1 + |data|
    }

    /**
     The count is the exact ceiling of carried bytes over body capacity, at least two;
     the addition it is computed with never overflows.
     */
    lemma CountIsCeiling()
      requires Fragmented()
      ensures CheckedAdd(RemainingAfterFirst(), SubsequentCapacity() - 1).Some?
      ensures SubsequentCapacity() == mtu - FRAGMENT_HEADER_SIZE
      ensures (FullCount() - 1) * SubsequentCapacity() < CarriedSize() <= FullCount() * SubsequentCapacity()
      ensures FullCount() >= 2 && FirstCapacity() < |data|
    {
      CeilingBounds(RemainingAfterFirst(), SubsequentCapacity());
      var q, sub := FullCount() - 1, SubsequentCapacity();
      assert (q + 1) * sub == q * sub + sub;
      assert q * sub == (q - 1) * sub + sub;
    }

    /** No way of packing channel, NUL and data into datagrams within the MTU uses fewer of them. */
    lemma CountIsOptimal(bodies: seq<Bytes>)
      requires Fragmented()
      requires Concat(bodies) == channel + [0] + data
      requires forall i :: 0 <= i < |bodies| ==> FRAGMENT_HEADER_SIZE + |bodies[i]| <= mtu
      ensures |bodies| >= FullCount()
    {
      CountIsCeiling();
      ConcatAtMost(bodies, SubsequentCapacity());
      if |bodies| < FullCount() {
        MulMonotone(|bodies|, FullCount() - 1, SubsequentCapacity());
        assert false;
      }
    }

    /** The largest payload whose fragment count survives the cast to `u16`. */
    function LosslessLimit(): nat {
      FirstCapacity() + 65534 * SubsequentCapacity()
    }

    lemma CastIsLossless()
      requires Fragmented()
      ensures Count() == FullCount() <==> |data| <= LosslessLimit()
      ensures FullCount() < U16_COUNT <==> |data| <= LosslessLimit()
    {
      CountIsCeiling();
      var n, sub := FullCount(), SubsequentCapacity();
      assert CarriedSize() == |data| + sub - FirstCapacity();
      if n <= 65535 {
        MulMonotone(n, 65535, sub);
      } else {
        MulMonotone(65535, n - 1, sub);
      }
    }

    /** The cast takes whole laps of 65536 off the exact ceiling of carried bytes over body capacity. */
    lemma CountWraps() returns (laps: nat)
      requires Fragmented()
      ensures (|channel| + 1 + |data| + mtu - 21) / (mtu - 20) == laps * 65536 + Count()
    {
      CountIsCeiling();
      CeilingUnique(CarriedSize(), mtu - 20, FullCount());
      laps := FullCount() / 65536;
    }

    // ----- tiling -----

    /** Up to the last chunk no start is clamped, and the last chunk ends with the data. */
    lemma StartsAreExact(i: nat)
      requires Fragmented() && i <= FullCount()
      ensures 0 < i < FullCount() ==> Start(i) == FirstCapacity() + (i - 1) * SubsequentCapacity() < |data|
      ensures i == FullCount() ==> Start(i) == |data|
    {
      CountIsCeiling();
      if i > 0 {
        CapacityBeforeChunk(FirstCapacity(), SubsequentCapacity(), |data|, FullCount(), i);
      }
    }

    /** Every chunk of a fragmented message is non-empty, and all but the last fill their datagram. */
    lemma ChunkSizes(i: nat)
      requires Fragmented() && i < FullCount()
      ensures |Chunk(i)| > 0
      ensures |Chunk(i)| <= if i == 0 then FirstCapacity() else SubsequentCapacity()
      ensures i < FullCount() - 1 ==> |Chunk(i)| == if i == 0 then FirstCapacity() else SubsequentCapacity()
    {
      CountIsCeiling();
      StartStep(i);
      if i > 0 {
        StartsAreExact(i);
      }
      StartsAreExact(i + 1);
      assert i > 0 ==> i * SubsequentCapacity() == (i - 1) * SubsequentCapacity() + SubsequentCapacity();
    }

    /** Every datagram is within the MTU, and all but the last are exactly the MTU. */
    lemma DatagramSizes(sequenceNumber: u32, i: nat)
      requires Fragmented() && i < Count()
      ensures |EncodeFragment(FragmentAt(sequenceNumber, i))| <= mtu
      ensures i < FullCount() - 1 ==> |EncodeFragment(FragmentAt(sequenceNumber, i))| == mtu
    {
      EncodedSize(FragmentAt(sequenceNumber, i));
      ChunkSizes(i);
    }

    function Chunks(m: nat): (cs: seq<Bytes>)
      ensures |cs| == m
    {
      seq(m, i requires 0 <= i < m => Chunk(i))
    }

    lemma {:induction false} ChunksTile(m: nat)
      ensures Concat(Chunks(m)) == data[..Start(m)]
    {
      if m == 0 {
      } else {
        ChunksTile(m - 1);
        assert DropLast(Chunks(m)) == Chunks(m - 1);
        StartStep(m - 1);
        assert data[..Start(m)] == data[..Start(m - 1)] + Chunk(m - 1);
      }
    }

    /** What the emitted chunks cover falls short of the data exactly when the count does not fit `u16`. */
    lemma CoverageIsExact()
      requires Fragmented()
      ensures Start(Count()) == |data| <==> |data| <= LosslessLimit()
    {
      CastIsLossless();
      CountIsCeiling();
      StartsAreExact(Count());
    }

    /** With a count that does not fit, what the emitted fragments cover is a prefix: their bodies, but for channel and NUL. */
    lemma WrappedCoverage()
      requires Fragmented() && |channel| + 1 + |data| > 65535 * (mtu - 20) && Count() > 0
      ensures Start(Count()) == Count() * (mtu - 20) - |channel| - 1 < |data|
      ensures Concat(Chunks(Count())) == data[..Count() * (mtu - 20) - |channel| - 1]
    {
      CountIsCeiling();
      CastIsLossless();
      StartsAreExact(Count());
      assert Count() * (mtu - 20) == (Count() - 1) * (mtu - 20) + (mtu - 20);
      ChunksTile(Count());
    }

    /** The emitted chunks are the data, cut up, exactly when the count fits `u16`. */
    lemma EmittedChunksTile()
      requires Fragmented()
      ensures Concat(Chunks(Count())) == data <==> |data| <= LosslessLimit()
    {
      ChunksTile(Count());
      CoverageIsExact();
      assert data[..|data|] == data;
    }
  }

  function EncodeAll(fs: seq<Fragment>): (ds: seq<Bytes>)
    ensures |ds| == |fs|
    ensures forall i :: 0 <= i < |ds| ==> ds[i] == EncodeFragment(fs[i])
  {
    seq(|fs|, i requires 0 <= i < |fs| => EncodeFragment(fs[i]))
  }

  // ----- arithmetic -----

  lemma CeilingUnique(size: nat, sub: nat, n: nat)
    requires sub > 0 && n > 0 && (n - 1) * sub < size <= n * sub
    ensures (size + sub - 1) / sub == n
  {
    CeilingBounds(size, sub);
    var q := (size + sub - 1) / sub;
    if q < n {
      MulMonotone(q, n - 1, sub);
    } else {
      assert q * sub == (q - 1) * sub + sub;
      if q > n {
        MulMonotone(n, q - 1, sub);
        assert false;
      }
    }
  }

  lemma CeilingBounds(r: nat, sub: nat)
    requires sub > 0
    ensures var q := (r + sub - 1) / sub; r <= q * sub < r + sub
  {
    var v := r + sub - 1;
    assert v == v / sub * sub + v % sub;
  }

  /** Capacity used up before chunk `i`, when `n` bodies are the fewest that hold `d` and the lead-in. */
  lemma CapacityBeforeChunk(first: nat, sub: nat, d: nat, n: nat, i: nat)
    requires 0 < i <= n && (n - 1) * sub < d + sub - first <= n * sub
    ensures i < n ==> first + (i - 1) * sub < d
    ensures i == n ==> first + (i - 1) * sub >= d
  {
    assert n * sub == (n - 1) * sub + sub;
    if i < n {
      MulMonotone(i - 1, n - 2, sub);
      assert (n - 1) * sub == (n - 2) * sub + sub;
    }
  }

  lemma MulMonotone(a: int, b: int, c: nat)
    requires a <= b
    ensures a * c <= b * c
  {
    assert (b - a) * c >= 0;
    assert b * c == a * c + (b - a) * c;
  }

  lemma {:induction false} ConcatAtMost(parts: seq<Bytes>, size: nat)
    requires forall i :: 0 <= i < |parts| ==> |parts[i]| <= size
    ensures |Concat(parts)| <= |parts| * size
  {
    if parts == [] {
    } else {
      ConcatAtMost(DropLast(parts), size);
      assert |parts| * size == (|parts| - 1) * size + size;
    }
  }
}
