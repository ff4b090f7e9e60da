/** The reassembler itself: a table of fragment sets that are filled in place. */
module FragmentReassembler {
  import opened Primitives
  import opened Protocol
  import opened Reassembly

  class FragmentSet {
    var channel: Bytes
    const payloadSize: u32
    const nFragments: u16
    var fragmentsReceived: u16
    const buffer: array<byte>
    const receivedMask: array<bool>
    const createdAt: nat

    ghost function View(): SetView
      reads this, buffer, receivedMask
    {
      SetView(channel, payloadSize, nFragments, fragmentsReceived, buffer[..], receivedMask[..], createdAt)
    }

    constructor Open(f: Fragment, created: nat)
      ensures View() == OpenSet(f, created)
      ensures fresh(buffer) && fresh(receivedMask)
    {
      channel := [];
      payloadSize := f.payloadSize;
      nFragments := f.nFragments;
      fragmentsReceived := 0;
      buffer := new byte[f.payloadSize](_ => 0);
      receivedMask := new bool[f.nFragments](_ => false);
      createdAt := created;
      new;
      assert buffer[..] == Zeros(f.payloadSize);
      assert receivedMask[..] == seq(f.nFragments, _ => false);
    }

    /** `buffer[offset..end].copy_from_slice(data)`, never out of bounds. */
    method CopyFromSlice(offset: nat, data: Bytes)
      requires offset + |data| <= buffer.Length
      modifies buffer
      ensures buffer[..] == Write(old(buffer[..]), offset, data)
    {
      forall i | 0 <= i < |data| {
        buffer[offset + i] := data[i];
      }
      assert buffer[..] == Write(old(buffer[..]), offset, data);
    }

    /** Takes one fragment into this set; the message when it was the last one missing. */
    method Absorb(cfg: Config, f: Fragment) returns (message: Option<LcmMessage>)
      requires SetInvariant(cfg, View())
      modifies this, buffer, receivedMask
      ensures message == StepSet(old(View()), f).message
      ensures StepSet(old(View()), f).slot == if message.None? then Some(View()) else None
    {
      if f.fragmentNumber == 0 && f.channel.Some? {
        channel := f.channel.value;
      }
      ghost var stored := StoreChannel(old(View()), f);
      assert View() == stored;
      if f.payloadSize != payloadSize || f.nFragments != nFragments {
        return None;
      }
      if f.fragmentNumber >= receivedMask.Length {
        return None;
      }
      if receivedMask[f.fragmentNumber] {
        return None;
      }
      var end := f.fragmentOffset + |f.data|;
      if end > buffer.Length {
        return None;
      }
      CopyFromSlice(f.fragmentOffset, f.data);
      receivedMask[f.fragmentNumber] := true;
      fragmentsReceived := fragmentsReceived + 1;
      assert View() == Accept(stored, f);
      if fragmentsReceived == nFragments {
        message := Some(LcmMessage(channel, f.sequenceNumber, buffer[..]));
      } else {
        message := None;
      }
    }
  }

  class FragmentReassembler {
    var pending: map<Key, FragmentSet>
    const cfg: Config

    /** Every object ever allocated for a set, with the key it was allocated for. */
    ghost var owner: map<object, Key>

    /** Each key owns its set, buffer and mask, so no two keys share storage. */
    ghost predicate Separate()
      reads this
    {
      this !in owner && forall k :: k in pending ==> Owns(k, pending[k])
    }

    ghost predicate Owns(k: Key, s: FragmentSet)
      reads this
    {
      && s in owner && owner[s] == k
      && s.buffer in owner && owner[s.buffer] == k
      && s.receivedMask in owner && owner[s.receivedMask] == k
    }

    ghost predicate Valid()
      reads this, owner.Keys
    {
      Separate() && TableInvariant(cfg, View())
    }

    ghost function View(): Pending
      requires Separate()
      reads this, owner.Keys
    {
      map k | k in pending :: pending[k].View()
    }

    constructor (timeout: nat, maxMessageSize: nat)
      ensures Valid() && View() == map[] && cfg == Config(timeout, maxMessageSize)
      ensures owner == map[]
    {
      pending := map[];
      owner := map[];
      cfg := Config(timeout, maxMessageSize);
    }

    method ExpireStale(now: nat)
      requires Separate()
      modifies this
      ensures Separate() && View() == Sweep(cfg, old(View()), now)
      ensures owner == old(owner)
    {
      ghost var before := View();
      pending := map k | k in pending && SaturatingSub(now, pending[k].createdAt) <= cfg.timeout :: pending[k];
      assert View() == Sweep(cfg, before, now);
    }

    /** Notes that a new set and its storage belong to `key`. */
    ghost method Adopt(key: Key, s: FragmentSet)
      requires Separate() && s !in owner && s.buffer !in owner && s.receivedMask !in owner
      modifies this`owner
      ensures Separate() && Owns(key, s) && View() == old(View())
      ensures owner.Keys == old(owner.Keys) + {s, s.buffer, s.receivedMask}
    {
      owner := owner[s := key][s.buffer := key][s.receivedMask := key];
    }

    method Put(key: Key, s: FragmentSet)
      requires Separate() && Owns(key, s)
      modifies this`pending
      ensures Separate() && pending == old(pending)[key := s]
      ensures View() == old(View())[key := s.View()]
    {
      ghost var before := View();
      pending := pending[key := s];
      assert View() == before[key := s.View()];
    }

    /** The set for `key`, opened from `f` if there is none (`entry(key).or_insert_with`). */
    method Entry(key: Key, f: Fragment, created: nat) returns (s: FragmentSet)
      requires Separate()
      modifies this
      ensures Separate() && key in pending && pending[key] == s && s.View() == View()[key]
      ensures View() == if key in old(View()) then old(View()) else old(View())[key := OpenSet(f, created)]
      ensures fresh(owner.Keys - old(owner.Keys))
    {
      if key in pending {
        s := pending[key];
      } else {
        s := new FragmentSet.Open(f, created);
        Adopt(key, s);
        Put(key, s);
      }
    }

    method Remove(key: Key)
      requires Separate()
      modifies this
      ensures Separate() && owner == old(owner)
      ensures View() == old(View()) - {key}
    {
      ghost var before := View();
      pending := pending - {key};
      assert View() == before - {key};
    }

    /** Absorbs `f` into the set of `key`; no other set notices. */
    method AbsorbAt(key: Key, s: FragmentSet, f: Fragment) returns (message: Option<LcmMessage>)
      requires Separate() && key in pending && pending[key] == s && SetInvariant(cfg, s.View())
      modifies s, s.buffer, s.receivedMask
      ensures message == StepSet(old(s.View()), f).message
      ensures StepSet(old(s.View()), f).slot == if message.None? then Some(s.View()) else None
      ensures View() == old(View())[key := s.View()]
    {
      ghost var before := View();
      message := s.Absorb(cfg, f);
      forall k | k in pending && k != key
        ensures pending[k].View() == before[k]
      {
        assert Owns(k, pending[k]) && Owns(key, s);
      }
      assert View() == before[key := s.View()];
    }

    /** Absorbs `f` into the set of `key`, and takes the set out of the table when that completes it. */
    method Update(key: Key, s: FragmentSet, f: Fragment) returns (message: Option<LcmMessage>)
      requires Separate() && key in pending && pending[key] == s && SetInvariant(cfg, s.View())
      modifies this, s, s.buffer, s.receivedMask
      ensures Separate() && owner == old(owner)
      ensures message == StepSet(old(s.View()), f).message
      ensures View() == Store(old(View()), key, StepSet(old(s.View()), f).slot)
    {
      message := AbsorbAt(key, s, f);
      if message.Some? {
        Remove(key);
      }
    }

    /** Opens the set of `key` if need be and absorbs `f` into it. */
    method Insert(key: Key, f: Fragment, created: nat) returns (message: Option<LcmMessage>)
      requires Separate() && TableInvariant(cfg, View()) && f.payloadSize <= cfg.maxMessageSize
      modifies this, owner.Keys
      ensures Separate() && fresh(owner.Keys - old(owner.Keys))
      ensures var out := StepSet(if key in old(View()) then old(View())[key] else OpenSet(f, created), f);
        View() == Store(old(View()), key, out.slot) && message == out.message
    {
      ghost var before := View();
      var s := Entry(key, f, created);
      assert SetInvariant(cfg, s.View()) by {
        OpenSetInvariant(cfg, f, created);
      }
      ghost var entered, out := s.View(), StepSet(s.View(), f);
      assert View() == before || View() == before[key := entered];
      message := Update(key, s, f);
      StoreOverwrites(before, key, entered, out.slot);
    }

    method Process(f: Fragment, sender: SocketAddr, now: nat, created: nat) returns (message: Option<LcmMessage>)
      requires Valid()
      modifies this, owner.Keys
      ensures Valid() && fresh(owner.Keys - old(owner.Keys))
      ensures Step(View(), message) == Reassembly.Process(cfg, old(View()), f, sender, now, created)
    {
      ProcessInvariant(cfg, View(), f, sender, now, created);
      ExpireStale(now);
      if f.payloadSize > cfg.maxMessageSize {
        return None;
      }
      message := Insert(Key(sender, f.sequenceNumber), f, created);
    }
  }
}
