/** The Guardian as the firmware runs it: static arrays and rings updated in place. */
module GuardianNode {
  import opened Bytes
  import opened Bits
  import opened Rings
  import opened History
  import opened Frames
  import opened Reassembly
  import opened Pills
  import MembraneTables
  import opened Stomachs
  import opened Guardians

  class Node {
    const slots: array<RxSlot>
    const seen: DigestRing
    const cache: DigestRing
    const membrane: MembraneTables.Membrane
    const crypto: Crypto
    const issuer: B16
    const key: seq<byte>

    ghost predicate Valid()
      reads this, slots, seen, seen.entries, cache, cache.entries, membrane, membrane.devices, membrane.templates
    {
      && seen != cache && seen.entries != cache.entries
      && seen.Valid() && seen.entries.Length == SEEN_CAP
      && cache.Valid() && cache.entries.Length == CACHE_CAP
      && slots.Length == SLOTS && PoolOk(slots[..])
      && membrane.Valid()
    }

    ghost function Abs(): (g: Guardian)
      requires Valid()
      reads this, slots, seen, seen.entries, cache, cache.entries, membrane, membrane.devices, membrane.templates
      ensures GuardianOk(g)
    {
      Guardian(slots[..], seen.Window(), cache.Window())
    }

    ghost function Config(): Setup
      requires Valid()
      reads this, slots, seen, seen.entries, cache, cache.entries, membrane, membrane.devices, membrane.templates
    {
      Setup(crypto, membrane.Abs(), issuer, key)
    }

    constructor (membrane: MembraneTables.Membrane, crypto: Crypto, issuer: B16, key: seq<byte>)
      requires membrane.Valid()
      ensures Valid() && Abs() == Boot() && Config() == Setup(crypto, membrane.Abs(), issuer, key)
      ensures fresh(slots) && fresh(seen) && fresh(cache) && fresh(seen.entries) && fresh(cache.entries)
      ensures this.membrane == membrane
    {
      slots := new RxSlot[SLOTS](_ => EMPTY);
      seen := new DigestRing(SEEN_CAP);
      cache := new DigestRing(CACHE_CAP);
      this.membrane := membrane;
      this.crypto := crypto;
      this.issuer := issuer;
      this.key := key;
      new;
      assert slots[..] == Boot().slots;
    }

    /** The slot scan: an id's own slot, else the first free one, else slot 0, cleared and claimed. */
    method RxSlotFor(id: Id) returns (i: nat)
      requires slots.Length == SLOTS && PoolOk(slots[..])
      modifies slots
      ensures i == SlotFor(old(slots[..]), id) && i < slots.Length
      ensures slots[..] == old(slots[..])[i := Claimed(old(slots[..])[i], id)]
    {
      ghost var was := slots[..];
      ghost var mine, free := First(was, (s: RxSlot) => Holds(s, id)), First(was, (s: RxSlot) => !s.inUse);
      var freeIndex := 0;
      var hasFree := false;
      for k := 0 to SLOTS
        invariant slots[..] == was && k <= mine
        invariant if hasFree then freeIndex == free < k else k <= free && freeIndex == 0
      {
        assert was[k] == slots[k];
        if slots[k].inUse && slots[k].id == id {
          assert slots[..] == was[k := was[k]];
          return k;
        }
        if !slots[k].inUse && !hasFree {
          freeIndex := k;
          hasFree := true;
        }
      }
      i := if hasFree then freeIndex else 0;
      assert was[i] == slots[i];
      slots[i] := EMPTY.(inUse := true, id := id);
    }

    /** The part of `handle_received_fragment` that works on the slot. */
    method AcceptFragment(f: Frame) returns (e: PoolEvent)
      requires slots.Length == SLOTS && PoolOk(slots[..]) && InBounds(f)
      modifies slots
      ensures PoolOk(slots[..]) && (slots[..], e) == Accept(old(slots[..]), f)
    {
      ghost var was := slots[..];
      AcceptKeepsPoolOk(was, f);
      var i := RxSlotFor(f.id);
      ghost var claimed := slots[i];
      if slots[i].totalLen == 0 {
        slots[i] := slots[i].(totalLen := f.totalLen, fragCount := f.count);
      }
      if slots[i].totalLen != f.totalLen || slots[i].fragCount != f.count {
        slots[i] := EMPTY;
        e := Mismatch;
      } else if HasBit(slots[i].mask, f.index) {
        e := Duplicate;
      } else {
        slots[i] := slots[i].(bytes := PackInto(slots[i].bytes, f.offset, f.payload));
        slots[i] := slots[i].(mask := SetBit(slots[i].mask, f.index));
        if slots[i].mask == Pow2(f.count) - 1 {
          var complete := slots[i].bytes[..slots[i].totalLen];
          slots[i] := EMPTY;
          e := Complete(complete);
        } else {
          e := Stored;
        }
      }
      assert (slots[i], e) == AcceptInto(claimed, f);
      assert slots[..] == was[i := slots[i]];
    }

    /** `process_action_pill` */
    method ProcessPill(pill: Pill, env: Env) returns (capsuleSeen: bool, publish: Option<Publish>, r: Result<()>)
      requires Valid()
      modifies cache, cache.entries
      ensures Valid() && Config() == old(Config())
      ensures Abs().slots == old(Abs()).slots && Abs().seen == old(Abs()).seen
      ensures (capsuleSeen, Abs().cache) == Admit(old(Abs()).cache, InnerId(crypto, pill), CACHE_CAP)
      ensures (publish, r) == if capsuleSeen then (None, Ok(())) else Process(Config(), pill, env)
    {
      hide Authorize, Digest, Publication, InnerId, Admit, PoolOk;
      publish := None;
      capsuleSeen := cache.SeenOrAdd(InnerId(crypto, pill));
      if capsuleSeen {
        return true, None, Ok(());
      }
      r := Authorize(crypto, pill, env.nowMs, issuer, key);
      if r.Err? {
        return;
      }
      var digested;
      r, digested := DigestActive(crypto, pill.active, membrane.devices[..membrane.deviceCount]);
      if r.Err? {
        return;
      }
      var p := PublishDigested(membrane, digested);
      if p.Err? {
        return false, None, Err(p.error);
      }
      return false, Some(p.value), env.broker;
    }

    /** `on_action_pill_received`: relay, then the local pipeline. */
    method OnActionPill(pill: Pill, env: Env) returns (o: Outcome)
      requires Valid()
      modifies seen, seen.entries, cache, cache.entries
      ensures Valid() && Config() == old(Config())
      ensures (Abs(), o) == OnPill(old(Config()), old(Abs()), pill, env)
    {
      hide Process, Fragments, PillBytes, InnerId, Admit, Push, PoolOk;
      var id := InnerId(crypto, pill);
      var sent, relay := SendFragments(PillBytes(pill), id, env.accepted, env.refusal);
      if relay.Ok? {
        seen.Add(id);
      }
      var capsuleSeen, publish, local := ProcessPill(pill, env);
      var result := if local == Err(NotFound) then relay else local;
      return Dispatched(pill, id, sent, relay.Ok?, capsuleSeen, publish, result);
    }

    /** `handle_received_action_pill_bytes` */
    method OnMessageBytes(message: seq<byte>, id: Id, env: Env) returns (o: Outcome)
      requires Valid()
      modifies seen, seen.entries, cache, cache.entries
      ensures Valid() && Config() == old(Config())
      ensures (Abs(), o) == OnMessage(old(Config()), old(Abs()), message, id, env)
    {
      hide OnPill, ReadPill, InnerId, Push, PoolOk;
      if |message| != PILL_LEN {
        return Refused(InvalidSize);
      }
      var pill := ReadPill(message);
      if InnerId(crypto, pill) != id {
        return Refused(InvalidCrc);
      }
      var known := seen.SeenOrAdd(id);
      if known {
        return Refused(InvalidState);
      }
      o := OnActionPill(pill, env);
    }

    /** `handle_received_fragment` */
    method OnFragment(bytes: seq<byte>, env: Env) returns (o: Outcome)
      requires Valid()
      modifies slots, seen, seen.entries, cache, cache.entries
      ensures Valid() && Config() == old(Config())
      ensures (Abs(), o) == Receive(old(Config()), old(Abs()), bytes, env)
    {
      hide Decode, Accept, OnPoolEvent, PoolOk, InBounds;
      var decoded := Decode(bytes);
      if decoded.Err? {
        return Rejected(decoded.error);
      }
      DecodedInBounds(bytes);
      var f := decoded.value;
      var known := seen.Contains(f.id);
      if known {
        return Rejected(InvalidState);
      }
      var e := AcceptFragment(f);
      o := AfterPool(e, f.id, env);
    }

    method AfterPool(e: PoolEvent, id: Id, env: Env) returns (o: Outcome)
      requires Valid()
      modifies seen, seen.entries, cache, cache.entries
      ensures Valid() && Config() == old(Config())
      ensures (Abs(), o) == OnPoolEvent(old(Config()), old(Abs()), e, id, env)
    {
      hide OnMessage, PoolOk;
      match e
      case Mismatch => return Rejected(InvalidState);
      case Duplicate => return Rejected(InvalidState);
      case Stored => return Buffered;
      case Complete(message) => o := OnMessageBytes(message, id, env);
    }
  }
}
