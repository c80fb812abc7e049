/**
 * Bounded slot tables, the shape shared by the flow table, the quarantine, the policy rules and the
 * rate buckets: an array of in-use flags and entries, scanned linearly.
 */
module Slots {
  import opened Bytes

  datatype Slot<T> = Free | Used(entry: T)

  /** The first slot in use that satisfies p, or |slots|. */
  function FirstUsed<T>(slots: seq<Slot<T>>, p: T -> bool): (i: nat)
    ensures i <= |slots| && (i < |slots| ==> slots[i].Used? && p(slots[i].entry))
    ensures forall k :: 0 <= k < i && slots[k].Used? ==> !p(slots[k].entry)
  {
    if slots == [] || (slots[0].Used? && p(slots[0].entry)) then 0 else 1 + FirstUsed(slots[1..], p)
  }

  function FirstFree<T>(slots: seq<Slot<T>>): (i: nat)
    ensures i <= |slots| && (i < |slots| ==> slots[i].Free?)
    ensures forall k :: 0 <= k < i ==> slots[k].Used?
  {
    if slots == [] || slots[0].Free? then 0 else 1 + FirstFree(slots[1..])
  }

  /** Slot i carries a smallest stamp, and a strictly smaller one than every slot before it. */
  ghost predicate IsOldest<T>(slots: seq<Slot<T>>, stamp: T -> u32, i: nat) {
    && i < |slots| && slots[i].Used? && stamp(slots[i].entry) < UINT32_MAX
    && (forall k :: 0 <= k < |slots| && slots[k].Used? ==> stamp(slots[i].entry) <= stamp(slots[k].entry))
    && (forall k :: 0 <= k < i && slots[k].Used? ==> stamp(slots[i].entry) < stamp(slots[k].entry))
  }

  /** The least recently used slot; |slots| when no stamp is below UINT32_MAX. */
  ghost function Oldest<T>(slots: seq<Slot<T>>, stamp: T -> u32): (i: nat)
    ensures i == |slots| || IsOldest(slots, stamp, i)
    ensures i == |slots| ==> forall k :: 0 <= k < |slots| && slots[k].Used? ==> stamp(slots[k].entry) == UINT32_MAX
  {
    if slots == [] then 0
    else
      var n := |slots| - 1;
      var i := Oldest(slots[..n], stamp);
      var best := if i < n then stamp(slots[i].entry) else UINT32_MAX;
      if slots[n].Used? && stamp(slots[n].entry) < best then n else if i < n then i else n + 1
  }

  function Expired<T>(slots: seq<Slot<T>>, dead: T -> bool): (r: seq<Slot<T>>)
    ensures |r| == |slots|
    ensures forall k :: 0 <= k < |slots| ==> r[k] == if slots[k].Used? && dead(slots[k].entry) then Free else slots[k]
  {
    seq(|slots|, k requires 0 <= k < |slots| => if slots[k].Used? && dead(slots[k].entry) then Free else slots[k])
  }

  function UsedCount<T>(slots: seq<Slot<T>>): (n: nat)
    ensures n <= |slots|
  {
    if slots == [] then 0 else (if slots[0].Used? then 1 else 0) + UsedCount(slots[1..])
  }

  lemma {:induction false} UsedCountUpdate<T>(slots: seq<Slot<T>>, i: nat, s: Slot<T>)
    requires i < |slots|
    ensures UsedCount(slots[i := s]) == UsedCount(slots) - (if slots[i].Used? then 1 else 0)
            + (if s.Used? then 1 else 0)
  {
    if i > 0 {
      assert slots[i := s][1..] == slots[1..][i - 1 := s];
      UsedCountUpdate(slots[1..], i - 1, s);
    } else {
      assert slots[0 := s][1..] == slots[1..];
    }
  }

  lemma {:induction false} UsedCountAllFree<T>(slots: seq<Slot<T>>)
    requires forall k :: 0 <= k < |slots| ==> slots[k].Free?
    ensures UsedCount(slots) == 0
  {
    if slots != [] {
      UsedCountAllFree(slots[1..]);
    }
  }

  lemma {:induction false} ExpiredCount<T>(slots: seq<Slot<T>>, dead: T -> bool)
    ensures UsedCount(Expired(slots, dead)) <= UsedCount(slots)
  {
    if slots != [] {
      ExpiredCount(slots[1..], dead);
      assert Expired(slots, dead)[1..] == Expired(slots[1..], dead);
    }
  }

  // ---- A slot table as a finite map ----

  /** At most one slot per key. */
  ghost predicate Unique<T, K>(slots: seq<Slot<T>>, key: T -> K) {
    forall i, j :: 0 <= i < j < |slots| && slots[i].Used? && slots[j].Used? ==>
        key(slots[i].entry) != key(slots[j].entry)
  }

  /** The slot of key k, or |slots|. */
  function IndexOf<T, K(==)>(slots: seq<Slot<T>>, key: T -> K, k: K): (i: nat)
    ensures i <= |slots| && (i < |slots| ==> slots[i].Used? && key(slots[i].entry) == k)
    ensures forall j :: 0 <= j < i && slots[j].Used? ==> key(slots[j].entry) != k
  {
    FirstUsed(slots, e => key(e) == k)
  }

  function Lookup<T, K(==)>(slots: seq<Slot<T>>, key: T -> K, k: K): Option<T> {
    var i := IndexOf(slots, key, k);
    if i < |slots| then Some(slots[i].entry) else None
  }

  lemma LookupIs<T, K>(slots: seq<Slot<T>>, key: T -> K, i: nat)
    requires Unique(slots, key) && i < |slots| && slots[i].Used?
    ensures Lookup(slots, key, key(slots[i].entry)) == Some(slots[i].entry)
    ensures IndexOf(slots, key, key(slots[i].entry)) == i
  {
    assert IndexOf(slots, key, key(slots[i].entry)) <= i;
  }

  lemma LookupNone<T, K>(slots: seq<Slot<T>>, key: T -> K, k: K)
    ensures Lookup(slots, key, k).None? <==> forall i :: 0 <= i < |slots| && slots[i].Used? ==> key(slots[i].entry) != k
  {
  }

  /** Writing an entry over its own slot or a free one sets that key and leaves every other key alone. */
  lemma LookupWrite<T, K(!new)>(slots: seq<Slot<T>>, key: T -> K, i: nat, e: T)
    requires Unique(slots, key) && i < |slots|
    requires if slots[i].Used? then key(slots[i].entry) == key(e) else Lookup(slots, key, key(e)).None?
    ensures Unique(slots[i := Used(e)], key)
    ensures forall k :: Lookup(slots[i := Used(e)], key, k) == if k == key(e) then Some(e) else Lookup(slots, key, k)
  {
    var slots' := slots[i := Used(e)];
    LookupNone(slots, key, key(e));
    assert Unique(slots', key);
    LookupIs(slots', key, i);
    forall k | k != key(e) ensures Lookup(slots', key, k) == Lookup(slots, key, k) {
      LookupSame(slots, slots', key, k, i);
    }
  }

  /** Two tables that differ only in one slot, which never holds k, agree on k. */
  lemma LookupSame<T, K>(slots: seq<Slot<T>>, slots': seq<Slot<T>>, key: T -> K, k: K, i: nat)
    requires Unique(slots, key) && Unique(slots', key) && |slots| == |slots'| && i < |slots|
    requires forall j :: 0 <= j < |slots| && j != i ==> slots'[j] == slots[j]
    requires (slots[i].Used? ==> key(slots[i].entry) != k) && (slots'[i].Used? ==> key(slots'[i].entry) != k)
    ensures Lookup(slots', key, k) == Lookup(slots, key, k)
  {
    LookupNone(slots, key, k);
    LookupNone(slots', key, k);
    if j :| 0 <= j < |slots| && slots[j].Used? && key(slots[j].entry) == k {
      LookupIs(slots, key, j);
      LookupIs(slots', key, j);
    }
  }

  /** Clearing a slot removes exactly its key. */
  lemma LookupClear<T, K(!new)>(slots: seq<Slot<T>>, key: T -> K, i: nat)
    requires Unique(slots, key) && i < |slots| && slots[i].Used?
    ensures Unique(slots[i := Free], key)
    ensures forall k :: Lookup(slots[i := Free], key, k) == if k == key(slots[i].entry) then None
            else Lookup(slots, key, k)
  {
    var slots' := slots[i := Free];
    assert Unique(slots', key);
    LookupNone(slots', key, key(slots[i].entry));
    forall k | k != key(slots[i].entry) ensures Lookup(slots', key, k) == Lookup(slots, key, k) {
      LookupSame(slots, slots', key, k, i);
    }
  }

  /** Expiry removes exactly the keys whose entry is dead. */
  lemma LookupExpired<T, K>(slots: seq<Slot<T>>, key: T -> K, dead: T -> bool, k: K)
    requires Unique(slots, key)
    ensures Unique(Expired(slots, dead), key)
    ensures var was := Lookup(slots, key, k);
            Lookup(Expired(slots, dead), key, k) == if was.Some? && dead(was.value) then None else was
  {
    var slots' := Expired(slots, dead);
    assert Unique(slots', key);
    LookupNone(slots, key, k);
    LookupNone(slots', key, k);
    if j :| 0 <= j < |slots| && slots[j].Used? && key(slots[j].entry) == k {
      LookupIs(slots, key, j);
      if !dead(slots[j].entry) {
        LookupIs(slots', key, j);
      }
    }
  }

  /** The keys in use. */
  ghost function Keys<T, K>(slots: seq<Slot<T>>, key: T -> K): set<K> {
    set i | 0 <= i < |slots| && slots[i].Used? :: key(slots[i].entry)
  }

  lemma KeysStep<T, K>(slots: seq<Slot<T>>, key: T -> K)
    requires slots != []
    ensures Keys(slots, key) == Keys(slots[1..], key) + if slots[0].Used? then {key(slots[0].entry)} else {}
  {
    var rest := slots[1..];
    forall x | x in Keys(slots, key) && !(slots[0].Used? && key(slots[0].entry) == x) ensures x in Keys(rest, key) {
      var i :| 0 <= i < |slots| && slots[i].Used? && key(slots[i].entry) == x;
      assert rest[i - 1] == slots[i];
    }
    forall x | x in Keys(rest, key) ensures x in Keys(slots, key) {
      var i :| 0 <= i < |rest| && rest[i].Used? && key(rest[i].entry) == x;
      assert slots[i + 1] == rest[i];
    }
  }

  lemma FirstIsUnique<T, K>(slots: seq<Slot<T>>, key: T -> K)
    requires slots != [] && Unique(slots, key)
    ensures Unique(slots[1..], key) && (slots[0].Used? ==> key(slots[0].entry) !in Keys(slots[1..], key))
  {
  }

  lemma {:induction false} KeysCount<T, K>(slots: seq<Slot<T>>, key: T -> K)
    requires Unique(slots, key)
    ensures |Keys(slots, key)| == UsedCount(slots)
  {
    hide Keys, Unique;
    if slots == [] {
      NoKeys(slots, key);
    } else {
      FirstIsUnique(slots, key);
      KeysStep(slots, key);
      KeysCount(slots[1..], key);
    }
  }

  lemma NoKeys<T, K>(slots: seq<Slot<T>>, key: T -> K)
    requires slots == []
    ensures Keys(slots, key) == {}
  {
  }

  lemma KeyIffFound<T, K>(slots: seq<Slot<T>>, key: T -> K, k: K)
    ensures k in Keys(slots, key) <==> Lookup(slots, key, k).Some?
  {
    LookupNone(slots, key, k);
    if Lookup(slots, key, k).Some? {
      assert slots[IndexOf(slots, key, k)].Used?;
    }
  }

  // ---- The best match ----

  /** A matching entry of maximal priority; among equals the one in the highest slot. */
  ghost predicate IsBest<T>(slots: seq<Slot<T>>, p: T -> bool, priority: T -> u16, i: nat) {
    && i < |slots| && slots[i].Used? && p(slots[i].entry)
    && (forall k :: 0 <= k < |slots| && slots[k].Used? && p(slots[k].entry) ==>
        priority(slots[k].entry) <= priority(slots[i].entry))
    && (forall k :: i < k < |slots| && slots[k].Used? && p(slots[k].entry) ==>
        priority(slots[k].entry) < priority(slots[i].entry))
  }

  function Best<T>(slots: seq<Slot<T>>, p: T -> bool, priority: T -> u16): (i: nat)
    ensures i == |slots| || IsBest(slots, p, priority, i)
    ensures i == |slots| <==> forall k :: 0 <= k < |slots| && slots[k].Used? ==> !p(slots[k].entry)
  {
    if slots == [] then 0
    else
      var n := |slots| - 1;
      var i := Best(slots[..n], p, priority);
      if slots[n].Used? && p(slots[n].entry) && (i == n || priority(slots[n].entry) >= priority(slots[i].entry)) then n
      else if i < n then i else n + 1
  }

  lemma {:induction false} BestAgrees<T>(slots: seq<Slot<T>>, p: T -> bool, p': T -> bool, priority: T -> u16)
    requires forall k :: 0 <= k < |slots| && slots[k].Used? ==> p(slots[k].entry) == p'(slots[k].entry)
    ensures Best(slots, p, priority) == Best(slots, p', priority)
  {
    if slots != [] {
      BestAgrees(slots[..|slots| - 1], p, p', priority);
    }
  }

  /** Freeing slots that do not match leaves the choice as it was. */
  lemma {:induction false} BestIgnoresOthers<T>(slots: seq<Slot<T>>, slots': seq<Slot<T>>, p: T -> bool,
                                                priority: T -> u16)
    requires |slots| == |slots'|
    requires forall k :: 0 <= k < |slots| ==>
               slots'[k] == slots[k] || (slots[k].Used? && !p(slots[k].entry) && slots'[k].Free?)
    ensures Best(slots', p, priority) == Best(slots, p, priority)
  {
    if slots != [] {
      var n := |slots| - 1;
      BestIgnoresOthers(slots[..n], slots'[..n], p, priority);
    }
  }

  // ---- Where a new entry goes ----

  datatype Placement<T> = InFree(at: nat) | Evicting(at: nat, victim: T) | NoRoom

  /** A free slot, else the least recently used one when eviction is on. */
  ghost function PlaceFor<T>(slots: seq<Slot<T>>, stamp: T -> u32, evict: bool): (p: Placement<T>)
    ensures !p.NoRoom? ==> p.at < |slots|
    ensures p.InFree? ==> slots[p.at].Free?
    ensures p.Evicting? ==> slots[p.at] == Used(p.victim) && IsOldest(slots, stamp, p.at)
  {
    var f := FirstFree(slots);
    if f < |slots| then InFree(f)
    else
      var o := Oldest(slots, stamp);
      if !evict || o == |slots| then NoRoom else Evicting(o, slots[o].entry)
  }

  /** The key has a slot, or one can be found for it. */
  ghost predicate RoomFor<T, K>(slots: seq<Slot<T>>, key: T -> K, k: K, stamp: T -> u32, evict: bool) {
    || Lookup(slots, key, k).Some?
    || (exists i :: 0 <= i < |slots| && slots[i].Free?)
    || (evict && exists i :: 0 <= i < |slots| && Evictable(slots, stamp, i))
  }

  /** The scan starts from the largest stamp, so an entry with that very stamp is never chosen. */
  predicate Evictable<T>(slots: seq<Slot<T>>, stamp: T -> u32, i: nat) {
    i < |slots| && slots[i].Used? && stamp(slots[i].entry) < UINT32_MAX
  }

  lemma RoomIffPlaced<T, K>(slots: seq<Slot<T>>, key: T -> K, k: K, stamp: T -> u32, evict: bool)
    requires Lookup(slots, key, k).None?
    ensures RoomFor(slots, key, k, stamp, evict) <==> !PlaceFor(slots, stamp, evict).NoRoom?
  {
    var o := Oldest(slots, stamp);
    if o < |slots| {
      assert Evictable(slots, stamp, o);
    }
  }

  lemma {:induction false} FreeIffRoom<T>(slots: seq<Slot<T>>)
    ensures FirstFree(slots) == |slots| <==> UsedCount(slots) == |slots|
  {
    if slots != [] {
      FreeIffRoom(slots[1..]);
    }
  }

  /** Into a free slot, a new entry adds its key to the map and changes nothing else. */
  lemma PlaceInFree<T, K(!new)>(slots: seq<Slot<T>>, key: T -> K, at: nat, e: T)
    requires Unique(slots, key) && Lookup(slots, key, key(e)).None? && at < |slots| && slots[at].Free?
    ensures var slots' := slots[at := Used(e)];
            && Unique(slots', key) && UsedCount(slots') == UsedCount(slots) + 1
            && forall k :: Lookup(slots', key, k) == if k == key(e) then Some(e) else Lookup(slots, key, k)
  {
    LookupWrite(slots, key, at, e);
    UsedCountUpdate(slots, at, Used(e));
  }

  /** Over a victim, it adds its key and removes exactly the victim's. */
  lemma PlaceOverVictim<T, K(!new)>(slots: seq<Slot<T>>, key: T -> K, at: nat, e: T)
    requires Unique(slots, key) && Lookup(slots, key, key(e)).None? && at < |slots| && slots[at].Used?
    ensures var slots' := slots[at := Used(e)];
            var v := slots[at].entry;
            && Unique(slots', key) && UsedCount(slots') == UsedCount(slots) && Lookup(slots, key, key(v)) == Some(v)
            && forall k :: Lookup(slots', key, k) ==
                           if k == key(e) then Some(e) else if k == key(v) then None else Lookup(slots, key, k)
  {
    LookupIs(slots, key, at);
    LookupClear(slots, key, at);
    var cleared := slots[at := Free];
    LookupWrite(cleared, key, at, e);
    assert cleared[at := Used(e)] == slots[at := Used(e)];
    UsedCountUpdate(slots, at, Used(e));
  }

  /** The victim carries the smallest stamp of all live entries. */
  lemma VictimIsOldest<T, K>(slots: seq<Slot<T>>, key: T -> K, stamp: T -> u32, at: nat, k: K)
    requires IsOldest(slots, stamp, at) && Lookup(slots, key, k).Some?
    ensures stamp(slots[at].entry) <= stamp(Lookup(slots, key, k).value)
  {
  }

  // ---- The scans, in place ----

  method FindPlace<T>(a: array<Slot<T>>, stamp: T -> u32, evict: bool) returns (p: Placement<T>)
    ensures p == PlaceFor(a[..], stamp, evict)
  {
    var i := FindFree(a);
    if i < a.Length {
      return InFree(i);
    }
    if !evict {
      return NoRoom;
    }
    i := FindOldest(a, stamp);
    if i == a.Length {
      return NoRoom;
    }
    return Evicting(i, a[i].entry);
  }


  method FindKey<T, K(==)>(a: array<Slot<T>>, key: T -> K, k: K) returns (i: nat)
    ensures i == IndexOf(a[..], key, k)
  {
    i := 0;
    while i < a.Length
      invariant i <= a.Length && i <= IndexOf(a[..], key, k)
    {
      assert a[..][i] == a[i];
      if a[i].Used? && key(a[i].entry) == k {
        return;
      }
      i := i + 1;
    }
  }

  method FindFree<T>(a: array<Slot<T>>) returns (i: nat)
    ensures i == FirstFree(a[..])
  {
    i := 0;
    while i < a.Length
      invariant i <= a.Length && i <= FirstFree(a[..])
    {
      assert a[..][i] == a[i];
      if a[i].Free? {
        return;
      }
      i := i + 1;
    }
  }

  /** The scan keeps the smallest stamp seen so far, starting from UINT32_MAX. */
  method FindOldest<T>(a: array<Slot<T>>, stamp: T -> u32) returns (i: nat)
    ensures i == Oldest(a[..], stamp)
  {
    var oldest: u32 := UINT32_MAX;
    var found := false;
    i := 0;
    for n := 0 to a.Length
      invariant if found then i < n && a[i].Used? && oldest == stamp(a[i].entry) && i == Oldest(a[..n], stamp)
                else oldest == UINT32_MAX && Oldest(a[..n], stamp) == n
    {
      assert a[..n + 1][..n] == a[..n];
      if a[n].Used? && stamp(a[n].entry) < oldest {
        oldest := stamp(a[n].entry);
        i := n;
        found := true;
      }
    }
    assert a[..a.Length] == a[..];
    if !found {
      i := a.Length;
    }
  }

  /** One pass over the rules, replacing the best so far on an equal or higher priority. */
  method FindBest<T>(a: array<Slot<T>>, p: T -> bool, priority: T -> u16) returns (i: nat)
    ensures i == Best(a[..], p, priority)
  {
    var found := false;
    var best: u16 := 0;
    i := 0;
    for n := 0 to a.Length
      invariant if found then i < n && a[i].Used? && best == priority(a[i].entry) && i == Best(a[..n], p, priority)
                else Best(a[..n], p, priority) == n
    {
      assert a[..n + 1][..n] == a[..n];
      if a[n].Used? && p(a[n].entry) && (!found || priority(a[n].entry) >= best) {
        i := n;
        best := priority(a[n].entry);
        found := true;
      }
    }
    assert a[..a.Length] == a[..];
    if !found {
      i := a.Length;
    }
  }

  /** Clear every slot whose entry is dead, and count them. */
  method ExpireAll<T>(a: array<Slot<T>>, dead: T -> bool) returns (n: nat)
    modifies a
    ensures a[..] == Expired(old(a[..]), dead)
    ensures UsedCount(a[..]) + n == UsedCount(old(a[..]))
  {
    n := 0;
    ghost var was := a[..];
    for i := 0 to a.Length
      invariant forall k :: 0 <= k < i ==> a[k] == if was[k].Used? && dead(was[k].entry) then Free else was[k]
      invariant forall k :: i <= k < a.Length ==> a[k] == was[k]
      invariant UsedCount(a[..]) + n == UsedCount(was)
    {
      if a[i].Used? && dead(a[i].entry) {
        ghost var before := a[..];
        UsedCountUpdate(before, i, Free);
        a[i] := Free;
        assert a[..] == before[i := Free];
        n := n + 1;
      }
    }
    assert a[..] == Expired(was, dead);
  }
}
