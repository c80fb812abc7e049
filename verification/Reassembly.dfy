/** The four-slot pool in which received fragments are put back together. */
module Reassembly {
  import opened Bytes
  import opened Bits
  import opened Frames

  const SLOTS: nat := 4

  datatype RxSlot = RxSlot(inUse: bool, id: Id, totalLen: nat, fragCount: nat, mask: nat, bytes: seq<byte>)

  const EMPTY: RxSlot := RxSlot(false, Zeros(32), 0, 0, 0, Zeros(MESSAGE_MAX))

  predicate Holds(s: RxSlot, id: Id) { s.inUse && s.id == id }

  /** The slot for an id: the one it already has, else the first free one, else slot 0. */
  function SlotFor(slots: seq<RxSlot>, id: Id): (i: nat)
    requires |slots| > 0
    ensures i < |slots|
    ensures (exists k :: 0 <= k < |slots| && Holds(slots[k], id)) ==> Holds(slots[i], id)
    ensures Holds(slots[i], id) || (forall k :: 0 <= k < |slots| ==> slots[k].inUse) || !slots[i].inUse
  {
    var m := First(slots, (s: RxSlot) => Holds(s, id));
    if m < |slots| then m
    else
      var f := First(slots, (s: RxSlot) => !s.inUse);
      if f < |slots| then f else 0
  }

  function First(slots: seq<RxSlot>, p: RxSlot -> bool): (i: nat)
    ensures i <= |slots| && (i < |slots| ==> p(slots[i]))
    ensures forall k :: 0 <= k < i ==> !p(slots[k])
  {
    if slots == [] || p(slots[0]) then 0 else 1 + First(slots[1..], p)
  }

  datatype PoolEvent = Mismatch | Duplicate | Stored | Complete(message: seq<byte>)

  /** Put one fragment into the slot chosen for it. */
  function AcceptInto(slot: RxSlot, f: Frame): (r: (RxSlot, PoolEvent))
    requires InBounds(f) && |slot.bytes| == MESSAGE_MAX && slot.totalLen <= MESSAGE_MAX
  {
    var s := if slot.totalLen == 0 then slot.(totalLen := f.totalLen, fragCount := f.count) else slot;
    if s.totalLen != f.totalLen || s.fragCount != f.count then (EMPTY, Mismatch)
    else if HasBit(s.mask, f.index) then (s, Duplicate)
    else
      var s' := s.(bytes := PackInto(s.bytes, f.offset, f.payload), mask := SetBit(s.mask, f.index));
      if s'.mask == Pow2(f.count) - 1 then (EMPTY, Complete(s'.bytes[..s'.totalLen])) else (s', Stored)
  }

  /** The slot a fragment of `id` starts from: its own, or a freshly claimed one. */
  function Claimed(slot: RxSlot, id: Id): RxSlot {
    if Holds(slot, id) then slot else EMPTY.(inUse := true, id := id)
  }

  function Accept(slots: seq<RxSlot>, f: Frame): (r: (seq<RxSlot>, PoolEvent))
    requires PoolOk(slots) && InBounds(f)
    ensures |r.0| == |slots|
  {
    var i := SlotFor(slots, f.id);
    var (s, e) := AcceptInto(Claimed(slots[i], f.id), f);
    (slots[i := s], e)
  }

  predicate SlotOk(s: RxSlot) {
    && |s.bytes| == MESSAGE_MAX
    && (s.inUse ==> 0 < s.totalLen <= MESSAGE_MAX && 0 < s.fragCount <= MAX_COUNT
                    && 0 < s.mask < Pow2(s.fragCount) - 1)
    && (!s.inUse ==> s == EMPTY)
  }

  /** In-use slots carry distinct ids and a non-empty, incomplete mask; the others are zeroed. */
  predicate PoolOk(slots: seq<RxSlot>) {
    && |slots| == SLOTS
    && (forall i :: 0 <= i < |slots| ==> SlotOk(slots[i]))
    && (forall i, j :: 0 <= i < j < |slots| && slots[i].inUse && slots[j].inUse ==> slots[i].id != slots[j].id)
  }

  lemma AcceptIntoOk(slot: RxSlot, f: Frame)
    requires InBounds(f) && (slot == EMPTY.(inUse := true, id := f.id)
                             || (SlotOk(slot) && slot.inUse && slot.id == f.id))
    ensures SlotOk(AcceptInto(slot, f).0)
    ensures AcceptInto(slot, f).0.inUse ==> AcceptInto(slot, f).0.id == f.id
  {
    var s := if slot.totalLen == 0 then slot.(totalLen := f.totalLen, fragCount := f.count) else slot;
    if s.totalLen == f.totalLen && s.fragCount == f.count {
      if HasBit(s.mask, f.index) {
        NoHighBits(0, 0, f.index);
      } else {
        SetBitBound(s.mask, f.index, f.count);
      }
    }
  }

  /** Every received frame, whatever it carries, keeps the pool well formed. */
  lemma AcceptKeepsPoolOk(slots: seq<RxSlot>, f: Frame)
    requires PoolOk(slots) && InBounds(f)
    ensures PoolOk(Accept(slots, f).0)
  {
    var i := SlotFor(slots, f.id);
    AcceptIntoOk(Claimed(slots[i], f.id), f);
  }

  /**
   * A frame that contradicts what is held of its message about the length or the number of
   * fragments is refused, and everything held of that message is forgotten.
   */
  lemma MismatchForgets(slots: seq<RxSlot>, f: Frame, i: nat)
    requires PoolOk(slots) && InBounds(f) && i < |slots| && Holds(slots[i], f.id)
    requires slots[i].totalLen != f.totalLen || slots[i].fragCount != f.count
    ensures Accept(slots, f) == (slots[i := EMPTY], Mismatch)
  {
  }

  /** A frame already held is refused and changes nothing. */
  lemma DuplicateIsRefused(slots: seq<RxSlot>, f: Frame, i: nat)
    requires PoolOk(slots) && InBounds(f) && i < |slots| && Holds(slots[i], f.id)
    requires slots[i].totalLen == f.totalLen && slots[i].fragCount == f.count && HasBit(slots[i].mask, f.index)
    ensures Accept(slots, f) == (slots, Duplicate)
  {
    assert slots[i := slots[i]] == slots;
  }

  // ---- What the pool remembers about one message ----

  ghost function Received(mask: nat): set<nat> { set i: nat | i < MAX_COUNT && HasBit(mask, i) }

  ghost function AllIndices(n: nat): (s: set<nat>)
    ensures |s| == n && forall i: nat :: i in s <==> i < n
  {
    if n == 0 then {} else AllIndices(n - 1) + {n - 1}
  }

  /** The held fragments of `id` are fragments of `message`. */
  ghost predicate Consistent(s: RxSlot, message: seq<byte>)
    requires Sendable(message)
  {
    && s.totalLen == |message| && s.fragCount == FragCount(|message|) && |s.bytes| == MESSAGE_MAX
    && (forall i: nat :: i < s.fragCount && HasBit(s.mask, i) ==>
          s.bytes[i * PAYLOAD_MAX..FragEnd(|message|, i)] == message[i * PAYLOAD_MAX..FragEnd(|message|, i)])
  }

  lemma ReceivedWithin(mask: nat, n: nat)
    requires 0 < n <= MAX_COUNT && mask < Pow2(n)
    ensures Received(mask) <= AllIndices(n)
  {
    hide HasBit;
    forall i: nat | i in Received(mask) ensures i < n {
      if n <= i {
        NoHighBits(mask, n, i);
      }
    }
  }

  /** The mask is full exactly when every index has been received. */
  lemma ReceivedFull(mask: nat, n: nat)
    requires 0 < n <= MAX_COUNT && mask < Pow2(n)
    ensures mask == Pow2(n) - 1 <==> Received(mask) == AllIndices(n)
  {
    hide HasBit, AllIndices;
    if Received(mask) == AllIndices(n) {
      forall i: nat | i < n ensures HasBit(mask, i) {
        assert i in AllIndices(n);
      }
      AllBitsFull(mask, n);
    }
    if mask == Pow2(n) - 1 {
      ReceivedWithin(mask, n);
      forall i: nat | i < n ensures HasBit(mask, i) { FullMaskBits(n, i); }
    }
  }

  lemma ReceivedSet(mask: nat, i: nat)
    requires i < MAX_COUNT
    ensures Received(SetBit(mask, i)) == Received(mask) + {i}
  {
    forall j: nat ensures HasBit(SetBit(mask, i), j) <==> i == j || HasBit(mask, j) { SetBitBits(mask, i, j); }
  }

  /** Bytes that agree on every fragment agree on the whole message. */
  lemma CoveredMessage(bytes: seq<byte>, message: seq<byte>)
    requires Sendable(message) && |bytes| == MESSAGE_MAX
    requires forall i: nat :: i < FragCount(|message|) ==>
               bytes[i * PAYLOAD_MAX..FragEnd(|message|, i)] == message[i * PAYLOAD_MAX..FragEnd(|message|, i)]
    ensures bytes[..|message|] == message
  {
    forall k | 0 <= k < |message| ensures bytes[k] == message[k] {
      var i := k / PAYLOAD_MAX;
      assert i < FragCount(|message|);
      var a, b := i * PAYLOAD_MAX, FragEnd(|message|, i);
      assert bytes[k] == bytes[a..b][k - a] && message[k] == message[a..b][k - a];
    }
  }

  /** Storing fragment i leaves the other held fragments in place. */
  lemma PackKeepsFragments(slot: RxSlot, message: seq<byte>, i: nat, id: Id)
    requires Sendable(message) && i < FragCount(|message|) && |slot.bytes| == MESSAGE_MAX
    requires slot.mask == 0 || Consistent(slot, message)
    ensures var f := FragmentAt(message, id, i);
            Consistent(RxSlot(true, id, |message|, FragCount(|message|), SetBit(slot.mask, i),
                              PackInto(slot.bytes, f.offset, f.payload)), message)
  {
    var n := FragCount(|message|);
    var f := FragmentAt(message, id, i);
    var bytes' := PackInto(slot.bytes, f.offset, f.payload);
    forall j: nat | j < n && HasBit(SetBit(slot.mask, i), j)
      ensures bytes'[j * PAYLOAD_MAX..FragEnd(|message|, j)] == message[j * PAYLOAD_MAX..FragEnd(|message|, j)]
    {
      SetBitBits(slot.mask, i, j);
      NoHighBits(0, 0, j);
      var a, b := j * PAYLOAD_MAX, FragEnd(|message|, j);
      if j != i {
        assert b <= f.offset || f.offset + |f.payload| <= a;
        assert bytes'[a..b] == slot.bytes[a..b];
      } else {
        assert bytes'[a..b] == f.payload;
      }
    }
  }

  lemma FullSlotIsMessage(s: RxSlot, message: seq<byte>)
    requires Sendable(message) && Consistent(s, message) && s.mask == Pow2(s.fragCount) - 1
    ensures s.bytes[..s.totalLen] == message
  {
    forall j: nat | j < s.fragCount ensures HasBit(s.mask, j) { FullMaskBits(s.fragCount, j); }
    CoveredMessage(s.bytes, message);
  }

  /** One genuine fragment put into a slot of its own message. */
  lemma AcceptIntoStep(slot: RxSlot, message: seq<byte>, i: nat, id: Id)
    requires Sendable(message) && i < FragCount(|message|)
    requires slot == EMPTY.(inUse := true, id := id)
             || (SlotOk(slot) && Holds(slot, id) && Consistent(slot, message))
    ensures var (s, e) := AcceptInto(slot, FragmentAt(message, id, i));
            var got := Received(slot.mask);
            && e == Expected(got, i, message)
            && (e == Duplicate ==> s == slot)
            && (e == Complete(message) ==> s == EMPTY)
            && (e == Stored ==> Holds(s, id) && Consistent(s, message) && Received(s.mask) == got + {i})
  {
    var n := FragCount(|message|);
    var f := FragmentAt(message, id, i);
    NoHighBits(0, 0, i);
    if !HasBit(slot.mask, i) {
      ReceivedSet(slot.mask, i);
      SetBitBound(slot.mask, i, n);
      ReceivedFull(SetBit(slot.mask, i), n);
      PackKeepsFragments(slot, message, i, id);
      var s := RxSlot(true, id, |message|, n, SetBit(slot.mask, i), PackInto(slot.bytes, f.offset, f.payload));
      if s.mask == Pow2(n) - 1 {
        FullSlotIsMessage(s, message);
      }
    }
  }

  lemma EmptyMask()
    ensures Received(0) == {}
  {
    forall i: nat ensures !HasBit(0, i) { NoHighBits(0, 0, i); }
  }

  /** The index set after a fragment: complete sets are handed up and start again. */
  ghost function Progressed(got: set<nat>, i: nat, n: nat): set<nat> {
    if i in got then got else if got + {i} == AllIndices(n) then {} else got + {i}
  }

  ghost function Expected(got: set<nat>, i: nat, message: seq<byte>): PoolEvent {
    if i in got then Duplicate
    else if got + {i} == AllIndices(FragCount(|message|)) then Complete(message)
    else Stored
  }

  // ---- A table with a slot for every id ----

  predicate AllInBounds(frames: seq<Frame>) { forall k :: 0 <= k < |frames| ==> InBounds(frames[k]) }

  /** What an id's own slot would hold if every id had one: only its own frames play a part. */
  function Private(frames: seq<Frame>, id: Id): (s: RxSlot)
    requires AllInBounds(frames)
    ensures SlotOk(s) && (s.inUse ==> s.id == id)
  {
    if frames == [] then EMPTY
    else
      var before, f := frames[..|frames| - 1], frames[|frames| - 1];
      var s := Private(before, id);
      if f.id != id then s
      else
        AcceptIntoOk(Claimed(s, id), f);
        AcceptInto(Claimed(s, id), f).0
  }

  /** The answer to a frame after others, if every id had its own slot. */
  function PrivateEvent(frames: seq<Frame>, f: Frame): PoolEvent
    requires AllInBounds(frames) && InBounds(f)
  {
    AcceptInto(Claimed(Private(frames, f.id), f.id), f).1
  }

  /** The ids that have something stored. */
  ghost function Busy(frames: seq<Frame>): set<Id>
    requires AllInBounds(frames)
  {
    set k | 0 <= k < |frames| && Private(frames, frames[k].id).inUse :: frames[k].id
  }

  /** No frame finds four other ids busy. */
  ghost predicate AtMostFour(frames: seq<Frame>)
    requires AllInBounds(frames)
  {
    forall k :: 0 <= k < |frames| ==> |Busy(frames[..k]) + {frames[k].id}| <= SLOTS
  }

  function RunPool(frames: seq<Frame>): (r: (seq<RxSlot>, seq<PoolEvent>))
    requires AllInBounds(frames)
    ensures PoolOk(r.0) && |r.1| == |frames|
  {
    if frames == [] then (seq(SLOTS, _ => EMPTY), [])
    else
      var (slots, events) := RunPool(frames[..|frames| - 1]);
      var f := frames[|frames| - 1];
      AcceptKeepsPoolOk(slots, f);
      var (slots', e) := Accept(slots, f);
      (slots', events + [e])
  }

  // ---- The pool refines that table ----

  /** The slot of an id in the pool, or an empty one. */
  function SlotOf(slots: seq<RxSlot>, id: Id): RxSlot
    requires |slots| > 0
  {
    var s := slots[SlotFor(slots, id)];
    if Holds(s, id) then s else EMPTY
  }

  lemma SlotOfHolder(slots: seq<RxSlot>, k: nat)
    requires PoolOk(slots) && k < |slots| && slots[k].inUse
    ensures SlotOf(slots, slots[k].id) == slots[k]
  {
    assert Holds(slots[k], slots[k].id);
  }

  lemma SlotOfNobody(slots: seq<RxSlot>, id: Id)
    requires |slots| > 0 && forall k :: 0 <= k < |slots| ==> !Holds(slots[k], id)
    ensures SlotOf(slots, id) == EMPTY
  {
  }

  /** Writing an id's slot, or a free one, for that id leaves the slots of the others. */
  lemma OthersKept(slots: seq<RxSlot>, i: nat, s: RxSlot, id: Id, other: Id)
    requires i < |slots| && PoolOk(slots) && PoolOk(slots[i := s]) && other != id
    requires (slots[i].inUse ==> slots[i].id == id) && (s.inUse ==> s.id == id)
    ensures SlotOf(slots[i := s], other) == SlotOf(slots, other)
  {
    var slots' := slots[i := s];
    var k := SlotFor(slots, other);
    if Holds(slots[k], other) {
      assert slots'[k] == slots[k];
      SlotOfHolder(slots', k);
    } else {
      forall j | 0 <= j < |slots| ensures !Holds(slots'[j], other) {
        assert !Holds(slots[j], other);
      }
      SlotOfNobody(slots', other);
    }
  }

  /** A frame whose id has a slot, or finds a free one, does to its own slot what it would do alone. */
  lemma AcceptIsPrivate(slots: seq<RxSlot>, f: Frame)
    requires PoolOk(slots) && InBounds(f)
    requires SlotOf(slots, f.id).inUse || exists k :: 0 <= k < |slots| && !slots[k].inUse
    ensures var (slots', e) := Accept(slots, f);
            && PoolOk(slots') && (SlotOf(slots', f.id), e) == AcceptInto(Claimed(SlotOf(slots, f.id), f.id), f)
            && forall other :: other != f.id ==> SlotOf(slots', other) == SlotOf(slots, other)
  {
    hide AcceptInto;
    var i := SlotFor(slots, f.id);
    AcceptKeepsPoolOk(slots, f);
    AcceptIntoOk(Claimed(slots[i], f.id), f);
    var s := AcceptInto(Claimed(slots[i], f.id), f).0;
    var slots' := slots[i := s];
    assert Claimed(SlotOf(slots, f.id), f.id) == Claimed(slots[i], f.id);
    if s.inUse {
      SlotOfHolder(slots', i);
    } else {
      forall j | 0 <= j < |slots'| ensures !Holds(slots'[j], f.id) {
      }
      SlotOfNobody(slots', f.id);
    }
    forall other | other != f.id ensures SlotOf(slots', other) == SlotOf(slots, other) {
      OthersKept(slots, i, s, f.id, other);
    }
  }

  lemma FiveDistinct(slots: seq<RxSlot>, id: Id, s: set<Id>)
    requires PoolOk(slots) && forall k :: 0 <= k < |slots| ==> slots[k].inUse && slots[k].id in s && slots[k].id != id
    requires id in s
    ensures |s| > SLOTS
  {
    var five := {slots[0].id, slots[1].id, slots[2].id, slots[3].id, id};
    assert |five| == 5;
    assert five <= s;
    SubsetCard(five, s);
  }

  /** The pool holds for every id what its private slot holds. */
  ghost predicate Refines(slots: seq<RxSlot>, frames: seq<Frame>)
    requires AllInBounds(frames)
  {
    PoolOk(slots) && forall id :: SlotOf(slots, id) == Private(frames, id)
  }

  lemma BusyIfInUse(frames: seq<Frame>, id: Id)
    requires AllInBounds(frames) && Private(frames, id).inUse
    ensures id in Busy(frames)
  {
    HeardOf(frames, id);
    var k :| 0 <= k < |frames| && frames[k].id == id;
    assert frames[k].id in Busy(frames);
  }

  lemma {:induction false} HeardOf(frames: seq<Frame>, id: Id)
    requires AllInBounds(frames) && Private(frames, id).inUse
    ensures exists k :: 0 <= k < |frames| && frames[k].id == id
  {
    var n := |frames| - 1;
    if frames[n].id != id {
      HeardOf(frames[..n], id);
      var k :| 0 <= k < n && frames[..n][k].id == id;
      assert frames[k].id == id;
    }
  }

  /** With at most three other ids busy, the next frame has a slot or finds a free one. */
  lemma RoomForNext(slots: seq<RxSlot>, frames: seq<Frame>, id: Id)
    requires AllInBounds(frames) && Refines(slots, frames) && |Busy(frames) + {id}| <= SLOTS
    ensures SlotOf(slots, id).inUse || exists k :: 0 <= k < |slots| && !slots[k].inUse
  {
    hide Busy, Private, SlotOf;
    if forall k :: 0 <= k < |slots| ==> slots[k].inUse {
      forall k | 0 <= k < |slots| ensures slots[k].id in Busy(frames) && SlotOf(slots, slots[k].id).inUse {
        SlotOfHolder(slots, k);
        BusyIfInUse(frames, slots[k].id);
      }
      if forall k :: 0 <= k < |slots| ==> slots[k].id != id {
        FiveDistinct(slots, id, Busy(frames) + {id});
      }
    }
  }

  lemma PrefixFits(frames: seq<Frame>, n: nat)
    requires AllInBounds(frames) && AtMostFour(frames) && n < |frames|
    ensures AtMostFour(frames[..n]) && |Busy(frames[..n]) + {frames[n].id}| <= SLOTS
  {
    hide Busy;
    assert forall k :: 0 <= k < n ==> frames[..n][..k] == frames[..k];
  }

  ghost predicate EventsPrivate(frames: seq<Frame>, events: seq<PoolEvent>)
    requires AllInBounds(frames)
  {
    |events| == |frames| && forall k :: 0 <= k < |frames| ==> events[k] == PrivateEvent(frames[..k], frames[k])
  }

  lemma EventsAppend(frames: seq<Frame>, events: seq<PoolEvent>, e: PoolEvent, n: nat)
    requires AllInBounds(frames) && n + 1 == |frames| && EventsPrivate(frames[..n], events)
    requires e == PrivateEvent(frames[..n], frames[n])
    ensures EventsPrivate(frames, events + [e])
  {
    hide PrivateEvent;
    assert forall k :: 0 <= k < n ==> frames[..n][..k] == frames[..k];
  }

  lemma RefinesStep(slots: seq<RxSlot>, frames: seq<Frame>, n: nat)
    requires AllInBounds(frames) && n + 1 == |frames| && Refines(slots, frames[..n])
    requires |Busy(frames[..n]) + {frames[n].id}| <= SLOTS
    ensures Refines(Accept(slots, frames[n]).0, frames)
    ensures Accept(slots, frames[n]).1 == PrivateEvent(frames[..n], frames[n])
  {
    hide Busy, AcceptInto, Accept, SlotOf;
    RoomForNext(slots, frames[..n], frames[n].id);
    AcceptIsPrivate(slots, frames[n]);
  }

  /**
   * The four-slot pool behaves like a table with a slot for every id: for any in-bounds frames,
   * whatever they carry, as long as no frame finds four other ids busy.
   */
  lemma {:induction false} PoolRefinesPrivate(frames: seq<Frame>)
    requires AllInBounds(frames) && AtMostFour(frames)
    ensures Refines(RunPool(frames).0, frames) && EventsPrivate(frames, RunPool(frames).1)
  {
    hide Busy, AcceptInto, Accept, PrivateEvent, SlotOf, AtMostFour;
    if frames == [] {
      EmptyPoolRefines();
    } else {
      var n := |frames| - 1;
      PrefixFits(frames, n);
      PoolRefinesPrivate(frames[..n]);
      var (slots, events) := RunPool(frames[..n]);
      RefinesStep(slots, frames, n);
      EventsAppend(frames, events, Accept(slots, frames[n]).1, n);
    }
  }

  lemma EmptyPoolRefines()
    ensures Refines(RunPool([]).0, []) && EventsPrivate([], RunPool([]).1)
  {
  }

  // ---- One message among arbitrary traffic ----

  /** Every frame of this id is a fragment of this message. */
  predicate GenuineFor(frames: seq<Frame>, id: Id, message: seq<byte>)
    requires Sendable(message)
  {
    forall k :: 0 <= k < |frames| && frames[k].id == id ==> IsFragment(frames[k], message)
  }

  predicate IsFragment(f: Frame, message: seq<byte>)
    requires Sendable(message)
  {
    f.index < FragCount(|message|) && f == FragmentAt(message, f.id, f.index)
  }

  /** The indices of `id` that arrived since it was last complete; other ids play no part. */
  ghost function Progress(frames: seq<Frame>, id: Id, n: nat): set<nat> {
    if frames == [] then {}
    else
      var before, f := frames[..|frames| - 1], frames[|frames| - 1];
      var got := Progress(before, id, n);
      if f.id == id then Progressed(got, f.index, n) else got
  }

  /** The private slot of a genuine message holds exactly the fragments of its progress. */
  lemma {:induction false} PrivateIsProgress(frames: seq<Frame>, id: Id, message: seq<byte>)
    requires AllInBounds(frames) && Sendable(message) && GenuineFor(frames, id, message)
    ensures var s, got := Private(frames, id), Progress(frames, id, FragCount(|message|));
            && Received(s.mask) == got && (s.inUse ==> Consistent(s, message)) && (!s.inUse ==> got == {})
  {
    hide AcceptInto, Received, Consistent;
    EmptyMask();
    if frames != [] {
      var n := |frames| - 1;
      var before, f := frames[..n], frames[n];
      PrivateIsProgress(before, id, message);
      if f.id == id {
        assert IsFragment(f, message);
        AcceptIntoStep(Claimed(Private(before, id), id), message, f.index, id);
      }
    }
  }

  lemma EventIsExpected(frames: seq<Frame>, f: Frame, message: seq<byte>)
    requires AllInBounds(frames) && InBounds(f) && Sendable(message)
    requires GenuineFor(frames, f.id, message) && IsFragment(f, message)
    ensures PrivateEvent(frames, f) == Expected(Progress(frames, f.id, FragCount(|message|)), f.index, message)
  {
    hide AcceptInto, Received, Consistent, Progress, Private;
    EmptyMask();
    PrivateIsProgress(frames, f.id, message);
    AcceptIntoStep(Claimed(Private(frames, f.id), f.id), message, f.index, f.id);
  }

  /**
   * Reassembly over whole deliveries. Frames arrive in any order, with duplicates, interleaved with
   * arbitrary in-bounds frames of other ids, none finding four other ids busy. Then each frame of a
   * genuine message is answered by that message's own arrivals alone: the original bytes are handed
   * up precisely with its last missing fragment.
   */
  lemma ReassemblyIsExact(frames: seq<Frame>, id: Id, message: seq<byte>, k: nat)
    requires AllInBounds(frames) && AtMostFour(frames) && Sendable(message) && GenuineFor(frames, id, message)
    requires k < |frames| && frames[k].id == id
    ensures RunPool(frames).1[k] == Expected(Progress(frames[..k], id, FragCount(|message|)), frames[k].index, message)
  {
    hide RunPool, PrivateEvent, AtMostFour, Progress, Expected;
    PoolRefinesPrivate(frames);
    assert IsFragment(frames[k], message);
    EventIsExpected(frames[..k], frames[k], message);
  }

  // ---- Permutations ----

  ghost function IndicesOf(frames: seq<Frame>, id: Id): set<nat> {
    set k | 0 <= k < |frames| && frames[k].id == id :: frames[k].index
  }

  /** Each fragment of `id` arrives at most once up to position `last`, and `last` is one of them. */
  ghost predicate OnePass(frames: seq<Frame>, id: Id, last: nat) {
    && last < |frames| && frames[last].id == id
    && forall j, k :: 0 <= j < k <= last && frames[j].id == id && frames[k].id == id
                      ==> frames[j].index != frames[k].index
  }

  lemma IndicesOfPrefix(frames: seq<Frame>, id: Id, k: nat)
    requires k < |frames|
    ensures IndicesOf(frames[..k + 1], id) ==
            IndicesOf(frames[..k], id) + if frames[k].id == id then {frames[k].index} else {}
  {
    var s, t := frames[..k], frames[..k + 1];
    assert forall j :: 0 <= j < k ==> t[j] == s[j];
    forall i | i in IndicesOf(s, id) ensures i in IndicesOf(t, id) {
      var j :| 0 <= j < |s| && s[j].id == id && s[j].index == i;
      assert t[j].id == id;
    }
    if frames[k].id == id {
      assert t[k].index in IndicesOf(t, id);
    }
  }

  lemma OnePassFresh(frames: seq<Frame>, id: Id, last: nat, k: nat)
    requires OnePass(frames, id, last) && k <= last
    ensures frames[last].index !in IndicesOf(frames[..k], id)
    ensures frames[k].id == id ==> frames[k].index !in IndicesOf(frames[..k], id)
  {
  }

  lemma {:induction false} FirstPass(frames: seq<Frame>, id: Id, n: nat, last: nat, k: nat)
    requires OnePass(frames, id, last) && k <= last && frames[last].index < n
    ensures Progress(frames[..k], id, n) == IndicesOf(frames[..k], id)
  {
    if k > 0 {
      FirstPass(frames, id, n, last, k - 1);
      assert frames[..k][..k - 1] == frames[..k - 1];
      IndicesOfPrefix(frames, id, k - 1);
      OnePassFresh(frames, id, last, k);
      OnePassFresh(frames, id, last, k - 1);
      assert frames[last].index in AllIndices(n);
    }
  }

  /**
   * Any permutation delivers: when each index of one message arrives exactly once, in any order
   * and among any other traffic, its earlier arrivals are stored and the last one hands it up.
   */
  lemma PermutationDelivers(frames: seq<Frame>, id: Id, message: seq<byte>, last: nat)
    requires AllInBounds(frames) && AtMostFour(frames) && Sendable(message) && GenuineFor(frames, id, message)
    requires OnePass(frames, id, last) && IndicesOf(frames[..last + 1], id) == AllIndices(FragCount(|message|))
    ensures RunPool(frames).1[last] == Complete(message)
    ensures forall k :: 0 <= k < last && frames[k].id == id ==> RunPool(frames).1[k] == Stored
  {
    hide RunPool, AtMostFour, Progress;
    forall k | 0 <= k <= last && frames[k].id == id
      ensures RunPool(frames).1[k] == if k == last then Complete(message) else Stored
    {
      ReassemblyIsExact(frames, id, message, k);
      assert IsFragment(frames[last], message);
      FirstPass(frames, id, FragCount(|message|), last, k);
      IndicesOfPrefix(frames, id, k);
      OnePassFresh(frames, id, last, k);
      if k < last {
        OnePassFresh(frames, id, last, k + 1);
        assert frames[last].index in AllIndices(FragCount(|message|));
      }
    }
  }

  /**
   * Four is the most: with every slot taken by other messages, a fragment of a fifth wipes what was
   * gathered of the first and leaves the other three as they are.
   */
  lemma FifthMessageDisplacesFirst(slots: seq<RxSlot>, f: Frame)
    requires PoolOk(slots) && InBounds(f)
    requires forall k :: 0 <= k < |slots| ==> slots[k].inUse && slots[k].id != f.id
    ensures var slots' := Accept(slots, f).0; SlotOf(slots', slots[0].id) == EMPTY && slots'[1..] == slots[1..]
  {
    AcceptKeepsPoolOk(slots, f);
    assert SlotFor(slots, f.id) == 0;
    var slots' := Accept(slots, f).0;
    assert slots'[0].inUse ==> slots'[0].id == f.id;
  }

  // ---- One message alone ----

  /** The first n fragments of a message in sending order. */
  function InOrder(message: seq<byte>, id: Id, n: nat): (s: seq<Frame>)
    requires Sendable(message) && n <= FragCount(|message|)
    ensures |s| == n && forall i :: 0 <= i < n ==> s[i] == FragmentAt(message, id, i)
    ensures AllInBounds(s) && GenuineFor(s, id, message)
  {
    seq(n, i requires 0 <= i < n => FragmentAt(message, id, i))
  }

  lemma BusyAlone(frames: seq<Frame>, id: Id)
    requires AllInBounds(frames) && forall k :: 0 <= k < |frames| ==> frames[k].id == id
    ensures Busy(frames) + {id} == {id}
  {
    hide Private;
  }

  lemma AloneFits(frames: seq<Frame>, id: Id)
    requires AllInBounds(frames) && forall k :: 0 <= k < |frames| ==> frames[k].id == id
    ensures AtMostFour(frames) && Busy(frames) + {id} == {id}
  {
    hide Busy;
    forall k | 0 <= k < |frames| ensures |Busy(frames[..k]) + {frames[k].id}| <= SLOTS {
      BusyAlone(frames[..k], id);
    }
    BusyAlone(frames, id);
  }

  lemma InOrderIndices(message: seq<byte>, id: Id, n: nat)
    requires Sendable(message) && n <= FragCount(|message|)
    ensures IndicesOf(InOrder(message, id, n), id) == AllIndices(n)
  {
    forall i | i in AllIndices(n) ensures i in IndicesOf(InOrder(message, id, n), id) {
      assert InOrder(message, id, n)[i].index == i;
    }
  }

  /** Sent in order to an idle receiver, every message of 1 to 768 bytes arrives with its last fragment. */
  lemma InOrderDelivers(message: seq<byte>, id: Id)
    requires Sendable(message)
    ensures var n := FragCount(|message|); RunPool(InOrder(message, id, n)).1[n - 1] == Complete(message)
  {
    hide RunPool, AtMostFour, IndicesOf, Busy;
    var n := FragCount(|message|);
    var frames := InOrder(message, id, n);
    AloneFits(frames, id);
    InOrderIndices(message, id, n);
    assert frames[..n] == frames;
    PermutationDelivers(frames, id, message, n - 1);
  }
}
