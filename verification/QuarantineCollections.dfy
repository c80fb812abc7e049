/** What collecting expired entries changes among adds: exactly when a later check can tell. */
module QuarantineCollections {
  import opened Bytes
  import opened Slots
  import opened Quarantines

  // ---- What one add does ----

  ghost predicate Full(q: Quarantine) { forall i :: 0 <= i < |q.slots| ==> q.slots[i].Used? }

  /** An add of `subject` would cost s its entry: the table is full and s was hit longest ago. */
  ghost predicate Displaced(q: Quarantine, subject: Subject, s: Subject) {
    && Find(q, subject).None? && Full(q) && q.config.evictLru
    && IsOldest(q.slots, StampOf(), IndexOf(q.slots, SubjectOf(), s))
  }

  ghost predicate AddSays(q: Quarantine, q': Quarantine, r: Request, ts: u32) {
    && QuarantineOk(q') && q'.initialized && q'.config == q.config
    && Find(q', r.subject) == (if HasRoom(q, r.subject) then Some(Added(q, r, ts)) else None)
    && forall s :: s != r.subject ==> Find(q', s) == if Displaced(q, r.subject, s) then None else Find(q, s)
  }

  /** An add sets its subject if there is room, and costs exactly the displaced subject its entry. */
  lemma AddIsExact(q: Quarantine, r: Request, ts: u32)
    requires QuarantineOk(q) && q.initialized && SubjectValid(r.subject)
    ensures AddSays(q, Add(q, r, ts).0, r, ts)
  {
    hide QuarantineOk, HasRoom, Added, StampOf, IsOldest;
    AddKeepsOk(q, r, ts);
    AddRefinesMap(q, r, ts);
    AcceptedIff(q, r, ts);
    PlacedOver(q, r, ts);
  }

  lemma PlacedOver(q: Quarantine, r: Request, ts: u32)
    requires QuarantineOk(q) && q.initialized && SubjectValid(r.subject)
    ensures var q' := Add(q, r, ts).0;
            && q'.initialized && q'.config == q.config
            && forall s :: s != r.subject ==> Find(q', s) == if Displaced(q, r.subject, s) then None else Find(q, s)
  {
    hide Displaced, PlaceFor, IsOldest;
    VictimIsDisplaced(q, r.subject);
    if Find(q, r.subject).None? {
      match PlaceFor(q.slots, StampOf(), q.config.evictLru)
      case NoRoom =>
      case InFree(at) => PlaceInFree(q.slots, SubjectOf(), at, NewEntry(q.config, r, ts));
      case Evicting(at, _) => PlaceOverVictim(q.slots, SubjectOf(), at, NewEntry(q.config, r, ts));
    } else {
      var i := IndexOf(q.slots, SubjectOf(), r.subject);
      LookupWrite(q.slots, SubjectOf(), i, Refreshed(q.config, q.slots[i].entry, r, ts));
    }
  }

  /** The displaced subject is that of the slot the scan picks; when it picks none nobody is displaced. */
  lemma VictimIsDisplaced(q: Quarantine, subject: Subject)
    requires QuarantineOk(q)
    ensures var p := PlaceFor(q.slots, StampOf(), q.config.evictLru);
            forall s :: Displaced(q, subject, s) <==>
                        Find(q, subject).None? && p.Evicting? && p.victim.subject == s
  {
    var p := PlaceFor(q.slots, StampOf(), q.config.evictLru);
    if p.Evicting? {
      LookupIs(q.slots, SubjectOf(), p.at);
    }
  }

  // ---- What collecting does to room ----

  ghost predicate SomeExpired(q: Quarantine, t: u32) { exists i :: 0 <= i < |q.slots| && ExpiredAt(q, t, i) }

  predicate ExpiredAt(q: Quarantine, t: u32, i: nat) {
    i < |q.slots| && q.slots[i].Used? && IsExpired(q.slots[i].entry, t)
  }

  /** Collecting makes room for everyone and spares every victim, exactly when there is something to collect. */
  lemma CollectingMakesRoom(q: Quarantine, t: u32, subject: Subject)
    requires QuarantineOk(q) && q.initialized
    ensures var q' := Expire(q, t);
            && (HasRoom(q', subject) <==> HasRoom(q, subject) || SomeExpired(q, t))
            && (SomeExpired(q, t) ==> !Full(q'))
            && (!SomeExpired(q, t) ==> q' == q)
  {
    hide IsOldest;
    var q' := Expire(q, t);
    if i :| 0 <= i < |q.slots| && ExpiredAt(q, t, i) {
      assert q'.slots[i].Free?;
    } else {
      forall i | 0 <= i < |q.slots| ensures q'.slots[i] == q.slots[i] {
        assert !ExpiredAt(q, t, i);
      }
      assert q'.slots == q.slots;
    }
  }

  // ---- Exactly when it is noticed ----

  /** The request would give its subject an entry that is still good at time u. */
  predicate GoodAt(q: Quarantine, r: Request, ts: u32, u: u32) {
    q.initialized && SubjectValid(r.subject) && !IsExpired(NewEntry(q.config, r, ts), u)
  }

  /**
   * The add finds no room for its own subject, or gives up s while s is still good, and collecting
   * would have freed a slot.
   */
  ghost predicate RoomNoticed(q: Quarantine, t: u32, r: Request, ts: u32, s: Subject, u: u32) {
    && SomeExpired(q, t)
    && if s == r.subject then GoodAt(q, r, ts, u) && !HasRoom(q, s)
       else && q.initialized && SubjectValid(r.subject) && Displaced(q, r.subject, s)
            && Find(q, s).Some? && !IsExpired(Find(q, s).value, u)
  }

  /** The add refreshes an entry that collecting would have dropped, hit count and all. */
  predicate HistoryKept(q: Quarantine, t: u32, r: Request, ts: u32, s: Subject, u: u32) {
    s == r.subject && GoodAt(q, r, ts, u) && Find(q, s).Some? && IsExpired(Find(q, s).value, t)
  }

  /** The answer to a check of s at time u after a request at ts. */
  ghost function AnswerAfter(q: Quarantine, r: Request, ts: u32, s: Subject, u: u32): Option<QEntry> {
    Check(Add(q, r, ts).0, s, u).1
  }

  ghost predicate AnswerIs(q: Quarantine, r: Request, ts: u32, s: Subject, u: u32, a: Option<QEntry>) {
    a == if !q.initialized then None
         else if s == r.subject then
           if HasRoom(q, s) && GoodAt(q, r, ts, u) then Some(Hit(Added(q, r, ts), u)) else None
         else if Find(q, s).Some? && !IsExpired(Find(q, s).value, u)
                 && !(SubjectValid(r.subject) && Displaced(q, r.subject, s)) then Some(Hit(Find(q, s).value, u))
         else None
  }

  lemma AnswerIsExact(q: Quarantine, r: Request, ts: u32, s: Subject, u: u32)
    requires QuarantineOk(q)
    ensures AnswerIs(q, r, ts, s, u, AnswerAfter(q, r, ts, s, u))
  {
    hide QuarantineOk, HasRoom, Displaced, Check, Add, Find, Expiry;
    AddKeepsOk(q, r, ts);
    CheckRefinesMap(Add(q, r, ts).0, s, u);
    RefusedAdd(q, r, ts);
    if q.initialized && SubjectValid(r.subject) {
      AddIsExact(q, r, ts);
    } else if Find(q, s).Some? {
      FoundIsValid(q, s);
    }
  }

  lemma RefusedAdd(q: Quarantine, r: Request, ts: u32)
    ensures Add(q, r, ts).0.initialized == q.initialized
    ensures !SubjectValid(r.subject) ==> forall s :: Find(Add(q, r, ts).0, s) == Find(q, s)
  {
  }

  lemma FoundIsValid(q: Quarantine, s: Subject)
    requires QuarantineOk(q) && Find(q, s).Some?
    ensures SubjectValid(s)
  {
  }

  /** Collecting before the add gives s this answer instead. */
  lemma CollectedAnswer(q: Quarantine, t: u32, r: Request, ts: u32, s: Subject, u: u32)
    requires QuarantineOk(q) && q.initialized && t <= u
    ensures AnswerAfter(Expire(q, t), r, ts, s, u) == (
              if s == r.subject then
                if (HasRoom(q, s) || SomeExpired(q, t)) && GoodAt(q, r, ts, u) then
                  Some(Hit(if LiveAt(q, s, t).Some? then Added(q, r, ts) else NewEntry(q.config, r, ts), u))
                else None
              else if Find(q, s).Some? && !IsExpired(Find(q, s).value, u)
                      && (SomeExpired(q, t) || !(SubjectValid(r.subject) && Displaced(q, r.subject, s)))
                   then Some(Hit(Find(q, s).value, u))
              else None)
  {
    hide QuarantineOk, HasRoom, Check, Add, Expire, IsOldest, SomeExpired, AnswerAfter;
    var q' := Expire(q, t);
    ExpireRefinesMap(q, t);
    ExpireKeepsConfig(q, t);
    CollectingMakesRoom(q, t, r.subject);
    AnswerIsExact(q', r, ts, s, u);
  }

  lemma ExpireKeepsConfig(q: Quarantine, t: u32)
    ensures Expire(q, t).config == q.config && Expire(q, t).initialized == q.initialized
  {
  }

  /**
   * Collecting expired entries at t changes the answer of a check after the next add exactly when it
   * makes room in a full table for the subject added, or spares a good entry the add would displace,
   * or makes the add start the entry of its subject anew. This holds in every state, for every
   * request and every subject checked.
   */
  lemma CollectionIsNoticedIff(q: Quarantine, t: u32, r: Request, ts: u32, s: Subject, u: u32)
    requires QuarantineOk(q) && t <= u
    ensures AnswerAfter(Expire(q, t), r, ts, s, u) != AnswerAfter(q, r, ts, s, u) <==>
            || RoomNoticed(q, t, r, ts, s, u)
            || (HistoryKept(q, t, r, ts, s, u)
                && (Find(q, s).value.hitCount > 0 || Find(q, s).value.createdAtMs != ts))
  {
    hide QuarantineOk, HasRoom, Displaced, SomeExpired, AnswerAfter;
    AnswerIsExact(q, r, ts, s, u);
    if q.initialized {
      CollectedAnswer(q, t, r, ts, s, u);
      FoundHasRoom(q, s);
    }
  }

  lemma FoundHasRoom(q: Quarantine, s: Subject)
    ensures Find(q, s).Some? ==> HasRoom(q, s) && (QuarantineOk(q) ==> Find(q, s).value.subject == s)
  {
  }

  // ---- What the answers say ----

  /** What an answer says, apart from how often and since when. */
  datatype Essence = Essence(mode: Mode, source: Source, expiresAtMs: u32, risk: byte)

  function EssenceOf(e: Option<QEntry>): Option<Essence> {
    if e.None? then None else Some(Essence(e.value.mode, e.value.source, e.value.expiresAtMs, e.value.risk))
  }

  function HitsOf(e: Option<QEntry>): nat { if e.None? then 0 else e.value.hitCount }

  /** Mode, source, expiry and risk change exactly when room is what collecting gave. */
  lemma EssenceIsNoticedIff(q: Quarantine, t: u32, r: Request, ts: u32, s: Subject, u: u32)
    requires QuarantineOk(q) && t <= u
    ensures EssenceOf(AnswerAfter(Expire(q, t), r, ts, s, u)) != EssenceOf(AnswerAfter(q, r, ts, s, u)) <==>
            RoomNoticed(q, t, r, ts, s, u)
  {
    hide QuarantineOk, HasRoom, Displaced, SomeExpired, AnswerAfter;
    AnswerIsExact(q, r, ts, s, u);
    if q.initialized {
      CollectedAnswer(q, t, r, ts, s, u);
      FoundHasRoom(q, s);
    }
  }

  /** With the hit count among them, also when the add refreshes an entry that had been hit. */
  lemma HitsAreNoticedIff(q: Quarantine, t: u32, r: Request, ts: u32, s: Subject, u: u32)
    requires QuarantineOk(q) && t <= u
    ensures var a, b := AnswerAfter(Expire(q, t), r, ts, s, u), AnswerAfter(q, r, ts, s, u);
            EssenceOf(a) != EssenceOf(b) || HitsOf(a) != HitsOf(b) <==>
            RoomNoticed(q, t, r, ts, s, u) || (HistoryKept(q, t, r, ts, s, u) && Find(q, s).value.hitCount > 0)
  {
    hide QuarantineOk, HasRoom, Displaced, SomeExpired, AnswerAfter;
    AnswerIsExact(q, r, ts, s, u);
    if q.initialized {
      CollectedAnswer(q, t, r, ts, s, u);
      FoundHasRoom(q, s);
    }
  }

  /** An expired entry that is still there keeps its count when it is added again, a collected one starts anew. */
  lemma CollectionForgetsHits(q: Quarantine, t: u32, r: Request, ts: u32, u: u32)
    requires QuarantineOk(q) && t <= u && HistoryKept(q, t, r, ts, r.subject, u)
    ensures var kept, anew := AnswerAfter(q, r, ts, r.subject, u), AnswerAfter(Expire(q, t), r, ts, r.subject, u);
            && kept.Some? && kept.value.hitCount == Find(q, r.subject).value.hitCount + 1
            && anew.Some? && anew.value.hitCount == 1
  {
    hide QuarantineOk, HasRoom, Displaced, SomeExpired, AnswerAfter;
    AnswerIsExact(q, r, ts, r.subject, u);
    CollectedAnswer(q, t, r, ts, r.subject, u);
    FoundHasRoom(q, r.subject);
  }

  /** The good entry an add gives up is kept when an expired one is collected first. */
  lemma CollectionSparesVictim(q: Quarantine, t: u32, r: Request, ts: u32, s: Subject, u: u32)
    requires QuarantineOk(q) && t <= u && RoomNoticed(q, t, r, ts, s, u) && s != r.subject
    ensures AnswerAfter(q, r, ts, s, u) == None
    ensures AnswerAfter(Expire(q, t), r, ts, s, u) == Some(Hit(Find(q, s).value, u))
  {
    hide QuarantineOk, HasRoom, Displaced, SomeExpired, AnswerAfter;
    AnswerIsExact(q, r, ts, s, u);
    CollectedAnswer(q, t, r, ts, s, u);
  }

  // ---- Full tables that notice ----

  /** Sixty-four addresses added at time 1: the last one for a millisecond, the others for ever. */
  function Packed(evict: bool): Quarantine {
    Quarantine(true, seq(MAX_ENTRIES, i requires 0 <= i < MAX_ENTRIES => Used(PackedEntry(i))),
               QConfig(60000, evict), QStats(64, 64, 0, 0, 0, 0, 0, 0, 0))
  }

  function PackedEntry(i: nat): QEntry
    requires i < MAX_ENTRIES
  {
    QEntry(Ip(i + 1), BlockAll, Manual, 1, if i == MAX_ENTRIES - 1 then 2 else 0, 0, 0, 50)
  }

  lemma PackedOk(evict: bool)
    ensures var q := Packed(evict);
            && QuarantineOk(q) && Full(q) && SomeExpired(q, 2) && Find(q, Ip(65)).None?
            && Find(q, Ip(1)) == Some(PackedEntry(0)) && (evict ==> Displaced(q, Ip(65), Ip(1)))
            && (HasRoom(q, Ip(65)) <==> evict)
  {
    var q := Packed(evict);
    assert ExpiredAt(q, 2, MAX_ENTRIES - 1);
    FreeIffRoom(q.slots);
    LookupIs(q.slots, SubjectOf(), 0);
    assert Evictable(q.slots, StampOf(), 0);
  }

  /** One more address: without eviction it is confined only if the expired entry is collected first. */
  lemma FullTableRefuses(r: Request)
    requires r == Request(Ip(65), BlockAll, Manual, 60000, 50)
    ensures AnswerAfter(Packed(false), r, 2, Ip(65), 2).None?
    ensures AnswerAfter(Expire(Packed(false), 2), r, 2, Ip(65), 2).Some?
  {
    hide QuarantineOk, HasRoom, Displaced, SomeExpired, AnswerAfter, Full, Find, Expire, Added;
    var q := Packed(false);
    PackedOk(false);
    AnswerIsExact(q, r, 2, Ip(65), 2);
    CollectedAnswer(q, 2, r, 2, Ip(65), 2);
  }

  /** With eviction the first address, confined for ever, is set free unless the expired entry is collected first. */
  lemma FullTableDisplaces(r: Request)
    requires r == Request(Ip(65), BlockAll, Manual, 60000, 50)
    ensures AnswerAfter(Packed(true), r, 2, Ip(1), 2).None?
    ensures AnswerAfter(Expire(Packed(true), 2), r, 2, Ip(1), 2).Some?
  {
    hide QuarantineOk, HasRoom, Displaced, SomeExpired, AnswerAfter, Full, Find, Expire;
    PackedOk(true);
    CollectionSparesVictim(Packed(true), 2, r, 2, Ip(1), 2);
  }

  // ---- Whole runs ----

  datatype QOp =
    | CheckOp(subject: Subject, ts: u32)
    | AddOp(request: Request, ts: u32)
    | RemoveOp(subject: Subject, ts: u32)

  ghost function StepOp(q: Quarantine, op: QOp): Quarantine {
    match op
    case CheckOp(s, ts) => Check(q, s, ts).0
    case AddOp(r, ts) => Add(q, r, ts).0
    case RemoveOp(s, _) => Remove(q, s).0
  }

  /** The essence of every answer in a run. */
  ghost function Essences(q: Quarantine, ops: seq<QOp>): seq<Option<Essence>>
    decreases ops
  {
    if ops == [] then []
    else
      (if ops[0].CheckOp? then [EssenceOf(Check(q, ops[0].subject, ops[0].ts).1)] else [])
      + Essences(StepOp(q, ops[0]), ops[1..])
  }

  predicate OpsNotBefore(ops: seq<QOp>, ts: u32) {
    ops == [] || (ts <= ops[0].ts && OpsNotBefore(ops[1..], ops[0].ts))
  }

  /** No add of a valid subject finds the table full. */
  ghost predicate NeverFull(q: Quarantine, ops: seq<QOp>)
    decreases ops
  {
    ops == [] || (NotFullFor(q, ops[0]) && NeverFull(StepOp(q, ops[0]), ops[1..]))
  }

  ghost predicate NotFullFor(q: Quarantine, op: QOp) {
    op.AddOp? && SubjectValid(op.request.subject) ==>
      Add(q, op.request, op.ts).1.Ok? && Add(q, op.request, op.ts).0.stats.evicted == q.stats.evicted
  }

  /** The two quarantines say the same about everything that has not expired by ts. */
  ghost predicate SameEssence(p: Quarantine, q: Quarantine, ts: u32) {
    && p.initialized && q.initialized && p.config == q.config
    && forall s :: EssenceOf(LiveAt(p, s, ts)) == EssenceOf(LiveAt(q, s, ts))
  }

  lemma StepKeepsEssence(p: Quarantine, q: Quarantine, op: QOp, t: u32)
    requires QuarantineOk(p) && QuarantineOk(q) && SameEssence(p, q, t) && t <= op.ts
    requires NotFullFor(p, op) && NotFullFor(q, op)
    ensures QuarantineOk(StepOp(p, op)) && QuarantineOk(StepOp(q, op))
            && SameEssence(StepOp(p, op), StepOp(q, op), op.ts)
    ensures op.CheckOp? ==> EssenceOf(Check(p, op.subject, op.ts).1) == EssenceOf(Check(q, op.subject, op.ts).1)
  {
    hide Check, Add, Remove, QuarantineOk, Find, LiveAt, EssenceOf, StepOp, NotFullFor;
    StepRuns(p, op);
    StepRuns(q, op);
    forall s ensures EssenceOf(LiveAt(StepOp(p, op), s, op.ts)) == EssenceOf(LiveAt(StepOp(q, op), s, op.ts)) {
      assert EssenceOf(LiveAt(p, s, t)) == EssenceOf(LiveAt(q, s, t));
      EssenceAfter(p, q, op, t, s);
    }
    if op.CheckOp? {
      assert EssenceOf(LiveAt(p, op.subject, t)) == EssenceOf(LiveAt(q, op.subject, t));
      EssenceAnswered(p, q, op, t);
    }
  }

  lemma StepRuns(q: Quarantine, op: QOp)
    requires QuarantineOk(q) && q.initialized && NotFullFor(q, op)
    ensures QuarantineOk(StepOp(q, op)) && StepOp(q, op).initialized && StepOp(q, op).config == q.config
  {
    hide Check, Add, Remove, QuarantineOk, Find;
    StepSays(q, op);
  }

  lemma EssenceAfter(p: Quarantine, q: Quarantine, op: QOp, t: u32, s: Subject)
    requires QuarantineOk(p) && QuarantineOk(q) && p.initialized && q.initialized && p.config == q.config
    requires EssenceOf(LiveAt(p, s, t)) == EssenceOf(LiveAt(q, s, t)) && t <= op.ts
    requires NotFullFor(p, op) && NotFullFor(q, op)
    ensures EssenceOf(LiveAt(StepOp(p, op), s, op.ts)) == EssenceOf(LiveAt(StepOp(q, op), s, op.ts))
  {
    hide Check, Add, Remove, QuarantineOk, Find, NotFullFor, StepOp;
    StepSays(p, op);
    StepSays(q, op);
  }

  lemma EssenceAnswered(p: Quarantine, q: Quarantine, op: QOp, t: u32)
    requires QuarantineOk(p) && QuarantineOk(q) && p.initialized && q.initialized && op.CheckOp? && t <= op.ts
    requires EssenceOf(LiveAt(p, op.subject, t)) == EssenceOf(LiveAt(q, op.subject, t))
    ensures EssenceOf(Check(p, op.subject, op.ts).1) == EssenceOf(Check(q, op.subject, op.ts).1)
  {
    hide Check, QuarantineOk, Find;
    CheckRefinesMap(p, op.subject, op.ts);
    CheckRefinesMap(q, op.subject, op.ts);
  }

  /** What one operation does to every subject, when the table is not full. */
  lemma StepSays(q: Quarantine, op: QOp)
    requires QuarantineOk(q) && q.initialized && NotFullFor(q, op)
    ensures var q' := StepOp(q, op);
            && QuarantineOk(q') && q'.initialized && q'.config == q.config
            && match op
               case CheckOp(s, ts) => CheckEffect(q, q', s, ts, Check(q, s, ts).1)
               case AddOp(r, ts) =>
                 forall s :: Find(q', s) == (
                   if s != r.subject || !SubjectValid(s) then Find(q, s)
                   else if Find(q, s).Some? then Some(Refreshed(q.config, Find(q, s).value, r, ts))
                   else Some(NewEntry(q.config, r, ts)))
               case RemoveOp(s, _) => forall x :: Find(q', x) == if x == s then None else Find(q, x)
  {
    match op
    case CheckOp(s, ts) => CheckRefinesMap(q, s, ts);
    case AddOp(r, ts) =>
      AddKeepsOk(q, r, ts);
      AddRefinesMap(q, r, ts);
    case RemoveOp(s, _) => RemoveRefinesMap(q, s);
  }

  // ---- A table that never fills ----

  /** Every subject with an entry in p has one in q. */
  ghost predicate Within(p: Quarantine, q: Quarantine) { forall s :: Find(p, s).Some? ==> Find(q, s).Some? }

  lemma WithinCounts(p: Quarantine, q: Quarantine, s: Subject)
    requires QuarantineOk(p) && QuarantineOk(q) && Within(p, q)
    ensures p.stats.active <= q.stats.active
    ensures Find(q, s).Some? && Find(p, s).None? ==> p.stats.active < q.stats.active
  {
    hide Lookup, UsedCount;
    var a, b := Keys(p.slots, SubjectOf()), Keys(q.slots, SubjectOf());
    KeysCount(p.slots, SubjectOf());
    KeysCount(q.slots, SubjectOf());
    forall x | x in a ensures x in b {
      assert Find(p, x).Some? ==> Find(q, x).Some?;
      KeyIffFound(p.slots, SubjectOf(), x);
      KeyIffFound(q.slots, SubjectOf(), x);
    }
    KeyIffFound(p.slots, SubjectOf(), s);
    KeyIffFound(q.slots, SubjectOf(), s);
    SubsetCard(a, b);
    if s in b && s !in a {
      SubsetCard(a, b - {s});
    }
  }

  /** An add neither fails nor evicts exactly when its subject is there or a slot is free. */
  lemma NotFullIff(q: Quarantine, r: Request, ts: u32)
    requires QuarantineOk(q) && q.initialized && SubjectValid(r.subject)
    ensures NotFullFor(q, AddOp(r, ts)) <==> Find(q, r.subject).Some? || q.stats.active < MAX_ENTRIES
  {
    hide Oldest;
    FreeIffRoom(q.slots);
  }

  lemma StepKeepsWithin(p: Quarantine, q: Quarantine, op: QOp, t: u32)
    requires QuarantineOk(p) && QuarantineOk(q) && SameEssence(p, q, t) && t <= op.ts && Within(p, q)
    requires NotFullFor(q, op)
    ensures NotFullFor(p, op) && Within(StepOp(p, op), StepOp(q, op))
  {
    hide Check, Add, Remove, QuarantineOk, Find;
    if op.AddOp? && SubjectValid(op.request.subject) {
      NotFullIff(p, op.request, op.ts);
      NotFullIff(q, op.request, op.ts);
      WithinCounts(p, q, op.request.subject);
      ActiveBound(q);
    }
    StepSays(p, op);
    StepSays(q, op);
    if op.CheckOp? {
      assert EssenceOf(LiveAt(p, op.subject, t)) == EssenceOf(LiveAt(q, op.subject, t));
    }
  }

  lemma ActiveBound(q: Quarantine)
    requires QuarantineOk(q)
    ensures q.stats.active <= MAX_ENTRIES
  {
  }

  lemma {:induction false} SameEssences(p: Quarantine, q: Quarantine, ops: seq<QOp>, t: u32)
    requires QuarantineOk(p) && QuarantineOk(q) && SameEssence(p, q, t) && Within(p, q) && OpsNotBefore(ops, t)
    requires NeverFull(q, ops)
    ensures Essences(p, ops) == Essences(q, ops)
    decreases ops
  {
    hide Check, Add, StepOp, QuarantineOk, SameEssence, NotFullFor, Within;
    if ops != [] {
      StepKeepsWithin(p, q, ops[0], t);
      StepKeepsEssence(p, q, ops[0], t);
      SameEssences(StepOp(p, ops[0]), StepOp(q, ops[0]), ops[1..], ops[0].ts);
    }
  }

  /**
   * Among checks, adds and removals, as long as no add finds the table full, collecting expired
   * entries at time t changes no answer's mode, source, expiry or risk.
   */
  lemma ExpiryKeepsEssence(q: Quarantine, t: u32, ops: seq<QOp>)
    requires QuarantineOk(q) && q.initialized && OpsNotBefore(ops, t) && NeverFull(q, ops)
    ensures Essences(Expire(q, t), ops) == Essences(q, ops)
  {
    hide Check, Add, Essences, NeverFull, QuarantineOk;
    ExpireRefinesMap(q, t);
    assert SameEssence(Expire(q, t), q, t) && Within(Expire(q, t), q);
    SameEssences(Expire(q, t), q, ops, t);
  }

  // ---- Every expired entry is missed in some run ----

  /** A valid subject unknown to two tables. */
  lemma Stranger(p: Quarantine, q: Quarantine) returns (x: Subject)
    requires QuarantineOk(p) && QuarantineOk(q)
    ensures SubjectValid(x) && Find(p, x).None? && Find(q, x).None?
  {
    hide Lookup, UsedCount;
    var known := Keys(p.slots, SubjectOf()) + Keys(q.slots, SubjectOf());
    KeysCount(p.slots, SubjectOf());
    KeysCount(q.slots, SubjectOf());
    var many := Addresses(2 * MAX_ENTRIES + 1);
    if many <= known {
      SubsetCard(many, known);
      assert false;
    }
    x :| x in many && x !in known;
    KeyIffFound(p.slots, SubjectOf(), x);
    KeyIffFound(q.slots, SubjectOf(), x);
  }

  ghost function Addresses(n: u16): (a: set<Subject>)
    ensures |a| == n && forall x :: x in a ==> x.Ip? && 0 < x.ip <= n
  {
    if n == 0 then {} else Addresses(n - 1) + {Ip(n)}
  }

  /** A request at t for an entry that is good at t. */
  lemma Lasting(q: Quarantine, x: Subject, t: u32) returns (r: Request)
    ensures r.subject == x && !IsExpired(NewEntry(q.config, r, t), t)
    ensures q.initialized && SubjectValid(x) ==> GoodAt(q, r, t, t)
  {
    r := Request(x, BlockAll, Manual, if t == 0 then 1 else U32 - t, 0);
  }

  /** Filled up by one request after another, the fuller of two tables refuses one that the other takes. */
  lemma {:induction false} FillingTells(p: Quarantine, q: Quarantine, t: u32) returns (ops: seq<QOp>)
    requires QuarantineOk(p) && QuarantineOk(q) && p.initialized && q.initialized && !q.config.evictLru
    requires p.config == q.config && p.stats.active < q.stats.active
    ensures OpsNotBefore(ops, t) && Essences(p, ops) != Essences(q, ops)
    decreases MAX_ENTRIES - q.stats.active
  {
    hide Check, Add, QuarantineOk, Find, HasRoom;
    var x := Stranger(p, q);
    var r := Lasting(q, x, t);
    ActiveBound(q);
    AddCounts(p, r, t);
    AddCounts(q, r, t);
    var op := AddOp(r, t);
    if q.stats.active < MAX_ENTRIES {
      var rest := FillingTells(StepOp(p, op), StepOp(q, op), t);
      ops := [op] + rest;
      assert ops[1..] == rest;
      assert Essences(p, ops) == Essences(StepOp(p, op), rest) && Essences(q, ops) == Essences(StepOp(q, op), rest);
    } else {
      ops := [op, CheckOp(x, t)];
      assert ops[1..] == [CheckOp(x, t)] && ops[1..][1..] == [] && OpsNotBefore(ops[1..], t);
      AnswerIsExact(p, r, t, x, t);
      AnswerIsExact(q, r, t, x, t);
      TwoEssences(p, op, CheckOp(x, t));
      TwoEssences(q, op, CheckOp(x, t));
      assert Essences(p, ops)[0].Some? && Essences(q, ops)[0].None?;
    }
  }

  lemma TwoEssences(q: Quarantine, op: QOp, check: QOp)
    requires op.AddOp? && check.CheckOp?
    ensures Essences(q, [op, check]) == [EssenceOf(AnswerAfter(q, op.request, op.ts, check.subject, check.ts))]
  {
    hide Check, Add;
    var ops := [op, check];
    assert ops[1..] == [check] && [check][1..] == [];
    assert Essences(StepOp(StepOp(q, op), check), []) == [];
    assert Essences(StepOp(q, op), [check]) == [EssenceOf(Check(StepOp(q, op), check.subject, check.ts).1)];
  }

  /** A stranger takes a free slot while there is one; after that the table stays full. */
  lemma AddCounts(q: Quarantine, r: Request, ts: u32)
    requires QuarantineOk(q) && q.initialized && SubjectValid(r.subject) && Find(q, r.subject).None?
    ensures var q' := Add(q, r, ts).0;
            && QuarantineOk(q') && q'.initialized && q'.config == q.config
            && q'.stats.active == q.stats.active + (if q.stats.active < MAX_ENTRIES then 1 else 0)
            && (HasRoom(q, r.subject) || q.stats.active == MAX_ENTRIES)
            && (!q.config.evictLru ==> (HasRoom(q, r.subject) <==> q.stats.active < MAX_ENTRIES))
  {
    hide Oldest;
    FreeIffRoom(q.slots);
    AddKeepsOk(q, r, ts);
  }

  // With eviction: a refreshed entry keeps its old stamp, so it is given up before one that was made anew.

  /** Every entry but that of x was made at ts and never hit. */
  ghost predicate OthersMadeAt(q: Quarantine, x: Subject, ts: u32) {
    forall s :: s != x && Find(q, s).Some? ==> StampOf()(Find(q, s).value) == ts
  }

  lemma FullIff(q: Quarantine)
    requires QuarantineOk(q)
    ensures Full(q) <==> q.stats.active == MAX_ENTRIES
  {
    FreeIffRoom(q.slots);
  }

  lemma OldestIs(q: Quarantine, x: Subject, ts: u32)
    requires QuarantineOk(q) && Find(q, x).Some? && StampOf()(Find(q, x).value) < ts && OthersMadeAt(q, x, ts)
    ensures IsOldest(q.slots, StampOf(), IndexOf(q.slots, SubjectOf(), x))
  {
    hide StampOf;
    var i := IndexOf(q.slots, SubjectOf(), x);
    forall k | 0 <= k < |q.slots| && q.slots[k].Used? && k != i
      ensures StampOf()(q.slots[i].entry) < StampOf()(q.slots[k].entry)
    {
      LookupIs(q.slots, SubjectOf(), k);
      assert Find(q, q.slots[k].entry.subject) == Some(q.slots[k].entry);
    }
  }

  lemma NotOldest(q: Quarantine, x: Subject, ts: u32)
    requires QuarantineOk(q) && Find(q, x).Some? && StampOf()(Find(q, x).value) > ts && OthersMadeAt(q, x, ts)
    requires Full(q)
    ensures !IsOldest(q.slots, StampOf(), IndexOf(q.slots, SubjectOf(), x))
  {
    hide StampOf;
    var i := IndexOf(q.slots, SubjectOf(), x);
    var k := if i == 0 then 1 else 0;
    LookupIs(q.slots, SubjectOf(), k);
    assert Find(q, q.slots[k].entry.subject) == Some(q.slots[k].entry);
  }

  lemma RefreshKeepsActive(q: Quarantine, r: Request, ts: u32)
    requires QuarantineOk(q) && q.initialized && Find(q, r.subject).Some?
    ensures Add(q, r, ts).0.stats.active == q.stats.active
  {
    FoundIsValid(q, r.subject);
  }

  /** In the fuller table x is refreshed with its old stamp, and the next stranger costs it its entry. */
  lemma RefreshedIsDisplaced(q: Quarantine, r: Request, y: Subject, ts: u32)
    requires QuarantineOk(q) && q.initialized && q.config.evictLru && q.stats.active == MAX_ENTRIES && ts < UINT32_MAX
    requires Find(q, r.subject).Some? && StampOf()(Find(q, r.subject).value) < ts && OthersMadeAt(q, r.subject, ts)
    requires Find(q, y).None?
    ensures Displaced(Add(q, r, ts + 1).0, y, r.subject)
  {
    hide Add, QuarantineOk, IsOldest, Full, Lookup, IndexOf;
    var q' := Add(q, r, ts + 1).0;
    FoundIsValid(q, r.subject);
    FoundHasRoom(q, r.subject);
    RefreshKeepsActive(q, r, ts + 1);
    AddIsExact(q, r, ts + 1);
    FullIff(q);
    FullIff(q');
    assert forall s :: !Displaced(q, r.subject, s);
    OldestIs(q', r.subject, ts);
  }

  /** In the other table x is made anew and is the youngest. */
  lemma MadeAnewStays(p: Quarantine, r: Request, y: Subject, ts: u32)
    requires QuarantineOk(p) && p.initialized && p.stats.active < MAX_ENTRIES && ts < UINT32_MAX
    requires SubjectValid(r.subject) && Find(p, r.subject).None? && OthersMadeAt(p, r.subject, ts)
    ensures Find(Add(p, r, ts + 1).0, r.subject) == Some(NewEntry(p.config, r, ts + 1))
    ensures !Displaced(Add(p, r, ts + 1).0, y, r.subject)
  {
    hide Add, QuarantineOk, IsOldest, Full, Lookup, IndexOf, HasRoom;
    var p' := Add(p, r, ts + 1).0;
    AddCounts(p, r, ts + 1);
    AddIsExact(p, r, ts + 1);
    FullIff(p);
    assert forall s :: !Displaced(p, r.subject, s);
    if Full(p') {
      NotOldest(p', r.subject, ts);
    }
  }

  /** x is added again, then a stranger, and x is checked. */
  lemma RefreshTells(p: Quarantine, q: Quarantine, x: Subject, ts: u32) returns (ops: seq<QOp>)
    requires QuarantineOk(p) && QuarantineOk(q) && p.initialized && q.initialized && p.config == q.config
    requires q.config.evictLru && p.stats.active < q.stats.active == MAX_ENTRIES && ts < UINT32_MAX
    requires Find(q, x).Some? && StampOf()(Find(q, x).value) < ts && Find(p, x).None?
    requires OthersMadeAt(p, x, ts) && OthersMadeAt(q, x, ts)
    ensures OpsNotBefore(ops, ts) && Essences(p, ops) != Essences(q, ops)
  {
    hide Add, QuarantineOk, OthersMadeAt, Find, StampOf, Essences, AnswerAfter;
    var y := Stranger(p, q);
    FoundIsValid(q, x);
    var r := Lasting(q, x, ts + 1);
    var r' := Lasting(q, y, ts + 1);
    var op, op', check := AddOp(r, ts + 1), AddOp(r', ts + 1), CheckOp(x, ts + 1);
    ops := [op] + [op', check];
    InTime(op, op', check, ts);
    AnewAnswers(p, r, r', ts);
    RefreshedIsSilent(q, r, r', ts);
    TwoEssences(StepOp(p, op), op', check);
    TwoEssences(StepOp(q, op), op', check);
    AddIsSilent(p, op, [op', check]);
    AddIsSilent(q, op, [op', check]);
    assert Essences(p, ops)[0].Some? && Essences(q, ops)[0].None?;
  }

  lemma InTime(a: QOp, b: QOp, c: QOp, ts: u32)
    requires ts <= a.ts <= b.ts <= c.ts
    ensures OpsNotBefore([a] + [b, c], ts)
  {
    assert [c][1..] == [] && [b, c][1..] == [c] && ([a] + [b, c])[1..] == [b, c];
    assert OpsNotBefore([c], b.ts);
    assert OpsNotBefore([b, c], a.ts);
  }

  lemma RefreshedIsSilent(q: Quarantine, r: Request, r': Request, ts: u32)
    requires QuarantineOk(q) && q.initialized && q.config.evictLru && q.stats.active == MAX_ENTRIES && ts < UINT32_MAX
    requires Find(q, r.subject).Some? && StampOf()(Find(q, r.subject).value) < ts && OthersMadeAt(q, r.subject, ts)
    requires SubjectValid(r'.subject) && Find(q, r'.subject).None?
    ensures AnswerAfter(Add(q, r, ts + 1).0, r', ts + 1, r.subject, ts + 1) == None
  {
    hide Add, QuarantineOk, Displaced, OthersMadeAt, Find, HasRoom, StampOf, AnswerAfter;
    RefreshedIsDisplaced(q, r, r'.subject, ts);
    AddedRuns(q, r, ts + 1);
    AnswerIsExact(Add(q, r, ts + 1).0, r', ts + 1, r.subject, ts + 1);
  }

  lemma AnewAnswers(p: Quarantine, r: Request, r': Request, ts: u32)
    requires QuarantineOk(p) && p.initialized && p.stats.active < MAX_ENTRIES && ts < UINT32_MAX
    requires SubjectValid(r.subject) && Find(p, r.subject).None? && OthersMadeAt(p, r.subject, ts)
    requires r'.subject != r.subject && !IsExpired(NewEntry(p.config, r, ts + 1), ts + 1)
    ensures AnswerAfter(Add(p, r, ts + 1).0, r', ts + 1, r.subject, ts + 1).Some?
  {
    hide Add, QuarantineOk, Displaced, OthersMadeAt, Find, HasRoom, StampOf, AnswerAfter;
    MadeAnewStays(p, r, r'.subject, ts);
    AddedRuns(p, r, ts + 1);
    AnswerIsExact(Add(p, r, ts + 1).0, r', ts + 1, r.subject, ts + 1);
  }

  lemma AddedRuns(q: Quarantine, r: Request, ts: u32)
    requires QuarantineOk(q)
    ensures var q' := Add(q, r, ts).0; QuarantineOk(q') && q'.initialized == q.initialized && q'.config == q.config
  {
    AddKeepsOk(q, r, ts);
  }

  /** Adds and removals answer nothing. */
  lemma AddIsSilent(q: Quarantine, op: QOp, rest: seq<QOp>)
    requires !op.CheckOp?
    ensures Essences(q, [op] + rest) == Essences(StepOp(q, op), rest)
  {
    hide Check, Add;
    assert ([op] + rest)[1..] == rest;
  }

  /** Strangers fill up both tables. */
  lemma {:induction false} FullerTells(p: Quarantine, q: Quarantine, x: Subject, ts: u32) returns (ops: seq<QOp>)
    requires QuarantineOk(p) && QuarantineOk(q) && p.initialized && q.initialized && p.config == q.config
    requires q.config.evictLru && p.stats.active < q.stats.active && 0 < ts < UINT32_MAX
    requires Find(q, x).Some? && StampOf()(Find(q, x).value) < ts && Find(p, x).None?
    requires OthersMadeAt(p, x, ts) && OthersMadeAt(q, x, ts)
    ensures OpsNotBefore(ops, ts) && Essences(p, ops) != Essences(q, ops)
    decreases MAX_ENTRIES - q.stats.active
  {
    hide Add, QuarantineOk, OthersMadeAt, Find, StampOf, Essences, HasRoom;
    ActiveBound(q);
    if q.stats.active == MAX_ENTRIES {
      ops := RefreshTells(p, q, x, ts);
    } else {
      var y := Stranger(p, q);
      var r := Lasting(q, y, ts);
      var op := AddOp(r, ts);
      AddCounts(p, r, ts);
      AddCounts(q, r, ts);
      StrangerMadeAt(p, x, r, ts);
      StrangerMadeAt(q, x, r, ts);
      var rest := FullerTells(StepOp(p, op), StepOp(q, op), x, ts);
      ops := [op] + rest;
      assert ops[1..] == rest;
      AddIsSilent(p, op, rest);
      AddIsSilent(q, op, rest);
    }
  }

  lemma StrangerMadeAt(q: Quarantine, x: Subject, r: Request, ts: u32)
    requires QuarantineOk(q) && q.initialized && q.stats.active < MAX_ENTRIES && ts > 0 && OthersMadeAt(q, x, ts)
    requires SubjectValid(r.subject) && Find(q, r.subject).None? && r.subject != x
    ensures var q' := Add(q, r, ts).0; OthersMadeAt(q', x, ts) && Find(q', x) == Find(q, x)
  {
    hide Add, QuarantineOk, IsOldest, Full, Lookup, IndexOf, HasRoom;
    AddCounts(q, r, ts);
    AddIsExact(q, r, ts);
    FullIff(q);
    assert forall s :: !Displaced(q, r.subject, s);
  }

  /** Everyone but x is removed first. */
  lemma {:induction false} OlderTells(p: Quarantine, q: Quarantine, x: Subject, ts: u32) returns (ops: seq<QOp>)
    requires QuarantineOk(p) && QuarantineOk(q) && p.initialized && q.initialized && p.config == q.config
    requires q.config.evictLru && 0 < ts < UINT32_MAX && Within(p, q)
    requires Find(q, x).Some? && StampOf()(Find(q, x).value) < ts && Find(p, x).None?
    ensures OpsNotBefore(ops, ts) && Essences(p, ops) != Essences(q, ops)
    decreases q.stats.active + 1
  {
    hide Remove, QuarantineOk, Find, StampOf, Essences;
    WithinCounts(p, q, x);
    ActiveFloor(q);
    if s :| s != x && Find(q, s).Some? {
      var op := RemoveOp(s, ts);
      RemoveRefinesMap(p, s);
      RemoveRefinesMap(q, s);
      RemoveRuns(p, s);
      RemoveRuns(q, s);
      WithinCounts(StepOp(q, op), q, s);
      ActiveFloor(StepOp(q, op));
      var rest := OlderTells(StepOp(p, op), StepOp(q, op), x, ts);
      ops := [op] + rest;
      assert ops[1..] == rest;
      AddIsSilent(p, op, rest);
      AddIsSilent(q, op, rest);
    } else {
      ops := FullerTells(p, q, x, ts);
    }
  }

  lemma ActiveFloor(q: Quarantine)
    requires QuarantineOk(q)
    ensures q.stats.active >= 0
  {
  }

  lemma RemoveRuns(q: Quarantine, s: Subject)
    ensures Remove(q, s).0.initialized == q.initialized && Remove(q, s).0.config == q.config
  {
  }

  // ---- When whole runs cannot tell ----

  /** No entry was made or hit after t. */
  ghost predicate NotAhead(q: Quarantine, t: u32) {
    forall s :: Find(q, s).Some? ==> StampOf()(Find(q, s).value) <= t
  }

  /**
   * Collecting at t changes no answer's mode, source, expiry or risk in any run from t on exactly
   * when nothing has expired: any expired entry holds a slot, or a place in the order of eviction,
   * that some run comes to need.
   */
  lemma EssencesTellIff(q: Quarantine, t: u32)
    requires QuarantineOk(q) && q.initialized && (q.config.evictLru ==> NotAhead(q, t) && t + 1 < UINT32_MAX)
    ensures !SomeExpired(q, t) <==>
            forall ops :: OpsNotBefore(ops, t) ==> Essences(Expire(q, t), ops) == Essences(q, ops)
  {
    hide QuarantineOk, Essences, Expire;
    CollectingMakesRoom(q, t, NoSubject);
    if SomeExpired(q, t) {
      ExpireRefinesMap(q, t);
      ExpireKeepsConfig(q, t);
      CollectingCounts(q, t);
      var ops;
      if q.config.evictLru {
        var x := ExpiredSubject(q, t);
        ops := OlderTells(Expire(q, t), q, x, t + 1);
      } else {
        ops := FillingTells(Expire(q, t), q, t);
      }
      assert OpsNotBefore(ops, t);
    }
  }

  lemma ExpiredSubject(q: Quarantine, t: u32) returns (x: Subject)
    requires QuarantineOk(q) && SomeExpired(q, t)
    ensures Find(q, x).Some? && IsExpired(Find(q, x).value, t)
  {
    var i :| 0 <= i < |q.slots| && ExpiredAt(q, t, i);
    x := q.slots[i].entry.subject;
    LookupIs(q.slots, SubjectOf(), i);
  }

  lemma CollectingCounts(q: Quarantine, t: u32)
    requires QuarantineOk(q) && q.initialized && SomeExpired(q, t)
    ensures Expire(q, t).stats.active < q.stats.active
  {
    hide Expire, UsedCount;
    ExpireRefinesMap(q, t);
    var i :| 0 <= i < |q.slots| && ExpiredAt(q, t, i);
    LookupIs(q.slots, SubjectOf(), i);
    WithinCounts(Expire(q, t), q, q.slots[i].entry.subject);
  }

  // ---- Whole answers ----

  /** Every answer in a run. */
  ghost function AnswersIn(q: Quarantine, ops: seq<QOp>): seq<Option<QEntry>>
    decreases ops
  {
    if ops == [] then []
    else
      (if ops[0].CheckOp? then [Check(q, ops[0].subject, ops[0].ts).1] else []) + AnswersIn(StepOp(q, ops[0]), ops[1..])
  }

  /** With eviction or without: whole answers stay the same in every run exactly when nothing has expired. */
  lemma AnswersTellIff(q: Quarantine, t: u32)
    requires QuarantineOk(q) && q.initialized && t < UINT32_MAX
    ensures !SomeExpired(q, t) <==>
            forall ops :: OpsNotBefore(ops, t) ==> AnswersIn(Expire(q, t), ops) == AnswersIn(q, ops)
  {
    hide QuarantineOk, AnswersIn, Expire;
    CollectingMakesRoom(q, t, NoSubject);
    if SomeExpired(q, t) {
      var ops := AddingAgainTells(q, t);
    }
  }

  /** An expired subject added again, and checked. */
  lemma AddingAgainTells(q: Quarantine, t: u32) returns (ops: seq<QOp>)
    requires QuarantineOk(q) && q.initialized && t < UINT32_MAX && SomeExpired(q, t)
    ensures OpsNotBefore(ops, t) && AnswersIn(Expire(q, t), ops) != AnswersIn(q, ops)
  {
    hide Expire, AnswersIn, AnswerAfter, UsedCount, RoomNoticed;
    var i :| 0 <= i < |q.slots| && ExpiredAt(q, t, i);
    var e := q.slots[i].entry;
    LookupIs(q.slots, SubjectOf(), i);
    var ts: u32 := if e.createdAtMs == t then t + 1 else t;
    var r := Lasting(q, e.subject, ts);
    var op, check := AddOp(r, ts), CheckOp(e.subject, ts);
    ops := [op, check];
    assert ops[1..] == [check] && ops[1..][1..] == [] && OpsNotBefore(ops[1..], ts);
    CollectionIsNoticedIff(q, t, r, ts, e.subject, ts);
    TwoAnswers(q, op, check);
    TwoAnswers(Expire(q, t), op, check);
    assert AnswersIn(Expire(q, t), ops)[0] != AnswersIn(q, ops)[0];
  }

  lemma TwoAnswers(q: Quarantine, op: QOp, check: QOp)
    requires op.AddOp? && check.CheckOp?
    ensures AnswersIn(q, [op, check]) == [AnswerAfter(q, op.request, op.ts, check.subject, check.ts)]
  {
    hide Check, Add;
    var ops := [op, check];
    assert ops[1..] == [check] && [check][1..] == [];
    assert AnswersIn(StepOp(StepOp(q, op), check), []) == [];
    assert AnswersIn(StepOp(q, op), [check]) == [Check(StepOp(q, op), check.subject, check.ts).1];
  }
}
