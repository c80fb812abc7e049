/** The quarantine: subjects with a mode and an expiry, least-recently-hit eviction. */
module Quarantines {
  import opened Bytes
  import opened Slots

  const MAX_ENTRIES: nat := 64

  type Mac = s: seq<byte> | |s| == 6 witness Zeros(6)

  datatype Subject = NoSubject | Ip(ip: u32) | MacAddress(mac: Mac) | DeviceId(id: u32)

  datatype Mode = BlockAll | Restricted | LogOnly
  datatype Source = LocalPolicy | RateLimit | Swarm | Manual | UnknownSource

  datatype QEntry = QEntry(subject: Subject, mode: Mode, source: Source, createdAtMs: u32, expiresAtMs: u32,
                           lastHitMs: u32, hitCount: nat, risk: byte)

  datatype QConfig = QConfig(defaultTtlMs: u32, evictLru: bool)

  datatype QStats = QStats(active: int, added: nat, refreshed: nat, removed: nat, expired: nat, hits: nat,
                           misses: nat, evicted: nat, invalid: nat)

  datatype Quarantine = Quarantine(initialized: bool, slots: seq<Slot<QEntry>>, config: QConfig, stats: QStats)

  predicate SubjectValid(s: Subject) {
    match s
    case NoSubject => false
    case Ip(ip) => ip != 0
    case MacAddress(m) => !AllZero(m)
    case DeviceId(id) => id != 0
  }

  predicate IsExpired(e: QEntry, ts: u32) { e.expiresAtMs != 0 && ts >= e.expiresAtMs }

  function SubjectOf(): QEntry -> Subject { (e: QEntry) => e.subject }

  /** The eviction stamp: the last hit, or the creation time of an entry never hit. */
  function StampOf(): QEntry -> u32 { (e: QEntry) => if e.lastHitMs == 0 then e.createdAtMs else e.lastHitMs }

  function DeadAt(ts: u32): QEntry -> bool { (e: QEntry) => IsExpired(e, ts) }

  function Find(q: Quarantine, s: Subject): Option<QEntry> { Lookup(q.slots, SubjectOf(), s) }

  function UnusedQuarantine(): Quarantine {
    Quarantine(false, seq(MAX_ENTRIES, _ => Free), QConfig(0, false), QStats(0, 0, 0, 0, 0, 0, 0, 0, 0))
  }

  function InitialQuarantine(config: QConfig): Quarantine {
    Quarantine(true, seq(MAX_ENTRIES, _ => Free),
               config.(defaultTtlMs := if config.defaultTtlMs == 0 then 60000 else config.defaultTtlMs),
               QStats(0, 0, 0, 0, 0, 0, 0, 0, 0))
  }

  /** The entry of a subject, unless it has expired. */
  function LiveAt(q: Quarantine, s: Subject, ts: u32): Option<QEntry> {
    var e := Find(q, s);
    if e.Some? && IsExpired(e.value, ts) then None else e
  }

  // ---- Operations ----

  /** What an add asks for, with the defaults filled in. */
  datatype Request = Request(subject: Subject, mode: Mode, source: Source, ttlMs: u32, risk: byte)

  function Expiry(config: QConfig, r: Request, ts: u32): u32 {
    (ts + if r.ttlMs == 0 then config.defaultTtlMs else r.ttlMs) % U32
  }

  function Refreshed(config: QConfig, e: QEntry, r: Request, ts: u32): QEntry {
    e.(mode := r.mode, source := r.source, expiresAtMs := Expiry(config, r, ts),
       risk := if r.risk > 100 then 100 else r.risk)
  }

  function NewEntry(config: QConfig, r: Request, ts: u32): QEntry {
    QEntry(r.subject, r.mode, r.source, ts, Expiry(config, r, ts), 0, 0, if r.risk > 100 then 100 else r.risk)
  }

  /** `quarantine_manager_add` */
  ghost function Add(q: Quarantine, r: Request, ts: u32): (a: (Quarantine, Result<()>)) {
    if !q.initialized || !SubjectValid(r.subject) then
      (q.(stats := q.stats.(invalid := q.stats.invalid + 1)), Err(InvalidArg))
    else
      var i := IndexOf(q.slots, SubjectOf(), r.subject);
      if i < |q.slots| then
        (q.(slots := q.slots[i := Used(Refreshed(q.config, q.slots[i].entry, r, ts))],
            stats := q.stats.(refreshed := q.stats.refreshed + 1)), Ok(()))
      else match PlaceFor(q.slots, StampOf(), q.config.evictLru)
        case NoRoom => (q, Err(NoMem))
        case InFree(at) =>
          (q.(slots := q.slots[at := Used(NewEntry(q.config, r, ts))],
              stats := q.stats.(active := q.stats.active + 1, added := q.stats.added + 1)), Ok(()))
        case Evicting(at, _) =>
          (q.(slots := q.slots[at := Used(NewEntry(q.config, r, ts))],
              stats := q.stats.(evicted := q.stats.evicted + 1, added := q.stats.added + 1)), Ok(()))
  }

  function Hit(e: QEntry, ts: u32): QEntry { e.(hitCount := e.hitCount + 1, lastHitMs := ts) }

  /** `quarantine_manager_check`: the live entry after the hit is recorded, or nothing. */
  function Check(q: Quarantine, s: Subject, ts: u32): (r: (Quarantine, Option<QEntry>)) {
    if !q.initialized || !SubjectValid(s) then (q.(stats := q.stats.(invalid := q.stats.invalid + 1)), None)
    else
      var i := IndexOf(q.slots, SubjectOf(), s);
      if i == |q.slots| then (q.(stats := q.stats.(misses := q.stats.misses + 1)), None)
      else if IsExpired(q.slots[i].entry, ts) then
        (q.(slots := q.slots[i := Free],
            stats := q.stats.(active := q.stats.active - 1, expired := q.stats.expired + 1,
                              misses := q.stats.misses + 1)), None)
      else
        var e := Hit(q.slots[i].entry, ts);
        (q.(slots := q.slots[i := Used(e)], stats := q.stats.(hits := q.stats.hits + 1)), Some(e))
  }

  function Remove(q: Quarantine, s: Subject): (r: (Quarantine, bool)) {
    if !q.initialized || !SubjectValid(s) then (q, false)
    else
      var i := IndexOf(q.slots, SubjectOf(), s);
      if i == |q.slots| then (q, false)
      else (q.(slots := q.slots[i := Free],
               stats := q.stats.(active := q.stats.active - 1, removed := q.stats.removed + 1)), true)
  }

  function Expire(q: Quarantine, ts: u32): Quarantine {
    if !q.initialized then q
    else
      var slots := Expired(q.slots, DeadAt(ts));
      var n := UsedCount(q.slots) - UsedCount(slots);
      var expired := q.stats.expired + if n < 0 then 0 else n;
      q.(slots := slots, stats := q.stats.(active := q.stats.active - n, expired := expired))
  }

  // ---- Invariant and map view ----

  /** One slot per subject, valid subjects only, and active = added - evicted - expired - removed. */
  ghost predicate QuarantineOk(q: Quarantine) {
    && |q.slots| == MAX_ENTRIES && Unique(q.slots, SubjectOf())
    && (forall k :: 0 <= k < |q.slots| && q.slots[k].Used? ==> SubjectValid(q.slots[k].entry.subject))
    && q.stats.active == UsedCount(q.slots)
    && q.stats.active == q.stats.added - q.stats.evicted - q.stats.expired - q.stats.removed
  }

  /** The entry of a subject after an add: refreshed where it was, or new. */
  function Added(q: Quarantine, r: Request, ts: u32): QEntry {
    match Find(q, r.subject)
    case Some(e) => Refreshed(q.config, e, r, ts)
    case None => NewEntry(q.config, r, ts)
  }

  /** An add sets its subject, and costs another subject its entry only when it counts an eviction. */
  ghost predicate AddEffect(q: Quarantine, q': Quarantine, r: Request, ts: u32, result: Result<()>) {
    && (result.Err? ==> q'.slots == q.slots && q'.stats.evicted == q.stats.evicted)
    && (result.Ok? ==>
          && SubjectValid(r.subject) && q.initialized
          && Find(q', r.subject) == Some(Added(q, r, ts))
          && (q'.stats.evicted == q.stats.evicted ==> forall s :: s != r.subject ==> Find(q', s) == Find(q, s))
          && (q'.stats.evicted != q.stats.evicted ==>
                && q'.stats.evicted == q.stats.evicted + 1 && q.stats.active == MAX_ENTRIES
                && exists v: QEntry :: GaveUp(q, q', r.subject, v)))
  }

  /** Exactly v was given up for the new subject; no other was hit, or made and never hit, before it was. */
  ghost predicate GaveUp(q: Quarantine, q': Quarantine, subject: Subject, v: QEntry) {
    && Find(q, v.subject) == Some(v)
    && (forall s :: Find(q, s).Some? ==>
          var e := Find(q, s).value;
          (if v.lastHitMs == 0 then v.createdAtMs else v.lastHitMs) <=
          if e.lastHitMs == 0 then e.createdAtMs else e.lastHitMs)
    && (forall s :: s != subject ==> Find(q', s) == if s == v.subject then None else Find(q, s))
  }

  lemma AddKeepsOk(q: Quarantine, r: Request, ts: u32)
    requires QuarantineOk(q)
    ensures QuarantineOk(Add(q, r, ts).0)
  {
    if q.initialized && SubjectValid(r.subject) {
      var i := IndexOf(q.slots, SubjectOf(), r.subject);
      if i < |q.slots| {
        var e := Refreshed(q.config, q.slots[i].entry, r, ts);
        LookupWrite(q.slots, SubjectOf(), i, e);
        UsedCountUpdate(q.slots, i, Used(e));
      } else {
        match PlaceFor(q.slots, StampOf(), q.config.evictLru)
        case NoRoom =>
        case InFree(at) => PlaceInFree(q.slots, SubjectOf(), at, NewEntry(q.config, r, ts));
        case Evicting(at, v) => PlaceOverVictim(q.slots, SubjectOf(), at, NewEntry(q.config, r, ts));
      }
    }
  }

  lemma AddRefinesMap(q: Quarantine, r: Request, ts: u32)
    requires QuarantineOk(q)
    ensures var (q', result) := Add(q, r, ts); AddEffect(q, q', r, ts, result)
  {
    var (q', result) := Add(q, r, ts);
    if q.initialized && SubjectValid(r.subject) {
      var i := IndexOf(q.slots, SubjectOf(), r.subject);
      if i < |q.slots| {
        LookupWrite(q.slots, SubjectOf(), i, Refreshed(q.config, q.slots[i].entry, r, ts));
      } else {
        match PlaceFor(q.slots, StampOf(), q.config.evictLru)
        case NoRoom =>
        case InFree(at) => PlaceInFree(q.slots, SubjectOf(), at, NewEntry(q.config, r, ts));
        case Evicting(at, v) =>
          EvictionGaveUp(q, r, ts, at, v);
          FreeIffRoom(q.slots);
      }
    }
  }

  /** The subject has an entry, or one can be made for it. */
  ghost predicate HasRoom(q: Quarantine, s: Subject) { RoomFor(q.slots, SubjectOf(), s, StampOf(), q.config.evictLru) }

  /** A request is accepted exactly when the quarantine runs, the subject is valid and there is room for it. */
  lemma AcceptedIff(q: Quarantine, r: Request, ts: u32)
    ensures Add(q, r, ts).1.Ok? <==> q.initialized && SubjectValid(r.subject) && HasRoom(q, r.subject)
  {
    hide PlaceFor;
    if Find(q, r.subject).None? {
      RoomIffPlaced(q.slots, SubjectOf(), r.subject, StampOf(), q.config.evictLru);
    }
  }

  /** A check of a subject never takes its room away. */
  lemma CheckKeepsRoom(q: Quarantine, s: Subject, ts: u32)
    requires QuarantineOk(q) && q.initialized && HasRoom(q, s)
    ensures HasRoom(Check(q, s, ts).0, s)
  {
    CheckRefinesMap(q, s, ts);
    var i := IndexOf(q.slots, SubjectOf(), s);
    if SubjectValid(s) && i < |q.slots| && IsExpired(q.slots[i].entry, ts) {
      assert Check(q, s, ts).0.slots[i].Free?;
    }
  }

  lemma EvictionGaveUp(q: Quarantine, r: Request, ts: u32, at: nat, v: QEntry)
    requires QuarantineOk(q) && Find(q, r.subject).None?
             && PlaceFor(q.slots, StampOf(), q.config.evictLru) == Evicting(at, v)
    ensures var q' := q.(slots := q.slots[at := Used(NewEntry(q.config, r, ts))],
                         stats := q.stats.(evicted := q.stats.evicted + 1, added := q.stats.added + 1));
            GaveUp(q, q', r.subject, v) && Find(q', r.subject) == Some(NewEntry(q.config, r, ts))
  {
    PlaceOverVictim(q.slots, SubjectOf(), at, NewEntry(q.config, r, ts));
    forall s | Find(q, s).Some? ensures StampOf()(v) <= StampOf()(Find(q, s).value) {
      VictimIsOldest(q.slots, SubjectOf(), StampOf(), at, s);
    }
  }

  /** A check hits exactly the unexpired entry of its subject, and touches no other subject. */
  ghost predicate CheckEffect(q: Quarantine, q': Quarantine, s: Subject, ts: u32, r: Option<QEntry>) {
    && q'.initialized == q.initialized && q'.stats.evicted == q.stats.evicted && q'.config == q.config
    && (q.initialized && Find(q, s).Some? && !IsExpired(Find(q, s).value, ts) ==>
          var e := Find(q, s).value; r == Some(e.(hitCount := e.hitCount + 1, lastHitMs := ts)))
    && (!(q.initialized && Find(q, s).Some? && !IsExpired(Find(q, s).value, ts)) ==> r == None)
    && (q.initialized ==> Find(q', s) == r)
    && forall x :: x != s ==> Find(q', x) == Find(q, x)
  }

  lemma CheckRefinesMap(q: Quarantine, s: Subject, ts: u32)
    requires QuarantineOk(q)
    ensures var (q', r) := Check(q, s, ts); QuarantineOk(q') && CheckEffect(q, q', s, ts, r)
  {
    if q.initialized && SubjectValid(s) {
      var i := IndexOf(q.slots, SubjectOf(), s);
      if i < |q.slots| {
        if IsExpired(q.slots[i].entry, ts) {
          LookupClear(q.slots, SubjectOf(), i);
          UsedCountUpdate(q.slots, i, Free);
        } else {
          var e := Hit(q.slots[i].entry, ts);
          LookupWrite(q.slots, SubjectOf(), i, e);
          UsedCountUpdate(q.slots, i, Used(e));
        }
      }
    }
  }

  lemma RemoveRefinesMap(q: Quarantine, s: Subject)
    requires QuarantineOk(q)
    ensures var (q', removed) := Remove(q, s);
            && QuarantineOk(q') && (removed <==> q.initialized && Find(q, s).Some?)
            && forall x :: Find(q', x) == if x == s && removed then None else Find(q, x)
  {
    if q.initialized && SubjectValid(s) {
      var i := IndexOf(q.slots, SubjectOf(), s);
      if i < |q.slots| {
        LookupClear(q.slots, SubjectOf(), i);
        UsedCountUpdate(q.slots, i, Free);
      }
    }
  }

  lemma ExpireRefinesMap(q: Quarantine, ts: u32)
    requires QuarantineOk(q) && q.initialized
    ensures QuarantineOk(Expire(q, ts))
    ensures forall s :: Find(Expire(q, ts), s) == LiveAt(q, s, ts)
  {
    ExpiredCount(q.slots, DeadAt(ts));
    forall s ensures Find(Expire(q, ts), s) == LiveAt(q, s, ts) {
      LookupExpired(q.slots, SubjectOf(), DeadAt(ts), s);
    }
    LookupExpired(q.slots, SubjectOf(), DeadAt(ts), NoSubject);
  }

  // ---- What a request is worth ----

  /** The subjects that can be confined: everything but nobody, and the three kinds of zero. */
  lemma SubjectValidIff(s: Subject)
    ensures SubjectValid(s) <==> s !in {NoSubject, Ip(0), MacAddress(Zeros(6)), DeviceId(0)}
  {
    if s.MacAddress? && AllZero(s.mac) {
      assert s.mac == Zeros(6);
    }
  }

  /**
   * A request that is accepted at ts holds exactly until its time is over: from ts on, a check
   * answers with its mode, source and risk, no more than 100, before ts plus its time to live, or
   * the default one, and with nothing from then on.
   */
  lemma RequestHolds(q: Quarantine, r: Request, ts: u32, u: u32)
    requires QuarantineOk(q) && Add(q, r, ts).1.Ok? && ts <= u
    requires var ttl := if r.ttlMs == 0 then q.config.defaultTtlMs else r.ttlMs; 0 < ttl && ts + ttl < U32
    ensures var ttl := if r.ttlMs == 0 then q.config.defaultTtlMs else r.ttlMs;
            var a := Check(Add(q, r, ts).0, r.subject, u).1;
            && (a.Some? <==> u < ts + ttl)
            && (a.Some? ==>
                  && a.value.subject == r.subject && a.value.mode == r.mode && a.value.source == r.source
                  && a.value.expiresAtMs == ts + ttl && a.value.risk == Min(r.risk, 100) && a.value.lastHitMs == u)
  {
    hide Add, Check, QuarantineOk, Find;
    AddKeepsOk(q, r, ts);
    AddRefinesMap(q, r, ts);
    AddStaysReady(q, r, ts);
    FoundUnder(q, r.subject);
    CheckRefinesMap(Add(q, r, ts).0, r.subject, u);
  }

  lemma AddStaysReady(q: Quarantine, r: Request, ts: u32)
    ensures Add(q, r, ts).0.initialized == q.initialized && Add(q, r, ts).0.config == q.config
  {
  }

  lemma FoundUnder(q: Quarantine, s: Subject)
    ensures Find(q, s).Some? ==> Find(q, s).value.subject == s
  {
  }

  /** A request for a subject that has an entry refreshes it and keeps its history; any other starts one. */
  lemma HistoryOfRequest(q: Quarantine, r: Request, ts: u32)
    requires QuarantineOk(q) && Add(q, r, ts).1.Ok?
    ensures var e := Find(Add(q, r, ts).0, r.subject);
            && e.Some?
            && match Find(q, r.subject)
               case Some(was) =>
                 && e.value.createdAtMs == was.createdAtMs && e.value.lastHitMs == was.lastHitMs
                 && e.value.hitCount == was.hitCount
               case None => e.value.createdAtMs == ts && e.value.lastHitMs == 0 && e.value.hitCount == 0
  {
    hide Add, QuarantineOk, Find;
    AddRefinesMap(q, r, ts);
  }

  /** Every operation is counted once, by what came of it. */
  lemma RequestsAreCounted(q: Quarantine, r: Request, ts: u32)
    ensures var (q', a) := Add(q, r, ts); var s, s' := q.stats, q'.stats;
            var known := Find(q, r.subject).Some?;
            && s'.invalid == s.invalid + (if a == Err(InvalidArg) then 1 else 0)
            && s'.refreshed == s.refreshed + (if a.Ok? && known then 1 else 0)
            && s'.added == s.added + (if a.Ok? && !known then 1 else 0)
            && s'.hits == s.hits && s'.misses == s.misses && s'.expired == s.expired && s'.removed == s.removed
            && (a == Err(InvalidArg) <==> !q.initialized || !SubjectValid(r.subject))
            && (a.Err? ==> a.error in {InvalidArg, NoMem})
  {
    hide PlaceFor;
  }

  lemma ChecksAreCounted(q: Quarantine, s: Subject, ts: u32)
    ensures var (q', a) := Check(q, s, ts); var t, t' := q.stats, q'.stats;
            var heard := q.initialized && SubjectValid(s);
            && t'.hits == t.hits + (if a.Some? then 1 else 0)
            && t'.misses == t.misses + (if heard && a.None? then 1 else 0)
            && t'.invalid == t.invalid + (if heard then 0 else 1)
            && t'.added == t.added && t'.refreshed == t.refreshed && t'.removed == t.removed
  {
  }

  // ---- Garbage collection is invisible ----

  datatype Query = Query(subject: Subject, ts: u32)

  /** The answers to a series of checks. */
  function Answers(q: Quarantine, queries: seq<Query>): seq<Option<QEntry>>
    decreases queries
  {
    if queries == [] then []
    else
      var (q', r) := Check(q, queries[0].subject, queries[0].ts);
      [r] + Answers(q', queries[1..])
  }

  predicate NotBefore(queries: seq<Query>, ts: u32) {
    queries == [] || (ts <= queries[0].ts && NotBefore(queries[1..], queries[0].ts))
  }

  /** The two quarantines agree on everything that has not expired by ts. */
  ghost predicate SameLive(p: Quarantine, q: Quarantine, ts: u32) {
    p.initialized == q.initialized && forall s :: LiveAt(p, s, ts) == LiveAt(q, s, ts)
  }

  lemma EffectsKeepSameLive(p: Quarantine, p': Quarantine, q: Quarantine, q': Quarantine, s: Subject, t: u32, ts: u32,
                            rp: Option<QEntry>, rq: Option<QEntry>)
    requires SameLive(p, q, t) && t <= ts && p.initialized
    requires CheckEffect(p, p', s, ts, rp) && CheckEffect(q, q', s, ts, rq)
    ensures rp == rq && SameLive(p', q', ts)
  {
    assert LiveAt(p, s, t) == LiveAt(q, s, t);
    forall x ensures LiveAt(p', x, ts) == LiveAt(q', x, ts) {
      assert LiveAt(p, x, t) == LiveAt(q, x, t);
    }
  }

  lemma {:induction false} SameLiveSameAnswers(p: Quarantine, q: Quarantine, queries: seq<Query>, t: u32)
    requires QuarantineOk(p) && QuarantineOk(q) && SameLive(p, q, t) && p.initialized && NotBefore(queries, t)
    ensures Answers(p, queries) == Answers(q, queries)
    decreases queries
  {
    if queries != [] {
      var s, ts := queries[0].subject, queries[0].ts;
      CheckRefinesMap(p, s, ts);
      CheckRefinesMap(q, s, ts);
      var (p', rp) := Check(p, s, ts);
      var (q', rq) := Check(q, s, ts);
      EffectsKeepSameLive(p, p', q, q', s, t, ts, rp, rq);
      SameLiveSameAnswers(p', q', queries[1..], ts);
    }
  }

  /** Collecting expired entries at time t changes no answer of any series of checks from then on. */
  lemma ExpiryIsInvisible(q: Quarantine, t: u32, queries: seq<Query>)
    requires QuarantineOk(q) && q.initialized && NotBefore(queries, t)
    ensures Answers(Expire(q, t), queries) == Answers(q, queries)
  {
    ExpireRefinesMap(q, t);
    assert SameLive(Expire(q, t), q, t);
    SameLiveSameAnswers(Expire(q, t), q, queries, t);
  }

  // ---- The quarantine as the firmware keeps it ----

  class QuarantineManager {
    const slots: array<Slot<QEntry>>
    var config: QConfig
    var stats: QStats
    var initialized: bool

    ghost predicate Valid()
      reads this, slots
    {
      QuarantineOk(Abs())
    }

    ghost function Abs(): Quarantine
      reads this, slots
    {
      Quarantine(initialized, slots[..], config, stats)
    }

    /** Static storage before initialisation: empty, and not usable yet. */
    constructor ()
      ensures Valid() && fresh(slots) && Abs() == UnusedQuarantine()
    {
      slots := new Slot<QEntry>[MAX_ENTRIES](_ => Free);
      config := QConfig(0, false);
      stats := QStats(0, 0, 0, 0, 0, 0, 0, 0, 0);
      initialized := false;
      new;
      assert slots[..] == UnusedQuarantine().slots;
      UsedCountAllFree(slots[..]);
    }

    method Init(c: QConfig)
      requires slots.Length == MAX_ENTRIES
      modifies this, slots
      ensures Valid() && Abs() == InitialQuarantine(c)
      ensures config.defaultTtlMs == (if c.defaultTtlMs == 0 then 60000 else c.defaultTtlMs)
              && config.evictLru == c.evictLru && stats == QStats(0, 0, 0, 0, 0, 0, 0, 0, 0)
    {
      forall i | 0 <= i < slots.Length {
        slots[i] := Free;
      }
      stats := QStats(0, 0, 0, 0, 0, 0, 0, 0, 0);
      config := c;
      if config.defaultTtlMs == 0 {
        config := config.(defaultTtlMs := 60000);
      }
      initialized := true;
      assert slots[..] == InitialQuarantine(c).slots;
      UsedCountAllFree(slots[..]);
    }

    method AddSubject(r: Request, ts: u32) returns (result: Result<()>)
      requires Valid()
      modifies this, slots
      ensures Valid() && (Abs(), result) == Add(old(Abs()), r, ts)
    {
      hide QuarantineOk, PlaceFor, IndexOf, Refreshed, NewEntry;
      AddKeepsOk(Abs(), r, ts);
      if !initialized || !SubjectValid(r.subject) {
        stats := stats.(invalid := stats.invalid + 1);
        return Err(InvalidArg);
      }
      var i := FindKey(slots, SubjectOf(), r.subject);
      if i < slots.Length {
        slots[i] := Used(Refreshed(config, slots[i].entry, r, ts));
        stats := stats.(refreshed := stats.refreshed + 1);
        return Ok(());
      }
      var p := FindPlace(slots, StampOf(), config.evictLru);
      if p.NoRoom? {
        return Err(NoMem);
      }
      if p.Evicting? {
        stats := stats.(active := stats.active - 1, evicted := stats.evicted + 1);
      }
      slots[p.at] := Used(NewEntry(config, r, ts));
      stats := stats.(active := stats.active + 1, added := stats.added + 1);
      return Ok(());
    }

    method CheckSubject(s: Subject, ts: u32) returns (r: Option<QEntry>)
      requires Valid()
      modifies this, slots
      ensures Valid() && (Abs(), r) == Check(old(Abs()), s, ts)
    {
      hide QuarantineOk, IndexOf, CheckEffect, Hit;
      CheckRefinesMap(Abs(), s, ts);
      if !initialized || !SubjectValid(s) {
        stats := stats.(invalid := stats.invalid + 1);
        return None;
      }
      var i := FindKey(slots, SubjectOf(), s);
      if i == slots.Length {
        stats := stats.(misses := stats.misses + 1);
        return None;
      }
      if IsExpired(slots[i].entry, ts) {
        slots[i] := Free;
        stats := stats.(active := stats.active - 1, expired := stats.expired + 1, misses := stats.misses + 1);
        return None;
      }
      slots[i] := Used(Hit(slots[i].entry, ts));
      stats := stats.(hits := stats.hits + 1);
      return Some(slots[i].entry);
    }

    method RemoveSubject(s: Subject) returns (removed: bool)
      requires Valid()
      modifies this, slots
      ensures Valid() && (Abs(), removed) == Remove(old(Abs()), s)
    {
      hide QuarantineOk, IndexOf;
      RemoveRefinesMap(Abs(), s);
      if !initialized || !SubjectValid(s) {
        return false;
      }
      var i := FindKey(slots, SubjectOf(), s);
      if i == slots.Length {
        return false;
      }
      slots[i] := Free;
      stats := stats.(active := stats.active - 1, removed := stats.removed + 1);
      return true;
    }

    method ExpireOld(ts: u32) returns (n: nat)
      requires Valid()
      modifies this, slots
      ensures Valid() && Abs() == Expire(old(Abs()), ts)
    {
      if !initialized {
        return 0;
      }
      ExpireRefinesMap(Abs(), ts);
      n := ExpireAll(slots, DeadAt(ts));
      stats := stats.(active := stats.active - n, expired := stats.expired + n);
    }
  }
}
