/** The rate limiter: one fixed-window bucket per flow and direction, least-recently-seen eviction. */
module RateLimits {
  import opened Bytes
  import opened Slots
  import opened Flows
  import opened Policies
  import opened RateWindows

  const MAX_BUCKETS: nat := 128
  const MAX_RATE_RULES: nat := 32

  datatype BucketKey = BucketKey(key: FlowKey, direction: Direction)

  datatype Bucket = Bucket(key: BucketKey, startMs: u32, lastSeenMs: u32, packets: nat, bytes: nat)

  datatype RateRule = RateRule(id: u32, enabled: bool, priority: u16, pattern: Pattern, params: Params,
                               suggestQuarantine: bool)

  datatype RateConfig = RateConfig(defaults: Params, maxIdleMs: u32, evictLru: bool)

  datatype RateStats = RateStats(active: int, checks: nat, allowed: nat, exceeded: nat, created: nat, evicted: nat,
                                 expired: nat, invalid: nat)

  datatype Limiter = Limiter(initialized: bool, buckets: seq<Slot<Bucket>>, rules: seq<Slot<RateRule>>,
                             config: RateConfig, stats: RateStats)

  datatype Verdict = Pass | Over(suggestQuarantine: bool) | Failure(error: Error)

  function UnusedLimiter(): Limiter {
    Limiter(false, seq(MAX_BUCKETS, _ => Free), seq(MAX_RATE_RULES, _ => Free),
            RateConfig(Params(0, 0, 0), 0, false), RateStats(0, 0, 0, 0, 0, 0, 0, 0))
  }

  function InitialLimiter(c: RateConfig): Limiter {
    var window := if c.defaults.windowMs == 0 then 1000 else c.defaults.windowMs;
    Limiter(true, seq(MAX_BUCKETS, _ => Free), seq(MAX_RATE_RULES, _ => Free),
            RateConfig(c.defaults.(windowMs := window), if c.maxIdleMs == 0 then 60000 else c.maxIdleMs, c.evictLru),
            RateStats(0, 0, 0, 0, 0, 0, 0, 0))
  }

  function BucketKeyOf(): Bucket -> BucketKey { (b: Bucket) => b.key }

  function LastSeenOf(): Bucket -> u32 { (b: Bucket) => b.lastSeenMs }

  function Idle(maxIdleMs: u32, ts: u32): Bucket -> bool { (b: Bucket) => Sub32(ts, b.lastSeenMs) > maxIdleMs }

  function RateMatcher(k: BucketKey): RateRule -> bool {
    (r: RateRule) => r.enabled && PatternMatches(r.pattern, k.key, k.direction)
  }

  function RatePriority(): RateRule -> u16 { (r: RateRule) => r.priority }

  /** The best matching rule's parameters and quarantine hint, or the defaults. */
  function ParamsFor(l: Limiter, k: BucketKey): (Params, bool) {
    var i := Best(l.rules, RateMatcher(k), RatePriority());
    var (p, s) :=
      if i < |l.rules| then (l.rules[i].entry.params, l.rules[i].entry.suggestQuarantine)
      else (l.config.defaults, false);
    (if p.windowMs == 0 then p.(windowMs := 1000) else p, s)
  }

  /** Slot i holds an enabled rule for the key that no other one outranks; the later of two equals ranks higher. */
  ghost predicate Prevails(rules: seq<Slot<RateRule>>, k: BucketKey, i: nat) {
    && i < |rules| && rules[i].Used? && RuleFor(rules[i].entry, k)
    && forall j :: 0 <= j < |rules| && j != i && rules[j].Used? && RuleFor(rules[j].entry, k) ==>
         if j < i then rules[j].entry.priority <= rules[i].entry.priority
         else rules[j].entry.priority < rules[i].entry.priority
  }

  predicate RuleFor(r: RateRule, k: BucketKey) { r.enabled && PatternMatches(r.pattern, k.key, k.direction) }

  /** A zero window means a second. */
  function Effective(p: Params): Params {
    Params(if p.windowMs == 0 then 1000 else p.windowMs, p.maxPackets, p.maxBytes)
  }

  /**
   * A key is held to the parameters of the prevailing rule, with its quarantine hint, and to the
   * defaults, without a hint, exactly when no enabled rule matches it.
   */
  lemma ParamsAreThoseOfBestRule(l: Limiter, k: BucketKey)
    ensures forall i: nat :: Prevails(l.rules, k, i) ==>
              ParamsFor(l, k) == (Effective(l.rules[i].entry.params), l.rules[i].entry.suggestQuarantine)
    ensures (forall i: nat :: !Prevails(l.rules, k, i)) ==> ParamsFor(l, k) == (Effective(l.config.defaults), false)
    ensures (exists i: nat :: Prevails(l.rules, k, i)) <==>
            exists j :: 0 <= j < |l.rules| && l.rules[j].Used? && RuleFor(l.rules[j].entry, k)
  {
    hide PatternMatches;
    var b := Best(l.rules, RateMatcher(k), RatePriority());
    if b < |l.rules| {
      assert Prevails(l.rules, k, b);
    }
  }

  function Find(l: Limiter, k: BucketKey): Option<Bucket> { Lookup(l.buckets, BucketKeyOf(), k) }

  /** Count a packet, with the elapsed time in unsigned 32-bit arithmetic. */
  function CountPacket(p: Params, b: Bucket, bytes: u32, ts: u32): Bucket {
    if Sub32(ts, b.startMs) >= p.windowMs then b.(startMs := ts, lastSeenMs := ts, packets := 1, bytes := bytes)
    else b.(lastSeenMs := ts, packets := b.packets + 1, bytes := b.bytes + bytes)
  }

  function WindowOf(b: Bucket): Window { Window(b.startMs, b.lastSeenMs, b.packets, b.bytes) }

  function NewBucket(k: BucketKey, ts: u32): Bucket { Bucket(k, ts, ts, 0, 0) }

  /** Where the key's bucket is, or can be made: the slot and the counters afterwards. */
  ghost function Obtain(l: Limiter, k: BucketKey): Option<(nat, RateStats)>
  {
    var i := IndexOf(l.buckets, BucketKeyOf(), k);
    if i < |l.buckets| then Some((i, l.stats))
    else match PlaceFor(l.buckets, LastSeenOf(), l.config.evictLru)
      case NoRoom => None
      case InFree(at) => Some((at, l.stats.(active := l.stats.active + 1, created := l.stats.created + 1)))
      case Evicting(at, _) => Some((at, l.stats.(created := l.stats.created + 1, evicted := l.stats.evicted + 1)))
  }

  function Counted(p: Params, b: Option<Bucket>, k: BucketKey, bytes: u32, ts: u32): Bucket {
    CountPacket(p, if b.Some? then b.value else NewBucket(k, ts), bytes, ts)
  }

  /** `rate_limiter_check` */
  ghost function Check(l: Limiter, k: BucketKey, bytes: u32, ts: u32): (r: (Limiter, Verdict)) {
    if !l.initialized then (l.(stats := l.stats.(invalid := l.stats.invalid + 1)), Failure(InvalidArg))
    else
      var (p, suggest) := ParamsFor(l, k);
      match Obtain(l, k)
      case None => (l.(stats := l.stats.(checks := l.stats.checks + 1, invalid := l.stats.invalid + 1)), Failure(NoMem))
      case Some(place) =>
        var b := Counted(p, Find(l, k), k, bytes, ts);
        var over := Exceeded(p, WindowOf(b));
        var s := place.1;
        var s' := if over then s.(checks := s.checks + 1, exceeded := s.exceeded + 1)
                  else s.(checks := s.checks + 1, allowed := s.allowed + 1);
        (l.(buckets := Put(l.buckets, place.0, b), stats := s'), if over then Over(suggest) else Pass)
  }

  function Put<T>(slots: seq<Slot<T>>, i: nat, e: T): seq<Slot<T>> {
    if i < |slots| then slots[i := Used(e)] else slots
  }

  function Expire(l: Limiter, ts: u32): Limiter {
    if !l.initialized then l
    else
      var buckets := Expired(l.buckets, Idle(l.config.maxIdleMs, ts));
      var n := UsedCount(l.buckets) - UsedCount(buckets);
      var expired := l.stats.expired + if n < 0 then 0 else n;
      l.(buckets := buckets, stats := l.stats.(active := l.stats.active - n, expired := expired))
  }

  ghost predicate LimiterOk(l: Limiter) {
    && |l.buckets| == MAX_BUCKETS && Unique(l.buckets, BucketKeyOf())
    && l.stats.active == UsedCount(l.buckets) == l.stats.created - l.stats.evicted - l.stats.expired
  }

  // ---- One check ----

  /** The checked key gets its counted bucket; other keys keep theirs unless one is evicted. */
  ghost predicate CheckEffect(l: Limiter, l': Limiter, k: BucketKey, bytes: u32, ts: u32, v: Verdict) {
    && l'.initialized == l.initialized && l'.rules == l.rules && l'.config == l.config
    && (v.Failure? ==> l'.buckets == l.buckets)
    && (!v.Failure? ==>
          var b := Counted(ParamsFor(l, k).0, Find(l, k), k, bytes, ts);
          && Find(l', k) == Some(b)
          && v == (if Exceeded(ParamsFor(l, k).0, WindowOf(b)) then Over(ParamsFor(l, k).1) else Pass)
          && OthersKept(l, l'.buckets, k, l'.stats.evicted))
  }

  /** The other buckets are as they were, or exactly the one least recently seen was given up for k. */
  ghost predicate OthersKept(l: Limiter, buckets: seq<Slot<Bucket>>, k: BucketKey, evicted: nat) {
    && (evicted == l.stats.evicted ==> forall q :: q != k ==> Lookup(buckets, BucketKeyOf(), q) == Find(l, q))
    && (evicted != l.stats.evicted ==>
          && evicted == l.stats.evicted + 1 && l.stats.active == MAX_BUCKETS && Find(l, k).None?
          && exists v: Bucket :: GaveUp(l, buckets, k, v))
  }

  ghost predicate GaveUp(l: Limiter, buckets: seq<Slot<Bucket>>, k: BucketKey, v: Bucket) {
    && Find(l, v.key) == Some(v)
    && (forall q :: Find(l, q).Some? ==> v.lastSeenMs <= Find(l, q).value.lastSeenMs)
    && (forall q :: q != k ==> Lookup(buckets, BucketKeyOf(), q) == if q == v.key then None else Find(l, q))
  }

  lemma ObtainFacts(l: Limiter, k: BucketKey, b: Bucket)
    requires LimiterOk(l) && Obtain(l, k).Some? && b.key == k
    ensures var (at, s) := Obtain(l, k).value;
            var l' := l.(buckets := Put(l.buckets, at, b), stats := s);
            && at < |l.buckets| && LimiterOk(l') && Find(l', k) == Some(b)
            && OthersKept(l, l'.buckets, k, s.evicted)
  {
    var at := Obtain(l, k).value.0;
    var i := IndexOf(l.buckets, BucketKeyOf(), k);
    if i < |l.buckets| {
      LookupWrite(l.buckets, BucketKeyOf(), i, b);
      UsedCountUpdate(l.buckets, i, Used(b));
      assert Put(l.buckets, at, b) == l.buckets[i := Used(b)];
      LookupIs(Put(l.buckets, at, b), BucketKeyOf(), i);
    } else {
      match PlaceFor(l.buckets, LastSeenOf(), l.config.evictLru)
      case InFree(_) => PlaceInFree(l.buckets, BucketKeyOf(), at, b);
      case Evicting(_, v) =>
        EvictionGaveUp(l, k, b, at, v);
        FreeIffRoom(l.buckets);
        assert GaveUp(l, Put(l.buckets, at, b), k, v);
    }
  }

  lemma EvictionGaveUp(l: Limiter, k: BucketKey, b: Bucket, at: nat, v: Bucket)
    requires LimiterOk(l) && b.key == k && Find(l, k).None?
    requires PlaceFor(l.buckets, LastSeenOf(), l.config.evictLru) == Evicting(at, v)
    ensures var l' := l.(buckets := l.buckets[at := Used(b)]);
            && Unique(l'.buckets, BucketKeyOf()) && UsedCount(l'.buckets) == UsedCount(l.buckets)
            && Find(l', k) == Some(b) && GaveUp(l, l'.buckets, k, v)
  {
    PlaceOverVictim(l.buckets, BucketKeyOf(), at, b);
    forall q | Find(l, q).Some? ensures v.lastSeenMs <= Find(l, q).value.lastSeenMs {
      VictimIsOldest(l.buckets, BucketKeyOf(), LastSeenOf(), at, q);
    }
  }

  /** The slot obtained holds the key exactly when the key has a bucket, and then holds that bucket. */
  lemma OwnSlot(l: Limiter, k: BucketKey)
    requires LimiterOk(l) && Obtain(l, k).Some? && Obtain(l, k).value.0 < |l.buckets|
    ensures var slot := l.buckets[Obtain(l, k).value.0];
            Find(l, k) == if slot.Used? && slot.entry.key == k then Some(slot.entry) else None
  {
    var slot := l.buckets[Obtain(l, k).value.0];
    if slot.Used? {
      LookupIs(l.buckets, BucketKeyOf(), Obtain(l, k).value.0);
    }
  }

  lemma CheckRefinesMap(l: Limiter, k: BucketKey, bytes: u32, ts: u32)
    requires LimiterOk(l)
    ensures var (l', v) := Check(l, k, bytes, ts); LimiterOk(l') && CheckEffect(l, l', k, bytes, ts, v)
  {
    hide Obtain, OthersKept, ParamsFor;
    if l.initialized && Obtain(l, k).Some? {
      ObtainFacts(l, k, Counted(ParamsFor(l, k).0, Find(l, k), k, bytes, ts));
    }
  }

  lemma ExpireRefinesMap(l: Limiter, ts: u32, k: BucketKey)
    requires LimiterOk(l) && l.initialized
    ensures LimiterOk(Expire(l, ts))
    ensures Find(Expire(l, ts), k) ==
            if Find(l, k).Some? && Sub32(ts, Find(l, k).value.lastSeenMs) > l.config.maxIdleMs then None else Find(l, k)
  {
    LookupExpired(l.buckets, BucketKeyOf(), Idle(l.config.maxIdleMs, ts), k);
    ExpiredCount(l.buckets, Idle(l.config.maxIdleMs, ts));
  }

  /** Every check is counted once, by its verdict. */
  lemma ChecksAreCounted(l: Limiter, k: BucketKey, bytes: u32, ts: u32)
    requires l.initialized
    ensures var (l', v) := Check(l, k, bytes, ts); var s, s' := l.stats, l'.stats;
            && s'.checks == s.checks + 1 && s'.allowed == s.allowed + (if v == Pass then 1 else 0)
            && s'.exceeded == s.exceeded + (if v.Over? then 1 else 0)
            && s'.invalid == s.invalid + (if v.Failure? then 1 else 0)
            && (v.Failure? ==> v.error == NoMem)
  {
    hide ParamsFor;
  }

  /** Before initialisation nothing is limited and nothing is kept. */
  lemma UnusedLimiterFails(l: Limiter, k: BucketKey, bytes: u32, ts: u32)
    requires !l.initialized
    ensures var (l', v) := Check(l, k, bytes, ts);
            v == Failure(InvalidArg) && l' == l.(stats := l.stats.(invalid := l.stats.invalid + 1))
  {
  }

  /** The limiter as the firmware keeps it. */
  class RateLimiter {
    const buckets: array<Slot<Bucket>>
    const rules: array<Slot<RateRule>>
    var config: RateConfig
    var stats: RateStats
    var initialized: bool

    ghost predicate Valid()
      reads this, buckets, rules
    {
      LimiterOk(Abs())
    }

    ghost function Abs(): Limiter
      reads this, buckets, rules
    {
      Limiter(initialized, buckets[..], rules[..], config, stats)
    }

    /** Static storage before initialisation: empty, and not usable yet. */
    constructor ()
      ensures Valid() && fresh(buckets) && fresh(rules) && Abs() == UnusedLimiter()
    {
      buckets := new Slot<Bucket>[MAX_BUCKETS](_ => Free);
      rules := new Slot<RateRule>[MAX_RATE_RULES](_ => Free);
      config := RateConfig(Params(0, 0, 0), 0, false);
      stats := RateStats(0, 0, 0, 0, 0, 0, 0, 0);
      initialized := false;
      new;
      assert buckets[..] == UnusedLimiter().buckets && rules[..] == UnusedLimiter().rules;
      UsedCountAllFree(buckets[..]);
    }

    /** Zero window and idle times take their defaults. */
    method Init(c: RateConfig)
      requires buckets.Length == MAX_BUCKETS && rules.Length == MAX_RATE_RULES
      modifies this, buckets, rules
      ensures Valid() && Abs() == InitialLimiter(c)
      ensures config.defaults == Effective(c.defaults) && config.evictLru == c.evictLru
      ensures config.maxIdleMs == if c.maxIdleMs == 0 then 60000 else c.maxIdleMs
      ensures stats == RateStats(0, 0, 0, 0, 0, 0, 0, 0)
    {
      forall i | 0 <= i < buckets.Length {
        buckets[i] := Free;
      }
      forall i | 0 <= i < rules.Length {
        rules[i] := Free;
      }
      stats := RateStats(0, 0, 0, 0, 0, 0, 0, 0);
      config := c;
      if config.defaults.windowMs == 0 {
        config := config.(defaults := config.defaults.(windowMs := 1000));
      }
      if config.maxIdleMs == 0 {
        config := config.(maxIdleMs := 60000);
      }
      initialized := true;
      assert buckets[..] == InitialLimiter(c).buckets && rules[..] == InitialLimiter(c).rules;
      UsedCountAllFree(buckets[..]);
    }

    method FindParams(k: BucketKey) returns (p: Params, suggest: bool)
      ensures (p, suggest) == ParamsFor(Abs(), k)
    {
      var i := FindBest(rules, RateMatcher(k), RatePriority());
      p, suggest := config.defaults, false;
      if i < rules.Length {
        p, suggest := rules[i].entry.params, rules[i].entry.suggestQuarantine;
      }
      if p.windowMs == 0 {
        p := p.(windowMs := 1000);
      }
    }

    /** The key's bucket, created in a free or evicted slot when it has none. */
    method ObtainBucket(k: BucketKey) returns (place: Option<(nat, RateStats)>)
      requires Valid()
      ensures place == Obtain(Abs(), k)
    {
      var i := FindKey(buckets, BucketKeyOf(), k);
      if i < buckets.Length {
        return Some((i, stats));
      }
      var p := FindPlace(buckets, LastSeenOf(), config.evictLru);
      match p
      case NoRoom => return None;
      case InFree(at) => return Some((at, stats.(active := stats.active + 1, created := stats.created + 1)));
      case Evicting(at, _) => return Some((at, stats.(created := stats.created + 1, evicted := stats.evicted + 1)));
    }

    method CheckPacket(k: BucketKey, bytes: u32, ts: u32) returns (v: Verdict)
      requires Valid()
      modifies this, buckets
      ensures Valid() && (Abs(), v) == Check(old(Abs()), k, bytes, ts)
    {
      hide ParamsFor, Obtain, CountPacket, CheckEffect, LimiterOk, Exceeded;
      ghost var l := Abs();
      CheckRefinesMap(l, k, bytes, ts);
      if !initialized {
        stats := stats.(invalid := stats.invalid + 1);
        return Failure(InvalidArg);
      }
      var p, suggest := FindParams(k);
      var place := ObtainBucket(k);
      if place.None? {
        stats := stats.(checks := stats.checks + 1, invalid := stats.invalid + 1);
        return Failure(NoMem);
      }
      var i, s := place.value.0, place.value.1;
      ObtainFacts(l, k, NewBucket(k, ts));
      OwnSlot(l, k);
      var b := if buckets[i].Used? && buckets[i].entry.key == k then buckets[i].entry else NewBucket(k, ts);
      b := CountPacket(p, b, bytes, ts);
      buckets[i] := Used(b);
      assert buckets[..] == Put(l.buckets, i, b) && b == Counted(p, Find(l, k), k, bytes, ts);
      if Exceeded(p, WindowOf(b)) {
        stats := s.(checks := s.checks + 1, exceeded := s.exceeded + 1);
        return Over(suggest);
      }
      stats := s.(checks := s.checks + 1, allowed := s.allowed + 1);
      return Pass;
    }

    method ExpireOld(ts: u32) returns (n: nat)
      requires Valid()
      modifies this, buckets
      ensures Valid() && Abs() == Expire(old(Abs()), ts)
    {
      if !initialized {
        return 0;
      }
      ExpireRefinesMap(Abs(), ts, BucketKey(FlowKey(0, 0, 0, 0, 0), AnyDirection));
      n := ExpireAll(buckets, Idle(config.maxIdleMs, ts));
      stats := stats.(active := stats.active - n, expired := stats.expired + n);
    }
  }
}
