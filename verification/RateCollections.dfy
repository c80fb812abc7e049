/** What collecting idle buckets changes: exactly when the next check of a key can tell. */
module RateCollections {
  import opened Bytes
  import opened Slots
  import opened Flows
  import opened RateWindows
  import opened RateLimits

  /** The key has a bucket, or one can be made for it. */
  ghost predicate HasRoom(l: Limiter, k: BucketKey) {
    RoomFor(l.buckets, BucketKeyOf(), k, LastSeenOf(), l.config.evictLru)
  }

  lemma RoomIffObtained(l: Limiter, k: BucketKey)
    ensures HasRoom(l, k) <==> Obtain(l, k).Some?
  {
    hide PlaceFor;
    if Find(l, k).None? {
      RoomIffPlaced(l.buckets, BucketKeyOf(), k, LastSeenOf(), l.config.evictLru);
    }
  }

  /** Some bucket is idle at time t. */
  ghost predicate SomeIdle(l: Limiter, t: u32) {
    exists i :: 0 <= i < |l.buckets| && IdleAt(l, t, i)
  }

  predicate IdleAt(l: Limiter, t: u32, i: nat) {
    i < |l.buckets| && l.buckets[i].Used? && Sub32(t, l.buckets[i].entry.lastSeenMs) > l.config.maxIdleMs
  }

  /** Collecting only ever makes room, and makes some exactly when there is something to collect. */
  lemma CollectingMakesRoom(l: Limiter, t: u32, k: BucketKey)
    requires LimiterOk(l) && l.initialized
    ensures HasRoom(Expire(l, t), k) <==> HasRoom(l, k) || SomeIdle(l, t)
  {
    var l' := Expire(l, t);
    ExpireRefinesMap(l, t, k);
    if i :| 0 <= i < |l.buckets| && IdleAt(l, t, i) {
      assert l'.buckets[i].Free?;
    } else {
      forall i | 0 <= i < |l.buckets| ensures l'.buckets[i] == l.buckets[i] {
        assert !IdleAt(l, t, i);
      }
      assert l'.buckets == l.buckets;
    }
  }

  /**
   * A check at ts after collecting at t answers differently: the table was full and collecting made
   * room, or the key's own bucket was collected inside its window at a moment when it was about to
   * refuse a packet that fits a fresh window.
   */
  ghost predicate Noticed(l: Limiter, t: u32, k: BucketKey, bytes: u32, ts: u32) {
    if !HasRoom(l, k) then SomeIdle(l, t)
    else
      var p := ParamsFor(l, k).0;
      && Find(l, k).Some?
      && var b := Find(l, k).value;
         && Sub32(t, b.lastSeenMs) > l.config.maxIdleMs
         && Sub32(ts, b.startMs) < p.windowMs
         && Exceeded(p, Window(b.startMs, ts, b.packets + 1, b.bytes + bytes))
         && !Exceeded(p, Window(ts, ts, 1, bytes))
  }

  lemma SameRulesSameParams(l: Limiter, l': Limiter, k: BucketKey)
    requires l'.rules == l.rules && l'.config == l.config
    ensures ParamsFor(l', k) == ParamsFor(l, k)
  {
  }

  lemma FailureIffNoRoom(l: Limiter, k: BucketKey, bytes: u32, ts: u32)
    requires l.initialized
    ensures Check(l, k, bytes, ts).1.Failure? <==> !HasRoom(l, k)
  {
    hide ParamsFor, Obtain, HasRoom;
    RoomIffObtained(l, k);
  }

  /**
   * Collecting idle buckets changes the verdict of the next check of a key exactly in the cases
   * named by Noticed, in every state of the limiter, at any times.
   */
  lemma CollectionIsNoticedIff(l: Limiter, t: u32, k: BucketKey, bytes: u32, ts: u32)
    requires LimiterOk(l) && l.initialized
    ensures Check(Expire(l, t), k, bytes, ts).1 != Check(l, k, bytes, ts).1 <==> Noticed(l, t, k, bytes, ts)
  {
    hide Check, ParamsFor, LimiterOk, HasRoom, SomeIdle, OthersKept;
    var l' := Expire(l, t);
    ExpireRefinesMap(l, t, k);
    CollectingMakesRoom(l, t, k);
    FailureIffNoRoom(l, k, bytes, ts);
    FailureIffNoRoom(l', k, bytes, ts);
    SameRulesSameParams(l, l', k);
    CheckRefinesMap(l, k, bytes, ts);
    CheckRefinesMap(l', k, bytes, ts);
    SameFailure(l, l', k, bytes, ts);
  }

  lemma SameFailure(l: Limiter, l': Limiter, k: BucketKey, bytes: u32, ts: u32)
    requires l.initialized && l'.initialized
    ensures Check(l, k, bytes, ts).1.Failure? && Check(l', k, bytes, ts).1.Failure? ==>
              Check(l, k, bytes, ts).1 == Check(l', k, bytes, ts).1
  {
    hide ParamsFor, Obtain;
  }

  // ---- For which settings it is never noticed ----

  /** A state of the limiter with these settings, the key matched with p, its bucket not in the future. */
  ghost predicate Settled(l: Limiter, maxIdle: nat, k: BucketKey, p: Params, t: u32, ts: u32) {
    && LimiterOk(l) && l.initialized && l.config.maxIdleMs == maxIdle && ParamsFor(l, k).0 == p
    && HasRoom(l, k) && t <= ts
    && (Find(l, k).Some? ==> Find(l, k).value.startMs <= Find(l, k).value.lastSeenMs <= t)
  }

  /** Collecting is invisible to the next check when a window is at most a millisecond longer than the idle limit. */
  lemma CollectionIsInvisible(l: Limiter, t: u32, k: BucketKey, bytes: u32, ts: u32)
    requires Settled(l, l.config.maxIdleMs, k, ParamsFor(l, k).0, t, ts)
    requires ParamsFor(l, k).0.windowMs <= l.config.maxIdleMs + 1 || Unlimited(ParamsFor(l, k).0)
    ensures Check(Expire(l, t), k, bytes, ts).1 == Check(l, k, bytes, ts).1
  {
    hide Check, ParamsFor, LimiterOk, HasRoom, Expire;
    CollectionIsNoticedIff(l, t, k, bytes, ts);
  }

  /** No buckets, no rules, and p for every key: what initialisation leaves when neither time is zero. */
  function Empty(maxIdle: u32, p: Params): Limiter {
    InitialLimiter(RateConfig(p, maxIdle, false)).(config := RateConfig(p, maxIdle, false))
  }

  lemma EmptyIsInitial(maxIdle: u32, p: Params, k: BucketKey)
    requires 0 < p.windowMs
    ensures 0 < maxIdle ==> Empty(maxIdle, p) == InitialLimiter(RateConfig(p, maxIdle, false))
    ensures var l := Empty(maxIdle, p); LimiterOk(l) && l.initialized && l.config == RateConfig(p, maxIdle, false)
    ensures ParamsFor(Empty(maxIdle, p), k).0 == p && forall q :: Find(Empty(maxIdle, p), q).None?
  {
    UsedCountAllFree(Empty(maxIdle, p).buckets);
  }

  /** That limiter after n checks of k at time 0, of `bytes` bytes each. */
  ghost function Sent(maxIdle: u32, k: BucketKey, p: Params, bytes: u32, n: nat): Limiter {
    if n == 0 then Empty(maxIdle, p) else Check(Sent(maxIdle, k, p, bytes, n - 1), k, bytes, 0).0
  }

  lemma {:induction false} SentIsCounted(maxIdle: u32, k: BucketKey, p: Params, bytes: u32, n: nat)
    requires 0 < p.windowMs
    ensures var l := Sent(maxIdle, k, p, bytes, n);
            && LimiterOk(l) && l.initialized && l.config == RateConfig(p, maxIdle, false) && ParamsFor(l, k).0 == p
            && Find(l, k) == (if n == 0 then None else Some(Bucket(k, 0, 0, n, n * bytes))) && HasRoom(l, k)
  {
    hide Check, ParamsFor, LimiterOk, OthersKept, Empty;
    if n == 0 {
      EmptyIsInitial(maxIdle, p, k);
      EmptyHasRoom(maxIdle, p, k);
    } else {
      var l := Sent(maxIdle, k, p, bytes, n - 1);
      SentIsCounted(maxIdle, k, p, bytes, n - 1);
      CheckRefinesMap(l, k, bytes, 0);
      FailureIffNoRoom(l, k, bytes, 0);
      SameRulesSameParams(l, Check(l, k, bytes, 0).0, k);
      assert n * bytes == (n - 1) * bytes + bytes;
    }
  }

  lemma EmptyHasRoom(maxIdle: u32, p: Params, k: BucketKey)
    ensures HasRoom(Empty(maxIdle, p), k)
  {
    assert Empty(maxIdle, p).buckets[0].Free?;
  }

  /** The checks of k at time 0 that just use up its byte limit, or its packet limit. */
  ghost function AtLimit(maxIdle: u32, k: BucketKey, p: Params): Limiter
    requires p.maxBytes < U32
  {
    if p.maxBytes > 0 then Sent(maxIdle, k, p, p.maxBytes, 1) else Sent(maxIdle, k, p, 0, p.maxPackets)
  }

  lemma AtLimitIsSettled(maxIdle: u32, k: BucketKey, p: Params)
    requires 0 < p.windowMs && p.maxBytes < U32 && !Unlimited(p)
    ensures var l := AtLimit(maxIdle, k, p);
            && LimiterOk(l) && ParamsFor(l, k).0 == p && l.initialized && l.config.maxIdleMs == maxIdle
            && Find(l, k).Some?
            && var b := Find(l, k).value;
               b.startMs == b.lastSeenMs == 0 && Exceeded(p, Window(0, 0, b.packets + 1, b.bytes + 1))
  {
    hide ParamsFor, LimiterOk, Sent, HasRoom, Find;
    if p.maxBytes > 0 {
      SentIsCounted(maxIdle, k, p, p.maxBytes, 1);
    } else {
      SentIsCounted(maxIdle, k, p, 0, p.maxPackets);
    }
  }

  /** With a longer window that state refuses a packet which passes once the bucket is collected. */
  lemma LongWindowsNoticeCollection(maxIdle: u32, k: BucketKey, p: Params)
    requires maxIdle + 1 < p.windowMs < U32 && p.maxBytes < U32 && !Unlimited(p)
    ensures var l, t := AtLimit(maxIdle, k, p), maxIdle + 1;
            && Settled(l, maxIdle, k, p, t, t)
            && Check(l, k, 1, t).1.Over? && Check(Expire(l, t), k, 1, t).1 == Pass
  {
    hide Check, ParamsFor, LimiterOk, AtLimit, OthersKept;
    var l, t := AtLimit(maxIdle, k, p), maxIdle + 1;
    AtLimitIsSettled(maxIdle, k, p);
    ExpireRefinesMap(l, t, k);
    CollectingMakesRoom(l, t, k);
    SameRulesSameParams(l, Expire(l, t), k);
    FailureIffNoRoom(l, k, 1, t);
    FailureIffNoRoom(Expire(l, t), k, 1, t);
    CheckRefinesMap(l, k, 1, t);
    CheckRefinesMap(Expire(l, t), k, 1, t);
  }

  /**
   * For a window, limits and an idle limit, collecting is invisible to every next check in every
   * state exactly when the window is at most a millisecond longer than the idle limit, or there is
   * no limit to exceed.
   */
  lemma InvisibleForAllIff(maxIdle: u32, k: BucketKey, p: Params)
    requires 0 < p.windowMs < U32 && p.maxBytes < U32
    ensures (p.windowMs <= maxIdle + 1 || Unlimited(p)) <==>
            forall l, t: u32, bytes: u32, ts: u32 :: Settled(l, maxIdle, k, p, t, ts) ==>
              Check(Expire(l, t), k, bytes, ts).1 == Check(l, k, bytes, ts).1
  {
    hide Check, Expire, Settled, AtLimit;
    if p.windowMs <= maxIdle + 1 || Unlimited(p) {
      forall l, t: u32, bytes: u32, ts: u32 | Settled(l, maxIdle, k, p, t, ts)
        ensures Check(Expire(l, t), k, bytes, ts).1 == Check(l, k, bytes, ts).1
      {
        SettledSays(l, maxIdle, k, p, t, ts);
        CollectionIsInvisible(l, t, k, bytes, ts);
      }
    } else {
      LongWindowsNoticeCollection(maxIdle, k, p);
    }
  }

  lemma SettledSays(l: Limiter, maxIdle: nat, k: BucketKey, p: Params, t: u32, ts: u32)
    requires Settled(l, maxIdle, k, p, t, ts)
    ensures l.config.maxIdleMs == maxIdle && ParamsFor(l, k).0 == p
  {
  }
}
