/** Whole runs of the limiter, seen from one key: what the window automaton says holds of them. */
module RateRuns {
  import opened Bytes
  import opened Slots
  import opened RateWindows
  import opened RateLimits
  import opened RateCollections

  // ---- Whole runs ----

  datatype RateOp =
    | CheckOp(key: BucketKey, bytes: u32, ts: u32)
    | ExpireOp(ts: u32)
    | RulesOp(rules: seq<Slot<RateRule>>)

  ghost function StepOp(l: Limiter, op: RateOp): Limiter {
    match op
    case CheckOp(k, bytes, ts) => Check(l, k, bytes, ts).0
    case ExpireOp(ts) => Expire(l, ts)
    case RulesOp(rules) => l.(rules := rules)
  }

  ghost function Exec(l: Limiter, ops: seq<RateOp>): Limiter {
    if ops == [] then l else StepOp(Exec(l, ops[..|ops| - 1]), ops[|ops| - 1])
  }

  /** What one operation is to the bucket of k. */
  ghost function TickOf(l: Limiter, op: RateOp, k: BucketKey): seq<Tick> {
    match op
    case CheckOp(q, bytes, ts) => if q == k && !Check(l, q, bytes, ts).1.Failure? then [Packet(ts, bytes)] else []
    case ExpireOp(ts) => [Collect(ts)]
    case RulesOp(_) => []
  }

  /** Ticks that account for the bucket k has already. */
  function History(l: Limiter, k: BucketKey): seq<Tick> {
    if Find(l, k).Some? then Past(WindowOf(Find(l, k).value)) else []
  }

  /** The ticks of k in a run, after those that account for its bucket at the start. */
  ghost function TicksOf(l: Limiter, ops: seq<RateOp>, k: BucketKey): seq<Tick> {
    if ops == [] then History(l, k)
    else TicksOf(l, ops[..|ops| - 1], k) + TickOf(Exec(l, ops[..|ops| - 1]), ops[|ops| - 1], k)
  }

  /** The operation is a check of k in [from, from + window), and it passes. */
  ghost predicate PassesAt(l: Limiter, op: RateOp, k: BucketKey, from: nat, window: nat) {
    && op.CheckOp? && op.key == k && from <= op.ts < from + window
    && Check(l, k, op.bytes, op.ts).1 == Pass
  }

  /** The checks of k answered Pass in [from, from + window). */
  ghost function PassesIn(l: Limiter, ops: seq<RateOp>, k: BucketKey, from: nat, window: nat): nat {
    if ops == [] then 0
    else
      var before, op := ops[..|ops| - 1], ops[|ops| - 1];
      PassesIn(l, before, k, from, window)
      + if PassesAt(Exec(l, before), op, k, from, window) then 1 else 0
  }

  /** k is matched with parameters p whenever it is checked, and its bucket is never evicted for another key. */
  ghost predicate Undisturbed(l: Limiter, op: RateOp, k: BucketKey, p: Params) {
    match op
    case CheckOp(q, bytes, ts) =>
      if q == k then ParamsFor(l, k).0 == p else Find(Check(l, q, bytes, ts).0, k) == Find(l, k)
    case _ => true
  }

  ghost predicate UndisturbedRun(l: Limiter, ops: seq<RateOp>, k: BucketKey, p: Params) {
    ops == [] || (UndisturbedRun(l, ops[..|ops| - 1], k, p)
                  && Undisturbed(Exec(l, ops[..|ops| - 1]), ops[|ops| - 1], k, p))
  }

  /** The last time mentioned in a run that begins at `since`. */
  function Clock(ops: seq<RateOp>, since: nat): nat {
    if ops == [] then since
    else if ops[|ops| - 1].RulesOp? then Clock(ops[..|ops| - 1], since) else ops[|ops| - 1].ts
  }

  predicate Timely(ops: seq<RateOp>, since: nat) {
    ops == [] || (Timely(ops[..|ops| - 1], since) && Clock(ops[..|ops| - 1], since) <= Clock(ops, since))
  }

  /** When k was last seen. */
  function Seen(l: Limiter, k: BucketKey): nat { if Find(l, k).Some? then Find(l, k).value.lastSeenMs else 0 }

  /**
   * A run in time from a state in which k has no bucket, or one as counting with p leaves it, and in
   * which k keeps the parameters p and is not evicted.
   */
  ghost predicate Proper(l: Limiter, ops: seq<RateOp>, k: BucketKey, p: Params, maxIdle: nat) {
    && LimiterOk(l) && l.initialized && l.config.maxIdleMs == maxIdle
    && (Find(l, k).Some? ==> WindowOk(p, WindowOf(Find(l, k).value), Seen(l, k)))
    && Timely(ops, Seen(l, k)) && UndisturbedRun(l, ops, k, p)
  }

  /** The bucket of k is the window the ticks of k produce. */
  ghost predicate Follows(l: Limiter, k: BucketKey, p: Params, maxIdle: nat, ticks: seq<Tick>, now: nat) {
    && LimiterOk(l) && l.initialized && l.config.maxIdleMs == maxIdle
    && RateWindows.Ordered(ticks) && Before(ticks, U32) && Now(ticks) <= now
    && Final(p, maxIdle, ticks) == (if Find(l, k).Some? then Some(WindowOf(Find(l, k).value)) else None)
  }

  lemma CountIsAdvance(p: Params, b: Option<Bucket>, k: BucketKey, bytes: u32, ts: u32)
    requires b.Some? ==> b.value.startMs <= ts
    ensures var w := if b.Some? then Some(WindowOf(b.value)) else None;
            WindowOf(Counted(p, b, k, bytes, ts)) == Advance(p, Opened(w, ts), bytes, ts)
  {
  }

  lemma TicksAppend(p: Params, maxIdle: nat, ticks: seq<Tick>, t: Tick, from: nat)
    requires RateWindows.Ordered(ticks) && Now(ticks) <= t.ts
    ensures RateWindows.Ordered(ticks + [t]) && Now(ticks + [t]) == t.ts && Appended(p, maxIdle, ticks, t, from)
  {
    TickAppended(p, maxIdle, ticks, t, from);
  }

  lemma FollowsPacket(l: Limiter, l': Limiter, v: Verdict, k: BucketKey, p: Params, maxIdle: nat, ticks: seq<Tick>,
                      now: nat, from: nat, bytes: u32, ts: u32)
    requires Follows(l, k, p, maxIdle, ticks, now) && now <= ts && p.windowMs > 0 && ParamsFor(l, k).0 == p
    requires LimiterOk(l') && CheckEffect(l, l', k, bytes, ts, v) && !v.Failure?
    ensures Follows(l', k, p, maxIdle, ticks + [Packet(ts, bytes)], ts)
    ensures AllowedIn(p, maxIdle, ticks + [Packet(ts, bytes)], from) == AllowedIn(p, maxIdle, ticks, from)
            + if from <= ts < from + p.windowMs && v == Pass then 1 else 0
  {
    hide LimiterOk, ParamsFor, Counted, Final, AllowedIn;
    WindowsOk(p, maxIdle, ticks);
    TicksAppend(p, maxIdle, ticks, Packet(ts, bytes), from);
    CountIsAdvance(p, Find(l, k), k, bytes, ts);
  }

  lemma FollowsCollect(l: Limiter, k: BucketKey, p: Params, maxIdle: nat, ticks: seq<Tick>, now: nat, from: nat,
                       ts: u32)
    requires Follows(l, k, p, maxIdle, ticks, now) && now <= ts && p.windowMs > 0
    ensures Follows(Expire(l, ts), k, p, maxIdle, ticks + [Collect(ts)], ts)
    ensures AllowedIn(p, maxIdle, ticks + [Collect(ts)], from) == AllowedIn(p, maxIdle, ticks, from)
  {
    hide LimiterOk, Final, AllowedIn;
    WindowsOk(p, maxIdle, ticks);
    ExpireRefinesMap(l, ts, k);
    TicksAppend(p, maxIdle, ticks, Collect(ts), from);
  }

  lemma FollowsStep(l: Limiter, op: RateOp, k: BucketKey, p: Params, maxIdle: nat, ticks: seq<Tick>, now: nat,
                    from: nat)
    requires Follows(l, k, p, maxIdle, ticks, now) && Undisturbed(l, op, k, p) && p.windowMs > 0
    requires op.RulesOp? || now <= op.ts
    ensures Follows(StepOp(l, op), k, p, maxIdle, ticks + TickOf(l, op, k), if op.RulesOp? then now else op.ts)
    ensures AllowedIn(p, maxIdle, ticks + TickOf(l, op, k), from) == AllowedIn(p, maxIdle, ticks, from)
            + if PassesAt(l, op, k, from, p.windowMs) then 1 else 0
  {
    hide Check, Expire, Final, AllowedIn, ParamsFor, Unique, UsedCount;
    assert ticks + [] == ticks;
    match op
    case CheckOp(q, bytes, ts) =>
      CheckRefinesMap(l, q, bytes, ts);
      if TickOf(l, op, k) != [] {
        FollowsPacket(l, Check(l, k, bytes, ts).0, Check(l, k, bytes, ts).1, k, p, maxIdle, ticks, now, from, bytes,
                      ts);
      }
    case ExpireOp(ts) => FollowsCollect(l, k, p, maxIdle, ticks, now, from, ts);
    case RulesOp(_) =>
  }

  lemma HistoryFollows(l: Limiter, k: BucketKey, p: Params, maxIdle: nat)
    requires Proper(l, [], k, p, maxIdle)
    ensures Follows(l, k, p, maxIdle, History(l, k), Seen(l, k))
  {
    if Find(l, k).Some? {
      PastLeaves(p, maxIdle, WindowOf(Find(l, k).value));
    }
  }

  lemma {:induction false} RunFollows(l: Limiter, ops: seq<RateOp>, k: BucketKey, p: Params, maxIdle: nat, from: nat)
    requires Proper(l, ops, k, p, maxIdle) && p.windowMs > 0
    ensures Follows(Exec(l, ops), k, p, maxIdle, TicksOf(l, ops, k), Clock(ops, Seen(l, k)))
    ensures AllowedIn(p, maxIdle, TicksOf(l, ops, k), from) ==
            AllowedIn(p, maxIdle, History(l, k), from) + PassesIn(l, ops, k, from, p.windowMs)
  {
    hide Follows, History, Find, AllowedIn, Undisturbed, TickOf, PassesAt, StepOp, LimiterOk, WindowOk;
    if ops == [] {
      HistoryFollows(l, k, p, maxIdle);
    } else {
      var before := ops[..|ops| - 1];
      RunFollows(l, before, k, p, maxIdle, from);
      FollowsStep(Exec(l, before), ops[|ops| - 1], k, p, maxIdle, TicksOf(l, before, k), Clock(before, Seen(l, k)),
                  from);
    }
  }

  /**
   * In every run of the limiter over any keys, collections and rule changes, a key that keeps its
   * parameters and is not evicted passes at most twice its packet limit in any half-open interval
   * of one window length, when the idle limit is safe for that window on a 32-bit clock.
   */
  lemma KeyPassesAtMostTwice(l: Limiter, ops: seq<RateOp>, k: BucketKey, p: Params, maxIdle: nat, from: nat)
    requires Proper(l, ops, k, p, maxIdle) && p.windowMs > 0 && p.maxPackets > 0 && SafeUntil(p, maxIdle, U32)
    ensures PassesIn(l, ops, k, from, p.windowMs) <= 2 * p.maxPackets
  {
    hide Proper, PassesIn, AllowedIn, TicksOf, Exec, SafeUntil, Clock, LimiterOk, Find;
    RunFollows(l, ops, k, p, maxIdle, from);
    AtMostTwiceUntil(p, maxIdle, TicksOf(l, ops, k), from, U32);
  }

  // ---- Windows and refusals in runs ----

  lemma {:induction false} ProperPrefix(l: Limiter, ops: seq<RateOp>, k: BucketKey, p: Params, maxIdle: nat, n: nat)
    requires Proper(l, ops, k, p, maxIdle) && n <= |ops|
    ensures Proper(l, ops[..n], k, p, maxIdle) && TicksOf(l, ops[..n], k) <= TicksOf(l, ops, k)
    decreases |ops|
  {
    hide Undisturbed, Exec, TickOf, LimiterOk, Find;
    if n < |ops| {
      ProperPrefix(l, ops[..|ops| - 1], k, p, maxIdle, n);
      assert ops[..|ops| - 1][..n] == ops[..n];
    } else {
      assert ops[..n] == ops;
    }
  }

  predicate ChecksKey(ops: seq<RateOp>, k: BucketKey, i: nat) { i < |ops| && ops[i].CheckOp? && ops[i].key == k }

  /** The times at which the checks of k open a window. */
  ghost function StartsIn(l: Limiter, ops: seq<RateOp>, k: BucketKey, window: nat): seq<nat> {
    if ops == [] then []
    else
      var n := |ops| - 1;
      StartsIn(l, ops[..n], k, window) + if Opens(Exec(l, ops[..n]), ops[n], k, window) then [ops[n].ts] else []
  }

  ghost predicate Opens(l: Limiter, op: RateOp, k: BucketKey, window: nat) {
    && op.CheckOp? && op.key == k && !Check(l, k, op.bytes, op.ts).1.Failure?
    && (Find(l, k).None? || op.ts - Find(l, k).value.startMs >= window)
  }

  lemma OpeningIsTick(l: Limiter, op: RateOp, k: BucketKey, p: Params, maxIdle: nat, ticks: seq<Tick>, now: nat)
    requires Follows(l, k, p, maxIdle, ticks, now)
    ensures Starts(p, maxIdle, ticks + TickOf(l, op, k)) ==
            Starts(p, maxIdle, ticks) + if Opens(l, op, k, p.windowMs) then [op.ts] else []
  {
    hide Check, Final, LimiterOk, Expire, Find, Starts;
    var t := TickOf(l, op, k);
    if t == [] {
      assert ticks + t == ticks;
    } else {
      StartsAppend(p, maxIdle, ticks, t[0]);
      assert t == [t[0]];
    }
  }

  lemma StartsAppend(p: Params, maxIdle: nat, ticks: seq<Tick>, t: Tick)
    ensures var w := Final(p, maxIdle, ticks);
            Starts(p, maxIdle, ticks + [t]) == Starts(p, maxIdle, ticks)
            + if t.Packet? && (w.None? || t.ts - w.value.start >= p.windowMs) then [t.ts] else []
  {
    hide Final;
    assert (ticks + [t])[..|ticks|] == ticks;
  }

  lemma {:induction false} StartsAreTicks(l: Limiter, ops: seq<RateOp>, k: BucketKey, p: Params, maxIdle: nat)
    requires Proper(l, ops, k, p, maxIdle) && p.windowMs > 0
    ensures Starts(p, maxIdle, TicksOf(l, ops, k)) ==
            Starts(p, maxIdle, History(l, k)) + StartsIn(l, ops, k, p.windowMs)
  {
    hide Opens, TickOf, Follows, Exec, History, Starts;
    if ops != [] {
      var n := |ops| - 1;
      ProperPrefix(l, ops, k, p, maxIdle, n);
      StartsAreTicks(l, ops[..n], k, p, maxIdle);
      RunFollows(l, ops[..n], k, p, maxIdle, 0);
      OpeningIsTick(Exec(l, ops[..n]), ops[n], k, p, maxIdle, TicksOf(l, ops[..n], k), Clock(ops[..n], Seen(l, k)));
    }
  }

  /** Windows of a key start at least a window length apart in every run of the limiter. */
  lemma KeyWindowsStartApart(l: Limiter, ops: seq<RateOp>, k: BucketKey, p: Params, maxIdle: nat)
    requires Proper(l, ops, k, p, maxIdle) && 0 < p.windowMs <= maxIdle + 1
    ensures Apart(StartsIn(l, ops, k, p.windowMs), p.windowMs)
  {
    hide TicksOf, StartsIn, Starts, Exec, Follows, History;
    StartsAreTicks(l, ops, k, p, maxIdle);
    RunFollows(l, ops, k, p, maxIdle, 0);
    FollowsOrdered(Exec(l, ops), k, p, maxIdle, TicksOf(l, ops, k), Clock(ops, Seen(l, k)));
    StartsApart(p, maxIdle, TicksOf(l, ops, k));
    var earlier, s := Starts(p, maxIdle, History(l, k)), StartsIn(l, ops, k, p.windowMs);
    forall i | 0 < i < |s| ensures s[i - 1] + p.windowMs <= s[i] {
      assert (earlier + s)[|earlier| + i] == s[i] && (earlier + s)[|earlier| + i - 1] == s[i - 1];
    }
  }

  lemma FollowsOrdered(l: Limiter, k: BucketKey, p: Params, maxIdle: nat, ticks: seq<Tick>, now: nat)
    requires Follows(l, k, p, maxIdle, ticks, now)
    ensures RateWindows.Ordered(ticks) && Now(ticks) <= now && LimiterOk(l) && l.initialized
    ensures Final(p, maxIdle, ticks) == if Find(l, k).Some? then Some(WindowOf(Find(l, k).value)) else None
  {
  }

  /** Operation i is a check of k that is refused. */
  ghost predicate RefusedOp(l: Limiter, ops: seq<RateOp>, k: BucketKey, i: nat) {
    ChecksKey(ops, k, i) && Check(Exec(l, ops[..i]), k, ops[i].bytes, ops[i].ts).1.Over?
  }

  /** The start of the window of k after operation i. */
  ghost function StartAfter(l: Limiter, ops: seq<RateOp>, k: BucketKey, i: nat): nat
    requires i < |ops|
  {
    var b := Find(Exec(l, ops[..i + 1]), k);
    if b.Some? then b.value.startMs else 0
  }

  /** After a refused check of k, every check of k before the end of that window is refused as well. */
  ghost predicate StickyIn(l: Limiter, ops: seq<RateOp>, k: BucketKey, window: nat) {
    forall i, j :: 0 <= i < j < |ops| && RefusedOp(l, ops, k, i) && ChecksKey(ops, k, j)
                   && ops[j].ts < StartAfter(l, ops, k, i) + window
                   ==> RefusedOp(l, ops, k, j)
  }

  /** A check that gets a bucket is a tick of k, refused and opened as the tick is. */
  lemma CheckIsTick(l: Limiter, ops: seq<RateOp>, k: BucketKey, p: Params, maxIdle: nat, i: nat)
    requires Proper(l, ops, k, p, maxIdle) && p.windowMs > 0 && ChecksKey(ops, k, i)
    requires !Check(Exec(l, ops[..i]), k, ops[i].bytes, ops[i].ts).1.Failure?
    ensures var ticks, n := TicksOf(l, ops[..i + 1], k), |TicksOf(l, ops[..i], k)|;
            && ticks == TicksOf(l, ops[..i], k) + [Packet(ops[i].ts, ops[i].bytes)]
            && (RefusedOp(l, ops, k, i) <==> RefusedAt(p, maxIdle, ticks, n))
            && StartAfter(l, ops, k, i) == WindowAt(p, maxIdle, ticks, n).start
  {
    hide Check, Final, LimiterOk, Follows, ParamsFor, Counted, OthersKept;
    var before, op := ops[..i], ops[i];
    assert ops[..i + 1][..i] == before;
    ProperPrefix(l, ops, k, p, maxIdle, i);
    ProperPrefix(l, ops, k, p, maxIdle, i + 1);
    RunFollows(l, before, k, p, maxIdle, 0);
    var now := Exec(l, before);
    var ticks := TicksOf(l, before, k);
    FollowsOrdered(now, k, p, maxIdle, ticks, Clock(before, Seen(l, k)));
    WindowsOk(p, maxIdle, ticks);
    CheckRefinesMap(now, k, op.bytes, op.ts);
    assert UndisturbedRun(l, ops[..i + 1], k, p);
    assert Clock(before, Seen(l, k)) <= Clock(ops[..i + 1], Seen(l, k)) == op.ts;
    CountIsAdvance(p, Find(now, k), k, op.bytes, op.ts);
    assert (ticks + [Packet(op.ts, op.bytes)])[..|ticks|] == ticks;
  }

  lemma RefusalLasts(l: Limiter, ops: seq<RateOp>, k: BucketKey, p: Params, maxIdle: nat, i: nat, j: nat)
    requires Proper(l, ops, k, p, maxIdle) && 0 < p.windowMs <= maxIdle + 1
    requires i < j && RefusedOp(l, ops, k, i) && ChecksKey(ops, k, j)
             && ops[j].ts < StartAfter(l, ops, k, i) + p.windowMs
    ensures RefusedOp(l, ops, k, j)
  {
    hide Check, Final, LimiterOk, Follows, ParamsFor, Counted, OthersKept, Exec, TicksOf, WindowAt, StartAfter;
    var before, op := ops[..j], ops[j];
    CheckIsTick(l, ops, k, p, maxIdle, i);
    ProperPrefix(l, ops, k, p, maxIdle, j);
    ProperPrefix(l, ops, k, p, maxIdle, j + 1);
    ProperPrefix(l, before, k, p, maxIdle, i + 1);
    assert before[..i + 1] == ops[..i + 1] && ops[..j + 1][..j] == before;
    RunFollows(l, before, k, p, maxIdle, 0);
    var now, ticks, n := Exec(l, before), TicksOf(l, before, k), |TicksOf(l, ops[..i], k)|;
    FollowsOrdered(now, k, p, maxIdle, ticks, Clock(before, Seen(l, k)));
    assert UndisturbedRun(l, ops[..j + 1], k, p)
           && Clock(before, Seen(l, k)) <= Clock(ops[..j + 1], Seen(l, k)) == op.ts;
    PrefixTick(p, maxIdle, ticks, TicksOf(l, ops[..i + 1], k), n);
    WindowsOk(p, maxIdle, ticks);
    StaysExceeded(p, maxIdle, ticks, n, |ticks|);
    assert ticks[..|ticks|] == ticks;
    StillRefused(now, k, p, op.bytes, op.ts);
  }

  lemma PrefixTick(p: Params, maxIdle: nat, ticks: seq<Tick>, first: seq<Tick>, n: nat)
    requires first <= ticks && |first| == n + 1 && first[n].Packet?
    ensures RefusedAt(p, maxIdle, ticks, n) <==> RefusedAt(p, maxIdle, first, n)
    ensures ticks[n].Packet? && WindowAt(p, maxIdle, ticks, n) == WindowAt(p, maxIdle, first, n)
  {
    assert ticks[..n] == first[..n] && ticks[n] == first[n];
  }

  /** A bucket whose open window is exceeded refuses, and its key never lacks room. */
  lemma StillRefused(l: Limiter, k: BucketKey, p: Params, bytes: u32, ts: u32)
    requires LimiterOk(l) && l.initialized && ParamsFor(l, k).0 == p && Find(l, k).Some?
    requires var b := Find(l, k).value; b.startMs <= ts < b.startMs + p.windowMs && Exceeded(p, WindowOf(b))
    ensures Check(l, k, bytes, ts).1.Over?
  {
    hide Check, LimiterOk, ParamsFor, OthersKept;
    FailureIffNoRoom(l, k, bytes, ts);
    CheckRefinesMap(l, k, bytes, ts);
  }

  /** In every run of the limiter a refusal of a key lasts to the end of its window. */
  lemma KeyRefusalsLast(l: Limiter, ops: seq<RateOp>, k: BucketKey, p: Params, maxIdle: nat)
    requires Proper(l, ops, k, p, maxIdle) && 0 < p.windowMs <= maxIdle + 1
    ensures StickyIn(l, ops, k, p.windowMs)
  {
    hide RefusedOp, StartAfter, Proper;
    forall i, j | 0 <= i < j < |ops| && RefusedOp(l, ops, k, i) && ChecksKey(ops, k, j)
                  && ops[j].ts < StartAfter(l, ops, k, i) + p.windowMs
      ensures RefusedOp(l, ops, k, j)
    {
      RefusalLasts(l, ops, k, p, maxIdle, i, j);
    }
  }

  // ---- Every run of the automaton is a run of the limiter ----

  /** Times and sizes that fit their 32-bit fields. */
  predicate Fits(ticks: seq<Tick>) {
    forall i :: 0 <= i < |ticks| ==> ticks[i].ts < U32 && (ticks[i].Packet? ==> ticks[i].bytes < U32)
  }

  function OpFor(k: BucketKey, t: Tick): RateOp
    requires Fits([t])
  {
    assert [t][0] == t;
    if t.Packet? then CheckOp(k, t.bytes, t.ts) else ExpireOp(t.ts)
  }

  function Realised(k: BucketKey, ticks: seq<Tick>): (ops: seq<RateOp>)
    requires Fits(ticks)
    ensures |ops| == |ticks|
  {
    if ticks == [] then []
    else
      var n := |ticks| - 1;
      Realised(k, ticks[..n]) + [OpFor(k, ticks[n])]
  }

  /** Still without rules, and with no bucket but that of k. */
  ghost predicate Alone(l: Limiter, k: BucketKey, maxIdle: u32, p: Params) {
    && LimiterOk(l) && l.initialized && l.rules == Empty(maxIdle, p).rules && l.config == Empty(maxIdle, p).config
    && forall q :: q != k ==> Find(l, q).None?
  }

  lemma EmptyIsAlone(maxIdle: u32, p: Params, k: BucketKey)
    requires p.windowMs > 0
    ensures Alone(Empty(maxIdle, p), k, maxIdle, p) && Find(Empty(maxIdle, p), k).None?
    ensures ParamsFor(Empty(maxIdle, p), k).0 == p
  {
    hide ParamsFor, LimiterOk, Find;
    EmptyIsInitial(maxIdle, p, k);
  }

  lemma AloneHasRoom(l: Limiter, k: BucketKey, maxIdle: u32, p: Params)
    requires Alone(l, k, maxIdle, p) && p.windowMs > 0
    ensures HasRoom(l, k) && ParamsFor(l, k).0 == p
  {
    hide ParamsFor, Empty;
    EmptyIsAlone(maxIdle, p, k);
    SameRulesSameParams(Empty(maxIdle, p), l, k);
    if l.buckets[0].Used? {
      LookupIs(l.buckets, BucketKeyOf(), 0);
      assert Find(l, l.buckets[0].entry.key).Some?;
    } else {
      assert l.buckets[0].Free?;
    }
  }

  lemma AloneAfter(l: Limiter, k: BucketKey, maxIdle: u32, p: Params, op: RateOp)
    requires Alone(l, k, maxIdle, p) && p.windowMs > 0 && !op.RulesOp? && (op.CheckOp? ==> op.key == k)
    ensures Alone(StepOp(l, op), k, maxIdle, p)
    ensures op.CheckOp? ==> !Check(l, k, op.bytes, op.ts).1.Failure?
  {
    hide Check, ParamsFor, Empty, LimiterOk, HasRoom;
    AloneHasRoom(l, k, maxIdle, p);
    match op
    case CheckOp(q, bytes, ts) =>
      FailureIffNoRoom(l, k, bytes, ts);
      CheckRefinesMap(l, k, bytes, ts);
    case ExpireOp(ts) =>
      forall q ensures Find(l, q).None? ==> Find(Expire(l, ts), q).None? {
        ExpireRefinesMap(l, ts, q);
      }
      ExpireRefinesMap(l, ts, k);
  }

  /** The run of ops is proper and leaves k alone; its ticks of k are these. */
  ghost predicate Realises(l: Limiter, ops: seq<RateOp>, k: BucketKey, maxIdle: u32, p: Params, ticks: seq<Tick>) {
    && Proper(l, ops, k, p, maxIdle) && TicksOf(l, ops, k) == ticks && Alone(Exec(l, ops), k, maxIdle, p)
    && Clock(ops, 0) == Now(ticks) && Find(l, k).None?
  }

  lemma OneMoreRealised(l: Limiter, ops: seq<RateOp>, k: BucketKey, maxIdle: u32, p: Params, ticks: seq<Tick>, t: Tick)
    requires p.windowMs > 0 && Realises(l, ops, k, maxIdle, p, ticks) && Fits([t]) && Now(ticks) <= t.ts
    ensures Realises(l, ops + [OpFor(k, t)], k, maxIdle, p, ticks + [t])
  {
    hide Check, ParamsFor, LimiterOk, HasRoom, Find, Expire, Alone, WindowOk, TickOf, Undisturbed, StepOp, OpFor;
    var op := OpFor(k, t);
    assert (ops + [op])[..|ops|] == ops;
    TickIsOp(Exec(l, ops), k, maxIdle, p, t);
  }

  /** One tick, done as an operation on a limiter that holds no other key. */
  lemma TickIsOp(l: Limiter, k: BucketKey, maxIdle: u32, p: Params, t: Tick)
    requires p.windowMs > 0 && Alone(l, k, maxIdle, p) && Fits([t])
    ensures var op := OpFor(k, t);
            && !op.RulesOp? && op.ts == t.ts && Undisturbed(l, op, k, p) && TickOf(l, op, k) == [t]
            && Alone(StepOp(l, op), k, maxIdle, p)
  {
    hide Check, ParamsFor, LimiterOk, HasRoom, Find, Expire, Alone;
    assert [t][0] == t;
    AloneHasRoom(l, k, maxIdle, p);
    AloneAfter(l, k, maxIdle, p, OpFor(k, t));
  }

  /** Any ticks in order, with times and sizes that fit, are the ticks of a proper run of the limiter. */
  lemma {:induction false} TicksAreRealised(maxIdle: u32, p: Params, k: BucketKey, ticks: seq<Tick>)
    requires p.windowMs > 0 && RateWindows.Ordered(ticks) && Fits(ticks)
    ensures Realises(Empty(maxIdle, p), Realised(k, ticks), k, maxIdle, p, ticks)
  {
    hide Alone, Empty, LimiterOk, Find;
    if ticks == [] {
      EmptyIsAlone(maxIdle, p, k);
      EmptyConfig(maxIdle, p, k);
    } else {
      var n := |ticks| - 1;
      TicksAreRealised(maxIdle, p, k, ticks[..n]);
      assert n > 0 ==> ticks[n - 1].ts <= ticks[n].ts;
      assert ticks[..n] + [ticks[n]] == ticks;
      OneMoreRealised(Empty(maxIdle, p), Realised(k, ticks[..n]), k, maxIdle, p, ticks[..n], ticks[n]);
    }
  }

  lemma EmptyConfig(maxIdle: u32, p: Params, k: BucketKey)
    requires p.windowMs > 0
    ensures var l := Empty(maxIdle, p); l.config.maxIdleMs == maxIdle && l.initialized && LimiterOk(l)
  {
    EmptyIsAlone(maxIdle, p, k);
  }

  lemma RealisedPrefix(k: BucketKey, ticks: seq<Tick>, n: nat)
    requires Fits(ticks) && n <= |ticks|
    ensures Realised(k, ticks)[..n] == Realised(k, ticks[..n])
    ensures n < |ticks| ==> Fits([ticks[n]]) && Realised(k, ticks)[n] == OpFor(k, ticks[n])
    decreases |ticks|
  {
    hide OpFor;
    if n < |ticks| - 1 {
      RealisedPrefix(k, ticks[..|ticks| - 1], n);
      assert ticks[..|ticks| - 1][..n] == ticks[..n];
    } else if n == |ticks| {
      assert ticks[..n] == ticks;
    }
  }

  /** The realised run refuses exactly at the ticks that are refused. */
  lemma RealisedRefusal(maxIdle: u32, p: Params, k: BucketKey, ticks: seq<Tick>, i: nat)
    requires p.windowMs > 0 && RateWindows.Ordered(ticks) && Fits(ticks) && i < |ticks| && ticks[i].Packet?
    ensures var l, ops := Empty(maxIdle, p), Realised(k, ticks);
            && ChecksKey(ops, k, i) && ops[i].ts == ticks[i].ts
            && (RefusedOp(l, ops, k, i) <==> RefusedAt(p, maxIdle, ticks, i))
            && StartAfter(l, ops, k, i) == WindowAt(p, maxIdle, ticks, i).start
  {
    hide Check, Empty, Alone, Exec, TicksOf, Proper, Final, StartAfter, RefusedAt, Realised, HasRoom;
    var l, ops := Empty(maxIdle, p), Realised(k, ticks);
    RealisedPrefix(k, ticks, i);
    RealisedPrefix(k, ticks, i + 1);
    TicksAreRealised(maxIdle, p, k, ticks);
    TicksAreRealised(maxIdle, p, k, ticks[..i]);
    TicksAreRealised(maxIdle, p, k, ticks[..i + 1]);
    AloneAfter(Exec(l, ops[..i]), k, maxIdle, p, ops[i]);
    CheckIsTick(l, ops, k, p, maxIdle, i);
    PrefixTick(p, maxIdle, ticks, ticks[..i + 1], i);
  }

  lemma NoHistory(l: Limiter, k: BucketKey, p: Params, maxIdle: nat, from: nat)
    requires Find(l, k).None?
    ensures History(l, k) == [] && Starts(p, maxIdle, History(l, k)) == []
    ensures AllowedIn(p, maxIdle, History(l, k), from) == 0
  {
  }

  // ---- The conditions are exact for the limiter ----

  /**
   * For all runs of the limiter: windows of a key start at least a window length apart exactly when
   * the window is at most a millisecond longer than the idle limit.
   */
  lemma KeyWindowsStartApartIff(maxIdle: u32, k: BucketKey, p: Params)
    requires 0 < p.windowMs < U32
    ensures p.windowMs <= maxIdle + 1 <==>
            forall l, ops :: Proper(l, ops, k, p, maxIdle) ==> Apart(StartsIn(l, ops, k, p.windowMs), p.windowMs)
  {
    hide Proper, StartsIn, Apart, Starts, Empty, Realised, TicksOf;
    if p.windowMs <= maxIdle + 1 {
      forall l, ops | Proper(l, ops, k, p, maxIdle) ensures Apart(StartsIn(l, ops, k, p.windowMs), p.windowMs) {
        KeyWindowsStartApart(l, ops, k, p, maxIdle);
      }
    } else {
      var ticks := ReopenedEarly(maxIdle);
      EarlyReopening(p, maxIdle);
      TicksAreRealised(maxIdle, p, k, ticks);
      StartsAreTicks(Empty(maxIdle, p), Realised(k, ticks), k, p, maxIdle);
      NoHistory(Empty(maxIdle, p), k, p, maxIdle, 0);
      assert Starts(p, maxIdle, ticks) == StartsIn(Empty(maxIdle, p), Realised(k, ticks), k, p.windowMs);
    }
  }

  /**
   * For all runs of the limiter: a refusal of a key lasts to the end of its window exactly when the
   * window is at most a millisecond longer than the idle limit, or the key has no limit.
   */
  lemma KeyRefusalsLastIff(maxIdle: u32, k: BucketKey, p: Params)
    requires 0 < p.windowMs < U32 && p.maxBytes < U32
    ensures (p.windowMs <= maxIdle + 1 || Unlimited(p)) <==>
            forall l, ops :: Proper(l, ops, k, p, maxIdle) ==> StickyIn(l, ops, k, p.windowMs)
  {
    hide Proper, StickyIn, Forgiven, Empty, Realised;
    if Unlimited(p) {
      forall l, ops | Proper(l, ops, k, p, maxIdle) ensures StickyIn(l, ops, k, p.windowMs) {
        NothingRefused(l, ops, k, p, maxIdle);
      }
    } else if p.windowMs <= maxIdle + 1 {
      forall l, ops | Proper(l, ops, k, p, maxIdle) ensures StickyIn(l, ops, k, p.windowMs) {
        KeyRefusalsLast(l, ops, k, p, maxIdle);
      }
    } else {
      ForgivenRun(maxIdle, k, p);
    }
  }

  lemma NothingRefused(l: Limiter, ops: seq<RateOp>, k: BucketKey, p: Params, maxIdle: nat)
    requires Proper(l, ops, k, p, maxIdle) && Unlimited(p) && p.windowMs > 0
    ensures StickyIn(l, ops, k, p.windowMs)
  {
    hide Check, Proper, StartAfter, Exec, Final, TicksOf, WindowAt;
    forall i | 0 <= i < |ops| ensures !RefusedOp(l, ops, k, i) {
      if RefusedOp(l, ops, k, i) {
        CheckIsTick(l, ops, k, p, maxIdle, i);
      }
    }
  }

  lemma ForgivenRun(maxIdle: u32, k: BucketKey, p: Params)
    requires maxIdle + 1 < p.windowMs < U32 && p.maxBytes < U32 && !Unlimited(p)
    ensures Fits(Forgiven(p, maxIdle))
    ensures var l, ops := Empty(maxIdle, p), Realised(k, Forgiven(p, maxIdle));
            Proper(l, ops, k, p, maxIdle) && !StickyIn(l, ops, k, p.windowMs)
  {
    hide Proper, Empty, Realised, RefusedOp, StartAfter, WindowAt, TicksOf, Alone, Exec;
    var ticks := Forgiven(p, maxIdle);
    ForgivenIsNotSticky(p, maxIdle);
    TicksAreRealised(maxIdle, p, k, ticks);
    var i, j :| 0 <= i < j < |ticks| && RefusedAt(p, maxIdle, ticks, i) && ticks[j].Packet?
                && ticks[i].Packet? && ticks[j].ts < WindowAt(p, maxIdle, ticks, i).start + p.windowMs
                && !RefusedAt(p, maxIdle, ticks, j);
    RealisedRefusal(maxIdle, p, k, ticks, i);
    RealisedRefusal(maxIdle, p, k, ticks, j);
  }

  /**
   * For all runs of the limiter: a key passes at most twice its packet limit in any interval of one
   * window length exactly when collecting is safe for its window on a 32-bit clock.
   */
  lemma KeyPassesAtMostTwiceIff(maxIdle: u32, k: BucketKey, p: Params)
    requires 0 < p.windowMs < U32 && p.maxPackets > 0
    ensures SafeUntil(p, maxIdle, U32) <==>
            forall l, ops, from: nat :: Proper(l, ops, k, p, maxIdle) ==>
              PassesIn(l, ops, k, from, p.windowMs) <= 2 * p.maxPackets
  {
    hide PassesIn, Realised, Empty, AllowedIn, TicksOf, Alone, Proper;
    if SafeUntil(p, maxIdle, U32) {
      forall l, ops, from: nat | Proper(l, ops, k, p, maxIdle)
        ensures PassesIn(l, ops, k, from, p.windowMs) <= 2 * p.maxPackets
      {
        KeyPassesAtMostTwice(l, ops, k, p, maxIdle, from);
      }
    } else {
      var ticks, from := TooMany(p, maxIdle);
      TicksAreRealised(maxIdle, p, k, ticks);
      RunFollows(Empty(maxIdle, p), Realised(k, ticks), k, p, maxIdle, from);
      NoHistory(Empty(maxIdle, p), k, p, maxIdle, from);
    }
  }
}
