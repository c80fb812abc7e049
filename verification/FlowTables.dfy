/** The flow table: one entry per 5-tuple, least-recently-seen eviction, idle and hard expiry. */
module FlowTables {
  import opened Bytes
  import opened Slots
  import opened Flows

  const MAX_ENTRIES: nat := 128

  datatype FlowState = Empty | Active | Quarantined | Blocked | Lapsed

  datatype FlowEntry = FlowEntry(key: FlowKey, direction: Direction, state: FlowState, packets: nat, bytes: nat,
                                 firstSeenMs: u32, lastSeenMs: u32)

  datatype FlowConfig = FlowConfig(maxIdleMs: u32, hardTtlMs: u32, evictLru: bool)

  datatype FlowStats = FlowStats(active: int, packets: nat, bytes: nat, created: nat, updated: nat, evicted: nat,
                                 expired: nat, dropped: nat)

  datatype Table = Table(slots: seq<Slot<FlowEntry>>, config: FlowConfig, stats: FlowStats)

  /** The result code; an eviction also names the entry that was given up. */
  datatype TouchResult = Created | Updated | Evicted(victim: FlowEntry) | Failed

  function KeyOf(): FlowEntry -> FlowKey { (e: FlowEntry) => e.key }

  function SeenOf(): FlowEntry -> u32 { (e: FlowEntry) => e.lastSeenMs }

  function Find(t: Table, k: FlowKey): Option<FlowEntry> { Lookup(t.slots, KeyOf(), k) }

  function NewEntry(k: FlowKey, d: Direction, bytes: u32, ts: u32): FlowEntry {
    FlowEntry(k, d, Active, 1, bytes, ts, ts)
  }

  function Refresh(e: FlowEntry, d: Direction, bytes: u32, ts: u32): FlowEntry {
    e.(direction := d, packets := e.packets + 1, bytes := e.bytes + bytes, lastSeenMs := ts,
       state := if e.state == Empty || e.state == Lapsed then Active else e.state)
  }

  function Dead(config: FlowConfig, ts: u32): FlowEntry -> bool {
    (e: FlowEntry) => Sub32(ts, e.lastSeenMs) > config.maxIdleMs || Sub32(ts, e.firstSeenMs) > config.hardTtlMs
  }

  function InitialTable(config: FlowConfig): Table {
    var c := config.(maxIdleMs := if config.maxIdleMs == 0 then 60000 else config.maxIdleMs,
                     hardTtlMs := if config.hardTtlMs == 0 then 600000 else config.hardTtlMs);
    Table(seq(MAX_ENTRIES, _ => Free), c, FlowStats(0, 0, 0, 0, 0, 0, 0, 0))
  }

  function CountCreate(s: FlowStats, bytes: u32): FlowStats {
    s.(active := s.active + 1, packets := s.packets + 1, bytes := s.bytes + bytes, created := s.created + 1)
  }

  /** `flow_table_touch` */
  ghost function Touched(t: Table, k: FlowKey, d: Direction, bytes: u32, ts: u32): (r: (Table, TouchResult)) {
    var i := IndexOf(t.slots, KeyOf(), k);
    if i < |t.slots| then
      var s := t.stats.(packets := t.stats.packets + 1, bytes := t.stats.bytes + bytes, updated := t.stats.updated + 1);
      (t.(slots := t.slots[i := Used(Refresh(t.slots[i].entry, d, bytes, ts))], stats := s), Updated)
    else
      match PlaceFor(t.slots, SeenOf(), t.config.evictLru)
      case NoRoom => (t.(stats := t.stats.(dropped := t.stats.dropped + 1)), Failed)
      case InFree(at) =>
        (t.(slots := t.slots[at := Used(NewEntry(k, d, bytes, ts))], stats := CountCreate(t.stats, bytes)), Created)
      case Evicting(at, v) =>
        var s := t.stats.(active := t.stats.active - 1, evicted := t.stats.evicted + 1);
        (t.(slots := t.slots[at := Used(NewEntry(k, d, bytes, ts))], stats := CountCreate(s, bytes)), Evicted(v))
  }

  function Expire(t: Table, ts: u32): Table {
    var slots := Expired(t.slots, Dead(t.config, ts));
    var n := UsedCount(t.slots) - UsedCount(slots);
    var expired := t.stats.expired + if n < 0 then 0 else n;
    t.(slots := slots, stats := t.stats.(active := t.stats.active - n, expired := expired))
  }

  /** One slot per key, and counters that balance. */
  ghost predicate TableOk(t: Table) {
    && |t.slots| == MAX_ENTRIES && Unique(t.slots, KeyOf())
    && t.stats.active == UsedCount(t.slots) == t.stats.created - t.stats.evicted - t.stats.expired
    && t.stats.packets == t.stats.created + t.stats.updated
  }

  /** What a touch does to the map of live flows. */
  ghost predicate TouchEffect(t: Table, t': Table, r: TouchResult, k: FlowKey, d: Direction, bytes: u32, ts: u32) {
    match r
    case Updated =>
      && Find(t, k).Some?
      && forall q :: Find(t', q) == if q == k then Some(Refresh(Find(t, k).value, d, bytes, ts)) else Find(t, q)
    case Created =>
      && Find(t, k).None?
      && forall q :: Find(t', q) == if q == k then Some(NewEntry(k, d, bytes, ts)) else Find(t, q)
    case Evicted(v) =>
      && Find(t, k).None? && Find(t, v.key) == Some(v)
      && (forall q :: Find(t, q).Some? ==> v.lastSeenMs <= Find(t, q).value.lastSeenMs)
      && (forall q :: Find(t', q) ==
                      if q == k then Some(NewEntry(k, d, bytes, ts)) else if q == v.key then None else Find(t, q))
    case Failed => Find(t, k).None? && t'.slots == t.slots
  }

  lemma TouchKeepsOk(t: Table, k: FlowKey, d: Direction, bytes: u32, ts: u32)
    requires TableOk(t)
    ensures TableOk(Touched(t, k, d, bytes, ts).0)
  {
    var i := IndexOf(t.slots, KeyOf(), k);
    if i < |t.slots| {
      var e := Refresh(t.slots[i].entry, d, bytes, ts);
      LookupWrite(t.slots, KeyOf(), i, e);
      UsedCountUpdate(t.slots, i, Used(e));
    } else {
      var e := NewEntry(k, d, bytes, ts);
      match PlaceFor(t.slots, SeenOf(), t.config.evictLru)
      case NoRoom =>
      case InFree(at) => PlaceInFree(t.slots, KeyOf(), at, e);
      case Evicting(at, v) => PlaceOverVictim(t.slots, KeyOf(), at, e);
    }
  }

  /**
   * Touch refines insertion into a map: the touched key gets its refreshed or new entry, and every
   * other key keeps its entry, except that a full table gives up one least-recently-seen entry.
   */
  lemma TouchRefinesMap(t: Table, k: FlowKey, d: Direction, bytes: u32, ts: u32)
    requires TableOk(t)
    ensures var (t', r) := Touched(t, k, d, bytes, ts); TouchEffect(t, t', r, k, d, bytes, ts)
  {
    var i := IndexOf(t.slots, KeyOf(), k);
    if i < |t.slots| {
      var e := Refresh(t.slots[i].entry, d, bytes, ts);
      LookupWrite(t.slots, KeyOf(), i, e);
    } else {
      var e := NewEntry(k, d, bytes, ts);
      match PlaceFor(t.slots, SeenOf(), t.config.evictLru)
      case NoRoom =>
      case InFree(at) => PlaceInFree(t.slots, KeyOf(), at, e);
      case Evicting(at, v) =>
        PlaceOverVictim(t.slots, KeyOf(), at, e);
        forall q | Find(t, q).Some? ensures v.lastSeenMs <= Find(t, q).value.lastSeenMs {
          VictimIsOldest(t.slots, KeyOf(), SeenOf(), at, q);
        }
    }
  }

  /** Expiry removes exactly the idle or over-age flows and keeps the counters balanced. */
  lemma ExpireRefinesMap(t: Table, ts: u32, q: FlowKey)
    requires TableOk(t)
    ensures TableOk(Expire(t, ts))
    ensures Find(Expire(t, ts), q) ==
            match Find(t, q)
            case None => None
            case Some(e) =>
              if Sub32(ts, e.lastSeenMs) > t.config.maxIdleMs || Sub32(ts, e.firstSeenMs) > t.config.hardTtlMs
              then None else Some(e)
  {
    LookupExpired(t.slots, KeyOf(), Dead(t.config, ts), q);
    ExpiredCount(t.slots, Dead(t.config, ts));
  }

  datatype FlowOp = TouchOp(key: FlowKey, direction: Direction, bytes: u32, ts: u32) | ExpireOp(ts: u32)

  ghost function RunOps(config: FlowConfig, ops: seq<FlowOp>): Table {
    if ops == [] then InitialTable(config)
    else
      var t := RunOps(config, ops[..|ops| - 1]);
      match ops[|ops| - 1]
      case TouchOp(k, d, bytes, ts) => Touched(t, k, d, bytes, ts).0
      case ExpireOp(ts) => Expire(t, ts)
  }

  /** In every reachable state keys are unique and the counters balance. */
  lemma {:induction false} ReachableTableOk(config: FlowConfig, ops: seq<FlowOp>)
    ensures TableOk(RunOps(config, ops))
  {
    if ops == [] {
      UsedCountAllFree(InitialTable(config).slots);
    } else {
      ReachableTableOk(config, ops[..|ops| - 1]);
      var t := RunOps(config, ops[..|ops| - 1]);
      match ops[|ops| - 1]
      case TouchOp(k, d, bytes, ts) => TouchKeepsOk(t, k, d, bytes, ts);
      case ExpireOp(ts) => ExpireRefinesMap(t, ts, FlowKey(0, 0, 0, 0, 0));
    }
  }

  // ---- What an entry says about the traffic ----

  predicate Touches(op: FlowOp, k: FlowKey) { op.TouchOp? && op.key == k }

  function PacketsOf(ops: seq<FlowOp>, k: FlowKey): nat {
    if ops == [] then 0 else PacketsOf(ops[..|ops| - 1], k) + if Touches(ops[|ops| - 1], k) then 1 else 0
  }

  function BytesOf(ops: seq<FlowOp>, k: FlowKey): nat {
    if ops == [] then 0
    else BytesOf(ops[..|ops| - 1], k) + if Touches(ops[|ops| - 1], k) then ops[|ops| - 1].bytes else 0
  }

  /** The entry sums up the touches of its flow from the i-th operation to the j-th, and there is none after. */
  ghost predicate SumsUp(e: FlowEntry, ops: seq<FlowOp>, k: FlowKey, i: nat, j: nat) {
    && i <= j < |ops| && Touches(ops[i], k) && Touches(ops[j], k)
    && (forall x :: j < x < |ops| ==> !Touches(ops[x], k))
    && e.key == k && e.state == Active && e.direction == ops[j].direction
    && e.firstSeenMs == ops[i].ts && e.lastSeenMs == ops[j].ts
    && e.packets == PacketsOf(ops[i..], k) && e.bytes == BytesOf(ops[i..], k)
  }

  lemma OneMoreOp(ops: seq<FlowOp>, i: nat, k: FlowKey)
    requires i < |ops|
    ensures var last := ops[|ops| - 1]; var before := ops[..|ops| - 1];
            && PacketsOf(ops[i..], k) == PacketsOf(before[i..], k) + (if Touches(last, k) then 1 else 0)
            && BytesOf(ops[i..], k) == BytesOf(before[i..], k) + (if Touches(last, k) then last.bytes else 0)
  {
    assert ops[i..][..|ops| - 1 - i] == ops[..|ops| - 1][i..];
  }

  /** What the last operation of a run does to the entry of k. */
  lemma LastOp(config: FlowConfig, ops: seq<FlowOp>, k: FlowKey)
    requires ops != [] && Find(RunOps(config, ops), k).Some?
    ensures var n := |ops| - 1;
            var was, now := Find(RunOps(config, ops[..n]), k), Find(RunOps(config, ops), k).value;
            if !Touches(ops[n], k) then was == Some(now)
            else match was
              case None =>
                now == FlowEntry(k, ops[n].direction, Active, 1, ops[n].bytes, ops[n].ts, ops[n].ts)
              case Some(e) =>
                now == e.(direction := ops[n].direction, packets := e.packets + 1, bytes := e.bytes + ops[n].bytes,
                          lastSeenMs := ops[n].ts,
                          state := if e.state == Empty || e.state == Lapsed then Active else e.state)
  {
    hide Touched, TableOk, Expire;
    var n := |ops| - 1;
    ReachableTableOk(config, ops[..n]);
    var t := RunOps(config, ops[..n]);
    match ops[n]
    case TouchOp(q, d, bytes, ts) => TouchRefinesMap(t, q, d, bytes, ts);
    case ExpireOp(ts) => ExpireRefinesMap(t, ts, k);
  }

  /**
   * In every reachable state the entry of a flow counts exactly the packets and bytes of that flow
   * since some touch that opened it, and carries the times of that touch and of the last one.
   */
  lemma {:induction false} EntriesSumUp(config: FlowConfig, ops: seq<FlowOp>, k: FlowKey)
    requires Find(RunOps(config, ops), k).Some?
    ensures exists i: nat, j: nat :: SumsUp(Find(RunOps(config, ops), k).value, ops, k, i, j)
  {
    hide Touched, Expire, TableOk, Lookup;
    if ops == [] {
      NothingAtFirst(config, k);
    } else {
      var n := |ops| - 1;
      var was, now := Find(RunOps(config, ops[..n]), k), Find(RunOps(config, ops), k).value;
      LastOp(config, ops, k);
      if was.None? {
        OneMoreOp(ops, n, k);
        assert ops[..n][n..] == [];
        assert SumsUp(now, ops, k, n, n);
      } else {
        EntriesSumUp(config, ops[..n], k);
        var i: nat, j: nat :| SumsUp(was.value, ops[..n], k, i, j);
        OneMoreOp(ops, i, k);
        assert SumsUp(now, ops, k, i, if Touches(ops[n], k) then n else j);
      }
    }
  }

  lemma NothingAtFirst(config: FlowConfig, k: FlowKey)
    ensures Find(RunOps(config, []), k).None?
  {
  }

  /** Every touch is counted once: as a flow created or updated with its packet and bytes, or as dropped. */
  lemma TouchesAreCounted(t: Table, k: FlowKey, d: Direction, bytes: u32, ts: u32)
    ensures var (t', r) := Touched(t, k, d, bytes, ts); var s, s' := t.stats, t'.stats;
            var kept := if r.Failed? then 0 else 1;
            && s'.packets == s.packets + kept && s'.bytes == s.bytes + kept * bytes
            && s'.created == s.created + (if r.Created? || r.Evicted? then 1 else 0)
            && s'.updated == s.updated + (if r.Updated? then 1 else 0)
            && s'.evicted == s.evicted + (if r.Evicted? then 1 else 0)
            && s'.dropped == s.dropped + (if r.Failed? then 1 else 0) && s'.expired == s.expired
            && t'.config == t.config
  {
    hide IndexOf, PlaceFor;
  }

  /** A touch fails exactly when its flow is new, the table is full and it may not or cannot evict. */
  lemma TouchFailsIff(t: Table, k: FlowKey, d: Direction, bytes: u32, ts: u32)
    ensures Touched(t, k, d, bytes, ts).1.Failed? <==> !RoomFor(t.slots, KeyOf(), k, SeenOf(), t.config.evictLru)
  {
    hide PlaceFor;
    if Find(t, k).None? {
      RoomIffPlaced(t.slots, KeyOf(), k, SeenOf(), t.config.evictLru);
    }
  }

  /** The table as the firmware keeps it. */
  class FlowTable {
    const slots: array<Slot<FlowEntry>>
    const config: FlowConfig
    var stats: FlowStats

    ghost predicate Valid()
      reads this, slots
    {
      TableOk(Abs())
    }

    ghost function Abs(): Table
      reads this, slots
    {
      Table(slots[..], config, stats)
    }

    constructor (config: FlowConfig)
      ensures Valid() && fresh(slots) && Abs() == InitialTable(config)
      ensures this.config.maxIdleMs == if config.maxIdleMs == 0 then 60000 else config.maxIdleMs
      ensures this.config.hardTtlMs == if config.hardTtlMs == 0 then 600000 else config.hardTtlMs
      ensures this.config.evictLru == config.evictLru && stats == FlowStats(0, 0, 0, 0, 0, 0, 0, 0)
    {
      slots := new Slot<FlowEntry>[MAX_ENTRIES](_ => Free);
      this.config := InitialTable(config).config;
      stats := FlowStats(0, 0, 0, 0, 0, 0, 0, 0);
      new;
      assert slots[..] == InitialTable(config).slots;
      UsedCountAllFree(slots[..]);
    }

    method Touch(k: FlowKey, d: Direction, bytes: u32, ts: u32) returns (r: TouchResult)
      requires Valid()
      modifies this, slots
      ensures Valid() && (Abs(), r) == Touched(old(Abs()), k, d, bytes, ts)
    {
      hide TableOk, PlaceFor, IndexOf, Refresh, NewEntry;
      TouchKeepsOk(Abs(), k, d, bytes, ts);
      var i := FindKey(slots, KeyOf(), k);
      if i < slots.Length {
        slots[i] := Used(Refresh(slots[i].entry, d, bytes, ts));
        stats := stats.(packets := stats.packets + 1, bytes := stats.bytes + bytes, updated := stats.updated + 1);
        return Updated;
      }
      var p := FindPlace(slots, SeenOf(), config.evictLru);
      match p
      case NoRoom =>
        stats := stats.(dropped := stats.dropped + 1);
        return Failed;
      case InFree(at) =>
        slots[at] := Used(NewEntry(k, d, bytes, ts));
        stats := CountCreate(stats, bytes);
        return Created;
      case Evicting(at, v) =>
        stats := stats.(active := stats.active - 1, evicted := stats.evicted + 1);
        slots[at] := Used(NewEntry(k, d, bytes, ts));
        stats := CountCreate(stats, bytes);
        return Evicted(v);
    }

    method ExpireOld(ts: u32) returns (n: nat)
      requires Valid()
      modifies this, slots
      ensures Valid() && Abs() == Expire(old(Abs()), ts)
    {
      ExpireRefinesMap(Abs(), ts, FlowKey(0, 0, 0, 0, 0));
      n := ExpireAll(slots, Dead(config, ts));
      stats := stats.(active := stats.active - n, expired := stats.expired + n);
    }
  }
}
