/**
 * The fixed-window counter of one rate-limited key, and how many packets it can let through.
 * Times are those of a millisecond clock that has not wrapped, and counters have not wrapped.
 */
module RateWindows {
  import opened Bytes

  datatype Params = Params(windowMs: nat, maxPackets: nat, maxBytes: nat)

  datatype Window = Window(start: nat, last: nat, packets: nat, bytes: nat)

  /** A packet of the key is checked, or idle buckets are collected. */
  datatype Tick = Packet(ts: nat, bytes: nat) | Collect(ts: nat)

  predicate Exceeded(p: Params, w: Window) {
    (p.maxPackets > 0 && w.packets > p.maxPackets) || (p.maxBytes > 0 && w.bytes > p.maxBytes)
  }

  /** No limit is set, so nothing is ever refused. */
  predicate Unlimited(p: Params) { p.maxPackets == 0 && p.maxBytes == 0 }

  /** Count one packet, starting a new window when the old one is over. */
  function Advance(p: Params, w: Window, bytes: nat, ts: nat): Window {
    if ts - w.start >= p.windowMs then Window(ts, ts, 1, bytes)
    else Window(w.start, ts, w.packets + 1, w.bytes + bytes)
  }

  function Opened(w: Option<Window>, ts: nat): Window { if w.Some? then w.value else Window(ts, ts, 0, 0) }

  /** The bucket after a tick. */
  function Next(p: Params, maxIdle: nat, w: Option<Window>, t: Tick): Option<Window> {
    match t
    case Packet(ts, bytes) => Some(Advance(p, Opened(w, ts), bytes, ts))
    case Collect(ts) => if w.Some? && ts - w.value.last > maxIdle then None else w
  }

  function Final(p: Params, maxIdle: nat, ticks: seq<Tick>): Option<Window> {
    if ticks == [] then None else Next(p, maxIdle, Final(p, maxIdle, ticks[..|ticks| - 1]), ticks[|ticks| - 1])
  }

  predicate Allowed(p: Params, w: Option<Window>, t: Tick) {
    t.Packet? && !Exceeded(p, Advance(p, Opened(w, t.ts), t.bytes, t.ts))
  }

  /** The packets allowed at times from `from` up to, but not including, `from + windowMs`. */
  function AllowedIn(p: Params, maxIdle: nat, ticks: seq<Tick>, from: nat): nat {
    if ticks == [] then 0
    else
      var before, t := ticks[..|ticks| - 1], ticks[|ticks| - 1];
      AllowedIn(p, maxIdle, before, from)
      + if from <= t.ts < from + p.windowMs && Allowed(p, Final(p, maxIdle, before), t) then 1 else 0
  }

  predicate Ordered(ticks: seq<Tick>) { forall i, j :: 0 <= i < j < |ticks| ==> ticks[i].ts <= ticks[j].ts }

  function Now(ticks: seq<Tick>): nat { if ticks == [] then 0 else ticks[|ticks| - 1].ts }

  predicate Appended(p: Params, maxIdle: nat, ticks: seq<Tick>, t: Tick, from: nat) {
    && Final(p, maxIdle, ticks + [t]) == Next(p, maxIdle, Final(p, maxIdle, ticks), t)
    && AllowedIn(p, maxIdle, ticks + [t], from) == AllowedIn(p, maxIdle, ticks, from)
       + if from <= t.ts < from + p.windowMs && Allowed(p, Final(p, maxIdle, ticks), t) then 1 else 0
  }

  lemma TickAppended(p: Params, maxIdle: nat, ticks: seq<Tick>, t: Tick, from: nat)
    ensures Appended(p, maxIdle, ticks, t, from)
  {
    assert (ticks + [t])[..|ticks|] == ticks;
  }

  // ---- Windows ----

  /** A window as counting leaves it: its last packet is inside it, and a single packet opened it. */
  predicate WindowOk(p: Params, w: Window, now: nat) {
    && w.start <= w.last <= now && w.last - w.start < p.windowMs
    && w.packets > 0 && (w.packets == 1 ==> w.last == w.start)
  }

  lemma {:induction false} WindowsOk(p: Params, maxIdle: nat, ticks: seq<Tick>)
    requires Ordered(ticks) && p.windowMs > 0
    ensures Final(p, maxIdle, ticks).Some? ==> WindowOk(p, Final(p, maxIdle, ticks).value, Now(ticks))
  {
    if ticks != [] {
      WindowsOk(p, maxIdle, ticks[..|ticks| - 1]);
    }
  }

  /** Packets that leave the window w. */
  function Past(w: Window): seq<Tick> {
    if w.packets <= 1 then [Packet(w.start, w.bytes)]
    else [Packet(w.start, w.bytes)] + Burst(w.start, w.packets - 2) + [Packet(w.last, 0)]
  }

  lemma {:induction false} PastBurst(p: Params, maxIdle: nat, ts: nat, bytes: nat, n: nat)
    requires p.windowMs > 0
    ensures Final(p, maxIdle, [Packet(ts, bytes)] + Burst(ts, n)) == Some(Window(ts, ts, n + 1, bytes))
  {
    if n == 0 {
      assert [Packet(ts, bytes)] + Burst(ts, 0) == [Packet(ts, bytes)];
      assert [Packet(ts, bytes)][..0] == [];
    } else {
      PastBurst(p, maxIdle, ts, bytes, n - 1);
      assert ([Packet(ts, bytes)] + Burst(ts, n))[..n] == [Packet(ts, bytes)] + Burst(ts, n - 1);
    }
  }

  lemma PastLeaves(p: Params, maxIdle: nat, w: Window)
    requires WindowOk(p, w, w.last)
    ensures Ordered(Past(w)) && Now(Past(w)) == w.last && Final(p, maxIdle, Past(w)) == Some(w)
  {
    if w.packets == 1 {
      PastBurst(p, maxIdle, w.start, w.bytes, 0);
      assert [Packet(w.start, w.bytes)] + Burst(w.start, 0) == Past(w);
    } else {
      PastBurst(p, maxIdle, w.start, w.bytes, w.packets - 2);
      TickAppended(p, maxIdle, [Packet(w.start, w.bytes)] + Burst(w.start, w.packets - 2), Packet(w.last, 0), 0);
    }
  }

  /** These are exactly the windows that runs leave open. */
  lemma WindowOkIff(p: Params, maxIdle: nat, w: Window)
    requires p.windowMs > 0
    ensures WindowOk(p, w, w.last) <==> exists ticks :: Ordered(ticks) && Final(p, maxIdle, ticks) == Some(w)
  {
    if WindowOk(p, w, w.last) {
      PastLeaves(p, maxIdle, w);
    }
    if ticks :| Ordered(ticks) && Final(p, maxIdle, ticks) == Some(w) {
      WindowsOk(p, maxIdle, ticks);
    }
  }

  /** The times at which windows start in a run. */
  function Starts(p: Params, maxIdle: nat, ticks: seq<Tick>): seq<nat> {
    if ticks == [] then []
    else
      var before, t := ticks[..|ticks| - 1], ticks[|ticks| - 1];
      var w := Final(p, maxIdle, before);
      Starts(p, maxIdle, before) + if t.Packet? && (w.None? || t.ts - w.value.start >= p.windowMs) then [t.ts] else []
  }

  predicate Apart(s: seq<nat>, gap: nat) { forall i :: 0 < i < |s| ==> s[i - 1] + gap <= s[i] }

  /** The open window is the last one started; with none open, the last one is a window length old. */
  lemma {:induction false} StartsApart(p: Params, maxIdle: nat, ticks: seq<Tick>)
    requires Ordered(ticks) && 0 < p.windowMs <= maxIdle + 1
    ensures var s, w := Starts(p, maxIdle, ticks), Final(p, maxIdle, ticks);
            && Apart(s, p.windowMs) && (w.Some? ==> s != [] && s[|s| - 1] == w.value.start)
            && (w.None? && s != [] ==> s[|s| - 1] + p.windowMs <= Now(ticks))
  {
    if ticks != [] {
      var before := ticks[..|ticks| - 1];
      StartsApart(p, maxIdle, before);
      WindowsOk(p, maxIdle, before);
      assert before != [] ==> Now(before) <= ticks[|ticks| - 1].ts;
    }
  }

  /**
   * Windows start at least a window length apart in every run exactly when a window is at most one
   * millisecond longer than the idle limit: a longer one can be collected and reopened early.
   */
  lemma StartsApartIff(p: Params, maxIdle: nat)
    requires p.windowMs > 0
    ensures p.windowMs <= maxIdle + 1 <==> forall ticks :: Ordered(ticks) ==>
            Apart(Starts(p, maxIdle, ticks), p.windowMs)
  {
    if p.windowMs <= maxIdle + 1 {
      forall ticks | Ordered(ticks) ensures Apart(Starts(p, maxIdle, ticks), p.windowMs) {
        StartsApart(p, maxIdle, ticks);
      }
    } else {
      EarlyReopening(p, maxIdle);
    }
  }

  /** One packet, a collection as soon as it may be, and the next packet. */
  function ReopenedEarly(maxIdle: nat): seq<Tick> { [Packet(0, 0), Collect(maxIdle + 1), Packet(maxIdle + 1, 0)] }

  lemma EarlyReopening(p: Params, maxIdle: nat)
    requires p.windowMs > maxIdle + 1
    ensures Ordered(ReopenedEarly(maxIdle)) && !Apart(Starts(p, maxIdle, ReopenedEarly(maxIdle)), p.windowMs)
  {
    var c := ReopenedEarly(maxIdle);
    var a, b := [Packet(0, 0)], [Packet(0, 0), Collect(maxIdle + 1)];
    assert a[..0] == [] && b[..1] == a && c[..2] == b;
    assert Final(p, maxIdle, a) == Some(Window(0, 0, 1, 0)) && Starts(p, maxIdle, a) == [0];
    assert Final(p, maxIdle, b) == None && Starts(p, maxIdle, b) == [0];
    assert Starts(p, maxIdle, c) == [0, maxIdle + 1];
    assert Starts(p, maxIdle, c)[0] + p.windowMs > Starts(p, maxIdle, c)[1];
  }

  // ---- A refusal lasts to the end of its window ----

  /** The window in which tick i, a packet, is counted. */
  function WindowAt(p: Params, maxIdle: nat, ticks: seq<Tick>, i: nat): Window
    requires i < |ticks| && ticks[i].Packet?
  {
    Advance(p, Opened(Final(p, maxIdle, ticks[..i]), ticks[i].ts), ticks[i].bytes, ticks[i].ts)
  }

  /** Tick i is a packet, and it is refused. */
  predicate RefusedAt(p: Params, maxIdle: nat, ticks: seq<Tick>, i: nat) {
    i < |ticks| && ticks[i].Packet? && Exceeded(p, WindowAt(p, maxIdle, ticks, i))
  }

  /** After a refused packet, every packet before the end of its window is refused as well. */
  predicate Sticky(p: Params, maxIdle: nat, ticks: seq<Tick>) {
    forall i, j :: 0 <= i < j < |ticks| && RefusedAt(p, maxIdle, ticks, i) && ticks[j].Packet?
                   && ticks[j].ts < WindowAt(p, maxIdle, ticks, i).start + p.windowMs
                   ==> RefusedAt(p, maxIdle, ticks, j)
  }

  /** Up to tick n the exceeded window of tick i stays open and exceeded. */
  lemma {:induction false} StaysExceeded(p: Params, maxIdle: nat, ticks: seq<Tick>, i: nat, n: nat)
    requires Ordered(ticks) && 0 < p.windowMs <= maxIdle + 1 && i < n <= |ticks| && RefusedAt(p, maxIdle, ticks, i)
    requires ticks[n - 1].ts < WindowAt(p, maxIdle, ticks, i).start + p.windowMs
    ensures var w := Final(p, maxIdle, ticks[..n]);
            w.Some? && w.value.start == WindowAt(p, maxIdle, ticks, i).start && Exceeded(p, w.value)
  {
    assert ticks[..n][..n - 1] == ticks[..n - 1];
    if n > i + 1 {
      StaysExceeded(p, maxIdle, ticks, i, n - 1);
      WindowsOk(p, maxIdle, ticks[..n - 1]);
    }
  }

  /** n empty packets at one time. */
  function Burst(ts: nat, n: nat): (s: seq<Tick>)
    ensures |s| == n && forall i :: 0 <= i < n ==> s[i] == Packet(ts, 0)
  {
    seq(n, _ => Packet(ts, 0))
  }

  /** The burst that fills a window and one packet more. */
  lemma {:induction false} BurstWindow(p: Params, maxIdle: nat, n: nat)
    requires p.windowMs > 0
    ensures Final(p, maxIdle, Burst(0, n)) == if n == 0 then None else Some(Window(0, 0, n, 0))
  {
    if n > 0 {
      BurstWindow(p, maxIdle, n - 1);
      assert Burst(0, n)[..n - 1] == Burst(0, n - 1);
    }
  }

  /** Packets at time 0 that exceed a limit, the last one refused. */
  function Excess(p: Params): (s: seq<Tick>)
    requires !Unlimited(p)
    ensures |s| > 0 && forall i :: 0 <= i < |s| ==> s[i].Packet? && s[i].ts == 0 && s[i].bytes <= p.maxBytes + 1
  {
    if p.maxPackets > 0 then Burst(0, p.maxPackets + 1) else [Packet(0, p.maxBytes), Packet(0, 1)]
  }

  lemma ExcessIsRefused(p: Params, maxIdle: nat)
    requires p.windowMs > 0 && !Unlimited(p)
    ensures var s := Excess(p);
            && RefusedAt(p, maxIdle, s, |s| - 1)
            && Final(p, maxIdle, s).Some? && Final(p, maxIdle, s).value.start == Final(p, maxIdle, s).value.last == 0
            && WindowAt(p, maxIdle, s, |s| - 1).start == 0
  {
    var s := Excess(p);
    if p.maxPackets > 0 {
      BurstWindow(p, maxIdle, p.maxPackets + 1);
      BurstWindow(p, maxIdle, p.maxPackets);
      assert s[..p.maxPackets] == Burst(0, p.maxPackets);
    } else {
      assert s[..1] == [Packet(0, p.maxBytes)] && s[..1][..0] == [];
      assert Final(p, maxIdle, s[..1]) == Some(Window(0, 0, 1, p.maxBytes));
    }
  }

  /** A longer window collected as soon as it may be lets the next packet pass again. */
  function Forgiven(p: Params, maxIdle: nat): seq<Tick>
    requires !Unlimited(p)
  {
    Excess(p) + [Collect(maxIdle + 1), Packet(maxIdle + 1, 0)]
  }

  lemma ForgivenIsNotSticky(p: Params, maxIdle: nat)
    requires p.windowMs > maxIdle + 1 && !Unlimited(p)
    ensures Ordered(Forgiven(p, maxIdle)) && !Sticky(p, maxIdle, Forgiven(p, maxIdle))
  {
    hide Excess, Final;
    var s, t := Excess(p), Forgiven(p, maxIdle);
    var n := |s|;
    ExcessIsRefused(p, maxIdle);
    assert t[..n] == s && t[..n - 1] == s[..n - 1] && t[n - 1] == s[n - 1];
    assert t[..n + 1] == s + [Collect(maxIdle + 1)];
    TickAppended(p, maxIdle, s, Collect(maxIdle + 1), 0);
    assert RefusedAt(p, maxIdle, t, n - 1);
    assert t[n + 1] == Packet(maxIdle + 1, 0) && !RefusedAt(p, maxIdle, t, n + 1);
  }

  /**
   * In every run a refusal lasts to the end of its window exactly when the window is at most a
   * millisecond longer than the idle limit, or there is no limit to exceed.
   */
  lemma StickyIff(p: Params, maxIdle: nat)
    requires p.windowMs > 0
    ensures (p.windowMs <= maxIdle + 1 || Unlimited(p)) <==> forall ticks :: Ordered(ticks) ==>
            Sticky(p, maxIdle, ticks)
  {
    hide Final, Excess, WindowAt;
    if Unlimited(p) {
    } else if p.windowMs <= maxIdle + 1 {
      forall ticks | Ordered(ticks) ensures Sticky(p, maxIdle, ticks) {
        RefusalsLast(p, maxIdle, ticks);
      }
    } else {
      ForgivenIsNotSticky(p, maxIdle);
    }
  }

  lemma RefusalsLast(p: Params, maxIdle: nat, ticks: seq<Tick>)
    requires Ordered(ticks) && 0 < p.windowMs <= maxIdle + 1
    ensures Sticky(p, maxIdle, ticks)
  {
    hide Final;
    forall i, j | 0 <= i < j < |ticks| && RefusedAt(p, maxIdle, ticks, i) && ticks[j].Packet?
                  && ticks[j].ts < WindowAt(p, maxIdle, ticks, i).start + p.windowMs
      ensures RefusedAt(p, maxIdle, ticks, j)
    {
      StaysExceeded(p, maxIdle, ticks, i, j);
    }
  }

  // ---- At most twice the limit ----

  /** When collecting idle buckets can never squeeze a third window into one window length. */
  predicate CollectingIsSafe(p: Params, maxIdle: nat) {
    p.windowMs <= maxIdle + 2 || (p.maxPackets == 1 && p.windowMs <= 2 * maxIdle + 2)
  }

  /** How much of the interval starting at `from` the windows so far can have used. */
  predicate Bounded(p: Params, maxIdle: nat, w: Option<Window>, a: nat, from: nat, now: nat) {
    var m := p.maxPackets;
    if now >= from + p.windowMs then a <= 2 * m
    else if w.None? then a == 0 || (a <= m && now >= from + maxIdle + 1)
    else
      var b := w.value;
      if b.last < from then a == 0
      else a <= Min(b.packets, m) || (b.start >= from + 1 && a <= m + Min(b.packets, m))
  }

  lemma BoundedStep(p: Params, maxIdle: nat, w: Option<Window>, a: nat, from: nat, now: nat, t: Tick)
    requires p.windowMs > 0 && p.maxPackets > 0 && p.windowMs <= maxIdle + 2 && now <= t.ts
    requires Bounded(p, maxIdle, w, a, from, now) && (w.Some? ==> WindowOk(p, w.value, now))
    ensures var a' := a + if from <= t.ts < from + p.windowMs && Allowed(p, w, t) then 1 else 0;
            Bounded(p, maxIdle, Next(p, maxIdle, w, t), a', from, t.ts)
  {
  }

  /** With a limit of one packet, a window is used up by the packet that opens it. */
  predicate BoundedSingle(p: Params, maxIdle: nat, w: Option<Window>, a: nat, from: nat, now: nat) {
    if now >= from + p.windowMs then a <= 2
    else if w.None? then a == 0 || (a <= 1 && now >= from + maxIdle + 1)
    else
      var b := w.value;
      if b.start < from then a == 0 else a <= 1 || (a <= 2 && b.start >= from + maxIdle + 1)
  }

  lemma BoundedSingleStep(p: Params, maxIdle: nat, w: Option<Window>, a: nat, from: nat, now: nat, t: Tick)
    requires p.windowMs > 0 && p.maxPackets == 1 && p.windowMs <= 2 * maxIdle + 2 && now <= t.ts
    requires BoundedSingle(p, maxIdle, w, a, from, now) && (w.Some? ==> WindowOk(p, w.value, now))
    ensures var a' := a + if from <= t.ts < from + p.windowMs && Allowed(p, w, t) then 1 else 0;
            BoundedSingle(p, maxIdle, Next(p, maxIdle, w, t), a', from, t.ts)
  {
  }

  lemma {:induction false} AllBounded(p: Params, maxIdle: nat, ticks: seq<Tick>, from: nat)
    requires Ordered(ticks) && p.windowMs > 0 && p.maxPackets > 0 && CollectingIsSafe(p, maxIdle)
    ensures p.windowMs <= maxIdle + 2 ==>
              Bounded(p, maxIdle, Final(p, maxIdle, ticks), AllowedIn(p, maxIdle, ticks, from), from, Now(ticks))
    ensures p.maxPackets == 1 && p.windowMs <= 2 * maxIdle + 2 ==>
              BoundedSingle(p, maxIdle, Final(p, maxIdle, ticks), AllowedIn(p, maxIdle, ticks, from), from, Now(ticks))
  {
    if ticks != [] {
      var before, t := ticks[..|ticks| - 1], ticks[|ticks| - 1];
      AllBounded(p, maxIdle, before, from);
      WindowsOk(p, maxIdle, before);
      var w, a := Final(p, maxIdle, before), AllowedIn(p, maxIdle, before, from);
      if p.windowMs <= maxIdle + 2 {
        BoundedStep(p, maxIdle, w, a, from, Now(before), t);
      }
      if p.maxPackets == 1 && p.windowMs <= 2 * maxIdle + 2 {
        BoundedSingleStep(p, maxIdle, w, a, from, Now(before), t);
      }
    }
  }

  /** Any half-open interval of one window length lets through at most twice the packet limit. */
  lemma AtMostTwiceTheLimit(p: Params, maxIdle: nat, ticks: seq<Tick>, from: nat)
    requires Ordered(ticks) && p.windowMs > 0 && p.maxPackets > 0 && CollectingIsSafe(p, maxIdle)
    ensures AllowedIn(p, maxIdle, ticks, from) <= 2 * p.maxPackets
  {
    AllBounded(p, maxIdle, ticks, from);
  }

  // ---- A clock that ends ----

  /**
   * When collecting can never squeeze a third window into one window length before the clock reaches
   * `end`: as above, or the clock ends before a window that ran its full length is followed by one
   * that is collected.
   */
  predicate SafeUntil(p: Params, maxIdle: nat, end: nat) {
    CollectingIsSafe(p, maxIdle) || (p.windowMs <= 2 * maxIdle + 2 && p.windowMs + maxIdle + 1 >= end)
  }

  predicate Before(ticks: seq<Tick>, end: nat) { forall i :: 0 <= i < |ticks| ==> ticks[i].ts < end }

  /** The second window of the interval was opened by a collection, or after a whole first one. */
  predicate BoundedUntil(p: Params, maxIdle: nat, w: Option<Window>, a: nat, from: nat, now: nat) {
    var m := p.maxPackets;
    if now >= from + p.windowMs then a <= 2 * m
    else if w.None? then a == 0 || (a <= m && now >= from + maxIdle + 1)
    else
      var b := w.value;
      if b.last < from then a == 0
      else
        || a <= Min(b.packets, m)
        || (a <= m + Min(b.packets, m) && b.start >= from
            && (b.start >= from + maxIdle + 1 || b.start >= p.windowMs))
  }

  lemma BoundedUntilStep(p: Params, maxIdle: nat, w: Option<Window>, a: nat, from: nat, now: nat, t: Tick)
    requires p.windowMs > 0 && p.maxPackets > 0 && p.windowMs <= 2 * maxIdle + 2 && now <= t.ts
    requires t.ts < p.windowMs + maxIdle + 1
    requires BoundedUntil(p, maxIdle, w, a, from, now) && (w.Some? ==> WindowOk(p, w.value, now))
    ensures var a' := a + if from <= t.ts < from + p.windowMs && Allowed(p, w, t) then 1 else 0;
            BoundedUntil(p, maxIdle, Next(p, maxIdle, w, t), a', from, t.ts)
  {
  }

  lemma {:induction false} AllBoundedUntil(p: Params, maxIdle: nat, ticks: seq<Tick>, from: nat)
    requires Ordered(ticks) && p.windowMs > 0 && p.maxPackets > 0 && p.windowMs <= 2 * maxIdle + 2
    requires Before(ticks, p.windowMs + maxIdle + 1)
    ensures BoundedUntil(p, maxIdle, Final(p, maxIdle, ticks), AllowedIn(p, maxIdle, ticks, from), from, Now(ticks))
  {
    if ticks != [] {
      var before, t := ticks[..|ticks| - 1], ticks[|ticks| - 1];
      AllBoundedUntil(p, maxIdle, before, from);
      WindowsOk(p, maxIdle, before);
      var w, a := Final(p, maxIdle, before), AllowedIn(p, maxIdle, before, from);
      BoundedUntilStep(p, maxIdle, w, a, from, Now(before), t);
    }
  }

  lemma AtMostTwiceUntil(p: Params, maxIdle: nat, ticks: seq<Tick>, from: nat, end: nat)
    requires Ordered(ticks) && Before(ticks, end) && p.windowMs > 0 && p.maxPackets > 0 && SafeUntil(p, maxIdle, end)
    ensures AllowedIn(p, maxIdle, ticks, from) <= 2 * p.maxPackets
  {
    if CollectingIsSafe(p, maxIdle) {
      AtMostTwiceTheLimit(p, maxIdle, ticks, from);
    } else {
      AllBoundedUntil(p, maxIdle, ticks, from);
    }
  }

  // ---- The condition is exact ----

  lemma {:induction false} AfterBurst(p: Params, maxIdle: nat, ticks: seq<Tick>, ts: nat, n: nat, from: nat, w: Window)
    requires Final(p, maxIdle, ticks) == Some(w) && w.start <= ts < w.start + p.windowMs && w.bytes == 0
    requires w.packets + n <= p.maxPackets && from <= ts < from + p.windowMs
    ensures Final(p, maxIdle, ticks + Burst(ts, n)) ==
            Some(Window(w.start, if n == 0 then w.last else ts, w.packets + n, 0))
    ensures AllowedIn(p, maxIdle, ticks + Burst(ts, n), from) == AllowedIn(p, maxIdle, ticks, from) + n
  {
    hide Final, AllowedIn;
    if n == 0 {
      assert ticks + Burst(ts, 0) == ticks;
    } else {
      var before := ticks + Burst(ts, n - 1);
      AfterBurst(p, maxIdle, ticks, ts, n - 1, from, w);
      assert ticks + Burst(ts, n) == before + [Packet(ts, 0)];
      TickAppended(p, maxIdle, before, Packet(ts, 0), from);
    }
  }

  /** A new window opened by the next packet. */
  lemma Reopened(p: Params, maxIdle: nat, ticks: seq<Tick>, ts: nat, from: nat)
    requires p.windowMs > 0 && p.maxPackets > 0
    requires Final(p, maxIdle, ticks).None? || ts - Final(p, maxIdle, ticks).value.start >= p.windowMs
    ensures Final(p, maxIdle, ticks + [Packet(ts, 0)]) == Some(Window(ts, ts, 1, 0))
    ensures AllowedIn(p, maxIdle, ticks + [Packet(ts, 0)], from) ==
            AllowedIn(p, maxIdle, ticks, from) + if from <= ts < from + p.windowMs then 1 else 0
  {
    assert (ticks + [Packet(ts, 0)])[..|ticks|] == ticks;
  }

  lemma Collected(p: Params, maxIdle: nat, ticks: seq<Tick>, ts: nat, from: nat)
    requires Final(p, maxIdle, ticks).Some? && ts - Final(p, maxIdle, ticks).value.last > maxIdle
    ensures Final(p, maxIdle, ticks + [Collect(ts)]) == None
    ensures AllowedIn(p, maxIdle, ticks + [Collect(ts)], from) == AllowedIn(p, maxIdle, ticks, from)
  {
    assert (ticks + [Collect(ts)])[..|ticks|] == ticks;
  }

  /** Empty packets and collections up to a time. */
  predicate Plain(ticks: seq<Tick>, until: nat) {
    forall i :: 0 <= i < |ticks| ==> ticks[i].ts <= until && (ticks[i].Packet? ==> ticks[i].bytes == 0)
  }

  /** A full window of packets at one time. */
  lemma FullWindow(p: Params, maxIdle: nat, ticks: seq<Tick>, ts: nat, from: nat)
    requires Ordered(ticks) && p.windowMs > 0 && p.maxPackets > 0 && from <= ts < from + p.windowMs && Now(ticks) <= ts
    requires Final(p, maxIdle, ticks).None? || ts - Final(p, maxIdle, ticks).value.start >= p.windowMs
    ensures var full := ticks + Burst(ts, p.maxPackets);
            && Ordered(full) && Now(full) == ts
            && Final(p, maxIdle, full) == Some(Window(ts, ts, p.maxPackets, 0))
            && AllowedIn(p, maxIdle, full, from) == AllowedIn(p, maxIdle, ticks, from) + p.maxPackets
  {
    hide Final, AllowedIn;
    var m := p.maxPackets;
    OrderedBurst(ticks, ts, m);
    Reopened(p, maxIdle, ticks, ts, from);
    var one := ticks + [Packet(ts, 0)];
    AfterBurst(p, maxIdle, one, ts, m - 1, from, Window(ts, ts, 1, 0));
    assert ticks + Burst(ts, m) == one + Burst(ts, m - 1);
  }

  lemma OrderedBurst(ticks: seq<Tick>, ts: nat, n: nat)
    requires Ordered(ticks) && Now(ticks) <= ts && n > 0
    ensures Ordered(ticks + Burst(ts, n)) && Now(ticks + Burst(ts, n)) == ts
  {
  }

  /** Three full windows, collected in between. */
  lemma ThreeCollected(p: Params, maxIdle: nat) returns (ticks: seq<Tick>)
    requires p.windowMs > 2 * maxIdle + 2 && p.maxPackets > 0
    ensures Ordered(ticks) && Plain(ticks, 2 * maxIdle + 2) && AllowedIn(p, maxIdle, ticks, 0) == 3 * p.maxPackets
  {
    hide Final, AllowedIn;
    var t1, t2, m := maxIdle + 1, 2 * maxIdle + 2, p.maxPackets;
    NoTicks(p, maxIdle, 0);
    FullWindow(p, maxIdle, [], 0, 0);
    var s0 := [] + Burst(0, m);
    Collected(p, maxIdle, s0, t1, 0);
    FullWindow(p, maxIdle, s0 + [Collect(t1)], t1, 0);
    var s1 := s0 + [Collect(t1)] + Burst(t1, m);
    Collected(p, maxIdle, s1, t2, 0);
    FullWindow(p, maxIdle, s1 + [Collect(t2)], t2, 0);
    ticks := s1 + [Collect(t2)] + Burst(t2, m);
  }

  lemma NoTicks(p: Params, maxIdle: nat, from: nat)
    ensures Final(p, maxIdle, []) == None && AllowedIn(p, maxIdle, [], from) == 0
  {
  }

  /** The end of one window and a whole second window, seen from the last millisecond of the first. */
  lemma TwoWindows(p: Params, maxIdle: nat) returns (ticks: seq<Tick>)
    requires p.windowMs > 1 && p.maxPackets > 1
    ensures Ordered(ticks) && Plain(ticks, p.windowMs) && Now(ticks) == p.windowMs
    ensures Final(p, maxIdle, ticks) == Some(Window(p.windowMs, p.windowMs, p.maxPackets, 0))
    ensures AllowedIn(p, maxIdle, ticks, p.windowMs - 1) == 2 * p.maxPackets - 1
  {
    var w := p.windowMs;
    var first := [Packet(0, 0)];
    Reopened(p, maxIdle, [], 0, w - 1);
    assert [] + first == first;
    AfterBurst(p, maxIdle, first, w - 1, p.maxPackets - 1, w - 1, Window(0, 0, 1, 0));
    var before := first + Burst(w - 1, p.maxPackets - 1);
    assert Ordered(before);
    FullWindow(p, maxIdle, before, w, w - 1);
    ticks := before + Burst(w, p.maxPackets);
  }

  /** A third window opened after collection. */
  lemma ThreeWindows(p: Params, maxIdle: nat) returns (ticks: seq<Tick>)
    requires p.windowMs > maxIdle + 2 && p.maxPackets > 1
    ensures Ordered(ticks) && Plain(ticks, p.windowMs + maxIdle + 1)
    ensures AllowedIn(p, maxIdle, ticks, p.windowMs - 1) == 3 * p.maxPackets - 1
  {
    var two := TwoWindows(p, maxIdle);
    var at := p.windowMs + maxIdle + 1;
    Collected(p, maxIdle, two, at, p.windowMs - 1);
    assert Ordered(two + [Collect(at)]);
    FullWindow(p, maxIdle, two + [Collect(at)], at, p.windowMs - 1);
    ticks := two + [Collect(at)] + Burst(at, p.maxPackets);
  }

  /** Where collecting is not safe, a run and an interval that pass the bound. */
  lemma TooMany(p: Params, maxIdle: nat) returns (ticks: seq<Tick>, from: nat)
    requires p.windowMs > 0 && p.maxPackets > 0 && !CollectingIsSafe(p, maxIdle)
    ensures Ordered(ticks) && AllowedIn(p, maxIdle, ticks, from) > 2 * p.maxPackets
    ensures Plain(ticks, if p.windowMs > 2 * maxIdle + 2 then 2 * maxIdle + 2 else p.windowMs + maxIdle + 1)
  {
    hide AllowedIn;
    if p.windowMs > 2 * maxIdle + 2 {
      from := 0;
      ticks := ThreeCollected(p, maxIdle);
    } else {
      from := p.windowMs - 1;
      ticks := ThreeWindows(p, maxIdle);
    }
  }

  /**
   * The bound of twice the limit holds over all runs exactly when the idle time after which buckets
   * are collected is long enough for the window.
   */
  lemma BoundIsExact(p: Params, maxIdle: nat)
    requires p.windowMs > 0 && p.maxPackets > 0
    ensures CollectingIsSafe(p, maxIdle) <==>
            forall ticks, from: nat :: Ordered(ticks) ==> AllowedIn(p, maxIdle, ticks, from) <= 2 * p.maxPackets
  {
    if CollectingIsSafe(p, maxIdle) {
      forall ticks, from: nat | Ordered(ticks) ensures AllowedIn(p, maxIdle, ticks, from) <= 2 * p.maxPackets {
        AtMostTwiceTheLimit(p, maxIdle, ticks, from);
      }
    } else {
      var ticks, from := TooMany(p, maxIdle);
    }
  }
}
