/** The zone firewall: one verdict out of the flow table, the quarantine, the policy and the limiter. */
module Firewalls {
  import opened Bytes
  import opened Slots
  import opened Flows
  import F = FlowTables
  import Q = Quarantines
  import P = Policies
  import R = RateLimits

  datatype Verdict = Allow | Drop | Redirect | LogOnly

  datatype FwConfig = FwConfig(defaultAllow: bool, autoQuarantine: bool, quarantineTtlMs: u32)

  datatype FwStats = FwStats(evaluations: nat, allowed: nat, dropped: nat, redirected: nat, quarantinedHits: nat,
                             rateExceeded: nat, policyDenied: nat)

  datatype Firewall = Firewall(config: FwConfig, stats: FwStats, flows: F.Table, quarantine: Q.Quarantine,
                               policy: P.Policy, limiter: R.Limiter)

  datatype FwDecision = FwDecision(verdict: Verdict, policyAction: P.Action, rateExceeded: bool, quarantined: bool,
                                   risk: byte)

  /** One packet, with the clock as each table reads it in turn. */
  datatype Flow = Flow(key: FlowKey, direction: Direction, bytes: u32, touchTs: u32, checkTs: u32, policyTs: u32,
                       rateTs: u32, addTs: u32)

  function Max(a: byte, b: byte): byte { if a < b then b else a }

  /** The request the firewall makes for a source: full block, for its configured time. */
  function Sentence(fw: Firewall, f: Flow, source: Q.Source, risk: byte): Q.Request {
    Q.Request(Q.Ip(f.key.srcIp), Q.BlockAll, source, fw.config.quarantineTtlMs, risk)
  }

  /** Put the source address of a flow under full quarantine. */
  ghost function Confine(fw: Firewall, f: Flow, source: Q.Source, risk: byte): (r: (Firewall, Result<()>)) {
    var (q, result) := Q.Add(fw.quarantine, Sentence(fw, f, source, risk), f.addTs);
    (fw.(quarantine := q), result)
  }

  /** After a miss or a mode other than full block: the policy stage, filling in the decision so far. */
  ghost function PolicyStage(fw: Firewall, f: Flow, d: FwDecision): (r: (Firewall, FwDecision)) {
    match P.Evaluate(fw.policy, f.key, f.direction, f.policyTs)
    case Err(_) => RateStage(fw, f, d.(verdict := if fw.config.defaultAllow then Allow else Drop))
    case Ok(p) => ActionStage(fw, f, d.(policyAction := p.action, risk := p.risk))
  }

  /** What the policy action asks for. */
  ghost function ActionStage(fw: Firewall, f: Flow, d: FwDecision): (r: (Firewall, FwDecision)) {
    var denied := fw.stats.(dropped := fw.stats.dropped + 1, policyDenied := fw.stats.policyDenied + 1);
    if d.policyAction == P.Deny then (fw.(stats := denied), d.(verdict := Drop))
    else if d.policyAction == P.QuarantineIt then
      (Confine(fw, f, Q.LocalPolicy, d.risk).0.(stats := denied), d.(verdict := Drop))
    else if d.policyAction == P.Redirect then
      (fw.(stats := fw.stats.(redirected := fw.stats.redirected + 1)), d.(verdict := Redirect))
    else RateStage(fw, f, d)
  }

  /** The rate stage always writes the verdict, whatever the stages before it chose. */
  ghost function RateStage(fw: Firewall, f: Flow, d: FwDecision): (r: (Firewall, FwDecision)) {
    var (l, v) := R.Check(fw.limiter, R.BucketKey(f.key, f.direction), f.bytes, f.rateTs);
    var fw1 := fw.(limiter := l);
    if v.Over? then
      var risk := Max(d.risk, 80);
      var fw2 := if fw.config.autoQuarantine && v.suggestQuarantine then Confine(fw1, f, Q.RateLimit, risk).0 else fw1;
      var stats := fw.stats.(dropped := fw.stats.dropped + 1, rateExceeded := fw.stats.rateExceeded + 1);
      (fw2.(stats := stats), d.(verdict := Drop, rateExceeded := true, risk := risk))
    else
      (fw1.(stats := fw.stats.(allowed := fw.stats.allowed + 1)),
       d.(verdict := if d.policyAction == P.LogOnly then LogOnly else Allow))
  }

  /** The decision before any stage has run, but for what the quarantine said. */
  function Begun(hit: Option<Q.QEntry>): FwDecision {
    FwDecision(Allow, P.Allow, false, hit.Some?, if hit.Some? then hit.value.risk else 0)
  }

  /** `zone_firewall_evaluate_flow` */
  ghost function Evaluate(fw: Firewall, f: Flow): (r: (Firewall, FwDecision)) {
    var t := F.Touched(fw.flows, f.key, f.direction, f.bytes, f.touchTs).0;
    var (q, hit) := Q.Check(fw.quarantine, Q.Ip(f.key.srcIp), f.checkTs);
    var s := fw.stats.(evaluations := fw.stats.evaluations + 1);
    var fw1 := fw.(flows := t, quarantine := q, stats := s);
    if hit.Some? && hit.value.mode == Q.BlockAll then
      (fw1.(stats := s.(dropped := s.dropped + 1, quarantinedHits := s.quarantinedHits + 1)),
       Begun(hit).(verdict := Drop))
    else PolicyStage(fw1, f, Begun(hit))
  }

  // ---- What one evaluation does ----

  predicate Balanced(s: FwStats) { s.evaluations == s.allowed + s.dropped + s.redirected }

  /** A verdict raises its own counter and no other verdict's. */
  predicate Counts(s: FwStats, s': FwStats, v: Verdict) {
    && s'.dropped == s.dropped + (if v == Drop then 1 else 0)
    && s'.redirected == s.redirected + (if v == Redirect then 1 else 0)
    && s'.allowed == s.allowed + (if v == Allow || v == LogOnly then 1 else 0)
  }

  /** The quarantine is untouched, or had the flow's source added. */
  ghost predicate AddedAtMost(q: Q.Quarantine, q': Q.Quarantine, f: Flow) {
    q' == q || exists r: Q.Request :: r.subject == Q.Ip(f.key.srcIp) && q' == Q.Add(q, r, f.addTs).0
  }

  ghost predicate StageFacts(fw: Firewall, fw': Firewall, d: FwDecision, f: Flow) {
    && Counts(fw.stats, fw'.stats, d.verdict) && fw'.stats.evaluations == fw.stats.evaluations
    && fw'.flows == fw.flows && fw'.policy == fw.policy && fw'.config == fw.config
    && (|| fw'.limiter == fw.limiter
        || fw'.limiter == R.Check(fw.limiter, R.BucketKey(f.key, f.direction), f.bytes, f.rateTs).0)
    && AddedAtMost(fw.quarantine, fw'.quarantine, f)
  }

  lemma RateStageHolds(fw: Firewall, f: Flow, d: FwDecision)
    ensures var (fw', d') := RateStage(fw, f, d); StageFacts(fw, fw', d', f)
  {
    hide Q.Add, R.Check;
  }

  lemma PolicyStageHolds(fw: Firewall, f: Flow, d: FwDecision)
    ensures var (fw', d') := PolicyStage(fw, f, d); StageFacts(fw, fw', d', f)
  {
    hide Q.Add, R.Check, P.Evaluate, RateStage;
    match P.Evaluate(fw.policy, f.key, f.direction, f.policyTs)
    case Err(_) => RateStageHolds(fw, f, d.(verdict := if fw.config.defaultAllow then Allow else Drop));
    case Ok(p) => RateStageHolds(fw, f, d.(policyAction := p.action, risk := p.risk));
  }

  /** A check of the source, then at most one add of it; one counter raised; each other table stepped at most once. */
  lemma EvaluateHolds(fw: Firewall, f: Flow)
    ensures var (fw', d) := Evaluate(fw, f);
            var limited := R.Check(fw.limiter, R.BucketKey(f.key, f.direction), f.bytes, f.rateTs).0;
            && Counts(fw.stats, fw'.stats, d.verdict) && fw'.stats.evaluations == fw.stats.evaluations + 1
            && fw'.flows == F.Touched(fw.flows, f.key, f.direction, f.bytes, f.touchTs).0
            && fw'.policy == fw.policy && fw'.config == fw.config
            && (fw'.limiter == fw.limiter || fw'.limiter == limited)
            && AddedAtMost(Q.Check(fw.quarantine, Q.Ip(f.key.srcIp), f.checkTs).0, fw'.quarantine, f)
  {
    hide F.Touched, Q.Check, Q.Add, R.Check, PolicyStage;
    var t := F.Touched(fw.flows, f.key, f.direction, f.bytes, f.touchTs).0;
    var (q, hit) := Q.Check(fw.quarantine, Q.Ip(f.key.srcIp), f.checkTs);
    var fw1 := fw.(flows := t, quarantine := q, stats := fw.stats.(evaluations := fw.stats.evaluations + 1));
    PolicyStageHolds(fw1, f, Begun(hit));
  }

  lemma EvaluateBalanced(fw: Firewall, f: Flow)
    requires Balanced(fw.stats)
    ensures Balanced(Evaluate(fw, f).0.stats)
  {
    hide Evaluate;
    EvaluateHolds(fw, f);
  }

  // ---- The verdict ----

  /** The quarantine blocks the source, the policy's answer, and whether the packet gets as far as the rate limit. */
  ghost predicate BlockedSource(fw: Firewall, f: Flow) {
    var hit := Q.Check(fw.quarantine, Q.Ip(f.key.srcIp), f.checkTs).1;
    hit.Some? && hit.value.mode == Q.BlockAll
  }

  ghost predicate PolicySays(fw: Firewall, f: Flow, a: P.Action) {
    var p := P.Evaluate(fw.policy, f.key, f.direction, f.policyTs);
    p.Ok? && p.value.action == a
  }

  ghost predicate Denied(fw: Firewall, f: Flow) { PolicySays(fw, f, P.Deny) || PolicySays(fw, f, P.QuarantineIt) }

  ghost predicate Limited(fw: Firewall, f: Flow) {
    !BlockedSource(fw, f) && !Denied(fw, f) && !PolicySays(fw, f, P.Redirect)
  }

  ghost predicate TooFast(fw: Firewall, f: Flow) {
    Limited(fw, f) && R.Check(fw.limiter, R.BucketKey(f.key, f.direction), f.bytes, f.rateTs).1.Over?
  }

  /**
   * The verdict on every flow, whatever the state: dropped exactly when its source is blocked, the
   * policy denies or quarantines it, or it is limited and too fast; else redirected, logged or let
   * through as the policy says.
   */
  lemma VerdictIs(fw: Firewall, f: Flow)
    ensures var d := Evaluate(fw, f).1;
            && (d.verdict == Drop <==> BlockedSource(fw, f) || Denied(fw, f) || TooFast(fw, f))
            && (d.verdict == Redirect <==> !BlockedSource(fw, f) && PolicySays(fw, f, P.Redirect))
            && (d.verdict == LogOnly <==> Limited(fw, f) && !TooFast(fw, f) && PolicySays(fw, f, P.LogOnly))
            && (d.verdict == Allow <==> Limited(fw, f) && !TooFast(fw, f) && !PolicySays(fw, f, P.LogOnly))
  {
    hide F.Touched, Q.Check, Q.Add, R.Check, P.Evaluate;
  }

  /** The rest of the decision: what the quarantine, the policy and the limiter said of the flow, and the risk. */
  lemma DecisionIs(fw: Firewall, f: Flow)
    ensures var d := Evaluate(fw, f).1;
            var hit := Q.Check(fw.quarantine, Q.Ip(f.key.srcIp), f.checkTs).1;
            var p := P.Evaluate(fw.policy, f.key, f.direction, f.policyTs);
            var asked := !BlockedSource(fw, f) && p.Ok?;
            var risk := if asked then p.value.risk else if hit.Some? then hit.value.risk else 0;
            && d.policyAction == (if asked then p.value.action else P.Allow)
            && d.quarantined == hit.Some? && d.rateExceeded == TooFast(fw, f)
            && d.risk == if TooFast(fw, f) && risk < 80 then 80 else risk
  {
    hide F.Touched, Q.Check, Q.Add, R.Check, P.Evaluate;
  }

  /** The counters: one verdict each, and the reason for every drop. */
  lemma DropsAreExplained(fw: Firewall, f: Flow)
    ensures var s, s' := fw.stats, Evaluate(fw, f).0.stats;
            && s'.quarantinedHits == s.quarantinedHits + (if BlockedSource(fw, f) then 1 else 0)
            && s'.policyDenied == s.policyDenied + (if !BlockedSource(fw, f) && Denied(fw, f) then 1 else 0)
            && s'.rateExceeded == s.rateExceeded + (if TooFast(fw, f) then 1 else 0)
            && s'.dropped - s.dropped ==
               s'.quarantinedHits - s.quarantinedHits + s'.policyDenied - s.policyDenied
               + s'.rateExceeded - s.rateExceeded
  {
    hide F.Touched, Q.Check, Q.Add, R.Check, P.Evaluate;
  }

  /**
   * The limiter counts exactly the flows that reach it, and the quarantine gains exactly the sources
   * that the policy quarantines, or that are too fast where that is configured and suggested.
   */
  lemma TablesAfter(fw: Firewall, f: Flow)
    ensures var (fw', d) := Evaluate(fw, f);
            var (l, v) := R.Check(fw.limiter, R.BucketKey(f.key, f.direction), f.bytes, f.rateTs);
            var q := Q.Check(fw.quarantine, Q.Ip(f.key.srcIp), f.checkTs).0;
            var ip, ttl := Q.Ip(f.key.srcIp), fw.config.quarantineTtlMs;
            && fw'.limiter == (if Limited(fw, f) then l else fw.limiter)
            && fw'.quarantine ==
               if !BlockedSource(fw, f) && PolicySays(fw, f, P.QuarantineIt) then
                 Q.Add(q, Q.Request(ip, Q.BlockAll, Q.LocalPolicy, ttl, d.risk), f.addTs).0
               else if TooFast(fw, f) && fw.config.autoQuarantine && v.suggestQuarantine then
                 Q.Add(q, Q.Request(ip, Q.BlockAll, Q.RateLimit, ttl, d.risk), f.addTs).0
               else q
  {
    hide F.Touched, Q.Check, Q.Add, R.Check, P.Evaluate;
  }

  /**
   * A failing policy evaluation is never a reason to drop: the default verdict chosen for it is
   * overwritten by the rate stage, so whatever the default, a flow is dropped exactly when its
   * source is blocked or its rate exceeded.
   */
  lemma PolicyFailureIsOverwritten(fw: Firewall, f: Flow)
    requires !fw.policy.initialized
    ensures var hit := Q.Check(fw.quarantine, Q.Ip(f.key.srcIp), f.checkTs).1;
            var v := R.Check(fw.limiter, R.BucketKey(f.key, f.direction), f.bytes, f.rateTs).1;
            Evaluate(fw, f).1.verdict == if (hit.Some? && hit.value.mode == Q.BlockAll) || v.Over? then Drop else Allow
  {
    hide F.Touched, Q.Check, Q.Add, R.Check;
  }

  /** Default-deny with nothing initialised but the firewall itself. */
  function DefaultDeny(flows: F.Table): Firewall {
    Firewall(FwConfig(false, true, 60000), FwStats(0, 0, 0, 0, 0, 0, 0), flows, Q.UnusedQuarantine(),
             P.UnusedPolicy(), R.UnusedLimiter())
  }

  /** In that state every flow is let through. */
  lemma DefaultDenyLetsThrough(flows: F.Table, f: Flow)
    ensures !DefaultDeny(flows).config.defaultAllow && Evaluate(DefaultDeny(flows), f).1.verdict == Allow
  {
    hide F.Touched;
    PolicyFailureIsOverwritten(DefaultDeny(flows), f);
  }

  /** Until the quarantine is initialised no source is ever confined or held to be quarantined. */
  lemma UnusedQuarantineHoldsNobody(fw: Firewall, f: Flow)
    requires !fw.quarantine.initialized
    ensures var (fw', d) := Evaluate(fw, f);
            !fw'.quarantine.initialized && fw'.quarantine.slots == fw.quarantine.slots && !d.quarantined
  {
    hide F.Touched, P.Evaluate, R.Check;
  }

  // ---- Invariant ----

  ghost predicate FirewallOk(fw: Firewall) {
    F.TableOk(fw.flows) && Q.QuarantineOk(fw.quarantine) && R.LimiterOk(fw.limiter) && Balanced(fw.stats)
  }

  lemma EvaluateKeepsOk(fw: Firewall, f: Flow)
    requires FirewallOk(fw)
    ensures FirewallOk(Evaluate(fw, f).0)
  {
    EvaluateHolds(fw, f);
    F.TouchKeepsOk(fw.flows, f.key, f.direction, f.bytes, f.touchTs);
    R.CheckRefinesMap(fw.limiter, R.BucketKey(f.key, f.direction), f.bytes, f.rateTs);
    MovedOk(fw.quarantine, Evaluate(fw, f).0.quarantine, f);
  }

  lemma MovedOk(q: Q.Quarantine, q': Q.Quarantine, f: Flow)
    requires Q.QuarantineOk(q) && AddedAtMost(Q.Check(q, Q.Ip(f.key.srcIp), f.checkTs).0, q', f)
    ensures Q.QuarantineOk(q') && q'.initialized == q.initialized && q'.config == q.config
  {
    Q.CheckRefinesMap(q, Q.Ip(f.key.srcIp), f.checkTs);
    var q1 := Q.Check(q, Q.Ip(f.key.srcIp), f.checkTs).0;
    if q' != q1 {
      var r: Q.Request :| r.subject == Q.Ip(f.key.srcIp) && q' == Q.Add(q1, r, f.addTs).0;
      Q.AddKeepsOk(q1, r, f.addTs);
    }
  }

  // ---- Operations around the firewall ----

  datatype FwOp =
    | Packet(flow: Flow)
    | SetPolicy(policy: P.Policy)
    | SetRateRules(rules: seq<Slot<R.RateRule>>)
    | ExpireFlows(ts: u32)
    | ExpireQuarantine(ts: u32)
    | ExpireBuckets(ts: u32)
    | Quarantine(request: Q.Request, ts: u32)
    | Release(subject: Q.Subject)

  ghost function Step(fw: Firewall, op: FwOp): Firewall {
    match op
    case Packet(f) => Evaluate(fw, f).0
    case SetPolicy(p) => fw.(policy := p)
    case SetRateRules(rules) => fw.(limiter := fw.limiter.(rules := rules))
    case ExpireFlows(ts) => fw.(flows := F.Expire(fw.flows, ts))
    case ExpireQuarantine(ts) => fw.(quarantine := Q.Expire(fw.quarantine, ts))
    case ExpireBuckets(ts) => fw.(limiter := R.Expire(fw.limiter, ts))
    case Quarantine(r, ts) => fw.(quarantine := Q.Add(fw.quarantine, r, ts).0)
    case Release(s) => fw.(quarantine := Q.Remove(fw.quarantine, s).0)
  }

  lemma StepKeepsOk(fw: Firewall, op: FwOp)
    requires FirewallOk(fw)
    ensures FirewallOk(Step(fw, op))
  {
    match op
    case Packet(f) => EvaluateKeepsOk(fw, f);
    case SetPolicy(_) =>
    case SetRateRules(_) =>
    case ExpireFlows(ts) => F.ExpireRefinesMap(fw.flows, ts, FlowKey(0, 0, 0, 0, 0));
    case ExpireQuarantine(ts) =>
      if fw.quarantine.initialized {
        Q.ExpireRefinesMap(fw.quarantine, ts);
      }
    case ExpireBuckets(ts) =>
      if fw.limiter.initialized {
        R.ExpireRefinesMap(fw.limiter, ts, R.BucketKey(FlowKey(0, 0, 0, 0, 0), AnyDirection));
      }
    case Quarantine(r, ts) => Q.AddKeepsOk(fw.quarantine, r, ts);
    case Release(s) => Q.RemoveRefinesMap(fw.quarantine, s);
  }

  ghost function Run(fw: Firewall, ops: seq<FwOp>): Firewall
    decreases ops
  {
    if ops == [] then fw else Run(Step(fw, ops[0]), ops[1..])
  }

  /** In every reachable state each table is well formed and every evaluation was counted exactly once. */
  lemma {:induction false} RunKeepsOk(fw: Firewall, ops: seq<FwOp>)
    requires FirewallOk(fw)
    ensures FirewallOk(Run(fw, ops))
    decreases ops
  {
    if ops != [] {
      StepKeepsOk(fw, ops[0]);
      RunKeepsOk(Step(fw, ops[0]), ops[1..]);
    }
  }

  // ---- Quarantine sticks ----

  /** The address is fully blocked at every time before `until`. */
  ghost predicate Blocked(q: Q.Quarantine, ip: u32, until: nat) {
    && q.initialized && Q.Find(q, Q.Ip(ip)).Some?
    && var e := Q.Find(q, Q.Ip(ip)).value;
       e.mode == Q.BlockAll && (e.expiresAtMs == 0 || e.expiresAtMs >= until)
  }

  /** The operation happens before `until` and does not lift or shorten the block of this address. */
  predicate Respects(op: FwOp, config: Q.QConfig, ip: u32, until: nat) {
    match op
    case Packet(f) => f.checkTs < until
    case ExpireQuarantine(ts) => ts < until
    case Quarantine(r, ts) => r.subject == Q.Ip(ip) ==> Prolongs(config, r, ts, until)
    case Release(s) => s != Q.Ip(ip)
    case _ => true
  }

  /** The request is a full block that lasts at least until then. */
  predicate Prolongs(config: Q.QConfig, r: Q.Request, ts: u32, until: nat) {
    r.mode == Q.BlockAll && (Q.Expiry(config, r, ts) == 0 || Q.Expiry(config, r, ts) >= until)
  }

  /** A blocked source is dropped at once, and only its own hit is recorded. */
  lemma BlockedIsDropped(fw: Firewall, f: Flow, until: nat)
    requires FirewallOk(fw) && Blocked(fw.quarantine, f.key.srcIp, until) && f.checkTs < until
    ensures var (fw', d) := Evaluate(fw, f);
            && d.verdict == Drop && d.quarantined && fw'.policy == fw.policy && fw'.limiter == fw.limiter
            && Blocked(fw'.quarantine, f.key.srcIp, until)
            && fw'.quarantine.stats.evicted == fw.quarantine.stats.evicted
  {
    Q.CheckRefinesMap(fw.quarantine, Q.Ip(f.key.srcIp), f.checkTs);
  }

  lemma OtherMoveKeepsBlocked(q: Q.Quarantine, q': Q.Quarantine, f: Flow, ip: u32, until: nat)
    requires Q.QuarantineOk(q) && Blocked(q, ip, until) && f.key.srcIp != ip
             && AddedAtMost(Q.Check(q, Q.Ip(f.key.srcIp), f.checkTs).0, q', f)
    ensures q'.stats.evicted >= q.stats.evicted
    ensures q'.stats.evicted == q.stats.evicted ==> Blocked(q', ip, until)
  {
    Q.CheckRefinesMap(q, Q.Ip(f.key.srcIp), f.checkTs);
    var q1 := Q.Check(q, Q.Ip(f.key.srcIp), f.checkTs).0;
    if q' != q1 {
      var r: Q.Request :| r.subject == Q.Ip(f.key.srcIp) && q' == Q.Add(q1, r, f.addTs).0;
      AddKeepsBlocked(q1, r, f.addTs, ip, until);
    }
  }

  lemma AddKeepsBlocked(q: Q.Quarantine, r: Q.Request, ts: u32, ip: u32, until: nat)
    requires Q.QuarantineOk(q) && Blocked(q, ip, until) && (r.subject == Q.Ip(ip) ==> Prolongs(q.config, r, ts, until))
    ensures Q.Add(q, r, ts).0.stats.evicted >= q.stats.evicted
    ensures Q.Add(q, r, ts).0.stats.evicted == q.stats.evicted ==> Blocked(Q.Add(q, r, ts).0, ip, until)
  {
    Q.AddRefinesMap(q, r, ts);
  }

  lemma StepKeepsBlocked(fw: Firewall, op: FwOp, ip: u32, until: nat)
    requires FirewallOk(fw) && Blocked(fw.quarantine, ip, until) && Respects(op, fw.quarantine.config, ip, until)
    ensures Step(fw, op).quarantine.stats.evicted >= fw.quarantine.stats.evicted
    ensures Step(fw, op).quarantine.stats.evicted == fw.quarantine.stats.evicted ==>
            Blocked(Step(fw, op).quarantine, ip, until)
  {
    match op
    case Packet(f) =>
      if f.key.srcIp == ip {
        BlockedIsDropped(fw, f, until);
      } else {
        EvaluateHolds(fw, f);
        OtherMoveKeepsBlocked(fw.quarantine, Step(fw, op).quarantine, f, ip, until);
      }
    case ExpireQuarantine(ts) => Q.ExpireRefinesMap(fw.quarantine, ts);
    case Quarantine(r, ts) => AddKeepsBlocked(fw.quarantine, r, ts, ip, until);
    case Release(s) => Q.RemoveRefinesMap(fw.quarantine, s);
    case _ =>
  }

  /** Evictions are only ever counted up, and the quarantine keeps its settings. */
  lemma StepEvictions(fw: Firewall, op: FwOp)
    requires FirewallOk(fw)
    ensures Step(fw, op).quarantine.stats.evicted >= fw.quarantine.stats.evicted
    ensures Step(fw, op).quarantine.config == fw.quarantine.config
  {
    if op.Packet? {
      EvaluateHolds(fw, op.flow);
      Q.CheckRefinesMap(fw.quarantine, Q.Ip(op.flow.key.srcIp), op.flow.checkTs);
    }
  }

  lemma {:induction false} RunEvictions(fw: Firewall, ops: seq<FwOp>)
    requires FirewallOk(fw)
    ensures Run(fw, ops).quarantine.stats.evicted >= fw.quarantine.stats.evicted
    decreases ops
  {
    if ops != [] {
      StepKeepsOk(fw, ops[0]);
      StepEvictions(fw, ops[0]);
      RunEvictions(Step(fw, ops[0]), ops[1..]);
    }
  }

  /** The verdicts given to the packets of one address. */
  ghost predicate AllDropped(fw: Firewall, ops: seq<FwOp>, ip: u32)
    decreases ops
  {
    ops == [] ||
    (&& (ops[0].Packet? && ops[0].flow.key.srcIp == ip ==> Evaluate(fw, ops[0].flow).1.verdict == Drop)
     && AllDropped(Step(fw, ops[0]), ops[1..], ip))
  }

  /**
   * Stickiness: while an address is blocked until some time, every packet from it before that time
   * is dropped, in every run without a quarantine eviction in which nothing lifts or shortens the
   * block, whatever the policy, the rate rules and the other traffic become.
   */
  lemma {:induction false} QuarantineSticks(fw: Firewall, ops: seq<FwOp>, ip: u32, until: nat)
    requires FirewallOk(fw) && Blocked(fw.quarantine, ip, until)
    requires forall k :: 0 <= k < |ops| ==> Respects(ops[k], fw.quarantine.config, ip, until)
    requires Run(fw, ops).quarantine.stats.evicted == fw.quarantine.stats.evicted
    ensures AllDropped(fw, ops, ip)
    decreases ops
  {
    if ops != [] {
      var fw' := Step(fw, ops[0]);
      StepKeepsOk(fw, ops[0]);
      StepKeepsBlocked(fw, ops[0], ip, until);
      StepEvictions(fw, ops[0]);
      RunEvictions(fw', ops[1..]);
      if ops[0].Packet? && ops[0].flow.key.srcIp == ip {
        BlockedIsDropped(fw, ops[0].flow, until);
      }
      QuarantineSticks(fw', ops[1..], ip, until);
    }
  }

  /** A confinement that is accepted blocks the address for the whole time to live. */
  lemma ConfineBlocks(fw: Firewall, f: Flow, source: Q.Source, risk: byte)
    requires Q.QuarantineOk(fw.quarantine) && fw.config.quarantineTtlMs > 0 && f.addTs + fw.config.quarantineTtlMs < U32
    requires Confine(fw, f, source, risk).1.Ok?
    ensures Blocked(Confine(fw, f, source, risk).0.quarantine, f.key.srcIp, f.addTs + fw.config.quarantineTtlMs)
  {
    Q.AddRefinesMap(fw.quarantine, Sentence(fw, f, source, risk), f.addTs);
  }

  /** The state in which the policy stage runs. */
  function Checked(fw: Firewall, f: Flow): Firewall {
    fw.(quarantine := Q.Check(fw.quarantine, Q.Ip(f.key.srcIp), f.checkTs).0)
  }

  /** The policy, or failing that the rate limiter, sends this flow's source to quarantine. */
  ghost predicate Sentences(fw: Firewall, f: Flow, source: Q.Source) {
    var hit := Q.Check(fw.quarantine, Q.Ip(f.key.srcIp), f.checkTs).1;
    var p := P.Evaluate(fw.policy, f.key, f.direction, f.policyTs);
    var v := R.Check(fw.limiter, R.BucketKey(f.key, f.direction), f.bytes, f.rateTs).1;
    && !(hit.Some? && hit.value.mode == Q.BlockAll)
    && if source == Q.LocalPolicy then p.Ok? && p.value.action == P.QuarantineIt
       else source == Q.RateLimit && fw.config.autoQuarantine && v == R.Over(true)
            && (p.Ok? ==> p.value.action !in {P.Deny, P.QuarantineIt, P.Redirect})
  }

  lemma SentenceConfines(fw: Firewall, f: Flow, source: Q.Source) returns (risk: byte)
    requires Sentences(fw, f, source)
    ensures Evaluate(fw, f).0.quarantine == Confine(Checked(fw, f), f, source, risk).0.quarantine
    ensures Evaluate(fw, f).1.verdict == Drop
  {
    risk := Evaluate(fw, f).1.risk;
  }

  /** The quarantine runs, the source is an address, and there is room for it. */
  ghost predicate CanConfine(q: Q.Quarantine, f: Flow) {
    q.initialized && f.key.srcIp != 0 && Q.HasRoom(q, Q.Ip(f.key.srcIp))
  }

  lemma ConfinementAccepted(fw: Firewall, f: Flow, source: Q.Source, risk: byte)
    requires Q.QuarantineOk(fw.quarantine) && CanConfine(fw.quarantine, f)
    ensures Confine(Checked(fw, f), f, source, risk).1.Ok?
  {
    hide Q.Add, Q.Check, Q.HasRoom;
    var subject := Q.Ip(f.key.srcIp);
    Q.CheckKeepsRoom(fw.quarantine, subject, f.checkTs);
    Q.CheckRefinesMap(fw.quarantine, subject, f.checkTs);
    Q.AcceptedIff(Checked(fw, f).quarantine, Sentence(fw, f, source, risk), f.addTs);
  }

  /**
   * Once the firewall quarantines a source, by policy or by rate limit, and the quarantine has room
   * for it, that packet and every later packet from it before the time to live is over are dropped,
   * in every run without a quarantine eviction in which nothing lifts or shortens the block.
   */
  lemma OnceQuarantinedAlwaysDropped(fw: Firewall, f: Flow, source: Q.Source, ops: seq<FwOp>)
    requires FirewallOk(fw) && fw.config.quarantineTtlMs > 0 && f.addTs + fw.config.quarantineTtlMs < U32
    requires Sentences(fw, f, source) && CanConfine(fw.quarantine, f)
    requires var until := f.addTs + fw.config.quarantineTtlMs;
             forall k :: 0 <= k < |ops| ==> Respects(ops[k], fw.quarantine.config, f.key.srcIp, until)
    requires var fw' := Evaluate(fw, f).0; Run(fw', ops).quarantine.stats.evicted == fw'.quarantine.stats.evicted
    ensures Evaluate(fw, f).1.verdict == Drop
    ensures AllDropped(Evaluate(fw, f).0, ops, f.key.srcIp)
  {
    hide Q.Add, Q.Check, Q.HasRoom, R.Check, P.Evaluate, F.Touched, RateStage, PolicyStage, Run, Respects;
    var risk := SentenceConfines(fw, f, source);
    ConfinementAccepted(fw, f, source, risk);
    Q.CheckRefinesMap(fw.quarantine, Q.Ip(f.key.srcIp), f.checkTs);
    ConfineBlocks(Checked(fw, f), f, source, risk);
    EvaluateKeepsOk(fw, f);
    StepEvictions(fw, Packet(f));
    QuarantineSticks(Evaluate(fw, f).0, ops, f.key.srcIp, f.addTs + fw.config.quarantineTtlMs);
  }
}
