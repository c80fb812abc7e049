/** The firewall as the firmware runs it, over its four stateful tables. */
module ZoneFirewalls {
  import F = FlowTables
  import Q = Quarantines
  import P = Policies
  import R = RateLimits
  import opened Firewalls

  class ZoneFirewall {
    const config: FwConfig
    var stats: FwStats
    const flows: F.FlowTable
    const quarantine: Q.QuarantineManager
    const policy: P.PolicyEngine
    const limiter: R.RateLimiter

    ghost predicate Valid()
      reads this, flows, flows.slots, quarantine, quarantine.slots
      reads policy, policy.rules, limiter, limiter.buckets, limiter.rules
    {
      flows.Valid() && quarantine.Valid() && limiter.Valid() && Balanced(stats)
    }

    ghost function Abs(): Firewall
      reads this, flows, flows.slots, quarantine, quarantine.slots
      reads policy, policy.rules, limiter, limiter.buckets, limiter.rules
    {
      Firewall(config, stats, flows.Abs(), quarantine.Abs(), policy.Abs(), limiter.Abs())
    }

    /** A zero time to live is replaced by 60 seconds. */
    constructor (config: FwConfig, flows: F.FlowTable, quarantine: Q.QuarantineManager, policy: P.PolicyEngine,
                 limiter: R.RateLimiter)
      requires flows.Valid() && quarantine.Valid() && limiter.Valid()
      ensures Valid() && this.flows == flows && this.quarantine == quarantine
      ensures this.policy == policy && this.limiter == limiter
      ensures var ttl := if config.quarantineTtlMs == 0 then 60000 else config.quarantineTtlMs;
              this.config == config.(quarantineTtlMs := ttl)
    {
      var ttl := if config.quarantineTtlMs == 0 then 60000 else config.quarantineTtlMs;
      this.config := config.(quarantineTtlMs := ttl);
      this.flows := flows;
      this.quarantine := quarantine;
      this.policy := policy;
      this.limiter := limiter;
      stats := FwStats(0, 0, 0, 0, 0, 0, 0);
    }

    method EvaluateFlow(f: Flow) returns (d: FwDecision)
      requires Valid()
      modifies this, flows, flows.slots, quarantine, quarantine.slots, limiter, limiter.buckets
      ensures Valid() && (Abs(), d) == Evaluate(old(Abs()), f)
    {
      hide F.Touched, Q.Check, PolicyStage, F.TableOk, Q.QuarantineOk, R.LimiterOk;
      EvaluateBalanced(Abs(), f);
      d := FwDecision(Allow, P.Allow, false, false, 0);
      stats := stats.(evaluations := stats.evaluations + 1);
      var touched := flows.Touch(f.key, f.direction, f.bytes, f.touchTs);
      var hit := quarantine.CheckSubject(Q.Ip(f.key.srcIp), f.checkTs);
      if hit.Some? {
        d := d.(quarantined := true, risk := hit.value.risk);
        if hit.value.mode == Q.BlockAll {
          stats := stats.(dropped := stats.dropped + 1, quarantinedHits := stats.quarantinedHits + 1);
          return d.(verdict := Drop);
        }
      }
      d := RunPolicy(f, d);
    }

    method RunPolicy(f: Flow, before: FwDecision) returns (d: FwDecision)
      requires flows.Valid() && quarantine.Valid() && limiter.Valid()
      modifies this, quarantine, quarantine.slots, limiter, limiter.buckets
      ensures flows.Valid() && quarantine.Valid() && limiter.Valid()
      ensures (Abs(), d) == PolicyStage(old(Abs()), f, before)
    {
      hide Q.Add, P.Evaluate, R.Check, RateStage, F.TableOk, Q.QuarantineOk, R.LimiterOk;
      d := before;
      var p := policy.EvaluateFlow(f.key, f.direction, f.policyTs);
      if p.Err? {
        d := d.(verdict := if config.defaultAllow then Allow else Drop);
      } else {
        d := d.(policyAction := p.value.action, risk := p.value.risk);
        if d.policyAction == P.Deny {
          stats := stats.(dropped := stats.dropped + 1, policyDenied := stats.policyDenied + 1);
          return d.(verdict := Drop);
        }
        if d.policyAction == P.QuarantineIt {
          var added := quarantine.AddSubject(
            Q.Request(Q.Ip(f.key.srcIp), Q.BlockAll, Q.LocalPolicy, config.quarantineTtlMs, d.risk), f.addTs);
          stats := stats.(dropped := stats.dropped + 1, policyDenied := stats.policyDenied + 1);
          return d.(verdict := Drop);
        }
        if d.policyAction == P.Redirect {
          stats := stats.(redirected := stats.redirected + 1);
          return d.(verdict := Redirect);
        }
      }
      d := RunRate(f, d);
    }

    method RunRate(f: Flow, before: FwDecision) returns (d: FwDecision)
      requires flows.Valid() && quarantine.Valid() && limiter.Valid()
      modifies this, quarantine, quarantine.slots, limiter, limiter.buckets
      ensures flows.Valid() && quarantine.Valid() && limiter.Valid()
      ensures (Abs(), d) == RateStage(old(Abs()), f, before)
    {
      hide Q.Add, R.Check, F.TableOk, Q.QuarantineOk, R.LimiterOk;
      d := before;
      var v := limiter.CheckPacket(R.BucketKey(f.key, f.direction), f.bytes, f.rateTs);
      if v.Over? {
        d := d.(rateExceeded := true, risk := Max(d.risk, 80));
        stats := stats.(rateExceeded := stats.rateExceeded + 1);
        if config.autoQuarantine && v.suggestQuarantine {
          var added := quarantine.AddSubject(
            Q.Request(Q.Ip(f.key.srcIp), Q.BlockAll, Q.RateLimit, config.quarantineTtlMs, d.risk), f.addTs);
        }
        stats := stats.(dropped := stats.dropped + 1);
        return d.(verdict := Drop);
      }
      d := d.(verdict := if d.policyAction == P.LogOnly then LogOnly else Allow);
      stats := stats.(allowed := stats.allowed + 1);
    }
  }
}
