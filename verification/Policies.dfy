/** Flow matching by address prefix, port, protocol and direction, and the policy rules built on it. */
module Policies {
  import opened Bytes
  import opened Bits
  import opened Slots
  import opened Flows

  const MAX_RULES: nat := 64

  /** The match part that policy rules and rate rules share; zero fields are wildcards. */
  datatype Pattern = Pattern(direction: Direction, srcIp: u32, srcMask: u32, dstIp: u32, dstMask: u32,
                             srcPort: u16, dstPort: u16, proto: byte)

  predicate IpMatches(ruleIp: u32, ruleMask: u32, ip: u32) {
    ruleMask == 0 || And(ip, ruleMask) == And(ruleIp, ruleMask)
  }

  predicate PatternMatches(p: Pattern, k: FlowKey, d: Direction) {
    && (p.direction == AnyDirection || p.direction == d)
    && IpMatches(p.srcIp, p.srcMask, k.srcIp) && IpMatches(p.dstIp, p.dstMask, k.dstIp)
    && (p.srcPort == 0 || p.srcPort == k.srcPort) && (p.dstPort == 0 || p.dstPort == k.dstPort)
    && (p.proto == 0 || p.proto == k.proto)
  }

  /** `0xFFFFFFFF << (32 - cidr)` drops the carry beyond 32 bits, which leaves 2^32 - 2^(32 - cidr). */
  function CidrMask(cidr: byte): (m: u32)
  {
    if cidr == 0 then 0
    else if cidr >= 32 then UINT32_MAX
    else
      Pow2Of32();
      PowerGrows(32 - cidr, 32);
      U32 - Pow2(32 - cidr)
  }

  /** Matching under a prefix mask holds exactly when the leading bits agree (section 3.1 of RFC 4632). */
  lemma CidrMatchesPrefix(ruleIp: u32, cidr: byte, ip: u32)
    ensures IpMatches(ruleIp, CidrMask(cidr), ip) <==> SameFrom(ip, ruleIp, if cidr >= 32 then 0 else 32 - cidr)
  {
    Pow2Of32();
    var n := if cidr >= 32 then 0 else 32 - cidr;
    HighMaskCompares(ip, ruleIp, n, 32);
    PowerGrows(n, 32);
    if cidr == 0 {
      forall i: nat | 32 <= i ensures !HasBit(ip, i) && !HasBit(ruleIp, i) {
        NoHighBits(ip, 32, i);
        NoHighBits(ruleIp, 32, i);
      }
    }
  }

  /** Under any mask, two addresses match exactly when they agree in every bit of the mask. */
  lemma MaskMatchesBits(ruleIp: u32, ruleMask: u32, ip: u32)
    ensures IpMatches(ruleIp, ruleMask, ip) <==> AgreeUnder(ruleIp, ip, ruleMask)
  {
    hide HasBit, And;
    var x, y := And(ip, ruleMask), And(ruleIp, ruleMask);
    forall i: nat
      ensures (HasBit(x, i) <==> HasBit(y, i)) <==> (HasBit(ruleMask, i) ==> HasBit(ip, i) == HasBit(ruleIp, i))
    {
      AndBits(ip, ruleMask, i);
      AndBits(ruleIp, ruleMask, i);
    }
    if ruleMask == 0 {
      forall i: nat ensures !HasBit(ruleMask, i) {
        NoBits(i);
      }
    } else if AgreeUnder(ruleIp, ip, ruleMask) {
      SameBitsEqual(x, y);
    }
  }

  lemma NoBits(i: nat)
    ensures !HasBit(0, i)
  {
    NoHighBits(0, 0, i);
  }

  ghost predicate AgreeUnder(a: nat, b: nat, mask: nat) {
    forall i: nat :: HasBit(mask, i) ==> HasBit(a, i) == HasBit(b, i)
  }

  // ---- What a pattern means ----

  const ANY: Pattern := Pattern(AnyDirection, 0, 0, 0, 0, 0, 0, 0)

  /** A pattern with one field set matches exactly the flows whose own field agrees with it. */
  lemma SingleFields(p: Pattern, k: FlowKey, d: Direction)
    ensures PatternMatches(ANY, k, d)
    ensures p.direction != AnyDirection ==> (PatternMatches(ANY.(direction := p.direction), k, d) <==> d == p.direction)
    ensures PatternMatches(ANY.(srcIp := p.srcIp, srcMask := p.srcMask), k, d) <==>
            AgreeUnder(p.srcIp, k.srcIp, p.srcMask)
    ensures PatternMatches(ANY.(dstIp := p.dstIp, dstMask := p.dstMask), k, d) <==>
            AgreeUnder(p.dstIp, k.dstIp, p.dstMask)
    ensures p.srcPort != 0 ==> (PatternMatches(ANY.(srcPort := p.srcPort), k, d) <==> k.srcPort == p.srcPort)
    ensures p.dstPort != 0 ==> (PatternMatches(ANY.(dstPort := p.dstPort), k, d) <==> k.dstPort == p.dstPort)
    ensures p.proto != 0 ==> (PatternMatches(ANY.(proto := p.proto), k, d) <==> k.proto == p.proto)
  {
    hide And, AgreeUnder;
    MaskMatchesBits(p.srcIp, p.srcMask, k.srcIp);
    MaskMatchesBits(p.dstIp, p.dstMask, k.dstIp);
  }

  /** A pattern matches exactly when each of its fields would match alone; a zero field always does. */
  lemma MatchesByField(p: Pattern, k: FlowKey, d: Direction)
    ensures PatternMatches(p, k, d) <==>
            && PatternMatches(ANY.(direction := p.direction), k, d)
            && PatternMatches(ANY.(srcIp := p.srcIp, srcMask := p.srcMask), k, d)
            && PatternMatches(ANY.(dstIp := p.dstIp, dstMask := p.dstMask), k, d)
            && PatternMatches(ANY.(srcPort := p.srcPort), k, d) && PatternMatches(ANY.(dstPort := p.dstPort), k, d)
            && PatternMatches(ANY.(proto := p.proto), k, d)
  {
    hide And;
  }

  // ---- Policy rules ----

  datatype Action = Allow | Deny | RateLimited | QuarantineIt | Redirect | LogOnly | AskSwarm

  datatype Rule = Rule(id: u32, enabled: bool, priority: u16, pattern: Pattern, action: Action, risk: byte,
                       logEvent: bool, expiresAtMs: u32)

  datatype PolicyConfig = PolicyConfig(action: Action, risk: byte, logEvent: bool)

  datatype Policy = Policy(initialized: bool, rules: seq<Slot<Rule>>, config: PolicyConfig)

  function UnusedPolicy(): Policy { Policy(false, seq(MAX_RULES, _ => Free), PolicyConfig(Allow, 0, false)) }

  /** The matched rule's id and priority are zero when the default applies. */
  datatype Decision = Decision(action: Action, matched: bool, ruleId: u32, priority: u16, risk: byte, logEvent: bool)

  predicate RuleExpired(r: Rule, ts: u32) { r.expiresAtMs != 0 && ts >= r.expiresAtMs }

  predicate RuleMatches(r: Rule, k: FlowKey, d: Direction, ts: u32) {
    r.enabled && !RuleExpired(r, ts) && PatternMatches(r.pattern, k, d)
  }

  function Matcher(k: FlowKey, d: Direction, ts: u32): Rule -> bool { (r: Rule) => RuleMatches(r, k, d, ts) }

  function PriorityOf(): Rule -> u16 { (r: Rule) => r.priority }

  function LapsedAt(ts: u32): Rule -> bool { (r: Rule) => RuleExpired(r, ts) }

  function RuleDecision(r: Rule): Decision { Decision(r.action, true, r.id, r.priority, r.risk, r.logEvent) }

  function DefaultDecision(c: PolicyConfig): Decision { Decision(c.action, false, 0, 0, c.risk, c.logEvent) }

  /** `policy_engine_evaluate` */
  function Evaluate(p: Policy, k: FlowKey, d: Direction, ts: u32): Result<Decision> {
    if !p.initialized then Err(InvalidArg)
    else
      var i := Best(p.rules, Matcher(k, d, ts), PriorityOf());
      Ok(if i < |p.rules| then RuleDecision(p.rules[i].entry) else DefaultDecision(p.config))
  }

  /** A rule is in force exactly while it is enabled and, if it expires at all, until that moment. */
  lemma InForceIff(r: Rule, k: FlowKey, d: Direction, ts: u32)
    ensures RuleMatches(r, k, d, ts) ==> PatternMatches(r.pattern, k, d)
    ensures PatternMatches(r.pattern, k, d) ==>
              (RuleMatches(r, k, d, ts) <==> r.enabled && (r.expiresAtMs == 0 || ts < r.expiresAtMs))
  {
  }

  /** Slot i holds a rule in force for the flow that no other one outranks; the later of two equals ranks higher. */
  ghost predicate Prevails(rules: seq<Slot<Rule>>, k: FlowKey, d: Direction, ts: u32, i: nat) {
    && i < |rules| && rules[i].Used? && RuleMatches(rules[i].entry, k, d, ts)
    && forall j :: 0 <= j < |rules| && j != i && rules[j].Used? && RuleMatches(rules[j].entry, k, d, ts) ==>
         if j < i then rules[j].entry.priority <= rules[i].entry.priority
         else rules[j].entry.priority < rules[i].entry.priority
  }

  function ExpireRules(p: Policy, ts: u32): Policy {
    if p.initialized then p.(rules := Expired(p.rules, LapsedAt(ts))) else p
  }

  /**
   * The decision is that of an enabled, unexpired, matching rule of maximal priority, ties going to
   * the highest slot; the default applies exactly when nothing matches.
   */
  lemma EvaluateIsBestRule(p: Policy, k: FlowKey, d: Direction, ts: u32)
    requires p.initialized
    ensures forall i: nat :: Prevails(p.rules, k, d, ts, i) ==>
              var r := p.rules[i].entry;
              Evaluate(p, k, d, ts) == Ok(Decision(r.action, true, r.id, r.priority, r.risk, r.logEvent))
    ensures (exists i: nat :: Prevails(p.rules, k, d, ts, i)) <==>
            exists j :: 0 <= j < |p.rules| && p.rules[j].Used? && RuleMatches(p.rules[j].entry, k, d, ts)
    ensures (forall i: nat :: !Prevails(p.rules, k, d, ts, i)) ==>
              Evaluate(p, k, d, ts) == Ok(Decision(p.config.action, false, 0, 0, p.config.risk, p.config.logEvent))
  {
    hide RuleMatches;
    var b := Best(p.rules, Matcher(k, d, ts), PriorityOf());
    if b < |p.rules| {
      assert Prevails(p.rules, k, d, ts, b);
    }
  }

  /** Collecting drops exactly the rules that have expired, and leaves every other one in its slot. */
  lemma ExpireRulesIs(p: Policy, t: u32)
    requires p.initialized
    ensures var p' := ExpireRules(p, t);
            && p'.config == p.config && p'.initialized && |p'.rules| == |p.rules|
            && forall i :: 0 <= i < |p.rules| ==>
                 p'.rules[i] == match p.rules[i]
                                case Free => Free
                                case Used(r) => if r.expiresAtMs != 0 && t >= r.expiresAtMs then Free else Used(r)
  {
  }

  /** Before initialisation there is no decision, and nothing to collect. */
  lemma UnusedPolicyFails(p: Policy, k: FlowKey, d: Direction, ts: u32)
    requires !p.initialized
    ensures Evaluate(p, k, d, ts) == Err(InvalidArg) && ExpireRules(p, ts) == p
  {
  }

  /** Dropping expired rules at time t changes no decision at any later time. */
  lemma ExpireRulesIsInvisible(p: Policy, t: u32, k: FlowKey, d: Direction, ts: u32)
    requires t <= ts
    ensures Evaluate(ExpireRules(p, t), k, d, ts) == Evaluate(p, k, d, ts)
  {
    if p.initialized {
      BestIgnoresOthers(p.rules, Expired(p.rules, LapsedAt(t)), Matcher(k, d, ts), PriorityOf());
    }
  }

  /** The rule table as the firmware keeps it. */
  class PolicyEngine {
    const rules: array<Slot<Rule>>
    var config: PolicyConfig
    var initialized: bool

    ghost function Abs(): Policy
      reads this, rules
    {
      Policy(initialized, rules[..], config)
    }

    /** Static storage before initialisation: empty, and not usable yet. */
    constructor ()
      ensures fresh(rules) && Abs() == UnusedPolicy()
    {
      rules := new Slot<Rule>[MAX_RULES](_ => Free);
      config := PolicyConfig(Allow, 0, false);
      initialized := false;
      new;
      assert rules[..] == seq(MAX_RULES, _ => Free);
    }

    method Init(c: PolicyConfig)
      requires rules.Length == MAX_RULES
      modifies this, rules
      ensures Abs() == Policy(true, seq(MAX_RULES, _ => Free), c)
    {
      forall i | 0 <= i < rules.Length {
        rules[i] := Free;
      }
      config := c;
      initialized := true;
      assert rules[..] == seq(MAX_RULES, _ => Free);
    }

    method EvaluateFlow(k: FlowKey, d: Direction, ts: u32) returns (r: Result<Decision>)
      ensures r == Evaluate(Abs(), k, d, ts)
    {
      if !initialized {
        return Err(InvalidArg);
      }
      var i := FindBest(rules, Matcher(k, d, ts), PriorityOf());
      if i < rules.Length {
        return Ok(RuleDecision(rules[i].entry));
      }
      return Ok(DefaultDecision(config));
    }

    method ExpireOld(ts: u32) returns (n: nat)
      modifies rules
      ensures Abs() == ExpireRules(old(Abs()), ts)
    {
      if !initialized {
        return 0;
      }
      n := ExpireAll(rules, LapsedAt(ts));
    }
  }
}
