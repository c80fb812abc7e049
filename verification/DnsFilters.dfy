/** The filter's rule table and its verdict on a queried domain. */
module DnsFilters {
  import opened Bytes
  import opened Slots
  import opened DnsNames

  const MAX_RULES: nat := 32
  const DOMAIN_LEN: nat := 128
  const STAR: byte := 42

  datatype Action = Allow | Block | Redirect | LogOnly

  /** The pattern is the C string held in the rule. */
  datatype DnsRule = DnsRule(id: u32, enabled: bool, priority: u16, pattern: seq<byte>, action: Action,
                             redirectIp: u32, risk: byte)

  datatype Filter = Filter(rules: seq<Slot<DnsRule>>, active: nat, nextId: u32, defaultAllow: bool)

  datatype Verdict = Verdict(action: Action, redirectIp: u32, risk: byte)

  // ---- Matching ----

  /** `domain_match` */
  predicate DomainMatch(pattern: seq<byte>, domain: seq<byte>) {
    if pattern == [] then false
    else if pattern == [STAR] then true
    else if pattern[0] == STAR then
      var suffix := pattern[1..];
      |domain| >= |suffix| && domain[|domain| - |suffix|..] == suffix
    else pattern == domain
  }

  predicate SameIgnoringCase(a: seq<byte>, b: seq<byte>) {
    |a| == |b| && forall i :: 0 <= i < |a| ==> LowerByte(a[i]) == LowerByte(b[i])
  }

  /** What a pattern means: the name itself, or any name ending in what follows the star, in any case. */
  predicate Covers(pattern: seq<byte>, domain: seq<byte>) {
    if pattern != [] && pattern[0] == STAR then
      |domain| >= |pattern| - 1 && SameIgnoringCase(domain[|domain| - |pattern| + 1..], pattern[1..])
    else pattern != [] && SameIgnoringCase(pattern, domain)
  }

  lemma LowerSame(a: seq<byte>, b: seq<byte>)
    ensures Lower(a) == Lower(b) <==> SameIgnoringCase(a, b)
  {
    if Lower(a) == Lower(b) {
      forall i | 0 <= i < |a| ensures LowerByte(a[i]) == LowerByte(b[i]) {
        assert Lower(a)[i] == Lower(b)[i];
      }
    }
  }

  /** On lowered strings the byte-for-byte test decides coverage in any case. */
  lemma MatchIsCoverage(pattern: seq<byte>, domain: seq<byte>)
    ensures DomainMatch(Lower(pattern), Lower(domain)) <==> Covers(pattern, domain)
  {
    LowerSame(pattern, domain);
    if pattern != [] && pattern[0] == STAR {
      var n := |pattern| - 1;
      assert Lower(pattern)[1..] == Lower(pattern[1..]);
      if |domain| >= n {
        assert Lower(domain)[|domain| - n..] == Lower(domain[|domain| - n..]);
        LowerSame(domain[|domain| - n..], pattern[1..]);
      }
    }
  }

  // ---- Rules ----

  function Initial(defaultAllow: bool): Filter { Filter(seq(MAX_RULES, _ => Free), 0, 1, defaultAllow) }

  /** The rule as stored: numbered when it has no id, enabled, its pattern in lower case. */
  function Stored(f: Filter, r: DnsRule): DnsRule {
    r.(id := if r.id == 0 then f.nextId else r.id, enabled := true, pattern := Lower(r.pattern))
  }

  function AddRule(f: Filter, r: DnsRule): (Filter, Result<u32>) {
    var i := FirstFree(f.rules);
    if i == |f.rules| then (f, Err(NoMem))
    else (f.(rules := f.rules[i := Used(Stored(f, r))], active := f.active + 1,
             nextId := if r.id == 0 then (f.nextId + 1) % U32 else f.nextId), Ok(Stored(f, r).id))
  }

  function HasId(id: u32): DnsRule -> bool { (r: DnsRule) => r.id == id }

  function RemoveRule(f: Filter, id: u32): (Filter, bool) {
    var i := FirstUsed(f.rules, HasId(id));
    if i == |f.rules| then (f, false)
    else (f.(rules := f.rules[i := Free], active := if f.active > 0 then f.active - 1 else 0), true)
  }

  datatype RuleOp = Add(rule: DnsRule) | Remove(id: u32)

  function Edit(f: Filter, op: RuleOp): Filter {
    match op
    case Add(r) => AddRule(f, r).0
    case Remove(id) => RemoveRule(f, id).0
  }

  function Edits(f: Filter, ops: seq<RuleOp>): Filter {
    if ops == [] then f else Edit(Edits(f, ops[..|ops| - 1]), ops[|ops| - 1])
  }

  /** Every stored pattern is in lower case, and the counter counts the rules. */
  ghost predicate FilterOk(f: Filter) {
    && (forall i :: 0 <= i < |f.rules| && f.rules[i].Used? ==>
        f.rules[i].entry.pattern == Lower(f.rules[i].entry.pattern))
    && f.active == UsedCount(f.rules)
  }

  lemma LowerIdempotent(s: seq<byte>)
    ensures Lower(Lower(s)) == Lower(s)
  {
  }

  lemma EditKeepsOk(f: Filter, op: RuleOp)
    requires FilterOk(f)
    ensures FilterOk(Edit(f, op))
  {
    hide Lower;
    match op
    case Add(r) =>
      var i := FirstFree(f.rules);
      if i < |f.rules| {
        LowerIdempotent(r.pattern);
        UsedCountUpdate(f.rules, i, Used(Stored(f, r)));
      }
    case Remove(id) =>
      var i := FirstUsed(f.rules, HasId(id));
      if i < |f.rules| {
        UsedCountUpdate(f.rules, i, Free);
      }
  }

  lemma {:induction false} EditsKeepOk(defaultAllow: bool, ops: seq<RuleOp>)
    ensures FilterOk(Edits(Initial(defaultAllow), ops))
  {
    if ops == [] {
      UsedCountAllFree(Initial(defaultAllow).rules);
    } else {
      EditsKeepOk(defaultAllow, ops[..|ops| - 1]);
      EditKeepsOk(Edits(Initial(defaultAllow), ops[..|ops| - 1]), ops[|ops| - 1]);
    }
  }

  // ---- The verdict ----

  function Matching(domain: seq<byte>): DnsRule -> bool { (r: DnsRule) => r.enabled && DomainMatch(r.pattern, domain) }

  function Covering(domain: seq<byte>): DnsRule -> bool { (r: DnsRule) => r.enabled && Covers(r.pattern, domain) }

  function PriorityOf(): DnsRule -> u16 { (r: DnsRule) => r.priority }

  /** The verdict of the rule at slot i, or the default past the last slot. */
  function VerdictOf(f: Filter, i: nat): Verdict {
    if i < |f.rules| && f.rules[i].Used? then
      var r := f.rules[i].entry;
      Verdict(r.action, r.redirectIp, r.risk)
    else Verdict(if f.defaultAllow then Allow else Block, 0, 0)
  }

  /** `dns_filter_evaluate_domain` */
  function Evaluate(f: Filter, domain: seq<byte>): Verdict {
    VerdictOf(f, Best(f.rules, Matching(domain), PriorityOf()))
  }

  /** Slot i holds an enabled rule covering the name that no other one outranks; the later of equals ranks higher. */
  ghost predicate Prevails(rules: seq<Slot<DnsRule>>, name: seq<byte>, i: nat) {
    && i < |rules| && rules[i].Used? && rules[i].entry.enabled && Covers(rules[i].entry.pattern, name)
    && forall j :: && 0 <= j < |rules| && j != i && rules[j].Used?
                   && rules[j].entry.enabled && Covers(rules[j].entry.pattern, name) ==>
         if j < i then rules[j].entry.priority <= rules[i].entry.priority
         else rules[j].entry.priority < rules[i].entry.priority
  }

  /**
   * After any rule edits, the verdict on a well-formed query is that of the best enabled rule whose
   * pattern covers the queried name with case ignored on both sides.
   */
  lemma VerdictIgnoresCase(defaultAllow: bool, ops: seq<RuleOp>, buf: seq<byte>, ls: seq<seq<byte>>)
    requires WireAt(buf, HEADER_LEN, ls) && ls != [] && 0 !in Dotted(ls) && |Dotted(ls)| < DOMAIN_LEN
    ensures ParseName(buf, DOMAIN_LEN).Some?
    ensures var f := Edits(Initial(defaultAllow), ops);
            var v := Evaluate(f, ParseName(buf, DOMAIN_LEN).value);
            && (forall i: nat :: Prevails(f.rules, Dotted(ls), i) ==>
                  var r := f.rules[i].entry; v == Verdict(r.action, r.redirectIp, r.risk))
            && ((forall i: nat :: !Prevails(f.rules, Dotted(ls), i)) ==>
                  v == Verdict(if defaultAllow then Allow else Block, 0, 0))
            && ((exists i: nat :: Prevails(f.rules, Dotted(ls), i)) <==>
                  exists j :: && 0 <= j < |f.rules| && f.rules[j].Used?
                              && f.rules[j].entry.enabled && Covers(f.rules[j].entry.pattern, Dotted(ls)))
  {
    hide WireAt, Wire, Lower, ParseName, Edits, DomainMatch, Covers;
    var f, name := Edits(Initial(defaultAllow), ops), Dotted(ls);
    EditsKeepOk(defaultAllow, ops);
    EditsKeepDefault(defaultAllow, ops);
    ParsedNameIsLowered(buf, DOMAIN_LEN, ls);
    forall k | 0 <= k < |f.rules| && f.rules[k].Used?
      ensures Matching(Lower(name))(f.rules[k].entry) == Covering(name)(f.rules[k].entry)
    {
      MatchIsCoverage(f.rules[k].entry.pattern, name);
    }
    BestAgrees(f.rules, Matching(Lower(name)), Covering(name), PriorityOf());
    var b := Best(f.rules, Covering(name), PriorityOf());
    if b < |f.rules| {
      assert Prevails(f.rules, name, b);
    }
  }

  lemma {:induction false} EditsKeepDefault(defaultAllow: bool, ops: seq<RuleOp>)
    ensures Edits(Initial(defaultAllow), ops).defaultAllow == defaultAllow
  {
    if ops != [] {
      EditsKeepDefault(defaultAllow, ops[..|ops| - 1]);
    }
  }

  // ---- What an edit does ----

  /** A rule is taken in while a slot is free, under its own id or the next number, enabled, in lower case. */
  lemma AddedRule(f: Filter, r: DnsRule)
    ensures var (f', id) := AddRule(f, r);
            && (id.Ok? <==> exists i :: 0 <= i < |f.rules| && f.rules[i].Free?)
            && (id.Err? ==> f' == f && id == Err(NoMem))
            && (id.Ok? ==>
                  && id.value == (if r.id == 0 then f.nextId else r.id)
                  && f'.active == f.active + 1 && f'.defaultAllow == f.defaultAllow
                  && f'.nextId == (if r.id != 0 then f.nextId else if f.nextId == UINT32_MAX then 0 else f.nextId + 1)
                  && exists i: nat :: TakenIn(f, f', i) && var e := f'.rules[i].entry;
                       && e.id == id.value && e.enabled && e.priority == r.priority && e.action == r.action
                       && e.redirectIp == r.redirectIp && e.risk == r.risk && SameIgnoringCase(e.pattern, r.pattern))
  {
    var i := FirstFree(f.rules);
    if i < |f.rules| {
      assert TakenIn(f, AddRule(f, r).0, i);
      LowerTwice(r.pattern);
    }
  }

  /** Slot i was free and is taken now; every other slot is as it was. */
  ghost predicate TakenIn(f: Filter, f': Filter, i: nat) {
    && |f'.rules| == |f.rules| && i < |f.rules| && f.rules[i].Free? && f'.rules[i].Used?
    && forall j :: 0 <= j < |f.rules| && j != i ==> f'.rules[j] == f.rules[j]
  }

  lemma LowerTwice(s: seq<byte>)
    ensures SameIgnoringCase(Lower(s), s)
  {
  }

  /** Removing an id frees one rule with that id, and nothing else; it fails when there is none. */
  lemma RemovedRule(f: Filter, id: u32)
    requires FilterOk(f)
    ensures var (f', ok) := RemoveRule(f, id);
            && (ok <==> exists i :: 0 <= i < |f.rules| && f.rules[i].Used? && f.rules[i].entry.id == id)
            && (!ok ==> f' == f)
            && (ok ==> f'.active == f.active - 1 && f'.nextId == f.nextId && f'.defaultAllow == f.defaultAllow
                       && exists i: nat :: TakenIn(f', f, i) && f.rules[i].entry.id == id)
  {
    var i := FirstUsed(f.rules, HasId(id));
    if i < |f.rules| {
      assert TakenIn(RemoveRule(f, id).0, f, i);
      UsedCountUpdate(f.rules, i, Free);
    }
  }

  /** A rule just added under an id nobody else has is the one removed by that id. */
  lemma RemoveUndoesAdd(f: Filter, r: DnsRule)
    requires FilterOk(f) && AddRule(f, r).1.Ok?
    requires forall i :: 0 <= i < |f.rules| && f.rules[i].Used? ==> f.rules[i].entry.id != AddRule(f, r).1.value
    ensures var f' := AddRule(f, r).0;
            RemoveRule(f', AddRule(f, r).1.value) == (f.(nextId := f'.nextId), true)
  {
    var i := FirstFree(f.rules);
    var f', id := AddRule(f, r).0, AddRule(f, r).1.value;
    var k := FirstUsed(f'.rules, HasId(id));
    assert f'.rules[i].Used? && HasId(id)(f'.rules[i].entry);
    assert k <= i;
    if k < i {
      assert false;
    }
    assert f'.rules[i := Free] == f.rules;
  }

  /** Two well-formed queries whose names differ only in case parse to the same name. */
  lemma CaseVariantsParseAlike(buf: seq<byte>, ls: seq<seq<byte>>, buf': seq<byte>, ls': seq<seq<byte>>)
    requires WireAt(buf, HEADER_LEN, ls) && ls != [] && 0 !in Dotted(ls) && |Dotted(ls)| < DOMAIN_LEN
    requires WireAt(buf', HEADER_LEN, ls') && ls' != [] && 0 !in Dotted(ls')
             && SameIgnoringCase(Dotted(ls), Dotted(ls'))
    ensures ParseName(buf, DOMAIN_LEN).Some? && ParseName(buf, DOMAIN_LEN) == ParseName(buf', DOMAIN_LEN)
  {
    hide WireAt, Wire, Lower, ParseName;
    LowerSame(Dotted(ls), Dotted(ls'));
    ParsedNameIsLowered(buf, DOMAIN_LEN, ls);
    ParsedNameIsLowered(buf', DOMAIN_LEN, ls');
  }

  /** The rule table as the firmware keeps it. */
  class DnsFilter {
    const rules: array<Slot<DnsRule>>
    var active: nat
    var nextId: u32
    const defaultAllow: bool

    ghost function Abs(): Filter
      reads this, rules
    {
      Filter(rules[..], active, nextId, defaultAllow)
    }

    constructor (defaultAllow: bool)
      ensures fresh(rules) && Abs() == Initial(defaultAllow) && nextId == 1 && active == 0
    {
      rules := new Slot<DnsRule>[MAX_RULES](_ => Free);
      active, nextId := 0, 1;
      this.defaultAllow := defaultAllow;
      new;
      assert rules[..] == seq(MAX_RULES, _ => Free);
    }

    method Install(r: DnsRule) returns (id: Result<u32>)
      modifies this, rules
      ensures (Abs(), id) == AddRule(old(Abs()), r)
    {
      var i := FindFree(rules);
      if i == rules.Length {
        return Err(NoMem);
      }
      var rule := r;
      if rule.id == 0 {
        rule := rule.(id := nextId);
        nextId := (nextId + 1) % U32;
      }
      rules[i] := Used(rule.(enabled := true, pattern := Lower(rule.pattern)));
      active := active + 1;
      return Ok(rule.id);
    }

    method Uninstall(id: u32) returns (ok: bool)
      modifies this, rules
      ensures (Abs(), ok) == RemoveRule(old(Abs()), id)
    {
      for i := 0 to rules.Length
        invariant Abs() == old(Abs()) && i <= FirstUsed(rules[..], HasId(id))
      {
        assert rules[..][i] == rules[i];
        if rules[i].Used? && rules[i].entry.id == id {
          rules[i] := Free;
          if active > 0 {
            active := active - 1;
          }
          return true;
        }
      }
      return false;
    }

    method EvaluateDomain(domain: seq<byte>) returns (v: Verdict)
      ensures v == Evaluate(Abs(), domain)
    {
      var i := FindBest(rules, Matching(domain), PriorityOf());
      if i < rules.Length {
        var best := rules[i].entry;
        return Verdict(best.action, best.redirectIp, best.risk);
      }
      return Verdict(if defaultAllow then Allow else Block, 0, 0);
    }
  }
}
