/**
 * One Guardian as a state machine over received fragments: reassembly, duplicate suppression,
 * relay, capsule cache, authorisation, digestion and publication.
 */
module Guardians {
  import opened Bytes
  import opened Rings
  import opened History
  import opened Frames
  import opened Reassembly
  import opened Pills
  import opened CStrings
  import opened Decimal
  import opened Commands
  import opened Membranes
  import opened Stomachs

  /** What does not change while pills are processed. */
  datatype Setup = Setup(crypto: Crypto, membrane: State, issuer: B16, key: seq<byte>)

  /** Reassembly slots, ids remembered by the link, digests remembered by the stomach. */
  datatype Guardian = Guardian(slots: seq<RxSlot>, seen: seq<Id>, cache: seq<Id>)

  /** The clock, the fragments the radio accepts before it fails with an error, and the broker's answer. */
  datatype Env = Env(nowMs: u32, accepted: nat, refusal: Error, broker: Result<()>)

  datatype Outcome =
    | Rejected(error: Error)
    | Buffered
    | Refused(error: Error)
    | Dispatched(pill: Pill, id: Id, sent: seq<seq<byte>>, relayed: bool, capsuleSeen: bool, publish: Option<Publish>,
                 result: Result<()>)

  function Boot(): Guardian { Guardian([EMPTY, EMPTY, EMPTY, EMPTY], [], []) }

  ghost predicate GuardianOk(g: Guardian) { PoolOk(g.slots) && |g.seen| <= SEEN_CAP && |g.cache| <= CACHE_CAP }

  /** What digesting one pill leads to, once it is known not to be in the capsule cache. */
  ghost function Process(su: Setup, pill: Pill, env: Env): (r: (Option<Publish>, Result<()>)) {
    match Authorize(su.crypto, pill, env.nowMs, su.issuer, su.key)
    case Err(e) => (None, Err(e))
    case Ok(_) =>
      match Digest(su.crypto, pill.active, su.membrane.devices)
      case Err(e) => (None, Err(e))
      case Ok(dg) =>
        match Publication(su.membrane, dg)
        case Err(e) => (None, Err(e))
        case Ok(p) => (Some(p), env.broker)
  }

  /** `on_action_pill_received`: relay first, then the local pipeline. */
  ghost function OnPill(su: Setup, g: Guardian, pill: Pill, env: Env): (r: (Guardian, Outcome))
    requires GuardianOk(g)
    ensures GuardianOk(r.0) && r.1.Dispatched?
  {
    var id := InnerId(su.crypto, pill);
    var frames := Fragments(PillBytes(pill), id);
    var sent := frames[..Min(env.accepted, |frames|)];
    var relayed := |frames| <= env.accepted;
    var seen := if relayed then Push(g.seen, id, SEEN_CAP) else g.seen;
    var (capsuleSeen, cache) := Admit(g.cache, id, CACHE_CAP);
    var (publish, local) := if capsuleSeen then (None, Ok(())) else Process(su, pill, env);
    var result := if local == Err(NotFound) then (if relayed then Ok(()) else Err(env.refusal)) else local;
    (Guardian(g.slots, seen, cache), Dispatched(pill, id, sent, relayed, capsuleSeen, publish, result))
  }

  /** `handle_received_action_pill_bytes` */
  ghost function OnMessage(su: Setup, g: Guardian, message: seq<byte>, id: Id, env: Env): (r: (Guardian, Outcome))
    requires GuardianOk(g)
    ensures GuardianOk(r.0)
  {
    if |message| != PILL_LEN then (g, Refused(InvalidSize))
    else if InnerId(su.crypto, ReadPill(message)) != id then (g, Refused(InvalidCrc))
    else if id in g.seen then (g, Refused(InvalidState))
    else OnPill(su, g.(seen := Push(g.seen, id, SEEN_CAP)), ReadPill(message), env)
  }

  ghost function OnPoolEvent(su: Setup, g: Guardian, e: PoolEvent, id: Id, env: Env): (r: (Guardian, Outcome))
    requires GuardianOk(g)
    ensures GuardianOk(r.0)
  {
    match e
    case Mismatch => (g, Rejected(InvalidState))
    case Duplicate => (g, Rejected(InvalidState))
    case Stored => (g, Buffered)
    case Complete(message) => OnMessage(su, g, message, id, env)
  }

  /** `handle_received_fragment` */
  ghost function Receive(su: Setup, g: Guardian, bytes: seq<byte>, env: Env): (r: (Guardian, Outcome))
    requires GuardianOk(g)
    ensures GuardianOk(r.0)
  {
    match Decode(bytes)
    case Err(e) => (g, Rejected(e))
    case Ok(f) =>
      DecodedInBounds(bytes);
      if f.id in g.seen then (g, Rejected(InvalidState))
      else
        AcceptKeepsPoolOk(g.slots, f);
        var (slots, e) := Accept(g.slots, f);
        OnPoolEvent(su, g.(slots := slots), e, f.id, env)
  }

  // ---- Runs ----

  datatype Input = Input(bytes: seq<byte>, env: Env)

  /** Every input from power-on, without a cache clear. */
  ghost function Run(su: Setup, inputs: seq<Input>): (r: (Guardian, seq<Outcome>))
    ensures GuardianOk(r.0) && |r.1| == |inputs|
  {
    if inputs == [] then (Boot(), [])
    else
      var n := |inputs| - 1;
      var (g, os) := Run(su, inputs[..n]);
      var (g', o) := Receive(su, g, inputs[n].bytes, inputs[n].env);
      (g', os + [o])
  }

  lemma RunStep(su: Setup, inputs: seq<Input>, i: Input)
    ensures var (g', o) := Receive(su, Run(su, inputs).0, i.bytes, i.env);
            Run(su, inputs + [i]) == (g', Run(su, inputs).1 + [o])
  {
    assert (inputs + [i])[..|inputs|] == inputs;
  }

  function EventOf(o: Outcome): Event { if o.Dispatched? then Dispatch(o.id, o.relayed) else Quiet }

  function Events(os: seq<Outcome>): (es: seq<Event>)
    ensures |es| == |os| && forall k :: 0 <= k < |os| ==> es[k] == EventOf(os[k])
  {
    seq(|os|, k requires 0 <= k < |os| => EventOf(os[k]))
  }

  /** What the outcome of one step tells about the pill it dispatched. */
  ghost predicate OutcomeFacts(su: Setup, env: Env, o: Outcome) {
    o.Dispatched? ==>
      && o.id == InnerId(su.crypto, o.pill)
      && o.publish == (if o.capsuleSeen then None else Process(su, o.pill, env).0)
  }

  /** How one step moves the two windows. */
  ghost predicate WindowFacts(g: Guardian, g': Guardian, o: Outcome)
    requires |g.seen| <= SEEN_CAP && |g.cache| <= CACHE_CAP
  {
    && g'.seen == SeenAfter(g.seen, EventOf(o))
    && (o.Dispatched? ==> o.id !in g.seen && (o.capsuleSeen, g'.cache) == Admit(g.cache, o.id, CACHE_CAP))
    && (!o.Dispatched? ==> g'.cache == g.cache)
  }

  lemma StepHolds(su: Setup, g: Guardian, bytes: seq<byte>, env: Env)
    requires GuardianOk(g)
    ensures var (g', o) := Receive(su, g, bytes, env); WindowFacts(g, g', o) && OutcomeFacts(su, env, o)
  {
    hide Accept, Decode, Process, Fragments, InnerId, PillBytes, ReadPill, PoolOk;
  }

  /** The state and the outcomes of a run, in terms of its history. */
  ghost predicate Summary(su: Setup, inputs: seq<Input>, g: Guardian, os: seq<Outcome>) {
    FactsOf(su, inputs, os) && WindowsOf(g, os)
  }

  ghost predicate FactsOf(su: Setup, inputs: seq<Input>, os: seq<Outcome>) {
    |os| == |inputs| && forall k :: 0 <= k < |os| ==> OutcomeFacts(su, inputs[k].env, os[k])
  }

  predicate WindowsOf(g: Guardian, os: seq<Outcome>) {
    && Explained(g.seen, g.cache, Events(os))
    && forall k :: 0 <= k < |os| && os[k].Dispatched? ==> !os[k].capsuleSeen
  }

  lemma WindowsStep(g: Guardian, g': Guardian, os: seq<Outcome>, o: Outcome)
    requires |g.seen| <= SEEN_CAP && |g.cache| <= CACHE_CAP
    requires WindowsOf(g, os) && WindowFacts(g, g', o)
    ensures WindowsOf(g', os + [o])
  {
    ExplainedStep(g.seen, g.cache, Events(os), EventOf(o));
    assert Events(os + [o]) == Events(os) + [EventOf(o)];
  }

  lemma SummaryStep(su: Setup, inputs: seq<Input>, g: Guardian, g': Guardian, os: seq<Outcome>, o: Outcome)
    requires inputs != [] && |g.seen| <= SEEN_CAP && |g.cache| <= CACHE_CAP
    requires Summary(su, inputs[..|inputs| - 1], g, os)
    requires WindowFacts(g, g', o) && OutcomeFacts(su, inputs[|inputs| - 1].env, o)
    ensures Summary(su, inputs, g', os + [o])
  {
    WindowsStep(g, g', os, o);
    var n := |inputs| - 1;
    forall k | 0 <= k <= n ensures OutcomeFacts(su, inputs[k].env, (os + [o])[k]) {
      if k < n {
        assert OutcomeFacts(su, inputs[..n][k].env, os[k]);
      }
    }
  }

  lemma {:induction false} RunSummary(su: Setup, inputs: seq<Input>)
    ensures Summary(su, inputs, Run(su, inputs).0, Run(su, inputs).1)
  {
    if inputs != [] {
      var n := |inputs| - 1;
      RunSummary(su, inputs[..n]);
      var (g, os) := Run(su, inputs[..n]);
      StepHolds(su, g, inputs[n].bytes, inputs[n].env);
      var (g', o) := Receive(su, g, inputs[n].bytes, inputs[n].env);
      SummaryStep(su, inputs, g, g', os, o);
    }
  }

  /**
   * Replay window: in every run two dispatches of one message id have at least 16 dispatches of
   * other ids between them, although a relayed pill uses two of the 32 ring entries.
   */
  lemma DispatchesAreSpaced(su: Setup, inputs: seq<Input>, i: nat, j: nat)
    requires var d := Dispatches(Events(Run(su, inputs).1)); i < j < |d| && d[i] == d[j]
    ensures j - i > 16
  {
    RunSummary(su, inputs);
  }

  /** The 16-entry capsule cache never rejects a pill that the 32-entry ring let through. */
  lemma CapsuleCacheNeverFires(su: Setup, inputs: seq<Input>, k: nat)
    requires k < |inputs| && Run(su, inputs).1[k].Dispatched?
    ensures !Run(su, inputs).1[k].capsuleSeen
  {
    RunSummary(su, inputs);
  }

  /**
   * The window is exact: after the last dispatch of an id, the Guardian still knows it if and only
   * if fewer than 32 ring writes followed; a dispatch writes twice when its relay succeeded.
   */
  lemma ReplayWindowIsExact(su: Setup, inputs: seq<Input>, i: nat)
    requires i < |inputs| && Run(su, inputs).1[i].Dispatched?
    requires var os := Run(su, inputs).1;
             forall k :: i < k < |os| && os[k].Dispatched? ==> os[k].id != os[i].id
    ensures var (g, os) := Run(su, inputs);
            os[i].id in g.seen <==> |AddLog(Events(os)[i + 1..])| < 32
  {
    RunSummary(su, inputs);
    var (g, os) := Run(su, inputs);
    RememberedIff(g.seen, g.cache, Events(os), i);
  }

  // ---- Publication ----

  /** The publication is what entry i of the device table and its template license for this pill. */
  ghost predicate Licensed(su: Setup, pill: Pill, i: nat, c: Command, p: Publish) {
    var ds := su.membrane.devices;
    && i < |ds| <= 20 && FirstAt(su.crypto, pill.active, ds, i) && Opens(su.crypto, pill.active, ds[i], c)
    && p.clientId == Content(ds[i].clientId) == Content(c.deviceId) && p.topic == Content(c.topic)
    && su.membrane.initialized && Capable(su.membrane.templates, ds[i].templateId, c.aminoId)
    && p.payload == (if c.aminoId in {5, 6, 11, 12} then Ascii(c.payload) else [])
  }

  lemma ProcessStages(su: Setup, pill: Pill, env: Env, p: Publish)
    ensures var dg := Digest(su.crypto, pill.active, su.membrane.devices);
            Process(su, pill, env).0 == Some(p) <==>
            && Authorize(su.crypto, pill, env.nowMs, su.issuer, su.key).Ok?
            && dg.Ok? && Publication(su.membrane, dg.value) == Ok(p)
  {
    hide Authorize, Digest, Publication;
  }

  lemma OpenedIsValid(k: Crypto, a: Active, d: Device, c: Command)
    requires Opens(k, a, d, c)
    ensures Validate(c).Ok?
  {
  }

  /** A pill is published as p exactly when it is vouched for and the membrane licenses p for it. */
  lemma ProcessedIff(su: Setup, pill: Pill, env: Env, p: Publish)
    ensures Process(su, pill, env).0 == Some(p) <==>
            && Vouched(su.crypto, pill, env.nowMs, su.issuer, su.key)
            && exists i: nat, c :: Licensed(su, pill, i, c, p)
  {
    hide Authorize, Process, Digest, Publication, Opens, PassedOver, Ascii, Content, Capable, Validate;
    AuthorizedIffVouched(su.crypto, pill, env.nowMs, su.issuer, su.key);
    ProcessStages(su, pill, env, p);
    var ds := su.membrane.devices;
    if Process(su, pill, env).0 == Some(p) {
      var dg := Digest(su.crypto, pill.active, ds).value;
      DigestedIff(su.crypto, pill.active, ds, dg);
      PublishedIff(su.membrane, dg);
      var i :| 0 <= i < |ds| && FirstAt(su.crypto, pill.active, ds, i) && ds[i] == dg.device
               && Opens(su.crypto, pill.active, ds[i], dg.command);
      assert Licensed(su, pill, i, dg.command, p);
    }
    if Vouched(su.crypto, pill, env.nowMs, su.issuer, su.key) {
      if i: nat, c :| Licensed(su, pill, i, c, p) {
        DigestedIff(su.crypto, pill.active, ds, Digested(c, ds[i]));
        PublishedIff(su.membrane, Digested(c, ds[i]));
        OpenedIsValid(su.crypto, pill.active, ds[i], c);
      }
    }
  }

  predicate Published(o: Outcome) { o.Dispatched? && o.publish.Some? }

  /**
   * Publication, exactly: whenever a pill is dispatched in a run, it is published as p if and only
   * if it passes every authorisation check at that moment and the membrane licenses p. That is, the
   * first device whose secret is not the wrong key opens it, the command names that device, and p
   * is the command as that device's template permits it.
   */
  lemma PublishedIffLicensed(su: Setup, inputs: seq<Input>, k: nat, p: Publish)
    requires k < |inputs| && Run(su, inputs).1[k].Dispatched?
    ensures var o := Run(su, inputs).1[k];
            o.publish == Some(p) <==>
            && Vouched(su.crypto, o.pill, inputs[k].env.nowMs, su.issuer, su.key)
            && exists i: nat, c :: Licensed(su, o.pill, i, c, p)
  {
    hide Vouched, Licensed, Receive, Process;
    RunSummary(su, inputs);
    var os := Run(su, inputs).1;
    assert OutcomeFacts(su, inputs[k].env, os[k]);
    ProcessedIff(su, os[k].pill, inputs[k].env, p);
  }

  /**
   * Publish safety: every publication in every run comes from a pill that was not in the capsule
   * cache, passed every authorisation check at that moment, was opened by the first matching
   * device secret, names that device, and is within that device's template and payload type.
   */
  lemma EveryPublishIsLicensed(su: Setup, inputs: seq<Input>, k: nat)
    requires k < |inputs| && Published(Run(su, inputs).1[k])
    ensures var o := Run(su, inputs).1[k];
            && o.id == InnerId(su.crypto, o.pill) && !o.capsuleSeen
            && Authorize(su.crypto, o.pill, inputs[k].env.nowMs, su.issuer, su.key).Ok?
            && Vouched(su.crypto, o.pill, inputs[k].env.nowMs, su.issuer, su.key)
            && exists i: nat, c :: Licensed(su, o.pill, i, c, o.publish.value)
  {
    hide Vouched, Licensed, Receive;
    RunSummary(su, inputs);
    PublishedLicensed(su, inputs, Run(su, inputs).0, Run(su, inputs).1, k);
    AuthorizedIffVouched(su.crypto, Run(su, inputs).1[k].pill, inputs[k].env.nowMs, su.issuer, su.key);
  }

  lemma PublishedLicensed(su: Setup, inputs: seq<Input>, g: Guardian, os: seq<Outcome>, k: nat)
    requires Summary(su, inputs, g, os) && k < |os| && Published(os[k])
    ensures os[k].id == InnerId(su.crypto, os[k].pill) && !os[k].capsuleSeen
    ensures Authorize(su.crypto, os[k].pill, inputs[k].env.nowMs, su.issuer, su.key).Ok?
    ensures exists i: nat, c :: Licensed(su, os[k].pill, i, c, os[k].publish.value)
  {
    hide Vouched, Licensed, Process, Authorize, Digest, Publication;
    ProcessedIff(su, os[k].pill, inputs[k].env, os[k].publish.value);
    ProcessStages(su, os[k].pill, inputs[k].env, os[k].publish.value);
  }

  // ---- What one fragment is answered ----

  /** What the pool answers to a fragment that is readable and not remembered. */
  ghost function PoolAnswer(g: Guardian, bytes: seq<byte>): Option<PoolEvent>
    requires GuardianOk(g)
  {
    match Decode(bytes)
    case Err(_) => None
    case Ok(f) =>
      DecodedInBounds(bytes);
      if f.id in g.seen then None else Some(Accept(g.slots, f).1)
  }

  /** The message a fragment completes. */
  ghost function Completed(g: Guardian, bytes: seq<byte>): Option<seq<byte>>
    requires GuardianOk(g)
  {
    var e := PoolAnswer(g, bytes);
    if e.Some? && e.value.Complete? then Some(e.value.message) else None
  }

  /**
   * A fragment leads to a dispatch exactly when it completes a message of the size of a pill whose
   * digest is the id it travelled under, and the pill dispatched is the one read from that message.
   */
  lemma DispatchedIff(su: Setup, g: Guardian, bytes: seq<byte>, env: Env)
    requires GuardianOk(g)
    ensures var o, m := Receive(su, g, bytes, env).1, Completed(g, bytes);
            && (o.Dispatched? <==>
                  && m.Some? && |m.value| == 480
                  && InnerId(su.crypto, ReadPill(m.value)) == Decode(bytes).value.id)
            && (o.Dispatched? ==> o.pill == ReadPill(m.value) && o.id == Decode(bytes).value.id)
            && (o == Refused(InvalidSize) <==> m.Some? && |m.value| != 480)
            && (o == Refused(InvalidCrc) <==> && m.Some? && |m.value| == 480 && !o.Dispatched?)
  {
    hide Accept, Decode, Process, Fragments, InnerId, PillBytes, ReadPill, PoolOk;
  }

  /** Every other fragment is stored, or refused with the reason. */
  lemma NotCompleted(su: Setup, g: Guardian, bytes: seq<byte>, env: Env)
    requires GuardianOk(g) && Completed(g, bytes).None?
    ensures var (g', o) := Receive(su, g, bytes, env);
            && g'.seen == g.seen && g'.cache == g.cache
            && (Decode(bytes).Err? ==> o == Rejected(Decode(bytes).error))
            && (PoolAnswer(g, bytes).None? ==> g' == g && o.Rejected?)
            && (Decode(bytes).Ok? ==>
                  o == if PoolAnswer(g, bytes) == Some(Stored) then Buffered else Rejected(InvalidState))
  {
    hide Accept, Decode, Process, Fragments, InnerId, PillBytes, ReadPill, PoolOk;
  }

  /**
   * What a dispatch does: as many fragments of the pill go out as the radio takes, in order; it
   * counts as relayed when all three did; and its result is that of the broker, of the check that
   * failed, or of the relay when the pill is for none of the devices here.
   */
  lemma DispatchAnswers(su: Setup, g: Guardian, bytes: seq<byte>, env: Env)
    requires GuardianOk(g) && Receive(su, g, bytes, env).1.Dispatched?
    ensures var o := Receive(su, g, bytes, env).1;
            && o.sent == Fragments(PillBytes(o.pill), o.id)[..Min(env.accepted, 3)]
            && (o.relayed <==> env.accepted >= 3)
            && var local := if o.capsuleSeen then Ok(()) else Process(su, o.pill, env).1;
               o.result == (if local != Err(NotFound) then local else if o.relayed then Ok(()) else Err(env.refusal))
  {
    hide Accept, Decode, Process, InnerId, ReadPill, PoolOk;
  }

  /** The local result: the first check that fails, or the broker's answer to what is published. */
  lemma LocalResult(su: Setup, pill: Pill, env: Env)
    ensures var (publish, r) := Process(su, pill, env);
            var dg := Digest(su.crypto, pill.active, su.membrane.devices);
            && (publish.Some? ==> r == env.broker)
            && (publish.None? ==> r.Err?)
            && (!Vouched(su.crypto, pill, env.nowMs, su.issuer, su.key) ==>
                  r == Authorize(su.crypto, pill, env.nowMs, su.issuer, su.key))
            && (Vouched(su.crypto, pill, env.nowMs, su.issuer, su.key) && dg.Err? ==> r == Err(dg.error))
  {
    hide Vouched, Authorize, Digest, Publication;
    AuthorizedIffVouched(su.crypto, pill, env.nowMs, su.issuer, su.key);
  }

  /** The same signed fields, signature and used ciphertext, or a SHA-256 collision. */
  ghost predicate SamePillOrCollision(k: Crypto, p: Pill, q: Pill) {
    || Collision(k, DigestPreimage(p), DigestPreimage(q))
    || (&& p.active.ciphertextLen <= CIPHERTEXT_MAX && q.active.ciphertextLen <= CIPHERTEXT_MAX
        && Collision(k, ActivePreimage(p.active), ActivePreimage(q.active)))
    || (&& SameSigned(p.capsule, q.capsule) && SameUsed(p.active, q.active)
        && p.capsule.signatureLen == q.capsule.signatureLen <= SIGNATURE_MAX
        && p.capsule.signature[..p.capsule.signatureLen] == q.capsule.signature[..q.capsule.signatureLen])
  }

  lemma SameIdSamePublication(su: Setup, p: Pill, q: Pill, now1: u32, now2: u32)
    requires Authorize(su.crypto, p, now1, su.issuer, su.key).Ok?
             && Authorize(su.crypto, q, now2, su.issuer, su.key).Ok?
    requires InnerId(su.crypto, p) == InnerId(su.crypto, q)
    ensures SamePillOrCollision(su.crypto, p, q)
  {
    SameIdSamePill(su.crypto, p, q, now1, now2, su.issuer, su.key);
  }

  lemma PublishedApart(g: Guardian, os: seq<Outcome>, i: nat, j: nat)
    requires WindowsOf(g, os) && i < j < |os|
    requires Published(os[i]) && Published(os[j]) && os[i].id == os[j].id
    ensures |Dispatches(Events(os)[..j])| - |Dispatches(Events(os)[..i])| > 16
  {
    hide Dispatches;
    var es := Events(os);
    DispatchPosition(es, i);
    DispatchPosition(es, j);
    PositionsGrow(es, i + 1, j);
  }

  lemma RepublishIn(su: Setup, inputs: seq<Input>, g: Guardian, os: seq<Outcome>, i: nat, j: nat)
    requires Summary(su, inputs, g, os) && i < j < |os|
    requires Published(os[i]) && Published(os[j]) && os[i].id == os[j].id
    ensures |Dispatches(Events(os)[..j])| - |Dispatches(Events(os)[..i])| > 16
    ensures SamePillOrCollision(su.crypto, os[i].pill, os[j].pill)
  {
    hide Dispatches, Authorize, SamePillOrCollision, InnerId, WindowsOf, Licensed;
    PublishedApart(g, os, i, j);
    PublishedLicensed(su, inputs, g, os, i);
    PublishedLicensed(su, inputs, g, os, j);
    SameIdSamePublication(su, os[i].pill, os[j].pill, inputs[i].env.nowMs, inputs[j].env.nowMs);
  }

  /**
   * Two publications under one digest are more than 16 dispatches apart, and they repeat the same
   * signed fields, signature and ciphertext unless SHA-256 collides.
   */
  lemma RepublishIsLateAndIdentical(su: Setup, inputs: seq<Input>, i: nat, j: nat)
    requires i < j < |inputs|
    requires var os := Run(su, inputs).1; Published(os[i]) && Published(os[j]) && os[i].id == os[j].id
    ensures var es := Events(Run(su, inputs).1); |Dispatches(es[..j])| - |Dispatches(es[..i])| > 16
    ensures SamePillOrCollision(su.crypto, Run(su, inputs).1[i].pill, Run(su, inputs).1[j].pill)
  {
    RunSummary(su, inputs);
    RepublishIn(su, inputs, Run(su, inputs).0, Run(su, inputs).1, i, j);
  }
}
