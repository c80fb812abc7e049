/** Digestion: trying every device secret on the active substance, and gating the publication. */
module Stomachs {
  import opened Bytes
  import opened CStrings
  import opened Decimal
  import opened Pills
  import opened Commands
  import opened Membranes
  import MembraneTables

  datatype Digested = Digested(command: Command, device: Device)

  const ZERO_DIGESTED: Digested := Digested(ZERO_COMMAND, ZERO_DEVICE)

  /** What one table entry does to the search. */
  datatype Verdict = Skip | Stop(error: Error) | Found(command: Command)

  ghost function Try(k: Crypto, a: Active, d: Device): Verdict {
    if AllZero(d.secret) then Skip
    else match k.open(a, d.secret, d.epoch)
      case Ok(plaintext) =>
        (match Parse(plaintext)
         case Ok(c) => Found(c)
         case Err(e) => Stop(e))
      case Err(e) => if e == NotSupported || e == InvalidSize || e == InvalidArg then Stop(e) else Skip
  }

  ghost function Search(k: Crypto, a: Active, ds: seq<Device>): Result<Digested> {
    if ds == [] then Err(NotFound)
    else match Try(k, a, ds[0])
      case Skip => Search(k, a, ds[1..])
      case Stop(e) => Err(e)
      case Found(c) => Ok(Digested(c, ds[0]))
  }

  ghost function Digest(k: Crypto, a: Active, ds: seq<Device>): Result<Digested> {
    if |ds| > MAX_DEVICES then Err(InvalidArg)
    else match ValidateEnvelope(a)
      case Err(e) => Err(e)
      case Ok(_) => Search(k, a, ds)
  }

  // ---- What the search finds ----

  /** The entry's secret opens the substance into this valid command. */
  ghost predicate Opens(k: Crypto, a: Active, d: Device, c: Command) {
    !AllZero(d.secret) && k.open(a, d.secret, d.epoch).Ok? && Parse(k.open(a, d.secret, d.epoch).value) == Ok(c)
  }

  /** The errors that speak of the substance and not of the key. */
  const FINAL_ERRORS: set<Error> := {NotSupported, InvalidSize, InvalidArg}

  /** The entry has no secret, or its secret is the wrong key. */
  ghost predicate PassedOver(k: Crypto, a: Active, d: Device) {
    AllZero(d.secret)
    || (k.open(a, d.secret, d.epoch).Err? && k.open(a, d.secret, d.epoch).error !in FINAL_ERRORS)
  }

  /** The entry ends the search: its key cannot be tried, or opens something that is no valid command. */
  ghost predicate Ends(k: Crypto, a: Active, d: Device, e: Error) {
    && !AllZero(d.secret)
    && (match k.open(a, d.secret, d.epoch)
        case Err(x) => x == e && e in FINAL_ERRORS
        case Ok(plaintext) => Parse(plaintext) == Err(e))
  }

  ghost predicate FirstAt(k: Crypto, a: Active, ds: seq<Device>, i: nat) {
    i <= |ds| && forall j :: 0 <= j < i ==> PassedOver(k, a, ds[j])
  }

  /** Every entry is of exactly one of the three kinds. */
  lemma TryIs(k: Crypto, a: Active, d: Device)
    ensures Try(k, a, d).Skip? <==> PassedOver(k, a, d)
    ensures forall c :: Try(k, a, d) == Found(c) <==> Opens(k, a, d, c)
    ensures forall e :: Try(k, a, d) == Stop(e) <==> Ends(k, a, d, e)
  {
    hide Parse, AllZero;
  }

  /**
   * Entries are passed over for want of a secret or for a wrong key. The first one that is not
   * decides: it is found with its command, or ends the search with its error.
   */
  lemma {:induction false} SearchIsFirstHit(k: Crypto, a: Active, ds: seq<Device>, i: nat, c: Command, e: Error)
    requires FirstAt(k, a, ds, i)
    ensures i < |ds| && Opens(k, a, ds[i], c) ==> Search(k, a, ds) == Ok(Digested(c, ds[i]))
    ensures i < |ds| && Ends(k, a, ds[i], e) ==> Search(k, a, ds) == Err(e)
    ensures i == |ds| ==> Search(k, a, ds) == Err(NotFound)
  {
    hide Try, PassedOver, Opens, Ends;
    if ds != [] {
      TryIs(k, a, ds[0]);
    }
    if i > 0 {
      assert PassedOver(k, a, ds[0]);
      forall j | 0 <= j < i - 1 ensures PassedOver(k, a, ds[1..][j]) {
        assert PassedOver(k, a, ds[j + 1]);
      }
      SearchIsFirstHit(k, a, ds[1..], i - 1, c, e);
    }
  }

  /** Every search ends in one of these three ways. */
  lemma {:induction false} SearchEnds(k: Crypto, a: Active, ds: seq<Device>) returns (i: nat)
    ensures FirstAt(k, a, ds, i)
    ensures match Search(k, a, ds)
            case Ok(r) => i < |ds| && ds[i] == r.device && Opens(k, a, ds[i], r.command)
            case Err(e) => if i == |ds| then e == NotFound else Ends(k, a, ds[i], e)
  {
    hide Try, PassedOver, Opens, Ends;
    i := 0;
    if ds != [] {
      TryIs(k, a, ds[0]);
    }
    if ds != [] && PassedOver(k, a, ds[0]) {
      i := SearchEnds(k, a, ds[1..]);
      forall j | 0 <= j < i + 1 ensures PassedOver(k, a, ds[j]) {
        if j > 0 {
          assert PassedOver(k, a, ds[1..][j - 1]);
        }
      }
      i := i + 1;
    }
  }

  /** A device is found exactly when it is the first not passed over and its secret opens the substance. */
  lemma FoundIff(k: Crypto, a: Active, ds: seq<Device>, r: Digested)
    ensures Search(k, a, ds) == Ok(r) <==>
            exists i :: 0 <= i < |ds| && FirstAt(k, a, ds, i) && ds[i] == r.device && Opens(k, a, ds[i], r.command)
  {
    hide Search, Opens, PassedOver;
    var at := SearchEnds(k, a, ds);
    if i :| 0 <= i < |ds| && FirstAt(k, a, ds, i) && ds[i] == r.device && Opens(k, a, ds[i], r.command) {
      SearchIsFirstHit(k, a, ds, i, r.command, NotFound);
    }
  }

  /** A substance is searched for exactly when the table is no longer than it can be and the envelope is well formed. */
  lemma DigestedIff(k: Crypto, a: Active, ds: seq<Device>, r: Digested)
    ensures Digest(k, a, ds) == Ok(r) <==>
            && |ds| <= 20 && a.version == 2 && a.cipher in {1, 2, 3} && 0 < a.ciphertextLen <= 256
            && exists i :: 0 <= i < |ds| && FirstAt(k, a, ds, i) && ds[i] == r.device && Opens(k, a, ds[i], r.command)
    ensures |ds| > 20 ==> Digest(k, a, ds) == Err(InvalidArg)
    ensures |ds| <= 20 && ValidateEnvelope(a).Err? ==> Digest(k, a, ds) == Err(ValidateEnvelope(a).error)
    ensures |ds| <= 20 && ValidateEnvelope(a).Ok? ==> Digest(k, a, ds) == Search(k, a, ds)
  {
    hide Search, Opens, PassedOver;
    FoundIff(k, a, ds, r);
  }

  /** `digest_active_substance`: the table loop; every error leaves the result entirely zero. */
  method DigestActive(k: Crypto, a: Active, ds: seq<Device>) returns (r: Result<()>, out: Digested)
    ensures Digest(k, a, ds) == (match r case Ok(_) => Ok(out) case Err(e) => Err(e))
    ensures r.Err? ==> out == ZERO_DIGESTED
  {
    out := ZERO_DIGESTED;
    if |ds| > MAX_DEVICES {
      return Err(InvalidArg), out;
    }
    r := ValidateEnvelope(a);
    if r.Err? {
      return;
    }
    for i := 0 to |ds|
      invariant out == ZERO_DIGESTED
      invariant Search(k, a, ds) == Search(k, a, ds[i..])
    {
      assert ds[i..][0] == ds[i] && ds[i..][1..] == ds[i + 1..];
      if AllZero(ds[i].secret) {
        continue;
      }
      match k.open(a, ds[i].secret, ds[i].epoch) {
        case Ok(plaintext) =>
          var command;
          r, command := ParseCommand(plaintext, out.command);
          out := out.(command := command);
          if r.Err? {
            return;
          }
          out := out.(device := ds[i]);
          return;
        case Err(e) =>
          if e == NotSupported || e == InvalidSize || e == InvalidArg {
            return Err(e), out;
          }
      }
    }
    return Err(NotFound), out;
  }

  // ---- Publication ----

  datatype Publish = Publish(clientId: seq<byte>, topic: seq<byte>, payload: seq<byte>)

  function PayloadValue(c: Command): Result<Option<i32>> {
    if c.payloadType == VALUE_NONE then Ok(None)
    else if c.payloadType == VALUE_BOOL || c.payloadType == VALUE_INT then Ok(Some(c.payload))
    else Err(InvalidArg)
  }

  ghost function Publication(st: State, dg: Digested): Result<Publish> {
    var c, d := dg.command, dg.device;
    if Validate(c).Err? then Err(Validate(c).error)
    else if Content(c.deviceId) != Content(d.clientId) then Err(InvalidState)
    else if PayloadValue(c).Err? then Err(PayloadValue(c).error)
    else if !Allows(st, d, c.aminoId, PayloadValue(c).value) then Err(InvalidState)
    else match Payload(c)
      case Err(e) => Err(e)
      case Ok(p) => Ok(Publish(Content(d.clientId), Content(c.topic), p))
  }

  /**
   * A command is published exactly when it is valid, names the device that opened it and is among
   * the capabilities of that device's template; it is published as its topic and its value.
   */
  lemma PublishedIff(st: State, dg: Digested)
    ensures var c, d, r := dg.command, dg.device, Publication(st, dg);
            && (r.Ok? <==>
                  && Validate(c).Ok? && Content(c.deviceId) == Content(d.clientId)
                  && st.initialized && Capable(st.templates, d.templateId, c.aminoId))
            && (r.Ok? ==> r.value == Publish(Content(d.clientId), Content(c.topic),
                                             if c.aminoId in {5, 6, 11, 12} then Ascii(c.payload) else []))
            && (r.Err? ==> r.error == if Validate(c).Err? then Validate(c).error else InvalidState)
  {
    hide Ascii, Content, Allows, Capable, Canonical;
    var c, d := dg.command, dg.device;
    ValidIff(c);
    if PayloadValue(c).Ok? {
      AllowsIff(st, d, c.aminoId, PayloadValue(c).value);
    }
  }

  /** `publish_digested_command`, up to the call that hands the message to the broker. */
  method PublishDigested(m: MembraneTables.Membrane, dg: Digested) returns (r: Result<Publish>)
    requires m.Valid()
    ensures r == Publication(m.Abs(), dg)
  {
    var v := ValidateCommand(dg.command);
    if v.Err? {
      return Err(v.error);
    }
    var same := CStrEqual(dg.command.deviceId, dg.device.clientId);
    if !same {
      return Err(InvalidState);
    }
    var value := PayloadValue(dg.command);
    if value.Err? {
      return Err(value.error);
    }
    var allowed := m.Allows(dg.device, dg.command.aminoId, value.value);
    if !allowed {
      return Err(InvalidState);
    }
    var payload := EncodePayload(dg.command);
    if payload.Err? {
      return Err(payload.error);
    }
    return Ok(Publish(Content(dg.device.clientId), Content(dg.command.topic), payload.value));
  }
}
