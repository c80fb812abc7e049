/** Device and template tables of the membrane, and what every edit of them keeps. */
module Membranes {
  import opened Bytes
  import opened CStrings
  import opened Commands

  const MAX_DEVICES: nat := 20
  const MAX_TEMPLATES: nat := 16
  const CLIENT_ID_LEN: nat := 33
  const NAME_LEN: nat := 32
  const MAX_AMINOS: nat := 12

  type B33 = s: seq<byte> | |s| == CLIENT_ID_LEN witness Zeros(CLIENT_ID_LEN)
  type Aminos = s: seq<i32> | |s| == MAX_AMINOS witness seq(MAX_AMINOS, _ => 0)

  /** A C string argument: the bytes before its terminator. */
  type CStr = s: seq<byte> | 0 !in s witness []

  datatype Device = Device(clientId: B33, templateId: u16, epoch: u32, secret: Id)
  datatype Template = Template(id: u16, name: Id, aminoCount: byte, aminos: Aminos, flags: u32)
  datatype Config = Config(clientId: CStr, templateId: u16, epoch: u32, secret: Id)

  const ZERO_DEVICE: Device := Device(Zeros(CLIENT_ID_LEN), 0, 0, Zeros(32))
  const ZERO_TEMPLATE: Template := Template(0, Zeros(32), 0, seq(MAX_AMINOS, _ => 0), 0)

  /** The live entries of the two tables, in order. */
  datatype State = State(initialized: bool, devices: seq<Device>, templates: seq<Template>)

  // ---- Entries ----

  predicate StringValid(s: CStr, len: nat) { 0 < |s| < len }

  predicate FieldTerminated(f: seq<byte>) { 0 < |Content(f)| < |f| }

  function SanitizedDevice(d: Device): Device { d.(clientId := Field(Content(d.clientId), CLIENT_ID_LEN)) }

  function SanitizedTemplate(t: Template): Template { t.(name := Field(Content(t.name), NAME_LEN)) }

  predicate DeviceValid(d: Device) { FieldTerminated(d.clientId) && d.templateId != 0 && !AllZero(d.secret) }

  ghost predicate DeviceOk(d: Device) { DeviceValid(d) && Canonical(d.clientId) }

  predicate TemplateValid(t: Template) {
    && t.id != 0 && FieldTerminated(t.name) && 0 < t.aminoCount <= MAX_AMINOS
    && (forall i :: 0 <= i < t.aminoCount ==> AminoValid(t.aminos[i]))
    && (forall i, j :: 0 <= j < i < t.aminoCount ==> t.aminos[j] != t.aminos[i])
  }

  /** The aminos a template lists. */
  ghost function Capabilities(t: Template): set<i32>
    requires t.aminoCount <= MAX_AMINOS
  {
    Members(t.aminos[..t.aminoCount])
  }

  ghost function Members(s: seq<i32>): set<i32> { set x | x in s }

  /** A template is valid exactly when it has an id and a terminated name and lists 1 to 12 different aminos. */
  lemma TemplateValidIff(t: Template)
    ensures TemplateValid(t) <==>
            && t.id != 0 && 0 < |Content(t.name)| < 32 && 0 < t.aminoCount <= 12
            && |Capabilities(t)| == t.aminoCount && forall a :: a in Capabilities(t) ==> 1 <= a <= 12
  {
    hide Content;
    if t.aminoCount <= 12 {
      var s := t.aminos[..t.aminoCount];
      ListedOnce(s);
      assert forall i :: 0 <= i < t.aminoCount ==> s[i] == t.aminos[i] && s[i] in Capabilities(t);
    }
  }

  /** The elements of a list are different exactly when they make a set of its length. */
  lemma {:induction false} ListedOnce(s: seq<i32>)
    ensures |Members(s)| <= |s|
    ensures |Members(s)| == |s| <==> forall i, j :: 0 <= j < i < |s| ==> s[j] != s[i]
  {
    if s == [] {
      assert Members(s) == {};
    } else {
      var n := |s| - 1;
      var rest, a := s[..n], s[n];
      ListedOnce(rest);
      assert Members(s) == Members(rest) + {a};
      if a in rest {
        assert Members(s) == Members(rest);
      } else {
        assert |Members(s)| == |Members(rest)| + 1;
        assert forall i, j :: 0 <= j < i < n ==> (s[j] == s[i] <==> rest[j] == rest[i]);
      }
    }
  }

  ghost predicate TemplateOk(t: Template) { TemplateValid(t) && Canonical(t.name) }

  /** `rna_template_validate`: the nested scan for unknown or repeated aminos. */
  method ValidateTemplate(t: Template) returns (ok: bool)
    ensures ok <==> TemplateValid(t)
  {
    if t.id == 0 || !FieldTerminated(t.name) || t.aminoCount == 0 || t.aminoCount > MAX_AMINOS {
      return false;
    }
    for i := 0 to t.aminoCount
      invariant forall k :: 0 <= k < i ==> AminoValid(t.aminos[k])
      invariant forall k, l :: 0 <= l < k < i ==> t.aminos[l] != t.aminos[k]
    {
      var acid := AminoFind(t.aminos[i]);
      if acid.None? {
        return false;
      }
      for j := 0 to i
        invariant forall l :: 0 <= l < j ==> t.aminos[l] != t.aminos[i]
      {
        if t.aminos[j] == t.aminos[i] {
          return false;
        }
      }
    }
    return true;
  }

  // ---- Look-ups ----

  function FindDevice(ds: seq<Device>, id: CStr): (i: nat)
    ensures i <= |ds| && (i < |ds| ==> Content(ds[i].clientId) == id)
    ensures forall k :: 0 <= k < i ==> Content(ds[k].clientId) != id
  {
    if ds == [] || Content(ds[0].clientId) == id then 0 else 1 + FindDevice(ds[1..], id)
  }

  function FindTemplate(ts: seq<Template>, id: u16): (i: nat)
    ensures i <= |ts| && (i < |ts| ==> id != 0 && ts[i].id == id)
    ensures i == |ts| && id != 0 ==> forall k :: 0 <= k < |ts| ==> ts[k].id != id
    ensures i < |ts| ==> forall k :: 0 <= k < i ==> ts[k].id != id
  {
    if id == 0 || ts == [] then |ts| else if ts[0].id == id then 0 else 1 + FindTemplate(ts[1..], id)
  }

  predicate HasTemplate(ts: seq<Template>, id: u16) { FindTemplate(ts, id) < |ts| }

  predicate InUse(ds: seq<Device>, id: u16) { id != 0 && exists k :: 0 <= k < |ds| && ds[k].templateId == id }

  predicate HasCapability(t: Template, amino: int) {
    AminoValid(amino) && t.aminoCount <= MAX_AMINOS && amino in t.aminos[..t.aminoCount]
  }

  /** The capability filter applied to a decrypted command. */
  predicate Allows(st: State, device: Device, amino: int, payload: Option<i32>) {
    && st.initialized && device.templateId != 0 && ValidatePayload(amino, payload).Ok?
    && HasTemplate(st.templates, device.templateId)
    && HasCapability(st.templates[FindTemplate(st.templates, device.templateId)], amino)
  }

  /** The template of this id exists, and lists the amino. */
  ghost predicate Capable(ts: seq<Template>, id: u16, amino: int) {
    exists k :: && 0 <= k < |ts| && ts[k].id == id != 0 && (forall j :: 0 <= j < k ==> ts[j].id != id)
                && ts[k].aminoCount <= 12 && amino in ts[k].aminos[..ts[k].aminoCount]
  }

  /** A command passes the filter exactly when its amino is known, has a value just if it takes one, and is listed. */
  lemma AllowsIff(st: State, device: Device, amino: int, payload: Option<i32>)
    ensures Allows(st, device, amino, payload) <==>
            && st.initialized && 1 <= amino <= 12 && (payload.Some? <==> amino in {5, 6, 11, 12})
            && Capable(st.templates, device.templateId, amino)
  {
    var ts, t := st.templates, FindTemplate(st.templates, device.templateId);
    if t < |ts| && HasCapability(ts[t], amino) {
      assert Capable(ts, device.templateId, amino);
    }
  }

  // ---- Edits ----

  function MakeDevice(c: Config): Device
    requires StringValid(c.clientId, CLIENT_ID_LEN)
  {
    Device(Field(c.clientId, CLIENT_ID_LEN), c.templateId, c.epoch, c.secret)
  }

  function RemoveAt<T>(s: seq<T>, i: nat): seq<T>
    requires i < |s|
  {
    s[..i] + s[i + 1..]
  }

  datatype Op =
    | AddDevice(config: Config)
    | RemoveDevice(clientId: CStr)
    | AssignTemplate(clientId: CStr, templateId: u16)
    | AddTemplate(template: Template)
    | ReplaceTemplate(template: Template)
    | RemoveTemplate(templateId: u16)

  function Outcome(st: State, op: Op): Result<()> {
    if !st.initialized then Err(InvalidState)
    else match op
      case AddDevice(c) =>
        if !HasTemplate(st.templates, c.templateId) then Err(NotFound)
        else if |st.devices| >= MAX_DEVICES then Err(NoMem)
        else if !StringValid(c.clientId, CLIENT_ID_LEN) then Err(InvalidArg)
        else if FindDevice(st.devices, c.clientId) < |st.devices| then Err(InvalidState)
        else if AllZero(c.secret) then Err(InvalidArg)
        else Ok(())
      case RemoveDevice(id) =>
        if !StringValid(id, CLIENT_ID_LEN) then Err(InvalidArg)
        else if FindDevice(st.devices, id) == |st.devices| then Err(NotFound)
        else Ok(())
      case AssignTemplate(id, t) =>
        if !HasTemplate(st.templates, t) then Err(NotFound)
        else if !StringValid(id, CLIENT_ID_LEN) then Err(InvalidArg)
        else if FindDevice(st.devices, id) == |st.devices| then Err(NotFound)
        else Ok(())
      case AddTemplate(t) =>
        if |st.templates| >= MAX_TEMPLATES then Err(NoMem)
        else if !TemplateValid(t) then Err(InvalidArg)
        else if HasTemplate(st.templates, t.id) then Err(InvalidState)
        else Ok(())
      case ReplaceTemplate(t) =>
        if !TemplateValid(t) then Err(InvalidArg)
        else if !HasTemplate(st.templates, t.id) then Err(NotFound)
        else Ok(())
      case RemoveTemplate(id) =>
        if id == 0 then Err(InvalidArg)
        else if InUse(st.devices, id) then Err(InvalidState)
        else if !HasTemplate(st.templates, id) then Err(NotFound)
        else Ok(())
  }

  /** A failed edit changes nothing. */
  function Apply(st: State, op: Op): State {
    if Outcome(st, op).Err? then st
    else match op
      case AddDevice(c) => st.(devices := st.devices + [MakeDevice(c)])
      case RemoveDevice(id) => st.(devices := RemoveAt(st.devices, FindDevice(st.devices, id)))
      case AssignTemplate(id, t) =>
        var i := FindDevice(st.devices, id);
        st.(devices := st.devices[i := st.devices[i].(templateId := t)])
      case AddTemplate(t) => st.(templates := st.templates + [SanitizedTemplate(t)])
      case ReplaceTemplate(t) =>
        var i := FindTemplate(st.templates, t.id);
        st.(templates := st.templates[i := SanitizedTemplate(t)])
      case RemoveTemplate(id) => st.(templates := RemoveAt(st.templates, FindTemplate(st.templates, id)))
  }

  function Run(st: State, ops: seq<Op>): State
    decreases ops
  {
    if ops == [] then st else Run(Apply(st, ops[0]), ops[1..])
  }

  // ---- Consistency ----

  ghost predicate DevicesOk(ds: seq<Device>) {
    && |ds| <= MAX_DEVICES
    && (forall i :: 0 <= i < |ds| ==> DeviceOk(ds[i]))
    && (forall i, j :: 0 <= i < j < |ds| ==> ds[i].clientId != ds[j].clientId)
  }

  ghost predicate TemplatesOk(ts: seq<Template>) {
    && |ts| <= MAX_TEMPLATES
    && (forall i :: 0 <= i < |ts| ==> TemplateOk(ts[i]))
    && (forall i, j :: 0 <= i < j < |ts| ==> ts[i].id != ts[j].id)
  }

  ghost predicate RefsOk(ds: seq<Device>, ts: seq<Template>) {
    forall i :: 0 <= i < |ds| ==> HasTemplate(ts, ds[i].templateId)
  }

  /** Valid, distinct entries, and every device pointing at an existing template. */
  ghost predicate Consistent(st: State) {
    DevicesOk(st.devices) && TemplatesOk(st.templates) && RefsOk(st.devices, st.templates)
  }

  lemma SanitizedOk(t: Template)
    requires TemplateValid(t)
    ensures TemplateOk(SanitizedTemplate(t))
    ensures TemplateOk(t) ==> SanitizedTemplate(t) == t
  {
    FieldContent(Content(t.name), NAME_LEN);
  }

  lemma MakeDeviceOk(c: Config)
    requires StringValid(c.clientId, CLIENT_ID_LEN) && c.templateId != 0 && !AllZero(c.secret)
    ensures DeviceOk(MakeDevice(c)) && Content(MakeDevice(c).clientId) == c.clientId
  {
    FieldContent(c.clientId, CLIENT_ID_LEN);
  }

  lemma HasTemplateIff(ts: seq<Template>, id: u16)
    ensures HasTemplate(ts, id) <==> id != 0 && exists k :: 0 <= k < |ts| && ts[k].id == id
  {
  }

  /** Templates that keep every id already present keep every reference. */
  lemma ReferencesKept(ds: seq<Device>, ts: seq<Template>, ts': seq<Template>)
    requires RefsOk(ds, ts)
    requires forall k :: 0 <= k < |ts| && InUse(ds, ts[k].id) ==> exists l :: 0 <= l < |ts'| && ts'[l].id == ts[k].id
    ensures RefsOk(ds, ts')
  {
    forall i | 0 <= i < |ds| ensures HasTemplate(ts', ds[i].templateId) {
      var k := FindTemplate(ts, ds[i].templateId);
      assert InUse(ds, ts[k].id);
      HasTemplateIff(ts', ds[i].templateId);
    }
  }

  lemma DevicesExtended(ds: seq<Device>, d: Device)
    requires DevicesOk(ds) && |ds| < MAX_DEVICES && DeviceOk(d) && FindDevice(ds, Content(d.clientId)) == |ds|
    ensures DevicesOk(ds + [d])
  {
    hide DeviceOk, Content, FindDevice;
    forall i | 0 <= i < |ds| ensures ds[i].clientId != d.clientId {
      assert Content(ds[i].clientId) != Content(d.clientId);
    }
  }

  lemma DeviceAppended(ds: seq<Device>, ts: seq<Template>, d: Device)
    requires DevicesOk(ds) && RefsOk(ds, ts) && |ds| < MAX_DEVICES && DeviceOk(d)
    requires FindDevice(ds, Content(d.clientId)) == |ds| && HasTemplate(ts, d.templateId)
    ensures DevicesOk(ds + [d]) && RefsOk(ds + [d], ts)
  {
    hide DeviceOk, HasTemplate, FindDevice;
    DevicesExtended(ds, d);
  }

  lemma DeviceRemoved(ds: seq<Device>, ts: seq<Template>, i: nat)
    requires DevicesOk(ds) && RefsOk(ds, ts) && i < |ds|
    ensures DevicesOk(RemoveAt(ds, i)) && RefsOk(RemoveAt(ds, i), ts)
  {
    assert forall k :: 0 <= k < |ds| - 1 ==> RemoveAt(ds, i)[k] == ds[if k < i then k else k + 1];
  }

  lemma DeviceReassigned(ds: seq<Device>, ts: seq<Template>, i: nat, t: u16)
    requires DevicesOk(ds) && RefsOk(ds, ts) && i < |ds| && HasTemplate(ts, t)
    ensures var ds' := ds[i := ds[i].(templateId := t)]; DevicesOk(ds') && RefsOk(ds', ts)
  {
    var ds' := ds[i := ds[i].(templateId := t)];
    assert forall k :: 0 <= k < |ds| ==> ds'[k].clientId == ds[k].clientId;
  }

  lemma TemplatesExtended(ts: seq<Template>, t: Template)
    requires TemplatesOk(ts) && |ts| < MAX_TEMPLATES && TemplateOk(t) && !HasTemplate(ts, t.id)
    ensures TemplatesOk(ts + [t])
  {
    HasTemplateIff(ts, t.id);
  }

  lemma TemplateAppended(ds: seq<Device>, ts: seq<Template>, t: Template)
    requires TemplatesOk(ts) && RefsOk(ds, ts) && |ts| < MAX_TEMPLATES && TemplateOk(t) && !HasTemplate(ts, t.id)
    ensures TemplatesOk(ts + [t]) && RefsOk(ds, ts + [t])
  {
    hide TemplateOk, HasTemplate;
    TemplatesExtended(ts, t);
    assert forall k :: 0 <= k < |ts| ==> (ts + [t])[k] == ts[k];
    ReferencesKept(ds, ts, ts + [t]);
  }

  lemma TemplateReplaced(ds: seq<Device>, ts: seq<Template>, i: nat, t: Template)
    requires TemplatesOk(ts) && RefsOk(ds, ts) && i < |ts| && TemplateOk(t) && ts[i].id == t.id
    ensures TemplatesOk(ts[i := t]) && RefsOk(ds, ts[i := t])
  {
    assert forall k :: 0 <= k < |ts| ==> ts[i := t][k].id == ts[k].id;
    ReferencesKept(ds, ts, ts[i := t]);
  }

  lemma TemplateRemoved(ds: seq<Device>, ts: seq<Template>, i: nat)
    requires TemplatesOk(ts) && RefsOk(ds, ts) && i < |ts| && !InUse(ds, ts[i].id)
    ensures TemplatesOk(RemoveAt(ts, i)) && RefsOk(ds, RemoveAt(ts, i))
  {
    hide TemplatesOk, RefsOk, FindTemplate;
    TemplatesShrunk(ts, i);
    var ts' := RemoveAt(ts, i);
    forall k | 0 <= k < |ts| && InUse(ds, ts[k].id) ensures exists l :: 0 <= l < |ts'| && ts'[l].id == ts[k].id {
      var l := if k < i then k else k - 1;
      assert k != i && ts'[l] == ts[k];
    }
    ReferencesKept(ds, ts, ts');
  }

  lemma TemplatesShrunk(ts: seq<Template>, i: nat)
    requires TemplatesOk(ts) && i < |ts|
    ensures TemplatesOk(RemoveAt(ts, i))
  {
    assert forall k :: 0 <= k < |ts| - 1 ==> RemoveAt(ts, i)[k] == ts[if k < i then k else k + 1];
  }

  lemma EditKeepsConsistency(st: State, op: Op)
    requires Consistent(st)
    ensures Consistent(Apply(st, op))
  {
    hide DevicesOk, TemplatesOk, RefsOk, FindDevice, FindTemplate, Field, Content, RemoveAt;
    if Outcome(st, op).Ok? {
      var ds, ts := st.devices, st.templates;
      match op
      case AddDevice(c) =>
        MakeDeviceOk(c);
        DeviceAppended(ds, ts, MakeDevice(c));
      case RemoveDevice(id) => DeviceRemoved(ds, ts, FindDevice(ds, id));
      case AssignTemplate(id, t) => DeviceReassigned(ds, ts, FindDevice(ds, id), t);
      case AddTemplate(t) =>
        SanitizedOk(t);
        TemplateAppended(ds, ts, SanitizedTemplate(t));
      case ReplaceTemplate(t) =>
        SanitizedOk(t);
        TemplateReplaced(ds, ts, FindTemplate(ts, t.id), SanitizedTemplate(t));
      case RemoveTemplate(id) => TemplateRemoved(ds, ts, FindTemplate(ts, id));
    }
  }

  // ---- What each edit does ----

  ghost predicate Known(ds: seq<Device>, id: CStr) { exists k :: 0 <= k < |ds| && Content(ds[k].clientId) == id }

  ghost predicate Exists(ts: seq<Template>, id: u16) { id != 0 && exists k :: 0 <= k < |ts| && ts[k].id == id }

  ghost predicate Assigned(ds: seq<Device>, id: u16) { exists k :: 0 <= k < |ds| && ds[k].templateId == id }

  /** Which edits succeed. */
  ghost predicate Permitted(st: State, op: Op) {
    && st.initialized
    && match op
       case AddDevice(c) =>
         && Exists(st.templates, c.templateId) && |st.devices| < 20 && 0 < |c.clientId| <= 32
         && !Known(st.devices, c.clientId) && !AllZero(c.secret)
       case RemoveDevice(id) => 0 < |id| <= 32 && Known(st.devices, id)
       case AssignTemplate(id, t) => Exists(st.templates, t) && 0 < |id| <= 32 && Known(st.devices, id)
       case AddTemplate(t) => |st.templates| < 16 && TemplateValid(t) && !Exists(st.templates, t.id)
       case ReplaceTemplate(t) => TemplateValid(t) && Exists(st.templates, t.id)
       case RemoveTemplate(id) => id != 0 && !Assigned(st.devices, id) && Exists(st.templates, id)
  }

  lemma PermittedIff(st: State, op: Op)
    ensures Outcome(st, op).Ok? <==> Permitted(st, op)
    ensures Outcome(st, op).Err? ==> Apply(st, op) == st
  {
    hide Content, TemplateValid, RemoveAt, Field;
    match op
    case AddDevice(c) =>
      HasTemplateIff(st.templates, c.templateId);
      KnownIff(st.devices, c.clientId);
    case RemoveDevice(id) => KnownIff(st.devices, id);
    case AssignTemplate(id, t) =>
      HasTemplateIff(st.templates, t);
      KnownIff(st.devices, id);
    case AddTemplate(t) => HasTemplateIff(st.templates, t.id);
    case ReplaceTemplate(t) => HasTemplateIff(st.templates, t.id);
    case RemoveTemplate(id) => HasTemplateIff(st.templates, id);
  }

  lemma KnownIff(ds: seq<Device>, id: CStr)
    ensures FindDevice(ds, id) < |ds| <==> Known(ds, id)
  {
    hide Content;
  }

  /** The error of a refused edit: what is missing, what is there already, no room, or a bad argument. */
  lemma RefusalIs(st: State, op: Op)
    requires st.initialized && !Permitted(st, op)
    ensures Outcome(st, op) == Err(
              match op
              case AddDevice(c) =>
                if !Exists(st.templates, c.templateId) then NotFound
                else if |st.devices| >= 20 then NoMem
                else if 0 < |c.clientId| <= 32 && Known(st.devices, c.clientId) then InvalidState
                else InvalidArg
              case RemoveDevice(id) => if 0 < |id| <= 32 then NotFound else InvalidArg
              case AssignTemplate(id, t) =>
                if Exists(st.templates, t) && !(0 < |id| <= 32) then InvalidArg else NotFound
              case AddTemplate(t) =>
                if |st.templates| >= 16 then NoMem else if TemplateValid(t) then InvalidState else InvalidArg
              case ReplaceTemplate(t) => if TemplateValid(t) then NotFound else InvalidArg
              case RemoveTemplate(id) =>
                if id == 0 then InvalidArg else if Assigned(st.devices, id) then InvalidState else NotFound)
  {
    hide Content, TemplateValid, RemoveAt, Field;
    PermittedIff(st, op);
    match op
    case AddDevice(c) =>
      HasTemplateIff(st.templates, c.templateId);
      KnownIff(st.devices, c.clientId);
    case RemoveDevice(id) => KnownIff(st.devices, id);
    case AssignTemplate(id, t) =>
      HasTemplateIff(st.templates, t);
      KnownIff(st.devices, id);
    case AddTemplate(t) => HasTemplateIff(st.templates, t.id);
    case ReplaceTemplate(t) => HasTemplateIff(st.templates, t.id);
    case RemoveTemplate(id) => HasTemplateIff(st.templates, id);
  }

  /** The one device of this client id, and the one template of this id. */
  ghost predicate Registered(st: State, id: CStr, d: Device) { d in st.devices && Content(d.clientId) == id }

  ghost predicate Defined(st: State, id: u16, t: Template) { t in st.templates && t.id == id }

  /** A device stays as it was unless it is the one the edit is about; a new one carries what was given. */
  ghost predicate DevicesAfter(st: State, op: Op, st': State) {
    forall id: CStr, d :: Registered(st', id, d) <==>
      match op
      case AddDevice(c) =>
        if id == c.clientId then
          && Canonical(d.clientId) && Content(d.clientId) == id
          && d.templateId == c.templateId && d.epoch == c.epoch && d.secret == c.secret
        else Registered(st, id, d)
      case RemoveDevice(x) => id != x && Registered(st, id, d)
      case AssignTemplate(x, t) =>
        if id == x then d.templateId == t && exists o :: Registered(st, id, o) && d == o.(templateId := t)
        else Registered(st, id, d)
      case _ => Registered(st, id, d)
  }

  ghost predicate TemplatesAfter(st: State, op: Op, st': State) {
    forall id, t :: Defined(st', id, t) <==>
      match op
      case AddTemplate(x) => if id == x.id then IsCopy(x, t) else Defined(st, id, t)
      case ReplaceTemplate(x) => if id == x.id then IsCopy(x, t) else Defined(st, id, t)
      case RemoveTemplate(x) => id != x && Defined(st, id, t)
      case _ => Defined(st, id, t)
  }

  /** The same template, with nothing after the end of its name. */
  ghost predicate IsCopy(x: Template, t: Template) {
    && Canonical(t.name) && Content(t.name) == Content(x.name)
    && t.id == x.id && t.aminoCount == x.aminoCount && t.aminos == x.aminos && t.flags == x.flags
  }

  /** Every permitted edit does exactly that, and leaves the other table alone. */
  lemma EditIsExact(st: State, op: Op)
    requires Consistent(st) && Permitted(st, op)
    ensures var st' := Apply(st, op);
            st'.initialized && DevicesAfter(st, op, st') && TemplatesAfter(st, op, st')
  {
    hide DevicesAfter, TemplatesAfter, Permitted, Consistent, Apply, Outcome;
    PermittedIff(st, op);
    match op
    case AddDevice(c) => AddDeviceIs(st, c);
    case RemoveDevice(id) => RemoveDeviceIs(st, id);
    case AssignTemplate(id, t) => AssignTemplateIs(st, id, t);
    case AddTemplate(t) => AddTemplateIs(st, t);
    case ReplaceTemplate(t) => ReplaceTemplateIs(st, t);
    case RemoveTemplate(id) => RemoveTemplateIs(st, id);
  }

  lemma SameIdSameDevice(ds: seq<Device>, i: nat, d: Device)
    requires DevicesOk(ds) && i < |ds| && d in ds && Content(d.clientId) == Content(ds[i].clientId)
    ensures d == ds[i]
  {
    var j :| 0 <= j < |ds| && ds[j] == d;
    SameContentSameField(ds[i].clientId, ds[j].clientId);
  }

  lemma AddDeviceIs(st: State, c: Config)
    requires Consistent(st) && Outcome(st, AddDevice(c)).Ok?
    ensures var st' := Apply(st, AddDevice(c));
            st'.initialized && DevicesAfter(st, AddDevice(c), st') && TemplatesAfter(st, AddDevice(c), st')
  {
    hide Content, FindTemplate, DevicesOk, TemplatesOk, RefsOk, Field;
    var d := MakeDevice(c);
    FieldContent(c.clientId, CLIENT_ID_LEN);
    KnownIff(st.devices, c.clientId);
    forall e: Device | Canonical(e.clientId) && Content(e.clientId) == c.clientId ensures e.clientId == d.clientId {
      SameContentSameField(e.clientId, d.clientId);
    }
    assert forall e :: e in st.devices + [d] <==> e in st.devices || e == d;
    assert forall e :: e in st.devices ==> Content(e.clientId) != c.clientId;
  }

  lemma RemoveDeviceIs(st: State, id: CStr)
    requires Consistent(st) && Outcome(st, RemoveDevice(id)).Ok?
    ensures var st' := Apply(st, RemoveDevice(id));
            st'.initialized && DevicesAfter(st, RemoveDevice(id), st') && TemplatesAfter(st, RemoveDevice(id), st')
  {
    hide Content, TemplatesOk, RefsOk, DeviceOk;
    var ds, i := st.devices, FindDevice(st.devices, id);
    RemovedMembers(ds, i);
    forall d | d in ds && Content(d.clientId) == id ensures d == ds[i] {
      SameIdSameDevice(ds, i, d);
    }
    assert forall k :: 0 <= k < |ds| && k != i ==> ds[k] != ds[i];
  }

  lemma RemovedMembers<T>(s: seq<T>, i: nat)
    requires i < |s|
    ensures forall x :: x in RemoveAt(s, i) <==> exists k :: 0 <= k < |s| && k != i && s[k] == x
  {
    var r := RemoveAt(s, i);
    forall x | x in r ensures exists k :: 0 <= k < |s| && k != i && s[k] == x {
      var k :| 0 <= k < |r| && r[k] == x;
      assert s[if k < i then k else k + 1] == x;
    }
    forall k | 0 <= k < |s| && k != i ensures s[k] in r {
      assert r[if k < i then k else k - 1] == s[k];
    }
  }

  lemma UpdatedMembers<T>(s: seq<T>, r: seq<T>, i: nat, y: T)
    requires i < |s| && r == s[i := y]
    ensures forall x :: x in r <==> x == y || exists k :: 0 <= k < |s| && k != i && s[k] == x
  {
    assert r[i] == y;
    forall k | 0 <= k < |s| && k != i ensures s[k] in r {
      assert r[k] == s[k];
    }
  }

  lemma AssignTemplateIs(st: State, id: CStr, t: u16)
    requires Consistent(st) && Outcome(st, AssignTemplate(id, t)).Ok?
    ensures var st' := Apply(st, AssignTemplate(id, t));
            && st'.initialized && DevicesAfter(st, AssignTemplate(id, t), st')
            && TemplatesAfter(st, AssignTemplate(id, t), st')
  {
    hide Content, TemplatesOk, RefsOk, DeviceOk, FindTemplate;
    var ds, i := st.devices, FindDevice(st.devices, id);
    UpdatedMembers(ds, ds[i := ds[i].(templateId := t)], i, ds[i].(templateId := t));
    forall d | d in ds && Content(d.clientId) == id ensures d == ds[i] {
      SameIdSameDevice(ds, i, d);
    }
    assert Registered(st, id, ds[i]);
    assert forall k :: 0 <= k < |ds| && k != i ==> ds[k] != ds[i];
  }

  lemma SanitizedIsCopy(x: Template)
    requires TemplateValid(x)
    ensures forall t :: IsCopy(x, t) <==> t == SanitizedTemplate(x)
  {
    FieldContent(Content(x.name), NAME_LEN);
  }

  lemma AddTemplateIs(st: State, x: Template)
    requires Consistent(st) && Outcome(st, AddTemplate(x)).Ok?
    ensures var st' := Apply(st, AddTemplate(x));
            st'.initialized && DevicesAfter(st, AddTemplate(x), st') && TemplatesAfter(st, AddTemplate(x), st')
  {
    hide Content, DevicesOk, RefsOk, TemplateOk, IsCopy;
    SanitizedIsCopy(x);
    HasTemplateIff(st.templates, x.id);
    assert forall t :: t in st.templates + [SanitizedTemplate(x)] <==> t in st.templates || t == SanitizedTemplate(x);
  }

  lemma ReplaceTemplateIs(st: State, x: Template)
    requires Consistent(st) && Outcome(st, ReplaceTemplate(x)).Ok?
    ensures var st' := Apply(st, ReplaceTemplate(x));
            && st'.initialized && DevicesAfter(st, ReplaceTemplate(x), st')
            && TemplatesAfter(st, ReplaceTemplate(x), st')
  {
    hide Content, DevicesOk, RefsOk, TemplateOk, IsCopy, TemplateValid, FindDevice;
    SanitizedIsCopy(x);
    var ts, i := st.templates, FindTemplate(st.templates, x.id);
    UpdatedMembers(ts, ts[i := SanitizedTemplate(x)], i, SanitizedTemplate(x));
  }

  lemma RemoveTemplateIs(st: State, id: u16)
    requires Consistent(st) && Outcome(st, RemoveTemplate(id)).Ok?
    ensures var st' := Apply(st, RemoveTemplate(id));
            st'.initialized && DevicesAfter(st, RemoveTemplate(id), st') && TemplatesAfter(st, RemoveTemplate(id), st')
  {
    hide Content, DevicesOk, RefsOk, TemplateOk, FindDevice;
    RemovedMembers(st.templates, FindTemplate(st.templates, id));
  }

  /**
   * Every sequence of edits keeps the tables consistent: ids stay distinct, entries valid, and no
   * device is ever left pointing at a template that does not exist.
   */
  lemma {:induction false} EditsKeepConsistency(st: State, ops: seq<Op>)
    requires Consistent(st)
    ensures Consistent(Run(st, ops))
    decreases ops
  {
    if ops != [] {
      EditKeepsConsistency(st, ops[0]);
      EditsKeepConsistency(Apply(st, ops[0]), ops[1..]);
    }
  }

  lemma {:induction false} AppendedDeviceFound(ds: seq<Device>, d: Device)
    requires FindDevice(ds, Content(d.clientId)) == |ds|
    ensures FindDevice(ds + [d], Content(d.clientId)) == |ds| && RemoveAt(ds + [d], |ds|) == ds
    decreases |ds|
  {
    hide Content;
    if ds != [] {
      assert (ds + [d])[1..] == ds[1..] + [d];
      AppendedDeviceFound(ds[1..], d);
    }
  }

  lemma AppendedTemplateFound(ts: seq<Template>, t: Template)
    requires t.id != 0 && !HasTemplate(ts, t.id)
    ensures FindTemplate(ts + [t], t.id) == |ts| && RemoveAt(ts + [t], |ts|) == ts
  {
    hide FindTemplate;
    assert (ts + [t])[|ts|] == t;
  }

  /** Removing a device just added restores the tables. */
  lemma RemoveUndoesAddDevice(st: State, c: Config)
    requires Outcome(st, AddDevice(c)).Ok?
    ensures var st' := Apply(st, AddDevice(c));
            Outcome(st', RemoveDevice(c.clientId)).Ok? && Apply(st', RemoveDevice(c.clientId)) == st
  {
    hide FindDevice, FindTemplate, MakeDevice, Content, RemoveAt;
    HasTemplateIff(st.templates, c.templateId);
    MakeDeviceOk(c);
    AppendedDeviceFound(st.devices, MakeDevice(c));
  }

  /** A template just added is never in use yet, so it can be removed again, restoring the tables. */
  lemma RemoveUndoesAddTemplate(st: State, t: Template)
    requires RefsOk(st.devices, st.templates) && Outcome(st, AddTemplate(t)).Ok?
    ensures var st' := Apply(st, AddTemplate(t));
            Outcome(st', RemoveTemplate(t.id)).Ok? && Apply(st', RemoveTemplate(t.id)) == st
  {
    hide FindTemplate, Field, Content, RemoveAt;
    AppendedTemplateFound(st.templates, SanitizedTemplate(t));
  }
}
