/** The membrane object: two fixed arrays with fill counts, edited in place. */
module MembraneTables {
  import opened Bytes
  import opened CStrings
  import opened Commands
  import opened Membranes

  /** Close the gap at i by copying each later entry down one place, then clear the last one. */
  method ShiftOut<T>(a: array<T>, i: nat, count: nat, zero: T, sanitize: T -> T)
    requires i < count <= a.Length
    requires forall k :: 0 <= k < count ==> sanitize(a[k]) == a[k]
    modifies a
    ensures a[..count - 1] == RemoveAt(old(a[..count]), i)
    ensures a[count - 1] == zero && a[count..] == old(a[count..])
  {
    ghost var was := a[..];
    for j := i to count - 1
      invariant forall k :: 0 <= k < i ==> a[k] == was[k]
      invariant forall k :: i <= k < j ==> a[k] == was[k + 1]
      invariant forall k :: j <= k < a.Length ==> a[k] == was[k]
    {
      a[j] := sanitize(a[j + 1]);
    }
    a[count - 1] := zero;
    assert was[..count] == old(a[..count]);
    assert a[..count - 1] == was[..i] + was[i + 1..count];
  }

  class Membrane {
    const devices: array<Device>
    var deviceCount: nat
    const templates: array<Template>
    var templateCount: nat
    var initialized: bool

    /** Live entries are sanitised, and everything past the counts is zero. */
    ghost predicate Valid()
      reads this, devices, templates
    {
      && devices.Length == MAX_DEVICES && templates.Length == MAX_TEMPLATES
      && deviceCount <= MAX_DEVICES && templateCount <= MAX_TEMPLATES
      && (forall k :: 0 <= k < deviceCount ==> SanitizedDevice(devices[k]) == devices[k])
      && (forall k :: deviceCount <= k < MAX_DEVICES ==> devices[k] == ZERO_DEVICE)
      && (forall k :: 0 <= k < templateCount ==> SanitizedTemplate(templates[k]) == templates[k])
      && (forall k :: templateCount <= k < MAX_TEMPLATES ==> templates[k] == ZERO_TEMPLATE)
    }

    ghost function Abs(): State
      requires Valid()
      reads this, devices, templates
    {
      State(initialized, devices[..deviceCount], templates[..templateCount])
    }

    constructor ()
      ensures Valid() && Abs() == State(false, [], []) && fresh(devices) && fresh(templates)
    {
      devices := new Device[MAX_DEVICES](_ => ZERO_DEVICE);
      templates := new Template[MAX_TEMPLATES](_ => ZERO_TEMPLATE);
      deviceCount := 0;
      templateCount := 0;
      initialized := false;
    }

    method FindDeviceSlot(id: CStr) returns (i: nat)
      requires Valid()
      ensures i == FindDevice(devices[..deviceCount], id)
    {
      hide Content, SanitizedDevice, SanitizedTemplate;
      ghost var live := devices[..deviceCount];
      i := 0;
      while i < deviceCount && Content(devices[i].clientId) != id
        invariant i <= deviceCount && i <= FindDevice(live, id)
      {
        assert live[i] == devices[i];
        i := i + 1;
      }
      assert i < deviceCount ==> live[i] == devices[i];
    }

    method FindTemplateSlot(id: u16) returns (i: nat)
      requires Valid()
      ensures i == FindTemplate(templates[..templateCount], id)
    {
      hide SanitizedDevice, SanitizedTemplate;
      if id == 0 {
        return templateCount;
      }
      ghost var live := templates[..templateCount];
      i := 0;
      while i < templateCount && templates[i].id != id
        invariant i <= templateCount && i <= FindTemplate(live, id)
      {
        assert live[i] == templates[i];
        i := i + 1;
      }
      assert i < templateCount ==> live[i] == templates[i];
    }

    method TemplateInUse(id: u16) returns (used: bool)
      requires Valid()
      ensures used <==> InUse(devices[..deviceCount], id)
    {
      if id == 0 {
        return false;
      }
      for k := 0 to deviceCount
        invariant forall l :: 0 <= l < k ==> devices[l].templateId != id
      {
        if devices[k].templateId == id {
          assert devices[..deviceCount][k].templateId == id;
          return true;
        }
      }
      return false;
    }

    method AddDevice(c: Config) returns (r: Result<()>)
      requires Valid()
      modifies this, devices
      ensures Valid() && r == Outcome(old(Abs()), Op.AddDevice(c)) && Abs() == Apply(old(Abs()), Op.AddDevice(c))
    {
      hide FindDevice, FindTemplate;
      if !initialized { return Err(InvalidState); }
      var t := FindTemplateSlot(c.templateId);
      if t == templateCount { return Err(NotFound); }
      if deviceCount >= MAX_DEVICES { return Err(NoMem); }
      if !StringValid(c.clientId, CLIENT_ID_LEN) { return Err(InvalidArg); }
      var d := FindDeviceSlot(c.clientId);
      if d < deviceCount { return Err(InvalidState); }
      if AllZero(c.secret) { return Err(InvalidArg); }
      FieldContent(c.clientId, CLIENT_ID_LEN);
      AppendDevice(MakeDevice(c));
      return Ok(());
    }

    method AppendDevice(d: Device)
      requires Valid() && deviceCount < MAX_DEVICES && SanitizedDevice(d) == d
      modifies this`deviceCount, devices
      ensures Valid() && Abs() == old(Abs()).(devices := old(Abs()).devices + [d])
    {
      ghost var before := devices[..deviceCount];
      devices[deviceCount] := d;
      deviceCount := deviceCount + 1;
      assert devices[..deviceCount] == before + [d];
    }

    method DropDevice(i: nat)
      requires Valid() && i < deviceCount
      modifies this`deviceCount, devices
      ensures Valid() && Abs() == old(Abs()).(devices := RemoveAt(old(Abs()).devices, i))
    {
      ghost var before := devices[..deviceCount];
      ghost var tail := devices[deviceCount..];
      ShiftOut(devices, i, deviceCount, ZERO_DEVICE, SanitizedDevice);
      deviceCount := deviceCount - 1;
      assert devices[..deviceCount] == RemoveAt(before, i);
      forall k | 0 <= k < deviceCount ensures SanitizedDevice(devices[k]) == devices[k] {
        assert devices[k] == devices[..deviceCount][k] == before[if k < i then k else k + 1];
      }
      forall k | deviceCount < k < MAX_DEVICES ensures devices[k] == ZERO_DEVICE {
        assert devices[k] == tail[k - deviceCount - 1];
      }
    }

    method DropTemplate(i: nat)
      requires Valid() && i < templateCount
      modifies this`templateCount, templates
      ensures Valid() && Abs() == old(Abs()).(templates := RemoveAt(old(Abs()).templates, i))
    {
      ghost var before := templates[..templateCount];
      ghost var tail := templates[templateCount..];
      ShiftOut(templates, i, templateCount, ZERO_TEMPLATE, SanitizedTemplate);
      templateCount := templateCount - 1;
      assert templates[..templateCount] == RemoveAt(before, i);
      forall k | 0 <= k < templateCount ensures SanitizedTemplate(templates[k]) == templates[k] {
        assert templates[k] == templates[..templateCount][k] == before[if k < i then k else k + 1];
      }
      forall k | templateCount < k < MAX_TEMPLATES ensures templates[k] == ZERO_TEMPLATE {
        assert templates[k] == tail[k - templateCount - 1];
      }
    }

    method RemoveDevice(id: CStr) returns (r: Result<()>)
      requires Valid()
      modifies this, devices
      ensures Valid() && r == Outcome(old(Abs()), Op.RemoveDevice(id))
              && Abs() == Apply(old(Abs()), Op.RemoveDevice(id))
    {
      hide FindDevice, RemoveAt;
      if !initialized { return Err(InvalidState); }
      if !StringValid(id, CLIENT_ID_LEN) { return Err(InvalidArg); }
      var i := FindDeviceSlot(id);
      if i == deviceCount { return Err(NotFound); }
      DropDevice(i);
      return Ok(());
    }

    method AssignTemplate(id: CStr, templateId: u16) returns (r: Result<()>)
      requires Valid()
      modifies devices
      ensures Valid() && r == Outcome(old(Abs()), Op.AssignTemplate(id, templateId))
      ensures Abs() == Apply(old(Abs()), Op.AssignTemplate(id, templateId))
    {
      hide FindDevice, FindTemplate, Field, Content;
      if !initialized { return Err(InvalidState); }
      var t := FindTemplateSlot(templateId);
      if t == templateCount { return Err(NotFound); }
      if !StringValid(id, CLIENT_ID_LEN) { return Err(InvalidArg); }
      var i := FindDeviceSlot(id);
      if i == deviceCount { return Err(NotFound); }
      devices[i] := devices[i].(templateId := templateId);
      return Ok(());
    }

    method AddTemplate(t: Template) returns (r: Result<()>)
      requires Valid()
      modifies this, templates
      ensures Valid() && r == Outcome(old(Abs()), Op.AddTemplate(t)) && Abs() == Apply(old(Abs()), Op.AddTemplate(t))
    {
      hide FindTemplate, Field, Content, TemplateValid;
      if !initialized { return Err(InvalidState); }
      if templateCount >= MAX_TEMPLATES { return Err(NoMem); }
      var ok := ValidateTemplate(t);
      if !ok { return Err(InvalidArg); }
      var i := FindTemplateSlot(t.id);
      if i < templateCount { return Err(InvalidState); }
      SanitizedOk(t);
      SanitizedOk(SanitizedTemplate(t));
      ghost var before := templates[..templateCount];
      templates[templateCount] := SanitizedTemplate(t);
      templateCount := templateCount + 1;
      assert templates[..templateCount] == before + [SanitizedTemplate(t)];
      return Ok(());
    }

    method ReplaceTemplate(t: Template) returns (r: Result<()>)
      requires Valid()
      modifies templates
      ensures Valid() && r == Outcome(old(Abs()), Op.ReplaceTemplate(t))
              && Abs() == Apply(old(Abs()), Op.ReplaceTemplate(t))
    {
      hide FindTemplate, Field, Content, TemplateValid;
      if !initialized { return Err(InvalidState); }
      var ok := ValidateTemplate(t);
      if !ok { return Err(InvalidArg); }
      var i := FindTemplateSlot(t.id);
      if i == templateCount { return Err(NotFound); }
      SanitizedOk(t);
      SanitizedOk(SanitizedTemplate(t));
      templates[i] := SanitizedTemplate(t);
      return Ok(());
    }

    method RemoveTemplate(id: u16) returns (r: Result<()>)
      requires Valid()
      modifies this, templates
      ensures Valid() && r == Outcome(old(Abs()), Op.RemoveTemplate(id))
              && Abs() == Apply(old(Abs()), Op.RemoveTemplate(id))
    {
      hide FindTemplate, RemoveAt, InUse;
      if !initialized { return Err(InvalidState); }
      if id == 0 { return Err(InvalidArg); }
      var used := TemplateInUse(id);
      if used { return Err(InvalidState); }
      var i := FindTemplateSlot(id);
      if i == templateCount { return Err(NotFound); }
      DropTemplate(i);
      return Ok(());
    }

    method Allows(device: Device, amino: i32, payload: Option<i32>) returns (ok: bool)
      requires Valid()
      ensures ok <==> Membranes.Allows(Abs(), device, amino, payload)
    {
      if !initialized || device.templateId == 0 || ValidatePayload(amino, payload).Err? {
        return false;
      }
      var i := FindTemplateSlot(device.templateId);
      return i < templateCount && HasCapability(templates[i], amino);
    }
  }
}
