/** Saving and loading the device and template tables as checksummed blobs. */
module Stores {
  import opened Bytes
  import opened CStrings
  import opened Commands
  import opened Checksums
  import opened Blobs
  import opened Membranes

  const DEVICE_LAYOUT: Layout := Layout(0x5249424F, 72, 20, true)
  const TEMPLATE_LAYOUT: Layout := Layout(0x524E414D, 88, 16, false)

  // ---- Entries as bytes ----

  /** One padding byte aligns the template id. */
  function DeviceBytes(d: Device): (s: seq<byte>)
    ensures |s| == 72
  {
    d.clientId + [0] + U16Le(d.templateId) + U32Le(d.epoch) + d.secret
  }

  function ReadDevice(s: seq<byte>): Device
    requires |s| == 72
  {
    Device(s[..33], ReadU16Le(s[34..36]), ReadU32Le(s[36..40]), s[40..])
  }

  lemma DeviceRoundTrip(d: Device)
    ensures ReadDevice(DeviceBytes(d)) == d
  {
    var s := DeviceBytes(d);
    assert s[..33] == d.clientId && s[34..36] == U16Le(d.templateId) && s[36..40] == U32Le(d.epoch)
           && s[40..] == d.secret;
    WordRoundTrip(d.templateId, d.epoch);
  }

  function AminoBytes(a: seq<i32>): (s: seq<byte>)
    ensures |s| == 4 * |a|
  {
    if a == [] then [] else I32Le(a[0]) + AminoBytes(a[1..])
  }

  function ReadAminos(s: seq<byte>): (a: seq<i32>)
    requires |s| % 4 == 0
    ensures 4 * |a| == |s|
  {
    if s == [] then [] else [ReadI32Le(s[..4])] + ReadAminos(s[4..])
  }

  lemma {:induction false} AminoRoundTrip(a: seq<i32>)
    ensures ReadAminos(AminoBytes(a)) == a
  {
    if a != [] {
      assert AminoBytes(a)[..4] == I32Le(a[0]) && AminoBytes(a)[4..] == AminoBytes(a[1..]);
      SignedRoundTrip(a[0]);
      AminoRoundTrip(a[1..]);
    }
  }

  function TemplateBytes(t: Template): (s: seq<byte>)
    ensures |s| == 88
  {
    U16Le(t.id) + t.name + [t.aminoCount] + [0] + AminoBytes(t.aminos) + U32Le(t.flags)
  }

  function ReadTemplate(s: seq<byte>): Template
    requires |s| == 88
  {
    Template(ReadU16Le(s[..2]), s[2..34], s[34], ReadAminos(s[36..84]), ReadU32Le(s[84..]))
  }

  lemma TemplateRoundTrip(t: Template)
    ensures ReadTemplate(TemplateBytes(t)) == t
  {
    var s := TemplateBytes(t);
    assert s[..2] == U16Le(t.id) && s[2..34] == t.name && s[34] == t.aminoCount;
    assert s[36..84] == AminoBytes(t.aminos) && s[84..] == U32Le(t.flags);
    WordRoundTrip(t.id, t.flags);
    AminoRoundTrip(t.aminos);
  }

  /** Where each field of a stored entry lies. */
  lemma EntryLayout(d: Device, t: Template)
    ensures var s := DeviceBytes(d);
            s[0..33] == d.clientId && s[33] == 0 && s[34..36] == U16Le(d.templateId) && s[36..40] == U32Le(d.epoch)
            && s[40..72] == d.secret
    ensures var s := TemplateBytes(t);
            s[0..2] == U16Le(t.id) && s[2..34] == t.name && s[34] == t.aminoCount && s[35] == 0
            && s[36..84] == AminoBytes(t.aminos) && s[84..88] == U32Le(t.flags)
  {
  }

  // ---- Adding entries one by one ----

  /** `ribosome_table_add_entry` */
  function AdmitDevice(ds: seq<Device>, d: Device): Result<seq<Device>> {
    if !DeviceValid(d) then Err(InvalidArg)
    else if |ds| >= MAX_DEVICES then Err(NoMem)
    else if FindDevice(ds, Content(d.clientId)) < |ds| then Err(InvalidState)
    else Ok(ds + [SanitizedDevice(d)])
  }

  /** `rna_template_table_add` */
  function AdmitTemplate(ts: seq<Template>, t: Template): Result<seq<Template>> {
    if |ts| >= MAX_TEMPLATES then Err(NoMem)
    else if !TemplateValid(t) then Err(InvalidArg)
    else if HasTemplate(ts, t.id) then Err(InvalidState)
    else Ok(ts + [SanitizedTemplate(t)])
  }

  /** Which entries are admitted, and why the others are not. */
  lemma AdmittedIff(ds: seq<Device>, d: Device)
    ensures var r := AdmitDevice(ds, d);
            var valid := 0 < |Content(d.clientId)| < 33 && d.templateId != 0 && !AllZero(d.secret);
            && (r.Ok? <==> valid && |ds| < 20 && !Known(ds, Content(d.clientId)))
            && (r.Err? ==> r.error == if !valid then InvalidArg else if |ds| >= 20 then NoMem else InvalidState)
  {
    KnownIff(ds, Content(d.clientId));
  }

  lemma TemplateAdmittedIff(ts: seq<Template>, t: Template)
    ensures var r := AdmitTemplate(ts, t);
            && (r.Ok? <==> |ts| < 16 && TemplateValid(t) && !Exists(ts, t.id))
            && (r.Err? ==> r.error == if |ts| >= 16 then NoMem else if !TemplateValid(t) then InvalidArg
                                      else InvalidState)
  {
    HasTemplateIff(ts, t.id);
  }

  function AdmitDevices(es: seq<Device>): Result<seq<Device>> {
    if es == [] then Ok([])
    else match AdmitDevices(es[..|es| - 1])
      case Err(e) => Err(e)
      case Ok(ds) => AdmitDevice(ds, es[|es| - 1])
  }

  function AdmitTemplates(es: seq<Template>): Result<seq<Template>> {
    if es == [] then Ok([])
    else match AdmitTemplates(es[..|es| - 1])
      case Err(e) => Err(e)
      case Ok(ts) => AdmitTemplate(ts, es[|es| - 1])
  }

  /** An error on the way is the error of the whole. */
  lemma {:induction false} AdmitDevicesStops(es: seq<Device>, n: nat)
    requires n <= |es| && AdmitDevices(es[..n]).Err?
    ensures AdmitDevices(es) == AdmitDevices(es[..n])
    decreases |es|
  {
    if n < |es| {
      assert es[..|es| - 1][..n] == es[..n];
      AdmitDevicesStops(es[..|es| - 1], n);
    } else {
      assert es[..n] == es;
    }
  }

  lemma {:induction false} AdmitTemplatesStops(es: seq<Template>, n: nat)
    requires n <= |es| && AdmitTemplates(es[..n]).Err?
    ensures AdmitTemplates(es) == AdmitTemplates(es[..n])
    decreases |es|
  {
    if n < |es| {
      assert es[..|es| - 1][..n] == es[..n];
      AdmitTemplatesStops(es[..|es| - 1], n);
    } else {
      assert es[..n] == es;
    }
  }

  ghost predicate SanitizedDevices(es: seq<Device>, ds: seq<Device>) {
    |ds| == |es| && forall i :: 0 <= i < |ds| ==> ds[i] == SanitizedDevice(es[i])
  }

  ghost predicate SanitizedTemplates(es: seq<Template>, ts: seq<Template>) {
    |ts| == |es| && forall i :: 0 <= i < |ts| ==> ts[i] == SanitizedTemplate(es[i])
  }

  lemma SanitizedDeviceOk(d: Device)
    requires DeviceValid(d)
    ensures DeviceOk(SanitizedDevice(d)) && Content(SanitizedDevice(d).clientId) == Content(d.clientId)
    ensures DeviceOk(d) ==> SanitizedDevice(d) == d
  {
    FieldContent(Content(d.clientId), CLIENT_ID_LEN);
  }

  lemma EmptyDevicesOk()
    ensures DevicesOk([]) && SanitizedDevices([], [])
  {
  }

  lemma DeviceAdmitted(es: seq<Device>, ds: seq<Device>, d: Device)
    requires DevicesOk(ds) && SanitizedDevices(es, ds) && AdmitDevice(ds, d).Ok?
    ensures DevicesOk(AdmitDevice(ds, d).value) && SanitizedDevices(es + [d], AdmitDevice(ds, d).value)
  {
    SanitizedDeviceOk(d);
    DevicesExtended(ds, SanitizedDevice(d));
  }

  lemma EmptyTemplatesOk()
    ensures TemplatesOk([]) && SanitizedTemplates([], [])
  {
  }

  lemma TemplateAdmitted(es: seq<Template>, ts: seq<Template>, t: Template)
    requires TemplatesOk(ts) && SanitizedTemplates(es, ts) && AdmitTemplate(ts, t).Ok?
    ensures TemplatesOk(AdmitTemplate(ts, t).value) && SanitizedTemplates(es + [t], AdmitTemplate(ts, t).value)
  {
    SanitizedOk(t);
    TemplatesExtended(ts, SanitizedTemplate(t));
  }

  /** Whatever is admitted, in any order, is a table of valid entries with distinct client ids. */
  lemma {:induction false} AdmittedDevicesOk(es: seq<Device>)
    requires AdmitDevices(es).Ok?
    ensures var ds := AdmitDevices(es).value; DevicesOk(ds) && SanitizedDevices(es, ds)
  {
    hide AdmitDevice, DevicesOk, SanitizedDevices;
    if es == [] {
      EmptyDevicesOk();
    } else {
      var rest, last := es[..|es| - 1], es[|es| - 1];
      AdmittedDevicesOk(rest);
      DeviceAdmitted(rest, AdmitDevices(rest).value, last);
      assert rest + [last] == es;
    }
  }

  lemma {:induction false} AdmittedTemplatesOk(es: seq<Template>)
    requires AdmitTemplates(es).Ok?
    ensures var ts := AdmitTemplates(es).value; TemplatesOk(ts) && SanitizedTemplates(es, ts)
  {
    hide AdmitTemplate, TemplatesOk, SanitizedTemplates;
    if es == [] {
      EmptyTemplatesOk();
    } else {
      var rest, last := es[..|es| - 1], es[|es| - 1];
      AdmittedTemplatesOk(rest);
      TemplateAdmitted(rest, AdmitTemplates(rest).value, last);
      assert rest + [last] == es;
    }
  }

  lemma LastDeviceAdmitted(rest: seq<Device>, d: Device)
    requires DevicesOk(rest + [d])
    ensures DevicesOk(rest) && AdmitDevice(rest, d) == Ok(rest + [d])
  {
    var ds := rest + [d];
    assert ds[|rest|] == d && forall i :: 0 <= i < |rest| ==> ds[i] == rest[i];
    SanitizedDeviceOk(d);
    var i := FindDevice(rest, Content(d.clientId));
    if i < |rest| {
      SameContentSameField(ds[i].clientId, d.clientId);
    }
  }

  lemma LastTemplateAdmitted(rest: seq<Template>, t: Template)
    requires TemplatesOk(rest + [t])
    ensures TemplatesOk(rest) && AdmitTemplate(rest, t) == Ok(rest + [t])
  {
    var ts := rest + [t];
    assert ts[|rest|] == t && forall i :: 0 <= i < |rest| ==> ts[i] == rest[i];
    SanitizedOk(t);
  }

  /** A consistent table is admitted unchanged. */
  lemma {:induction false} ConsistentDevicesAdmitted(ds: seq<Device>)
    requires DevicesOk(ds)
    ensures AdmitDevices(ds) == Ok(ds)
  {
    hide DevicesOk, AdmitDevice;
    if ds != [] {
      var rest, last := ds[..|ds| - 1], ds[|ds| - 1];
      assert rest + [last] == ds;
      LastDeviceAdmitted(rest, last);
      ConsistentDevicesAdmitted(rest);
    }
  }

  lemma {:induction false} ConsistentTemplatesAdmitted(ts: seq<Template>)
    requires TemplatesOk(ts)
    ensures AdmitTemplates(ts) == Ok(ts)
  {
    hide TemplatesOk, AdmitTemplate;
    if ts != [] {
      var rest, last := ts[..|ts| - 1], ts[|ts| - 1];
      assert rest + [last] == ts;
      LastTemplateAdmitted(rest, last);
      ConsistentTemplatesAdmitted(rest);
    }
  }

  // ---- Save and load ----

  function DeviceImages(ds: seq<Device>): (es: seq<seq<byte>>)
    ensures |es| == |ds| && forall i :: 0 <= i < |es| ==> es[i] == DeviceBytes(ds[i])
  {
    if ds == [] then [] else DeviceImages(ds[..|ds| - 1]) + [DeviceBytes(ds[|ds| - 1])]
  }

  function ReadDevices(es: seq<seq<byte>>): (ds: seq<Device>)
    requires forall i :: 0 <= i < |es| ==> |es[i]| == 72
    ensures |ds| == |es| && forall i :: 0 <= i < |es| ==> ds[i] == ReadDevice(es[i])
  {
    if es == [] then [] else ReadDevices(es[..|es| - 1]) + [ReadDevice(es[|es| - 1])]
  }

  function TemplateImages(ts: seq<Template>): (es: seq<seq<byte>>)
    ensures |es| == |ts| && forall i :: 0 <= i < |es| ==> es[i] == TemplateBytes(ts[i])
  {
    if ts == [] then [] else TemplateImages(ts[..|ts| - 1]) + [TemplateBytes(ts[|ts| - 1])]
  }

  function ReadTemplates(es: seq<seq<byte>>): (ts: seq<Template>)
    requires forall i :: 0 <= i < |es| ==> |es[i]| == 88
    ensures |ts| == |es| && forall i :: 0 <= i < |es| ==> ts[i] == ReadTemplate(es[i])
  {
    if es == [] then [] else ReadTemplates(es[..|es| - 1]) + [ReadTemplate(es[|es| - 1])]
  }

  lemma {:induction false} AdmittedCount(es: seq<Device>)
    ensures AdmitDevices(es).Ok? ==> |AdmitDevices(es).value| == |es| <= MAX_DEVICES
  {
    if es != [] {
      AdmittedCount(es[..|es| - 1]);
    }
  }

  lemma {:induction false} AdmittedTemplateCount(es: seq<Template>)
    ensures AdmitTemplates(es).Ok? ==> |AdmitTemplates(es).value| == |es| <= MAX_TEMPLATES
  {
    if es != [] {
      AdmittedTemplateCount(es[..|es| - 1]);
    }
  }

  function SaveDevices(table: seq<Device>): Result<seq<byte>> {
    if |table| > MAX_DEVICES then Err(InvalidArg)
    else match AdmitDevices(table)
      case Err(e) => Err(e)
      case Ok(ds) =>
        AdmittedCount(table);
        Ok(Image(DEVICE_LAYOUT, DeviceImages(ds)))
  }

  function LoadDevices(blob: seq<byte>): Result<seq<Device>> {
    match Open(DEVICE_LAYOUT, blob)
    case Err(e) => Err(e)
    case Ok(es) => AdmitDevices(ReadDevices(es))
  }

  function SaveTemplates(table: seq<Template>): Result<seq<byte>> {
    if |table| > MAX_TEMPLATES || table == [] then Err(InvalidArg)
    else match AdmitTemplates(table)
      case Err(e) => Err(e)
      case Ok(ts) =>
        AdmittedTemplateCount(table);
        Ok(Image(TEMPLATE_LAYOUT, TemplateImages(ts)))
  }

  function LoadTemplates(blob: seq<byte>): Result<seq<Template>> {
    match Open(TEMPLATE_LAYOUT, blob)
    case Err(e) => Err(e)
    case Ok(es) => AdmitTemplates(ReadTemplates(es))
  }

  lemma {:induction false} DeviceImagesRead(ds: seq<Device>)
    ensures ReadDevices(DeviceImages(ds)) == ds
  {
    hide DeviceBytes, ReadDevice;
    if ds != [] {
      var rest, last := ds[..|ds| - 1], ds[|ds| - 1];
      DeviceImagesRead(rest);
      DeviceRoundTrip(last);
      assert DeviceImages(ds)[..|ds| - 1] == DeviceImages(rest);
      assert rest + [last] == ds;
    }
  }

  lemma {:induction false} TemplateImagesRead(ts: seq<Template>)
    ensures ReadTemplates(TemplateImages(ts)) == ts
  {
    hide TemplateBytes, ReadTemplate;
    if ts != [] {
      var rest, last := ts[..|ts| - 1], ts[|ts| - 1];
      TemplateImagesRead(rest);
      TemplateRoundTrip(last);
      assert TemplateImages(ts)[..|ts| - 1] == TemplateImages(rest);
      assert rest + [last] == ts;
    }
  }

  /**
   * Loading what was saved gives the saved entries, sanitised. A consistent table is always saved
   * and comes back identical.
   */
  lemma SavedDevicesLoad(table: seq<Device>)
    ensures var saved := SaveDevices(table);
            && (DevicesOk(table) ==> saved.Ok? && LoadDevices(saved.value) == Ok(table))
            && (saved.Ok? ==> LoadDevices(saved.value).Ok? && SanitizedDevices(table, LoadDevices(saved.value).value))
  {
    if DevicesOk(table) {
      ConsistentDevicesAdmitted(table);
    }
    if SaveDevices(table).Ok? {
      AdmittedDevicesOk(table);
      var ds := AdmitDevices(table).value;
      OpenImage(DEVICE_LAYOUT, DeviceImages(ds));
      DeviceImagesRead(ds);
      ConsistentDevicesAdmitted(ds);
    }
  }

  /** The same for the template table, which is never saved empty. */
  lemma SavedTemplatesLoad(table: seq<Template>)
    ensures var saved := SaveTemplates(table);
            && (TemplatesOk(table) && table != [] ==> saved.Ok? && LoadTemplates(saved.value) == Ok(table))
            && (saved.Ok? ==>
                  && LoadTemplates(saved.value).Ok?
                  && SanitizedTemplates(table, LoadTemplates(saved.value).value))
  {
    if TemplatesOk(table) {
      ConsistentTemplatesAdmitted(table);
    }
    if SaveTemplates(table).Ok? {
      AdmittedTemplatesOk(table);
      var ts := AdmitTemplates(table).value;
      OpenImage(TEMPLATE_LAYOUT, TemplateImages(ts));
      TemplateImagesRead(ts);
      ConsistentTemplatesAdmitted(ts);
    }
  }

  /** Every entry is valid, and no two carry the same client id. */
  ghost predicate ValidAndDifferent(es: seq<Device>) {
    && (forall i :: 0 <= i < |es| ==> DeviceValid(es[i]))
    && forall i, j :: 0 <= i < j < |es| ==> Content(es[i].clientId) != Content(es[j].clientId)
  }

  /** A blob whose header and checksum are right loads exactly when its entries are valid and different. */
  lemma LoadsIff(blob: seq<byte>)
    ensures LoadDevices(blob).Ok? <==>
            Open(DEVICE_LAYOUT, blob).Ok? && ValidAndDifferent(ReadDevices(Open(DEVICE_LAYOUT, blob).value))
  {
    hide Open, ValidAndDifferent;
    if Open(DEVICE_LAYOUT, blob).Ok? {
      AllAdmittedIff(ReadDevices(Open(DEVICE_LAYOUT, blob).value));
    }
  }

  lemma {:induction false} AllAdmittedIff(es: seq<Device>)
    requires |es| <= MAX_DEVICES
    ensures AdmitDevices(es).Ok? <==> ValidAndDifferent(es)
  {
    hide AdmitDevice, ValidAndDifferent;
    if es == [] {
      NoneDiffer();
    } else {
      var n := |es| - 1;
      AllAdmittedIff(es[..n]);
      assert es[..n] + [es[n]] == es;
      OneMoreDiffers(es[..n], es[n]);
    }
  }

  lemma NoneDiffer()
    ensures ValidAndDifferent([])
  {
  }

  lemma OneMoreDiffers(es: seq<Device>, d: Device)
    requires |es| < MAX_DEVICES && (AdmitDevices(es).Ok? <==> ValidAndDifferent(es))
    ensures ValidAndDifferent(es + [d]) <==>
            ValidAndDifferent(es) && AdmitDevice(AdmitDevices(es).value, d).Ok?
  {
    hide AdmitDevice, AdmitDevices, Content, DevicesOk;
    var all := es + [d];
    if ValidAndDifferent(all) {
      assert forall i :: 0 <= i < |es| ==> es[i] == all[i];
    }
    if ValidAndDifferent(es) {
      var ds := AdmitDevices(es).value;
      AdmittedCount(es);
      AdmittedDevicesOk(es);
      AdmittedIff(ds, d);
      assert all[|es|] == d;
      forall i | 0 <= i < |es| ensures Content(ds[i].clientId) == Content(all[i].clientId) {
        SanitizedDeviceOk(es[i]);
      }
    }
  }

  /** A device table is saved exactly when it fits and its entries are valid and different. */
  lemma SavedIff(table: seq<Device>)
    ensures SaveDevices(table).Ok? <==> |table| <= 20 && ValidAndDifferent(table)
    ensures |table| > 20 ==> SaveDevices(table) == Err(InvalidArg)
  {
    hide ValidAndDifferent;
    if |table| <= MAX_DEVICES {
      AllAdmittedIff(table);
    }
  }

  /** The magic numbers spell RIBO and RNAM; the blobs are 1452 and 1420 bytes long. */
  lemma StoredSizes()
    ensures DEVICE_LAYOUT.magic == (('R' as int * 256 + 'I' as int) * 256 + 'B' as int) * 256 + 'O' as int
    ensures TEMPLATE_LAYOUT.magic == (('R' as int * 256 + 'N' as int) * 256 + 'A' as int) * 256 + 'M' as int
    ensures BlobLen(DEVICE_LAYOUT) == 1452 && BlobLen(TEMPLATE_LAYOUT) == 1420
    ensures SaveTemplates([]) == Err(InvalidArg)
  {
  }

  /** Any blob that loads, whatever wrote it, gives a table that meets the invariant the edits keep. */
  lemma LoadedTablesOk(blob: seq<byte>)
    ensures LoadDevices(blob).Ok? ==> DevicesOk(LoadDevices(blob).value)
    ensures LoadTemplates(blob).Ok? ==> TemplatesOk(LoadTemplates(blob).value) && LoadTemplates(blob).value != []
  {
    if LoadDevices(blob).Ok? {
      AdmittedDevicesOk(ReadDevices(Open(DEVICE_LAYOUT, blob).value));
    }
    if LoadTemplates(blob).Ok? {
      AdmittedTemplatesOk(ReadTemplates(Open(TEMPLATE_LAYOUT, blob).value));
    }
  }

  /** A saved device blob with exactly one byte changed, wherever it is, is refused. */
  lemma CorruptedDevicesRefused(table: seq<Device>, blob: seq<byte>, i: nat)
    ensures SaveDevices(table).Ok? && DifferAt(SaveDevices(table).value, blob, i) ==> LoadDevices(blob).Err?
  {
    hide Open, Image, AdmitDevices, DifferAt;
    if SaveDevices(table).Ok? && DifferAt(SaveDevices(table).value, blob, i) {
      AdmittedCount(table);
      OneByteCorruptionRefused(DEVICE_LAYOUT, DeviceImages(AdmitDevices(table).value), blob, i);
    }
  }

  lemma CorruptedTemplatesRefused(table: seq<Template>, blob: seq<byte>, i: nat)
    ensures SaveTemplates(table).Ok? && DifferAt(SaveTemplates(table).value, blob, i) ==> LoadTemplates(blob).Err?
  {
    hide Open, Image, AdmitTemplates, DifferAt;
    if SaveTemplates(table).Ok? && DifferAt(SaveTemplates(table).value, blob, i) {
      AdmittedTemplateCount(table);
      OneByteCorruptionRefused(TEMPLATE_LAYOUT, TemplateImages(AdmitTemplates(table).value), blob, i);
    }
  }

  // ---- As the firmware runs it ----

  method DeviceExists(ds: seq<Device>, id: CStr) returns (found: bool)
    ensures found <==> FindDevice(ds, id) < |ds|
  {
    for i := 0 to |ds|
      invariant forall k :: 0 <= k < i ==> Content(ds[k].clientId) != id
    {
      if Content(ds[i].clientId) == id {
        return true;
      }
    }
    return false;
  }

  method AddDeviceEntry(ds: seq<Device>, d: Device) returns (r: Result<seq<Device>>)
    ensures r == AdmitDevice(ds, d)
  {
    if !FieldTerminated(d.clientId) || d.templateId == 0 || AllZero(d.secret) {
      return Err(InvalidArg);
    }
    if |ds| >= MAX_DEVICES {
      return Err(NoMem);
    }
    var found := DeviceExists(ds, Content(d.clientId));
    if found {
      return Err(InvalidState);
    }
    return Ok(ds + [SanitizedDevice(d)]);
  }

  /** `table_to_blob` of the device store */
  method DevicesToBlob(table: seq<Device>) returns (r: Result<seq<byte>>)
    ensures r == SaveDevices(table)
  {
    hide AdmitDevice, DeviceBytes;
    if |table| > MAX_DEVICES {
      return Err(InvalidArg);
    }
    var validated: seq<Device> := [];
    for i := 0 to |table|
      invariant AdmitDevices(table[..i]) == Ok(validated)
    {
      var added := AddDeviceEntry(validated, table[i]);
      assert table[..i + 1][..i] == table[..i];
      if added.Err? {
        AdmitDevicesStops(table, i + 1);
        return Err(added.error);
      }
      validated := added.value;
    }
    assert table[..|table|] == table;
    AdmittedCount(table);
    var entries: seq<seq<byte>> := [];
    for i := 0 to |validated|
      invariant entries == DeviceImages(validated[..i])
    {
      assert validated[..i + 1][..i] == validated[..i];
      entries := entries + [DeviceBytes(validated[i])];
    }
    assert validated[..|validated|] == validated;
    var body := Body(DEVICE_LAYOUT, entries);
    var h := Update(FNV_OFFSET, body);
    return Ok(body + U32Le(h));
  }

  /** `table_to_blob` of the template store */
  method TemplatesToBlob(table: seq<Template>) returns (r: Result<seq<byte>>)
    ensures r == SaveTemplates(table)
  {
    hide AdmitTemplate, TemplateBytes;
    if |table| > MAX_TEMPLATES || |table| == 0 {
      return Err(InvalidArg);
    }
    var validated: seq<Template> := [];
    for i := 0 to |table|
      invariant AdmitTemplates(table[..i]) == Ok(validated)
    {
      var added := AdmitTemplate(validated, table[i]);
      assert table[..i + 1][..i] == table[..i];
      if added.Err? {
        AdmitTemplatesStops(table, i + 1);
        return Err(added.error);
      }
      validated := added.value;
    }
    assert table[..|table|] == table;
    AdmittedTemplateCount(table);
    var body := Body(TEMPLATE_LAYOUT, TemplateImages(validated));
    var h := Update(FNV_OFFSET, body);
    return Ok(body + U32Le(h));
  }

  /** `blob_to_table` of the device store, after the size check of its caller */
  method BlobToDevices(blob: seq<byte>) returns (r: Result<seq<Device>>)
    ensures r == LoadDevices(blob)
  {
    hide Open, AdmitDevice, ReadDevice;
    var raw := Open(DEVICE_LAYOUT, blob);
    if raw.Err? {
      return Err(raw.error);
    }
    var table: seq<Device> := [];
    var es := ReadDevices(raw.value);
    for i := 0 to |es|
      invariant AdmitDevices(es[..i]) == Ok(table)
    {
      var added := AddDeviceEntry(table, es[i]);
      assert es[..i + 1][..i] == es[..i];
      if added.Err? {
        AdmitDevicesStops(es, i + 1);
        return Err(added.error);
      }
      table := added.value;
    }
    assert es[..|es|] == es;
    return Ok(table);
  }

  /** `blob_to_table` of the template store, after the size check of its caller */
  method BlobToTemplates(blob: seq<byte>) returns (r: Result<seq<Template>>)
    ensures r == LoadTemplates(blob)
  {
    hide Open, AdmitTemplate, ReadTemplate;
    var raw := Open(TEMPLATE_LAYOUT, blob);
    if raw.Err? {
      return Err(raw.error);
    }
    var table: seq<Template> := [];
    var es := ReadTemplates(raw.value);
    for i := 0 to |es|
      invariant AdmitTemplates(es[..i]) == Ok(table)
    {
      var added := AdmitTemplate(table, es[i]);
      assert es[..i + 1][..i] == es[..i];
      if added.Err? {
        AdmitTemplatesStops(es, i + 1);
        return Err(added.error);
      }
      table := added.value;
    }
    assert es[..|es|] == es;
    return Ok(table);
  }
}
