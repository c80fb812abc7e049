/** Decrypted device commands: the amino-acid table, the 76-byte command image and its payload. */
module Commands {
  import opened Bytes
  import opened CStrings
  import opened Decimal

  const COMMAND_LEN: nat := 76
  const PAYLOAD_MAX: nat := 256

  const VALUE_NONE: byte := 0
  const VALUE_BOOL: byte := 1
  const VALUE_INT: byte := 2

  type B3 = s: seq<byte> | |s| == 3 witness Zeros(3)

  datatype Command = Command(deviceId: Id, topic: Id, aminoId: i32, payloadType: byte, reserved: B3, payload: i32)

  const ZERO_COMMAND: Command := Command(Zeros(32), Zeros(32), 0, 0, Zeros(3), 0)

  // ---- Amino acids ----

  datatype Amino = Amino(id: i32, name: string, valueType: byte)

  const AMINOS: seq<Amino> := [
    Amino(1, "ON", VALUE_NONE), Amino(2, "OFF", VALUE_NONE), Amino(3, "OPEN", VALUE_NONE),
    Amino(4, "CLOSE", VALUE_NONE), Amino(5, "SET_SPEED", VALUE_INT), Amino(6, "SET_LEVEL", VALUE_INT),
    Amino(7, "READ_STATE", VALUE_NONE), Amino(8, "TOGGLE", VALUE_NONE), Amino(9, "LOCK", VALUE_NONE),
    Amino(10, "UNLOCK", VALUE_NONE), Amino(11, "SET_TEMPERATURE", VALUE_INT), Amino(12, "SET_MODE", VALUE_INT)]

  function ValueType(id: int): Option<byte> {
    if id in {5, 6, 11, 12} then Some(VALUE_INT) else if 1 <= id <= 12 then Some(VALUE_NONE) else None
  }

  predicate AminoValid(id: int) { ValueType(id).Some? }

  /** The table search finds an entry exactly for the ids 1 to 12, and four of them take an integer. */
  method AminoFind(id: i32) returns (r: Option<Amino>)
    ensures r.Some? <==> AminoValid(id)
    ensures r.Some? ==> r.value in AMINOS && r.value.id == id && ValueType(id) == Some(r.value.valueType)
  {
    for i := 0 to |AMINOS|
      invariant forall k :: 0 <= k < i ==> AMINOS[k].id != id
    {
      if AMINOS[i].id == id {
        return Some(AMINOS[i]);
      }
    }
    assert AMINOS[0].id == 1 && AMINOS[1].id == 2 && AMINOS[2].id == 3 && AMINOS[3].id == 4 && AMINOS[4].id == 5
        && AMINOS[5].id == 6 && AMINOS[6].id == 7 && AMINOS[7].id == 8 && AMINOS[8].id == 9 && AMINOS[9].id == 10
        && AMINOS[10].id == 11 && AMINOS[11].id == 12;
    return None;
  }

  function ValidatePayload(id: int, value: Option<i32>): Result<()> {
    match ValueType(id)
    case None => Err(NotFound)
    case Some(t) =>
      if t == VALUE_NONE then (if value.Some? then Err(InvalidArg) else Ok(()))
      else if value.None? then Err(InvalidArg)
      else if t == VALUE_BOOL && value.value != 0 && value.value != 1 then Err(InvalidArg)
      else Ok(())
  }

  /** A value is refused for an unknown amino, and for being there or missing against what the amino takes. */
  lemma PayloadFits(id: int, value: Option<i32>)
    ensures ValidatePayload(id, value) == if !(1 <= id <= 12) then Err(NotFound)
                                          else if value.Some? != (id in {5, 6, 11, 12}) then Err(InvalidArg)
                                          else Ok(())
  {
  }

  // ---- The command image ----

  function I32Le(v: i32): (s: seq<byte>)
    ensures |s| == 4
  {
    U32Le(if v < 0 then v + U32 else v)
  }

  function ReadI32Le(s: seq<byte>): i32
    requires |s| == 4
  {
    var u := ReadU32Le(s);
    if u < 0x8000_0000 then u else u - U32
  }

  lemma SignedRoundTrip(v: i32)
    ensures ReadI32Le(I32Le(v)) == v
  {
    WordRoundTrip(0, if v < 0 then v + U32 else v);
  }

  function CommandBytes(c: Command): (s: seq<byte>)
    ensures |s| == COMMAND_LEN
  {
    c.deviceId + c.topic + I32Le(c.aminoId) + [c.payloadType] + c.reserved + I32Le(c.payload)
  }

  function ReadCommand(s: seq<byte>): Command
    requires |s| == COMMAND_LEN
  {
    Command(s[..32], s[32..64], ReadI32Le(s[64..68]), s[68], s[69..72], ReadI32Le(s[72..]))
  }

  lemma CommandImage(c: Command)
    ensures ReadCommand(CommandBytes(c)) == c
  {
    var s := CommandBytes(c);
    assert s[..32] == c.deviceId && s[32..64] == c.topic && s[64..68] == I32Le(c.aminoId);
    assert s[68] == c.payloadType && s[69..72] == c.reserved && s[72..] == I32Le(c.payload);
    SignedRoundTrip(c.aminoId);
    SignedRoundTrip(c.payload);
  }

  /** Where each field of a command lies. */
  lemma CommandLayout(c: Command)
    ensures var s := CommandBytes(c);
            && s[0..32] == c.deviceId && s[32..64] == c.topic && s[64..68] == I32Le(c.aminoId)
            && s[68] == c.payloadType && s[69..72] == c.reserved && s[72..76] == I32Le(c.payload)
  {
  }

  ghost function Validate(c: Command): Result<()> {
    if !Canonical(c.deviceId) || !Canonical(c.topic) || !AllZero(c.reserved) then Err(InvalidArg)
    else if !AminoValid(c.aminoId) then Err(NotFound)
    else if ValueType(c.aminoId).value != c.payloadType then Err(InvalidArg)
    else ValidatePayload(c.aminoId, if c.payloadType == VALUE_NONE then None else Some(c.payload))
  }

  /**
   * A command is valid exactly when its two names are canonical, its reserved bytes zero, its amino
   * known and its value type the one that amino takes. Any 32-bit value goes with an integer amino.
   */
  lemma ValidIff(c: Command)
    ensures Validate(c).Ok? <==>
            && Canonical(c.deviceId) && Canonical(c.topic) && c.reserved == [0, 0, 0]
            && 1 <= c.aminoId <= 12 && c.payloadType == if c.aminoId in {5, 6, 11, 12} then 2 else 0
    ensures Validate(c) == Err(NotFound) <==>
            && Canonical(c.deviceId) && Canonical(c.topic) && c.reserved == [0, 0, 0] && !(1 <= c.aminoId <= 12)
    ensures Validate(c).Err? ==> Validate(c).error in {InvalidArg, NotFound}
  {
    hide Canonical;
  }

  method ValidateCommand(c: Command) returns (r: Result<()>)
    ensures r == Validate(c)
  {
    var ok := FieldValid(c.deviceId);
    if !ok { return Err(InvalidArg); }
    ok := FieldValid(c.topic);
    if !ok { return Err(InvalidArg); }
    if !AllZero(c.reserved) { return Err(InvalidArg); }
    var acid := AminoFind(c.aminoId);
    if acid.None? { return Err(NotFound); }
    if acid.value.valueType != c.payloadType { return Err(InvalidArg); }
    return ValidatePayload(c.aminoId, if c.payloadType == VALUE_NONE then None else Some(c.payload));
  }

  /** `active_substance_parse_command`: the command, or an error. */
  ghost function Parse(plaintext: seq<byte>): Result<Command> {
    if |plaintext| != COMMAND_LEN then Err(InvalidSize)
    else
      var c := ReadCommand(plaintext);
      match Validate(c)
      case Ok(_) => Ok(c)
      case Err(e) => Err(e)
  }

  lemma ImageOfCommand(s: seq<byte>)
    requires |s| == COMMAND_LEN
    ensures CommandBytes(ReadCommand(s)) == s
  {
    SignedImage(s[64..68]);
    SignedImage(s[72..]);
    assert s == s[..32] + s[32..64] + s[64..68] + [s[68]] + s[69..72] + s[72..];
  }

  lemma SignedImage(s: seq<byte>)
    requires |s| == 4
    ensures I32Le(ReadI32Le(s)) == s
  {
  }

  /** A plaintext parses to a command exactly when it is the 76-byte image of that command, and the command is valid. */
  lemma ParsesIff(plaintext: seq<byte>, c: Command)
    ensures Parse(plaintext) == Ok(c) <==> plaintext == CommandBytes(c) && Validate(c).Ok?
    ensures Parse(plaintext) == Err(InvalidSize) <==> |plaintext| != 76
    ensures plaintext == CommandBytes(c) && Validate(c).Err? ==> Parse(plaintext) == Err(Validate(c).error)
  {
    hide CommandBytes, ReadCommand, Canonical;
    CommandImage(c);
    if |plaintext| == COMMAND_LEN {
      ImageOfCommand(plaintext);
      ValidIff(ReadCommand(plaintext));
    }
  }

  /** A plaintext of the wrong size leaves the command the caller holds as it was. */
  method ParseCommand(plaintext: seq<byte>, before: Command) returns (r: Result<()>, command: Command)
    ensures Parse(plaintext) == (match r case Ok(_) => Ok(command) case Err(e) => Err(e))
    ensures r.Err? ==> command == if |plaintext| == COMMAND_LEN then ZERO_COMMAND else before
  {
    if |plaintext| != COMMAND_LEN {
      return Err(InvalidSize), before;
    }
    command := ReadCommand(plaintext);
    r := ValidateCommand(command);
    if r.Err? {
      command := ZERO_COMMAND;
    }
  }

  // ---- The Python sender ----

  function CStringField(value: seq<byte>, size: nat): Result<seq<byte>> {
    if value == [] || |value| >= size then Err(InvalidArg) else Ok(value + Zeros(size - |value|))
  }

  function MakePlaintext(deviceId: seq<byte>, topic: seq<byte>, amino: Amino, value: Option<int>): Result<seq<byte>> {
    if amino.valueType == VALUE_NONE && value.Some? then Err(InvalidArg)
    else if amino.valueType != VALUE_NONE && value.None? then Err(InvalidArg)
    else
      var payload: int := if value.None? then 0 else value.value;
      var device := CStringField(deviceId, 32);
      var topicField := CStringField(topic, 32);
      if device.Err? || topicField.Err? || !(-0x8000_0000 <= payload < 0x8000_0000) then Err(InvalidArg)
      else Ok(device.value + topicField.value + I32Le(amino.id) + [amino.valueType] + [0, 0, 0] + I32Le(payload))
  }

  /** The sender builds a plaintext exactly for names that fit, and a value just where the amino takes one. */
  lemma SenderBuildsIff(deviceId: seq<byte>, topic: seq<byte>, amino: Amino, value: Option<int>)
    ensures MakePlaintext(deviceId, topic, amino, value).Ok? <==>
            && 1 <= |deviceId| <= 31 && 1 <= |topic| <= 31 && (value.Some? <==> amino.valueType != 0)
            && (value.Some? ==> -0x8000_0000 <= value.value <= 0x7FFF_FFFF)
  {
  }

  /** Every plaintext the sender builds from NUL-free strings parses back to the same command. */
  lemma SenderParsesBack(deviceId: seq<byte>, topic: seq<byte>, amino: Amino, value: Option<int>)
    requires amino in AMINOS && 0 !in deviceId && 0 !in topic
    requires MakePlaintext(deviceId, topic, amino, value).Ok?
    ensures var c := Parse(MakePlaintext(deviceId, topic, amino, value).value);
            && c.Ok?
            && Content(c.value.deviceId) == deviceId && Content(c.value.topic) == topic
            && c.value.aminoId == amino.id && c.value.payloadType == amino.valueType
            && c.value.payload == if value.None? then 0 else value.value
  {
    var payload: int := if value.None? then 0 else value.value;
    var c := Command(Field(deviceId, 32), Field(topic, 32), amino.id, amino.valueType, [0, 0, 0], payload);
    CommandImage(c);
    SenderImage(deviceId, topic, amino, value);
    SenderValid(deviceId, topic, amino, payload);
  }

  lemma SenderImage(deviceId: seq<byte>, topic: seq<byte>, amino: Amino, value: Option<int>)
    requires MakePlaintext(deviceId, topic, amino, value).Ok?
    ensures MakePlaintext(deviceId, topic, amino, value).value ==
            CommandBytes(Command(Field(deviceId, 32), Field(topic, 32), amino.id, amino.valueType, [0, 0, 0],
                                 if value.None? then 0 else value.value))
  {
    assert deviceId[..|deviceId|] == deviceId && topic[..|topic|] == topic;
  }

  lemma SenderValid(deviceId: seq<byte>, topic: seq<byte>, amino: Amino, payload: i32)
    requires amino in AMINOS && 0 !in deviceId && 0 !in topic
    requires 0 < |deviceId| < 32 && 0 < |topic| < 32
    ensures var c := Command(Field(deviceId, 32), Field(topic, 32), amino.id, amino.valueType, [0, 0, 0], payload);
            Validate(c).Ok? && Content(c.deviceId) == deviceId && Content(c.topic) == topic
  {
    AminoEntries(amino);
    FieldContent(deviceId, 32);
    FieldContent(topic, 32);
  }

  lemma AminoEntries(amino: Amino)
    requires amino in AMINOS
    ensures ValueType(amino.id) == Some(amino.valueType) && amino.valueType in {VALUE_NONE, VALUE_INT}
  {
  }

  // ---- Payload ----

  /** The published payload: empty, one digit, or decimal, by value type. */
  function Payload(c: Command): Result<seq<byte>> {
    if c.payloadType == VALUE_NONE then Ok([])
    else if c.payloadType == VALUE_BOOL then
      (if c.payload == 0 then Ok([48]) else if c.payload == 1 then Ok([49]) else Err(InvalidArg))
    else if c.payloadType == VALUE_INT then Ok(Ascii(c.payload))
    else Err(InvalidArg)
  }

  /** A value is published in decimal, a truth value as 0 or 1, and no value as nothing. */
  lemma PayloadIs(c: Command)
    ensures Payload(c).Ok? <==>
            c.payloadType in {0, 2} || (c.payloadType == 1 && (c.payload == 0 || c.payload == 1))
    ensures Payload(c).Ok? ==> Payload(c).value == if c.payloadType == 0 then [] else Ascii(c.payload)
    ensures Payload(c).Err? ==> Payload(c).error == InvalidArg
  {
    assert Ascii(0) == [48] && Ascii(1) == [49];
  }

  method EncodePayload(c: Command) returns (r: Result<seq<byte>>)
    ensures r == Payload(c)
  {
    if c.payloadType == VALUE_NONE {
      return Ok([]);
    }
    if c.payloadType == VALUE_BOOL {
      return if c.payload == 0 then Ok([48]) else if c.payload == 1 then Ok([49]) else Err(InvalidArg);
    }
    if c.payloadType == VALUE_INT {
      AsciiLength(c.payload);
      r := EncodeI32(c.payload, PAYLOAD_MAX);
      return;
    }
    return Err(InvalidArg);
  }
}
