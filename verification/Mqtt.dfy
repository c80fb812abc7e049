/** MQTT 3.1.1 PUBLISH packets as the broker's local client builds them, with a reference decoder. */
module Mqtt {
  import opened Bytes

  const TOPIC_LEN: nat := 96
  const PAYLOAD_MAX_LEN: nat := 256
  const PACKET_SIZE: nat := TOPIC_LEN + PAYLOAD_MAX_LEN + 8

  // ---- Remaining length ----

  /** At most `room` base-128 digits, least significant first, each but the last flagged. */
  function Encoded(v: nat, room: nat): (s: seq<byte>)
    requires room > 0
    ensures 0 < |s| <= room
    decreases room
  {
    if v < 128 then [v]
    else [v % 128 + 128] + (if room > 1 then Encoded(v / 128, room - 1) else [])
  }

  /** Section 2.2.3 of MQTT 3.1.1: the value and the number of bytes read, within `room` bytes. */
  function Decoded(s: seq<byte>, room: nat): Option<(nat, nat)> {
    if s == [] || room == 0 then None
    else if s[0] < 128 then Some((s[0], 1))
    else match Decoded(s[1..], room - 1)
      case None => None
      case Some((v, n)) => Some(((s[0] - 128) + 128 * v, n + 1))
  }

  function Pow128(n: nat): (p: nat)
    ensures p > 0
  {
    if n == 0 then 1 else 128 * Pow128(n - 1)
  }

  /** Decoding recovers a length exactly when its digits fit in the room; otherwise it is malformed. */
  lemma {:induction false} LengthRoundTrip(v: nat, room: nat, rest: seq<byte>)
    requires room > 0
    ensures Decoded(Encoded(v, room) + rest, room) == if v < Pow128(room) then Some((v, |Encoded(v, room)|)) else None
    decreases room
  {
    var s := Encoded(v, room) + rest;
    if v >= 128 {
      if room > 1 {
        assert s[1..] == Encoded(v / 128, room - 1) + rest;
        LengthRoundTrip(v / 128, room - 1, rest);
        assert v / 128 < Pow128(room - 1) <==> v < Pow128(room);
      } else {
        assert Decoded(s[1..], 0) == None;
      }
    }
  }

  /** `mqtt_encode_remaining_len` */
  method EncodeRemainingLen(out: array<byte>, value: nat) returns (len: nat)
    requires out.Length == 4
    modifies out
    ensures len <= 4 && out[..len] == Encoded(value, 4)
  {
    var v, more := value, true;
    len := 0;
    while more
      invariant len <= 4 && (more ==> len < 4)
      invariant if more then Encoded(value, 4) == out[..len] + Encoded(v, 4 - len) else out[..len] == Encoded(value, 4)
      decreases more, 4 - len
    {
      var digit: int := v % 128;
      ghost var before, w, n := out[..len], v, len;
      v := v / 128;
      if v > 0 {
        digit := digit + 0x80;
      }
      out[len] := digit;
      len := len + 1;
      assert out[..len] == before + [digit];
      more := v > 0 && len < 4;
      assert Encoded(w, 4 - n) == [digit] + (if more then Encoded(v, 4 - len) else []);
    }
  }

  // ---- The packet ----

  function U16Be(v: u16): (s: seq<byte>)
    ensures |s| == 2 && v == 0x100 * (s[0] as int) + (s[1] as int)
  {
    [v / 0x100, v % 0x100]
  }

  function ReadU16Be(s: seq<byte>): u16
    requires |s| == 2
  {
    (s[0] as int) * 0x100 + (s[1] as int)
  }

  function Packet(topic: seq<byte>, payload: seq<byte>, retain: bool): seq<byte>
    requires |topic| < 0x1_0000
  {
    [if retain then 0x31 else 0x30] + Encoded(2 + |topic| + |payload|, 4) + U16Be(|topic|) + topic + payload
  }

  function Publish(topic: seq<byte>, payload: seq<byte>, qos: byte, retain: bool): Result<seq<byte>> {
    if qos != 0 then Err(NotSupported)
    else if |topic| > 0xFFFF || |Packet(topic, payload, retain)| > PACKET_SIZE then Err(InvalidSize)
    else Ok(Packet(topic, payload, retain))
  }

  datatype Message = Message(retain: bool, topic: seq<byte>, payload: seq<byte>)

  /** Section 3.3 of MQTT 3.1.1 at quality of service 0: the packet must end where its length says. */
  function DecodePublish(s: seq<byte>): Option<Message> {
    if |s| == 0 || (s[0] != 0x30 && s[0] != 0x31) then None
    else match Decoded(s[1..], 4)
      case None => None
      case Some((length, n)) =>
        if n + 1 > |s| then None
        else
          var body := s[n + 1..];
          if |body| != length || length < 2 then None
          else
            var topicLen := ReadU16Be(body[..2]);
            if 2 + topicLen > length then None
            else Some(Message(s[0] == 0x31, body[2..2 + topicLen], body[2 + topicLen..]))
  }

  lemma ThreeDigits(v: nat)
    requires v < 0x20_0000
    ensures |Encoded(v, 4)| == if v < 128 then 1 else if v < 0x4000 then 2 else 3
  {
    if 128 <= v {
      assert |Encoded(v, 4)| == 1 + |Encoded(v / 128, 3)|;
      if 0x4000 <= v {
        assert |Encoded(v / 128, 3)| == 1 + |Encoded(v / 128 / 128, 2)|;
      }
    }
  }

  /** A message is sent exactly when it asks for quality of service 0 and is at most 355 bytes in all. */
  lemma PublishFits(topic: seq<byte>, payload: seq<byte>, qos: byte, retain: bool)
    ensures Publish(topic, payload, qos, retain).Ok? <==> qos == 0 && |topic| + |payload| <= 355
    ensures Publish(topic, payload, qos, retain).Err? ==>
              Publish(topic, payload, qos, retain).error == if qos != 0 then NotSupported else InvalidSize
  {
    var v := 2 + |topic| + |payload|;
    if v < 0x20_0000 {
      ThreeDigits(v);
    }
  }

  lemma BodyParts(topic: seq<byte>, payload: seq<byte>)
    requires |topic| <= 0xFFFF
    ensures var body := U16Be(|topic|) + topic + payload;
            ReadU16Be(body[..2]) == |topic| && body[2..2 + |topic|] == topic && body[2 + |topic|..] == payload
  {
    assert (U16Be(|topic|) + topic + payload)[..2] == U16Be(|topic|);
  }

  /** Every packet that is sent decodes to the retain flag, topic and payload it was built from. */
  lemma PublishRoundTrip(topic: seq<byte>, payload: seq<byte>, qos: byte, retain: bool)
    requires Publish(topic, payload, qos, retain).Ok?
    ensures DecodePublish(Publish(topic, payload, qos, retain).value) == Some(Message(retain, topic, payload))
  {
    hide Encoded, Decoded, U16Be, ReadU16Be;
    var s, body := Packet(topic, payload, retain), U16Be(|topic|) + topic + payload;
    var length := Encoded(2 + |topic| + |payload|, 4);
    assert s[1..] == length + body;
    LengthRoundTrip(2 + |topic| + |payload|, 4, body);
    assert Pow128(2) == 0x4000 <= Pow128(3);
    assert s[|length| + 1..] == body;
    BodyParts(topic, payload);
  }

  // ---- As the firmware runs it ----

  /** A packet buffer and the append offset into it. */
  class PacketBuffer {
    const data: array<byte>
    var offset: nat

    ghost predicate Valid() reads this { offset <= data.Length }

    ghost function Written(): seq<byte>
      requires Valid()
      reads this, data
    {
      data[..offset]
    }

    constructor (size: nat)
      ensures Valid() && fresh(data) && data.Length == size && Written() == []
    {
      data := new byte[size](_ => 0);
      offset := 0;
    }

    /** `mqtt_append_bytes` */
    method Append(bytes: seq<byte>) returns (r: Result<()>)
      requires Valid()
      modifies this, data
      ensures Valid()
      ensures r == if old(offset) + |bytes| > data.Length then Err(InvalidSize) else Ok(())
      ensures Written() == old(Written()) + if r.Ok? then bytes else []
    {
      if offset + |bytes| > data.Length {
        return Err(InvalidSize);
      }
      forall i | 0 <= i < |bytes| {
        data[offset + i] := bytes[i];
      }
      offset := offset + |bytes|;
      return Ok(());
    }

    /** `mqtt_append_u16` */
    method AppendU16(v: u16) returns (r: Result<()>)
      requires Valid()
      modifies this, data
      ensures Valid()
      ensures r == if old(offset) + 2 > data.Length then Err(InvalidSize) else Ok(())
      ensures Written() == old(Written()) + if r.Ok? then U16Be(v) else []
    {
      if offset + 2 > data.Length {
        return Err(InvalidSize);
      }
      data[offset] := v / 0x100;
      data[offset + 1] := v % 0x100;
      offset := offset + 2;
      return Ok(());
    }
  }

  /** The packet-building part of `local_mqtt_publish` */
  method BuildPublish(topic: seq<byte>, payload: seq<byte>, qos: byte, retain: bool) returns (r: Result<seq<byte>>)
    ensures r == Publish(topic, payload, qos, retain)
  {
    hide Encoded, U16Be;
    if qos != 0 {
      return Err(NotSupported);
    }
    if |topic| > 0xFFFF {
      return Err(InvalidSize);
    }
    var remaining := new byte[4](_ => 0);
    var fieldLen := EncodeRemainingLen(remaining, 2 + |topic| + |payload|);
    var packet := new PacketBuffer(PACKET_SIZE);
    packet.data[0] := if retain then 0x31 else 0x30;
    packet.offset := 1;
    ghost var first, length := packet.data[0], remaining[..fieldLen];
    assert packet.Written() == [first];
    r := AppendFields(packet, remaining[..fieldLen], topic, payload);
    assert Packet(topic, payload, retain) == [first] + (length + U16Be(|topic|) + topic + payload);
  }

  method AppendFields(packet: PacketBuffer, length: seq<byte>, topic: seq<byte>, payload: seq<byte>)
    returns (r: Result<seq<byte>>)
    requires packet.Valid() && |topic| <= 0xFFFF
    modifies packet, packet.data
    ensures var s := old(packet.Written()) + (length + U16Be(|topic|) + topic + payload);
            r == if |s| > packet.data.Length then Err(InvalidSize) else Ok(s)
  {
    hide U16Be;
    ghost var before := packet.Written();
    var err := packet.Append(length);
    if err.Ok? { err := packet.AppendU16(|topic|); }
    if err.Ok? { err := packet.Append(topic); }
    if err.Ok? { err := packet.Append(payload); }
    if err.Err? {
      return Err(err.error);
    }
    assert packet.Written() == before + (length + U16Be(|topic|) + topic + payload);
    return Ok(packet.data[..packet.offset]);
  }
}
