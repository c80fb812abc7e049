/** The Guardian-to-Guardian wire format: 46-byte header plus at most 174 payload bytes. */
module Frames {
  import opened Bytes

  const HEADER_LEN: nat := 46
  const PAYLOAD_MAX: nat := 174
  const MAX_COUNT: nat := 32
  const MESSAGE_MAX: nat := 768

  datatype Frame = Frame(totalLen: u16, offset: u16, index: u16, count: u16, id: Id, payload: seq<byte>)

  function Encode(f: Frame): (s: seq<byte>)
    requires |f.payload| < 0x1_0000
    ensures |s| == HEADER_LEN + |f.payload|
  {
    [1, 1, 0, 0] + U16Le(f.totalLen) + U16Le(f.offset) + U16Le(f.index) + U16Le(f.count)
    + U16Le(|f.payload|) + f.id + f.payload
  }

  /** The size, version and bounds checks of `handle_received_fragment`, in source order. */
  function Decode(s: seq<byte>): (r: Result<Frame>)
  {
    if |s| < HEADER_LEN then Err(InvalidSize)
    else if s[..4] != [1, 1, 0, 0] then Err(InvalidVersion)
    else
      var f := Frame(ReadU16Le(s[4..6]), ReadU16Le(s[6..8]), ReadU16Le(s[8..10]), ReadU16Le(s[10..12]),
                     s[14..46], s[46..]);
      var payloadLen := ReadU16Le(s[12..14]);
      if f.totalLen == 0 || f.totalLen > MESSAGE_MAX || f.count == 0 || f.count > MAX_COUNT
         || f.index >= f.count || payloadLen > PAYLOAD_MAX || HEADER_LEN + payloadLen != |s|
         || f.offset + payloadLen > f.totalLen
      then Err(InvalidSize)
      else Ok(f)
  }

  /** What a frame that passes the checks satisfies. */
  predicate InBounds(f: Frame) {
    && 0 < f.totalLen <= MESSAGE_MAX && 0 < f.count <= MAX_COUNT && f.index < f.count
    && |f.payload| <= PAYLOAD_MAX && f.offset + |f.payload| <= f.totalLen
  }

  /** The parser accepts exactly the encodings of in-bounds frames, and recovers every field. */
  lemma DecodeEncode(f: Frame)
    requires |f.payload| < 0x1_0000
    ensures Decode(Encode(f)) == if InBounds(f) then Ok(f) else Err(InvalidSize)
  {
    var s := Encode(f);
    var t := [1, 1, 0, 0] + U16Le(f.totalLen) + U16Le(f.offset) + U16Le(f.index) + U16Le(f.count) + U16Le(|f.payload|);
    assert s == t + f.id + f.payload;
    assert s[..4] == [1, 1, 0, 0];
    assert s[4..6] == U16Le(f.totalLen) && s[6..8] == U16Le(f.offset) && s[8..10] == U16Le(f.index);
    assert s[10..12] == U16Le(f.count) && s[12..14] == U16Le(|f.payload|);
    assert s[14..46] == f.id && s[46..] == f.payload;
    WordRoundTrip(f.totalLen, 0);
    WordRoundTrip(f.offset, 0);
    WordRoundTrip(f.index, 0);
    WordRoundTrip(f.count, 0);
    WordRoundTrip(|f.payload|, 0);
  }

  lemma DecodedInBounds(s: seq<byte>)
    ensures Decode(s).Ok? ==> InBounds(Decode(s).value) && Encode(Decode(s).value) == s
  {
    if Decode(s).Ok? {
      var f := Decode(s).value;
      assert |f.payload| == ReadU16Le(s[12..14]);
      assert s == s[..4] + s[4..6] + s[6..8] + s[8..10] + s[10..12] + s[12..14] + s[14..46] + s[46..];
    }
  }

  /** Where each field lies, and what the checks answer to anything else. */
  lemma FrameLayout(f: Frame)
    requires |f.payload| < 0x1_0000
    ensures var s := Encode(f);
            && s[0..4] == [1, 1, 0, 0] && s[4..6] == U16Le(f.totalLen) && s[6..8] == U16Le(f.offset)
            && s[8..10] == U16Le(f.index) && s[10..12] == U16Le(f.count) && s[12..14] == U16Le(|f.payload|)
            && s[14..46] == f.id && s[46..] == f.payload
  {
  }

  /** The bounds a frame must keep to be accepted. */
  lemma AcceptedIff(f: Frame)
    requires |f.payload| < 0x1_0000
    ensures Decode(Encode(f)).Ok? <==>
            && 1 <= f.totalLen <= 768 && 1 <= f.count <= 32 && f.index < f.count
            && |f.payload| <= 174 && f.offset + |f.payload| <= f.totalLen
  {
    hide Decode, Encode;
    DecodeEncode(f);
  }

  lemma DecodeRefuses(s: seq<byte>)
    ensures Decode(s) == Err(InvalidVersion) <==> |s| >= 46 && s[..4] != [1, 1, 0, 0]
    ensures Decode(s).Err? ==> Decode(s).error in {InvalidSize, InvalidVersion}
  {
  }

  // ---- Fragmentation ----

  function FragCount(len: nat): nat { (len + PAYLOAD_MAX - 1) / PAYLOAD_MAX }

  function FragEnd(len: nat, i: nat): nat { Min((i + 1) * PAYLOAD_MAX, len) }

  predicate Sendable(message: seq<byte>) { 1 <= |message| <= MESSAGE_MAX }

  function FragmentAt(message: seq<byte>, id: Id, i: nat): (f: Frame)
    requires Sendable(message) && i < FragCount(|message|)
    ensures InBounds(f)
  {
    Frame(|message|, i * PAYLOAD_MAX, i, FragCount(|message|), id, message[i * PAYLOAD_MAX..FragEnd(|message|, i)])
  }

  function Fragments(message: seq<byte>, id: Id): (fs: seq<seq<byte>>)
    requires Sendable(message)
    ensures |fs| == FragCount(|message|)
    ensures forall i :: 0 <= i < |fs| ==> fs[i] == Encode(FragmentAt(message, id, i))
  {
    seq(FragCount(|message|), i requires 0 <= i < FragCount(|message|) => Encode(FragmentAt(message, id, i)))
  }

  /** Laid end to end the payloads are the message. */
  lemma {:induction false} FragmentsCover(message: seq<byte>, id: Id, n: nat)
    requires 1 <= |message| <= 768 && n <= FragCount(|message|)
    ensures Joined(message, id, n) == message[..Min(n * PAYLOAD_MAX, |message|)]
    ensures n == FragCount(|message|) ==> Joined(message, id, n) == message
  {
    if n > 0 {
      FragmentsCover(message, id, n - 1);
    }
  }

  function Joined(message: seq<byte>, id: Id, n: nat): seq<byte>
    requires Sendable(message) && n <= FragCount(|message|)
  {
    if n == 0 then [] else Joined(message, id, n - 1) + FragmentAt(message, id, n - 1).payload
  }

  /** The frames are numbered in order, agree on id, length and count, and all but the last are 220 bytes long. */
  lemma FragmentsAreNumbered(message: seq<byte>, id: Id, i: nat)
    requires 1 <= |message| <= 768 && i < FragCount(|message|)
    ensures var f := Decode(Fragments(message, id)[i]);
            && f.Ok? && f.value.index == i && f.value.count == |Fragments(message, id)| && f.value.id == id
            && f.value.totalLen == |message| && f.value.offset == |Joined(message, id, i)|
            && 0 < |f.value.payload| && 46 < |Fragments(message, id)[i]| <= 220
            && (i + 1 < |Fragments(message, id)| ==> |Fragments(message, id)[i]| == 220)
  {
    hide Decode;
    DecodeEncode(FragmentAt(message, id, i));
    FragmentsCover(message, id, i);
  }

  /**
   * The sending loop of the Guardian. `accepted` is the number of fragments the radio takes before
   * it fails; the frames sent are that prefix of the fragmentation.
   */
  method SendFragments(message: seq<byte>, id: Id, accepted: nat, refusal: Error)
    returns (sent: seq<seq<byte>>, r: Result<()>)
    ensures !(1 <= |message| <= 768) ==> sent == [] && r == Err(InvalidSize)
    ensures 1 <= |message| <= 768 ==> var all := Fragments(message, id);
              && sent == all[..Min(accepted, |all|)]
              && r == if |all| <= accepted then Ok(()) else Err(refusal)
  {
    sent := [];
    if |message| == 0 || |message| > MESSAGE_MAX {
      return sent, Err(InvalidSize);
    }
    var count := (|message| + PAYLOAD_MAX - 1) / PAYLOAD_MAX;
    if count == 0 || count > MAX_COUNT {
      return sent, Err(InvalidSize);
    }
    for i := 0 to count
      invariant i <= accepted
      invariant sent == Fragments(message, id)[..i]
    {
      var offset := i * PAYLOAD_MAX;
      var end := Min(offset + PAYLOAD_MAX, |message|);
      var payload := message[offset..end];
      var frame := [1, 1, 0, 0] + U16Le(|message|) + U16Le(offset) + U16Le(i) + U16Le(count) + U16Le(|payload|)
                   + id + payload;
      if i == accepted {
        return sent, Err(refusal);
      }
      sent := sent + [frame];
    }
    return sent, Ok(());
  }

  /** One frame, packed field by field into a zeroed buffer. */
  method PackFrame(message: seq<byte>, id: Id, i: nat, count: nat) returns (frame: seq<byte>)
    requires Sendable(message) && count == FragCount(|message|) && i < count
    ensures frame == Encode(FragmentAt(message, id, i))
  {
    var offset := i * PAYLOAD_MAX;
    var payload := message[offset..Min(offset + PAYLOAD_MAX, |message|)];
    frame := Zeros(HEADER_LEN + |payload|);
    frame := frame[0 := 1][1 := 1];
    frame := PackInto(frame, 4, U16Le(|message|));
    frame := PackInto(frame, 6, U16Le(offset));
    frame := PackInto(frame, 8, U16Le(i));
    frame := PackInto(frame, 10, U16Le(count));
    frame := PackInto(frame, 12, U16Le(|payload|));
    frame := PackInto(frame, 14, id);
    frame := PackInto(frame, HEADER_LEN, payload);
  }

  /** The fragmenter of the Python sender; it differs on the empty message, which yields no frames. */
  method BuildFragments(message: seq<byte>, id: Id) returns (r: Result<seq<seq<byte>>>)
    ensures |message| > MESSAGE_MAX ==> r.Err?
    ensures message == [] ==> r == Ok([])
    ensures Sendable(message) ==> r == Ok(Fragments(message, id))
  {
    if |message| > MESSAGE_MAX {
      return Err(InvalidArg);
    }
    var count := FragCount(|message|);
    var frames: seq<seq<byte>> := [];
    for i := 0 to count
      invariant |frames| == i
      invariant Sendable(message) ==> frames == Fragments(message, id)[..i]
    {
      var frame := PackFrame(message, id, i, count);
      frames := frames + [frame];
    }
    if Sendable(message) {
      assert Fragments(message, id)[..count] == Fragments(message, id);
    }
    return Ok(frames);
  }

  /** Overwrite part of a buffer, as a slice assignment does. */
  function PackInto(buffer: seq<byte>, at: nat, data: seq<byte>): (r: seq<byte>)
    requires at + |data| <= |buffer|
    ensures |r| == |buffer|
    ensures forall k :: 0 <= k < |r| ==> r[k] == if at <= k < at + |data| then data[k - at] else buffer[k]
  {
    buffer[..at] + data + buffer[at + |data|..]
  }
}
