/** Domain names in DNS messages (section 3.1 of RFC 1035) and the filter's two scans over them. */
module DnsNames {
  import opened Bytes
  import opened CStrings

  const DOT: byte := 46
  const HEADER_LEN: nat := 12

  // ---- Names and their wire form ----

  predicate LabelsOk(ls: seq<seq<byte>>) { forall i :: 0 <= i < |ls| ==> 1 <= |ls[i]| <= 63 }

  /** Length-prefixed labels, closed by an empty label. */
  function Wire(ls: seq<seq<byte>>): (s: seq<byte>)
    requires LabelsOk(ls)
    ensures |s| > 0
  {
    if ls == [] then [0] else [|ls[0]|] + ls[0] + Wire(ls[1..])
  }

  function Dotted(ls: seq<seq<byte>>): seq<byte> {
    if ls == [] then [] else if |ls| == 1 then ls[0] else ls[0] + [DOT] + Dotted(ls[1..])
  }

  ghost predicate WireAt(msg: seq<byte>, pos: nat, ls: seq<seq<byte>>) {
    LabelsOk(ls) && pos + |Wire(ls)| <= |msg| && msg[pos..pos + |Wire(ls)|] == Wire(ls)
  }

  lemma SliceOfSlice(msg: seq<byte>, pos: nat, w: seq<byte>, a: nat, b: nat)
    requires pos + |w| <= |msg| && msg[pos..pos + |w|] == w && a <= b <= |w|
    ensures msg[pos + a..pos + b] == w[a..b]
  {
    forall k | a <= k < b ensures msg[pos + k] == w[k] {
      assert msg[pos..pos + |w|][k] == msg[pos + k];
    }
  }

  lemma WireParts(ls: seq<seq<byte>>)
    requires LabelsOk(ls) && ls != []
    ensures var w, n := Wire(ls), |ls[0]|;
            && |w| == n + 1 + |Wire(ls[1..])|
            && w[0] == n && w[1..n + 1] == ls[0] && w[n + 1..] == Wire(ls[1..])
  {
  }

  lemma WireStep(msg: seq<byte>, pos: nat, ls: seq<seq<byte>>)
    requires WireAt(msg, pos, ls)
    ensures pos < |msg|
    ensures ls == [] ==> msg[pos] == 0 && |Wire(ls)| == 1
    ensures ls != [] ==> 1 <= |ls[0]| <= 63
    ensures ls != [] ==>
              var next := pos + 1 + |ls[0]|;
              && next <= |msg| && msg[pos] == |ls[0]| && msg[pos + 1..next] == ls[0]
              && WireAt(msg, next, ls[1..]) && next + |Wire(ls[1..])| == pos + |Wire(ls)|
  {
    var w := Wire(ls);
    assert msg[pos..pos + |w|][0] == msg[pos];
    if ls != [] {
      WireParts(ls);
      SliceOfSlice(msg, pos, w, 1, |ls[0]| + 1);
      SliceOfSlice(msg, pos, w, |ls[0]| + 1, |w|);
    }
  }

  // ---- Finding the end of a name ----

  /** `find_qname_end` from a given position: one past the closing empty label */
  function NameEnd(buf: seq<byte>, pos: nat): (end: Option<nat>)
    ensures end.Some? ==> pos < end.value <= |buf|
    decreases |buf| - pos
  {
    if pos >= |buf| then None
    else if buf[pos] == 0 then Some(pos + 1)
    else if buf[pos] >= 64 then None
    else NameEnd(buf, pos + 1 + buf[pos])
  }

  lemma {:induction false} NameEndIsExact(buf: seq<byte>, pos: nat, ls: seq<seq<byte>>)
    requires WireAt(buf, pos, ls)
    ensures NameEnd(buf, pos) == Some(pos + |Wire(ls)|)
    decreases ls
  {
    hide Wire, WireAt;
    WireStep(buf, pos, ls);
    if ls != [] {
      NameEndIsExact(buf, pos + 1 + |ls[0]|, ls[1..]);
    }
  }

  /** Whatever the scan stops after is an encoded name. */
  lemma {:induction false} NameEndIsAfterName(buf: seq<byte>, pos: nat) returns (ls: seq<seq<byte>>)
    requires NameEnd(buf, pos).Some?
    ensures WireAt(buf, pos, ls) && NameEnd(buf, pos) == Some(pos + |Wire(ls)|)
    decreases |buf| - pos
  {
    if buf[pos] == 0 {
      ls := [];
    } else {
      var n := buf[pos];
      var rest := NameEndIsAfterName(buf, pos + 1 + n);
      ls := [buf[pos + 1..pos + 1 + n]] + rest;
      PrependLabel(buf, pos, ls);
    }
  }

  lemma PrependLabel(buf: seq<byte>, pos: nat, ls: seq<seq<byte>>)
    requires ls != [] && 1 <= |ls[0]| <= 63 && pos + 1 + |ls[0]| <= |buf|
    requires buf[pos] == |ls[0]| && buf[pos + 1..pos + 1 + |ls[0]|] == ls[0]
    requires WireAt(buf, pos + 1 + |ls[0]|, ls[1..])
    ensures WireAt(buf, pos, ls) && |Wire(ls)| == 1 + |ls[0]| + |Wire(ls[1..])|
  {
    assert LabelsOk(ls) by {
      forall i | 0 <= i < |ls| ensures 1 <= |ls[i]| <= 63 {
        assert i > 0 ==> ls[i] == ls[1..][i - 1];
      }
    }
    var n, w := |ls[0]|, Wire(ls[1..]);
    assert buf[pos..pos + 1 + n + |w|] == [buf[pos]] + buf[pos + 1..pos + 1 + n] + buf[pos + 1 + n..pos + 1 + n + |w|];
  }

  method FindQnameEnd(buf: seq<byte>) returns (end: int)
    ensures match NameEnd(buf, HEADER_LEN) case Some(e) => end == e case None => end == -1
  {
    var pos := HEADER_LEN;
    while pos < |buf|
      invariant NameEnd(buf, pos) == NameEnd(buf, HEADER_LEN)
      decreases |buf| - pos
    {
      var l := buf[pos];
      pos := pos + 1;
      if l == 0 {
        return pos;
      }
      if l >= 0x40 {
        return -1;
      }
      pos := pos + l;
    }
    return -1;
  }

  // ---- Reading a name as dotted text ----

  /**
   * The text gathered so far, given `room` bytes for it. Once the room is used up the scan no longer
   * steps over the rest of a label, exactly as the firmware's loop does not.
   */
  function Gather(buf: seq<byte>, pos: nat, out: seq<byte>, room: nat): (r: Option<seq<byte>>)
    requires |out| <= room
    ensures r.Some? ==> |r.value| <= room && out <= r.value
    decreases |buf| - pos
  {
    if pos >= |buf| || buf[pos] == 0 then Some(out)
    else if buf[pos] >= 64 || pos + 1 + buf[pos] > |buf| then None
    else
      var dotted := Separated(out, room);
      var n := Min(buf[pos], room - |dotted|);
      Gather(buf, pos + 1 + n, dotted + buf[pos + 1..pos + 1 + n], room)
  }

  function Separated(out: seq<byte>, room: nat): seq<byte> {
    if 0 < |out| < room then out + [DOT] else out
  }

  function Joined(out: seq<byte>, part: seq<byte>): seq<byte> { (if out == [] then [] else out + [DOT]) + part }

  /** Appending labels one by one to text that is already there. */
  function Extended(out: seq<byte>, ls: seq<seq<byte>>): (r: seq<byte>)
    ensures |out| <= |r|
    decreases ls
  {
    if ls == [] then out else Extended(Joined(out, ls[0]), ls[1..])
  }

  lemma {:induction false} ExtendedIsDotted(out: seq<byte>, ls: seq<seq<byte>>)
    requires LabelsOk(ls)
    ensures Extended(out, ls) == if out == [] then Dotted(ls) else if ls == [] then out else out + [DOT] + Dotted(ls)
    decreases ls
  {
    if ls != [] {
      var next := Joined(out, ls[0]);
      ExtendedIsDotted(next, ls[1..]);
      if |ls| > 1 {
        DottedAfter(out, ls);
      }
    }
  }

  lemma DottedAfter(out: seq<byte>, ls: seq<seq<byte>>)
    requires |ls| > 1
    ensures Joined(out, ls[0]) + [DOT] + Dotted(ls[1..]) == (if out == [] then [] else out + [DOT]) + Dotted(ls)
  {
    var rest := Dotted(ls[1..]);
    assert Dotted(ls) == ls[0] + [DOT] + rest;
  }

  lemma GatherStep(buf: seq<byte>, pos: nat, part: seq<byte>, out: seq<byte>, room: nat)
    requires 1 <= |part| <= 63 && pos + 1 + |part| <= |buf|
    requires buf[pos] == |part| && buf[pos + 1..pos + 1 + |part|] == part && |Joined(out, part)| <= room
    ensures Gather(buf, pos, out, room) == Gather(buf, pos + 1 + |part|, Joined(out, part), room)
  {
    assert Separated(out, room) + part == Joined(out, part);
  }

  lemma {:induction false} GatherLabels(buf: seq<byte>, pos: nat, ls: seq<seq<byte>>, out: seq<byte>, room: nat)
    requires WireAt(buf, pos, ls) && |Extended(out, ls)| <= room
    ensures |out| <= room && Gather(buf, pos, out, room) == Some(Extended(out, ls))
    decreases ls
  {
    hide Wire, WireAt;
    WireStep(buf, pos, ls);
    if ls != [] {
      var next := Joined(out, ls[0]);
      GatherLabels(buf, pos + 1 + |ls[0]|, ls[1..], next, room);
      GatherStep(buf, pos, ls[0], out, room);
    }
  }

  /** The scan yields the dotted name exactly when the name fits in the room. */
  lemma GatherIsExact(buf: seq<byte>, pos: nat, ls: seq<seq<byte>>, room: nat)
    requires WireAt(buf, pos, ls)
    ensures Gather(buf, pos, [], room) == Some(Dotted(ls)) <==> |Dotted(ls)| <= room
  {
    ExtendedIsDotted([], ls);
    if |Dotted(ls)| <= room {
      GatherLabels(buf, pos, ls, [], room);
    }
  }

  /** From pos on the message holds these labels, and then a zero byte or its own end. */
  ghost predicate LabelsAt(buf: seq<byte>, pos: nat, ls: seq<seq<byte>>)
    decreases ls
  {
    if ls == [] then pos >= |buf| || buf[pos] == 0
    else
      var n := |ls[0]|;
      && 1 <= n <= 63 && pos + 1 + n <= |buf| && buf[pos] == n && buf[pos + 1..pos + 1 + n] == ls[0]
      && LabelsAt(buf, pos + 1 + n, ls[1..])
  }

  /** With room for all of it, the scan reads exactly the messages that hold labels, and yields them dotted. */
  lemma GatherIff(buf: seq<byte>, pos: nat, room: nat, text: seq<byte>)
    requires |buf| <= room
    ensures Gather(buf, pos, [], room) == Some(text) <==>
            exists ls :: LabelsAt(buf, pos, ls) && Dotted(ls) == text
  {
    hide Gather, LabelsAt, Dotted;
    if Gather(buf, pos, [], room) == Some(text) {
      var ls := GatheredLabels(buf, pos, [], room);
      LabelsAreOk(buf, pos, ls);
      ExtendedIsDotted([], ls);
    }
    if ls :| LabelsAt(buf, pos, ls) && Dotted(ls) == text {
      LabelsAreGathered(buf, pos, [], room, ls);
      LabelsAreOk(buf, pos, ls);
      ExtendedIsDotted([], ls);
    }
  }

  lemma {:induction false} LabelsAreOk(buf: seq<byte>, pos: nat, ls: seq<seq<byte>>)
    requires LabelsAt(buf, pos, ls)
    ensures LabelsOk(ls)
    decreases ls
  {
    if ls != [] {
      LabelsAreOk(buf, pos + 1 + |ls[0]|, ls[1..]);
      forall i | 0 <= i < |ls| ensures 1 <= |ls[i]| <= 63 {
        assert i > 0 ==> ls[i] == ls[1..][i - 1];
      }
    }
  }

  lemma {:induction false} LabelsAreGathered(buf: seq<byte>, pos: nat, out: seq<byte>, room: nat, ls: seq<seq<byte>>)
    requires LabelsAt(buf, pos, ls) && |out| <= room && |out| + |buf| <= room + pos
    ensures Gather(buf, pos, out, room) == Some(Extended(out, ls))
    decreases ls
  {
    hide Gather;
    if ls == [] {
      GatherEnds(buf, pos, out, room);
    } else {
      GatherStep(buf, pos, ls[0], out, room);
      LabelsAreGathered(buf, pos + 1 + |ls[0]|, Joined(out, ls[0]), room, ls[1..]);
    }
  }

  lemma GatherEnds(buf: seq<byte>, pos: nat, out: seq<byte>, room: nat)
    requires |out| <= room && (pos >= |buf| || buf[pos] == 0)
    ensures Gather(buf, pos, out, room) == Some(out)
  {
  }

  lemma GatherCases(buf: seq<byte>, pos: nat, out: seq<byte>, room: nat)
    requires |out| <= room && Gather(buf, pos, out, room).Some?
    ensures pos >= |buf| || buf[pos] == 0 || Readable(buf, pos)
    ensures pos >= |buf| || buf[pos] == 0 ==> Gather(buf, pos, out, room) == Some(out) == Some(Extended(out, []))
  {
  }

  lemma JoinedLength(out: seq<byte>, part: seq<byte>)
    ensures |Joined(out, part)| <= |out| + 1 + |part|
    ensures forall rest :: Extended(out, [part] + rest) == Extended(Joined(out, part), rest)
  {
    forall rest ensures Extended(out, [part] + rest) == Extended(Joined(out, part), rest) {
      assert ([part] + rest)[1..] == rest;
    }
  }

  lemma {:induction false} GatheredLabels(buf: seq<byte>, pos: nat, out: seq<byte>, room: nat)
    returns (ls: seq<seq<byte>>)
    requires |out| <= room && |out| + |buf| <= room + pos && Gather(buf, pos, out, room).Some?
    ensures LabelsAt(buf, pos, ls) && Gather(buf, pos, out, room) == Some(Extended(out, ls))
    decreases |buf| - pos
  {
    hide Gather, Extended, Joined;
    ls := [];
    GatherCases(buf, pos, out, room);
    if pos < |buf| && buf[pos] != 0 {
      var n := buf[pos];
      var part := buf[pos + 1..pos + 1 + n];
      JoinedLength(out, part);
      GatherStep(buf, pos, part, out, room);
      var rest := GatheredLabels(buf, pos + 1 + n, Joined(out, part), room);
      ls := [part] + rest;
      assert ls[1..] == rest;
    }
  }

  // ---- Names that do not fit ----

  /** The byte at i, read as a length, is that of a label inside the message. */
  predicate Readable(buf: seq<byte>, i: nat) { i < |buf| && 0 < buf[i] < 64 && i + 1 + buf[i] <= |buf| }

  /** From `at` on, every byte before the next zero, or the end, can be read as the length of a label. */
  ghost predicate Skims(buf: seq<byte>, at: nat) {
    exists e: nat :: at <= e && SkimsTo(buf, at, e)
  }

  ghost predicate SkimsTo(buf: seq<byte>, at: nat, e: nat) {
    (e >= |buf| || buf[e] == 0) && forall i :: at <= i < e ==> Readable(buf, i)
  }

  lemma SkimsStep(buf: seq<byte>, at: nat)
    ensures Skims(buf, at) <==> at >= |buf| || buf[at] == 0 || (Readable(buf, at) && Skims(buf, at + 1))
  {
    if at >= |buf| || buf[at] == 0 {
      assert SkimsTo(buf, at, at);
    } else {
      if Skims(buf, at) {
        var e: nat :| at <= e && SkimsTo(buf, at, e);
        assert SkimsTo(buf, at + 1, e);
      }
      if Readable(buf, at) && Skims(buf, at + 1) {
        var e: nat :| at + 1 <= e && SkimsTo(buf, at + 1, e);
        assert SkimsTo(buf, at, e);
      }
    }
  }

  /** With no room left the scan goes on byte by byte, and keeps its text only if it can read them all. */
  lemma {:induction false} GatherWhenFull(buf: seq<byte>, pos: nat, out: seq<byte>, room: nat)
    requires |out| == room
    ensures Gather(buf, pos, out, room) == if Skims(buf, pos) then Some(out) else None
    decreases |buf| - pos
  {
    hide Skims;
    SkimsStep(buf, pos);
    if Readable(buf, pos) {
      assert Separated(out, room) + buf[pos + 1..pos + 1] == out;
      GatherWhenFull(buf, pos + 1, out, room);
    }
  }

  lemma {:induction false} ExtendedStartsWith(out: seq<byte>, ls: seq<seq<byte>>)
    ensures out <= Extended(out, ls)
    decreases ls
  {
    if ls != [] {
      ExtendedStartsWith(Joined(out, ls[0]), ls[1..]);
    }
  }

  /** Where the scan is when the room is used up: text and wire form run in step, but for the first length. */
  function CutAt(pos: nat, out: seq<byte>, room: nat): nat
    requires |out| <= room
  {
    pos + room - |out| + if out == [] then 1 else 0
  }

  /** The label that overflows fills the room with what fits of it. */
  lemma GatherFills(buf: seq<byte>, pos: nat, part: seq<byte>, out: seq<byte>, room: nat)
    requires 1 <= |part| <= 63 && pos + 1 + |part| <= |buf| && |out| <= room < |Joined(out, part)|
    requires buf[pos] == |part| && buf[pos + 1..pos + 1 + |part|] == part && (out == [] || |out| < room)
    ensures CutAt(pos, out, room) > pos
    ensures Gather(buf, pos, out, room) == Gather(buf, CutAt(pos, out, room), Joined(out, part)[..room], room)
  {
    hide Gather;
    GatherUnfolds(buf, pos, out, room);
    FillsRoom(out, part, room);
    SliceOfSlice(buf, pos + 1, part, 0, room - |Separated(out, room)|);
  }

  lemma FillsRoom(out: seq<byte>, part: seq<byte>, room: nat)
    requires |out| <= room < |Joined(out, part)| && (out == [] || |out| < room)
    ensures var dotted := Separated(out, room);
            |dotted| <= room < |dotted| + |part| && dotted + part[..room - |dotted|] == Joined(out, part)[..room]
  {
    assert Joined(out, part) == Separated(out, room) + part;
  }

  lemma GatherUnfolds(buf: seq<byte>, pos: nat, out: seq<byte>, room: nat)
    requires |out| <= room && Readable(buf, pos)
    ensures var dotted := Separated(out, room);
            var n := Min(buf[pos], room - |dotted|);
            Gather(buf, pos, out, room) == Gather(buf, pos + 1 + n, dotted + buf[pos + 1..pos + 1 + n], room)
  {
  }

  lemma GatherOverflows(buf: seq<byte>, pos: nat, part: seq<byte>, out: seq<byte>, room: nat)
    requires 1 <= |part| <= 63 && pos + 1 + |part| <= |buf| && |out| <= room < |Joined(out, part)|
    requires buf[pos] == |part| && buf[pos + 1..pos + 1 + |part|] == part
    ensures Gather(buf, pos, out, room) ==
            if Skims(buf, CutAt(pos, out, room)) then Some(Joined(out, part)[..room]) else None
  {
    hide Skims, Gather;
    if 0 < |out| == room {
      GatherWhenFull(buf, pos, out, room);
      assert Joined(out, part)[..room] == out;
    } else {
      GatherFills(buf, pos, part, out, room);
      GatherWhenFull(buf, CutAt(pos, out, room), Joined(out, part)[..room], room);
    }
  }

  lemma {:induction false} GatherTruncates(buf: seq<byte>, pos: nat, ls: seq<seq<byte>>, out: seq<byte>, room: nat)
    requires WireAt(buf, pos, ls) && |out| <= room < |Extended(out, ls)|
    ensures Gather(buf, pos, out, room) ==
            if Skims(buf, CutAt(pos, out, room)) then Some(Extended(out, ls)[..room]) else None
    decreases ls
  {
    hide Wire, WireAt, Gather, Skims;
    WireStep(buf, pos, ls);
    var next := Joined(out, ls[0]);
    if |next| <= room {
      GatherTruncates(buf, pos + 1 + |ls[0]|, ls[1..], next, room);
      GatherStep(buf, pos, ls[0], out, room);
    } else {
      GatherOverflows(buf, pos, ls[0], out, room);
      ExtendedStartsWith(next, ls[1..]);
      assert next[..room] == Extended(out, ls)[..room];
    }
  }

  /**
   * A name that does not fit is cut to the part of its dotted form that fits when the rest of it,
   * read byte by byte as lengths of labels, stays inside the message, and is refused otherwise.
   */
  lemma OverlongNameIsCutOrRefused(buf: seq<byte>, pos: nat, ls: seq<seq<byte>>, room: nat)
    requires WireAt(buf, pos, ls) && room < |Dotted(ls)|
    ensures Gather(buf, pos, [], room) == if Skims(buf, pos + 1 + room) then Some(Dotted(ls)[..room]) else None
  {
    hide Gather, Skims;
    ExtendedIsDotted([], ls);
    GatherTruncates(buf, pos, ls, [], room);
  }

  // ---- Lower case ----

  function LowerByte(b: byte): byte { if 65 <= b <= 90 then b + 32 else b }

  /** The 26 capital letters of ASCII become the small ones, and nothing else changes. */
  lemma LowerIsAscii(b: byte)
    ensures if 'A' as int <= b <= 'Z' as int then LowerByte(b) - 'a' as int == b - 'A' as int else LowerByte(b) == b
  {
  }

  function Lower(s: seq<byte>): (r: seq<byte>)
    ensures |r| == |s| && forall i :: 0 <= i < |s| ==> r[i] == LowerByte(s[i])
  {
    seq(|s|, i requires 0 <= i < |s| => LowerByte(s[i]))
  }

  /** `parse_dns_qname`: the name as a C string, or failure. */
  function ParseName(buf: seq<byte>, size: nat): Option<seq<byte>> {
    if |buf| < HEADER_LEN || size == 0 then None
    else match Gather(buf, HEADER_LEN, [], size - 1)
      case None => None
      case Some(text) => if text == [] then None else Some(Lower(Content(text)))
  }

  /** A message shorter than its header, a buffer without room, and a question without a name are refused. */
  lemma NoNameIsRefused(buf: seq<byte>, size: nat)
    requires |buf| < 12 || size == 0 || LabelsAt(buf, 12, [])
    ensures ParseName(buf, size) == None
  {
  }

  lemma {:induction false} ContentOfWhole(s: seq<byte>)
    requires 0 !in s
    ensures Content(s) == s
  {
    assert s[..|s|] == s;
    ContentUnique(s, |s|);
  }

  /** A well-formed question with a NUL-free dotted name that fits parses to that name in lower case. */
  lemma ParsedNameIsLowered(buf: seq<byte>, size: nat, ls: seq<seq<byte>>)
    requires WireAt(buf, HEADER_LEN, ls) && ls != [] && 0 !in Dotted(ls) && |Dotted(ls)| < size
    ensures ParseName(buf, size) == Some(Lower(Dotted(ls)))
  {
    hide Gather, Content, Lower, Wire, WireAt;
    WireStep(buf, HEADER_LEN, ls);
    GatherIsExact(buf, HEADER_LEN, ls, size - 1);
    ContentOfWhole(Dotted(ls));
    assert |Dotted(ls)| > 0;
  }

  method ParseQname(buf: seq<byte>, out: array<byte>) returns (ok: bool)
    modifies out
    ensures match ParseName(buf, out.Length) case Some(name) => ok && Content(out[..]) == name case None => !ok
  {
    hide Content, Lower, Separated;
    if |buf| < HEADER_LEN || out.Length == 0 {
      return false;
    }
    var pos, off: nat := HEADER_LEN, 0;
    ghost var whole := Gather(buf, HEADER_LEN, [], out.Length - 1);
    assert out[..0] == [];
    while pos < |buf|
      invariant off < out.Length
      invariant Gather(buf, pos, out[..off], out.Length - 1) == whole
      decreases |buf| - pos
    {
      var l := buf[pos];
      pos := pos + 1;
      if l == 0 {
        break;
      }
      if l >= 0x40 || pos + l > |buf| {
        return false;
      }
      off, pos := CopyLabel(buf, pos, l, out, off);
    }
    assert whole == Some(out[..off]);
    Finish(out, off);
    return off > 0;
  }

  /** The dot and the bounded inner loop of the parser. */
  method CopyLabel(buf: seq<byte>, start: nat, l: nat, out: array<byte>, from: nat) returns (off: nat, pos: nat)
    requires start + l <= |buf| && from < out.Length
    modifies out
    ensures off < out.Length && start <= pos
    ensures var dotted := Separated(old(out[..from]), out.Length - 1);
            var n := Min(l, out.Length - 1 - |dotted|);
            pos == start + n && out[..off] == dotted + buf[start..start + n]
  {
    off, pos := from, start;
    ghost var before := out[..from];
    if off > 0 && off < out.Length - 1 {
      out[off] := DOT;
      off := off + 1;
      assert out[..off] == before + [DOT];
    }
    ghost var dotted := out[..off];
    assert dotted == Separated(before, out.Length - 1);
    var i := 0;
    while i < l && off < out.Length - 1
      invariant i <= l && pos == start + i && off == |dotted| + i < out.Length
      invariant out[..off] == dotted + buf[start..start + i]
    {
      ghost var text := out[..off];
      out[off] := buf[pos];
      assert out[..off + 1] == text + [buf[pos]];
      OneMoreByte(dotted, buf, start, i);
      off, pos, i := off + 1, pos + 1, i + 1;
    }
  }

  lemma OneMoreByte(text: seq<byte>, buf: seq<byte>, start: nat, i: nat)
    requires start + i < |buf|
    ensures text + buf[start..start + i] + [buf[start + i]] == text + buf[start..start + i + 1]
  {
    assert buf[start..start + i + 1] == buf[start..start + i] + [buf[start + i]];
  }

  /** The terminator, and `str_lower` up to the first NUL. */
  method Finish(out: array<byte>, off: nat)
    requires off < out.Length
    modifies out
    ensures Content(out[..]) == Lower(Content(old(out[..off])))
  {
    ghost var text := Content(out[..off]);
    var n := |text|;
    out[off] := 0;
    assert out[..n] == text && out[n] == 0;
    var i := 0;
    while out[i] != 0
      invariant i <= n && out[n] == 0
      invariant out[..i] == Lower(text)[..i] && out[i..n] == text[i..]
      invariant 0 !in text
      decreases n - i
    {
      assert i < n;
      assert out[i] == out[i..n][0] == text[i];
      out[i] := LowerByte(out[i]);
      i := i + 1;
    }
    assert i == n;
    assert 0 !in Lower(text);
    ContentUnique(out[..], n);
  }
}
