/** The filter's synthetic A replies, read back by a decoder of DNS messages (section 4.1 of RFC 1035). */
module DnsReplies {
  import opened Bytes
  import opened DnsNames

  // ---- A reference decoder ----

  function U16At(msg: seq<byte>, pos: nat): u16
    requires pos + 2 <= |msg|
  {
    (msg[pos] as int) * 0x100 + msg[pos + 1]
  }

  function U32At(msg: seq<byte>, pos: nat): u32
    requires pos + 4 <= |msg|
  {
    U16At(msg, pos) * 0x1_0000 + U16At(msg, pos + 2)
  }

  datatype LabelRun = LabelRun(labels: seq<seq<byte>>, pointer: Option<nat>, next: nat)

  /** Labels up to an empty label or a compression pointer. */
  function ReadLabels(msg: seq<byte>, pos: nat): (r: Option<LabelRun>)
    ensures r.Some? ==> pos < r.value.next <= |msg|
    decreases |msg| - pos
  {
    if pos >= |msg| then None
    else if msg[pos] == 0 then Some(LabelRun([], None, pos + 1))
    else if msg[pos] >= 192 then
      if pos + 1 < |msg| then Some(LabelRun([], Some(U16At(msg, pos) - 0xC000), pos + 2)) else None
    else if msg[pos] >= 64 || pos + 1 + msg[pos] > |msg| then None
    else match ReadLabels(msg, pos + 1 + msg[pos])
      case None => None
      case Some(run) => Some(run.(labels := [msg[pos + 1..pos + 1 + msg[pos]]] + run.labels))
  }

  /** A whole name and where it ends; a pointer must refer to an earlier place (section 4.1.4 of RFC 1035). */
  function ReadName(msg: seq<byte>, pos: nat): (r: Option<(seq<seq<byte>>, nat)>)
    ensures r.Some? ==> pos < r.value.1 <= |msg|
    decreases pos
  {
    match ReadLabels(msg, pos)
    case None => None
    case Some(run) =>
      if run.pointer.None? then Some((run.labels, run.next))
      else if run.pointer.value >= pos then None
      else match ReadName(msg, run.pointer.value)
        case None => None
        case Some((rest, _)) => Some((run.labels + rest, run.next))
  }

  datatype Question = Question(name: seq<seq<byte>>, qtype: u16, qclass: u16)
  datatype Record = Record(name: seq<seq<byte>>, rtype: u16, rclass: u16, ttl: u32, data: seq<byte>)
  datatype DnsMessage = DnsMessage(id: u16, flags: u16, questions: seq<Question>, records: seq<Record>)

  function ReadQuestions(msg: seq<byte>, pos: nat, n: nat): Option<(seq<Question>, nat)>
    decreases n
  {
    if n == 0 then Some(([], pos))
    else match ReadName(msg, pos)
      case None => None
      case Some((name, at)) =>
        if at + 4 > |msg| then None
        else match ReadQuestions(msg, at + 4, n - 1)
          case None => None
          case Some((rest, end)) => Some(([Question(name, U16At(msg, at), U16At(msg, at + 2))] + rest, end))
  }

  function ReadRecords(msg: seq<byte>, pos: nat, n: nat): Option<(seq<Record>, nat)>
    decreases n
  {
    if n == 0 then Some(([], pos))
    else match ReadName(msg, pos)
      case None => None
      case Some((name, at)) =>
        if at + 10 > |msg| || at + 10 + U16At(msg, at + 8) > |msg| then None
        else
          var end := at + 10 + U16At(msg, at + 8);
          match ReadRecords(msg, end, n - 1)
          case None => None
          case Some((rest, last)) =>
            Some(([Record(name, U16At(msg, at), U16At(msg, at + 2), U32At(msg, at + 4), msg[at + 10..end])] + rest,
                  last))
  }

  /** A message must hold exactly the questions and records its four counts announce. */
  function DecodeMessage(msg: seq<byte>): Option<DnsMessage> {
    if |msg| < HEADER_LEN then None
    else match ReadQuestions(msg, HEADER_LEN, U16At(msg, 4))
      case None => None
      case Some((questions, at)) =>
        match ReadRecords(msg, at, U16At(msg, 6) + U16At(msg, 8) + U16At(msg, 10))
        case None => None
        case Some((records, end)) =>
          if end != |msg| then None else Some(DnsMessage(U16At(msg, 0), U16At(msg, 2), questions, records))
  }

  // ---- The reply ----

  function U32Be(v: u32): (s: seq<byte>)
    ensures |s| == 4
  {
    [v / 0x100_0000, v / 0x1_0000 % 0x100, v / 0x100 % 0x100, v % 0x100]
  }

  /** The most significant byte comes first. */
  lemma BigEndian(v: u32)
    ensures U32At(U32Be(v), 0) == v
  {
    var a, b, c := v / 0x100, v / 0x1_0000, v / 0x100_0000;
    assert b == a / 0x100 && c == b / 0x100;
    assert v == 0x100 * a + v % 0x100 && a == 0x100 * b + a % 0x100 && b == 0x100 * c + b % 0x100;
  }

  /** Name pointer to offset 12, type A, class IN, 60 seconds, 4 bytes of data. */
  const ANSWER: seq<byte> := [0xC0, 0x0C, 0x00, 0x01, 0x00, 0x01, 0x00, 0x00, 0x00, 0x3C, 0x00, 0x04]

  function Answered(question: seq<byte>, ip: u32): (r: seq<byte>)
    requires |question| >= HEADER_LEN
    ensures |r| == |question| + 16
  {
    question[2 := 0x81][3 := 0x80][6 := 0][7 := 1] + ANSWER + U32Be(ip)
  }

  /** `build_a_response` into a buffer of `size` bytes */
  function Reply(query: seq<byte>, size: nat, ip: u32): (r: Option<seq<byte>>)
    ensures r.Some? ==> |r.value| <= size
  {
    if |query| < HEADER_LEN || size < |query| + 16 then None
    else match NameEnd(query, HEADER_LEN)
      case None => None
      case Some(end) => if end + 4 > |query| then None else Some(Answered(query[..end + 4], ip))
  }

  method BuildAResponse(query: seq<byte>, resp: array<byte>, ip: u32) returns (len: int)
    modifies resp
    ensures match Reply(query, resp.Length, ip)
            case None => len == -1 && resp[..] == old(resp[..])
            case Some(r) => len == |r| && resp[..] == r + old(resp[..])[|r|..]
  {
    hide NameEnd;
    if |query| < HEADER_LEN || resp.Length < |query| + 16 {
      return -1;
    }
    var qnameEnd := FindQnameEnd(query);
    if qnameEnd < 0 || qnameEnd + 4 > |query| {
      return -1;
    }
    var n := qnameEnd + 4;
    forall i | 0 <= i < n {
      resp[i] := query[i];
    }
    resp[2] := 0x81;
    resp[3] := 0x80;
    resp[6] := 0x00;
    resp[7] := 0x01;
    assert resp[..n] == query[..n][2 := 0x81][3 := 0x80][6 := 0][7 := 1];
    WriteAnswer(resp, n, ip);
    return n + 16;
  }

  method WriteAnswer(resp: array<byte>, n: nat, ip: u32)
    requires n + 16 <= resp.Length
    modifies resp
    ensures resp[..] == old(resp[..])[..n] + ANSWER + U32Be(ip) + old(resp[..])[n + 16..]
  {
    forall i | 0 <= i < 12 {
      resp[n + i] := ANSWER[i];
    }
    resp[n + 12] := ip / 0x100_0000;
    resp[n + 13] := ip / 0x1_0000 % 0x100;
    resp[n + 14] := ip / 0x100 % 0x100;
    resp[n + 15] := ip % 0x100;
  }

  // ---- What the reply says ----

  lemma {:induction false} ReadWire(msg: seq<byte>, pos: nat, ls: seq<seq<byte>>)
    requires WireAt(msg, pos, ls)
    ensures ReadLabels(msg, pos) == Some(LabelRun(ls, None, pos + |Wire(ls)|))
    decreases ls
  {
    hide Wire, WireAt;
    WireStep(msg, pos, ls);
    if ls != [] {
      ReadWire(msg, pos + 1 + |ls[0]|, ls[1..]);
      assert [ls[0]] + ls[1..] == ls;
    }
  }

  /** The bytes of a single-question query up to the end of its question. */
  ghost predicate IsQuestion(q: seq<byte>, ls: seq<seq<byte>>) {
    WireAt(q, HEADER_LEN, ls) && |q| == HEADER_LEN + |Wire(ls)| + 4 && U16At(q, 4) == 1
  }

  lemma AnsweredQuestion(q: seq<byte>, ls: seq<seq<byte>>, ip: u32)
    requires IsQuestion(q, ls)
    ensures var r := Answered(q, ip);
            && WireAt(r, HEADER_LEN, ls) && r[HEADER_LEN..|q|] == q[HEADER_LEN..]
            && U16At(r, 0) == U16At(q, 0) && U16At(r, 2) == 0x8180 && U16At(r, 4) == 1 && U16At(r, 6) == 1
            && U16At(r, 8) == U16At(q, 8) && U16At(r, 10) == U16At(q, 10)
            && r[|q|..] == ANSWER + U32Be(ip)
  {
    var r, end := Answered(q, ip), HEADER_LEN + |Wire(ls)|;
    assert r[HEADER_LEN..end] == q[HEADER_LEN..end];
  }

  /** The answer's name is a pointer to the question's. */
  lemma AnswerName(r: seq<byte>, n: nat, ls: seq<seq<byte>>)
    requires WireAt(r, HEADER_LEN, ls) && HEADER_LEN < n && n + 2 <= |r| && r[n] == 0xC0 && r[n + 1] == 0x0C
    ensures ReadName(r, n) == Some((ls, n + 2))
  {
    hide Wire;
    ReadWire(r, HEADER_LEN, ls);
    assert ReadName(r, HEADER_LEN) == Some((ls, HEADER_LEN + |Wire(ls)|));
    assert ReadLabels(r, n) == Some(LabelRun([], Some(12), n + 2));
    assert [] + ls == ls;
  }

  lemma AnswerFields(r: seq<byte>, n: nat, ip: u32)
    requires |r| == n + 16 && r[n..] == ANSWER + U32Be(ip)
    ensures r[n] == 0xC0 && r[n + 1] == 0x0C
    ensures U16At(r, n + 2) == 1 && U16At(r, n + 4) == 1 && U32At(r, n + 6) == 60 && U16At(r, n + 10) == 4
    ensures r[n + 12..n + 16] == U32Be(ip)
  {
    var a := ANSWER + U32Be(ip);
    assert forall i :: 0 <= i < 16 ==> r[n + i] == r[n..][i] == a[i];
    assert r[n + 0] == 0xC0;
  }

  lemma AnswerRecord(r: seq<byte>, n: nat, ls: seq<seq<byte>>, ip: u32)
    requires WireAt(r, HEADER_LEN, ls) && HEADER_LEN < n && |r| == n + 16 && r[n..] == ANSWER + U32Be(ip)
    ensures ReadRecords(r, n, 1) == Some(([Record(ls, 1, 1, 60, U32Be(ip))], n + 16))
  {
    hide Wire, WireAt, U16At, U32At, U32Be, ReadName;
    AnswerFields(r, n, ip);
    AnswerName(r, n, ls);
    var record := Record(ls, 1, 1, 60, U32Be(ip));
    assert [record] + [] == [record];
  }

  lemma MoreRecordsFail(r: seq<byte>, n: nat, k: nat)
    requires ReadRecords(r, n, 1).Some? && ReadRecords(r, n, 1).value.1 == |r| && k > 1
    ensures ReadRecords(r, n, k) == None
  {
    assert ReadName(r, |r|) == None;
  }

  /**
   * The reply to a well-formed single-question query fits its buffer and decodes to the same id and
   * question with one A record for the queried name, exactly when the query announces no authority
   * or additional records; otherwise the copied counts promise records that are not there.
   */
  lemma ReplyDecodes(query: seq<byte>, q: seq<byte>, ls: seq<seq<byte>>, size: nat, ip: u32)
    requires IsQuestion(q, ls) && q <= query && |query| + 16 <= size
    ensures var r := Reply(query, size, ip); var at := |q| - 4;
            && r.Some? && |r.value| <= size
            && DecodeMessage(r.value) ==
               if U16At(q, 8) == 0 && U16At(q, 10) == 0 then
                 Some(DnsMessage(U16At(q, 0), 0x8180, [Question(ls, U16At(q, at), U16At(q, at + 2))],
                                 [Record(ls, 1, 1, 60, U32Be(ip))]))
               else None
  {
    hide Wire, WireAt, U16At, Answered, NameEnd, ReadQuestions, ReadRecords;
    QueryEnd(query, q, ls);
    assert query[..|q|] == q;
    var r := Answered(q, ip);
    AnsweredQuestion(q, ls, ip);
    QuestionRead(r, q, ls);
    AnswerRecord(r, |q|, ls, ip);
    var k := 1 + U16At(q, 8) + U16At(q, 10);
    if k > 1 {
      MoreRecordsFail(r, |q|, k);
    }
  }

  lemma QueryEnd(query: seq<byte>, q: seq<byte>, ls: seq<seq<byte>>)
    requires IsQuestion(q, ls) && q <= query
    ensures NameEnd(query, HEADER_LEN) == Some(|q| - 4)
  {
    var end := HEADER_LEN + |Wire(ls)|;
    assert query[HEADER_LEN..end] == q[HEADER_LEN..end];
    NameEndIsExact(query, HEADER_LEN, ls);
  }

  lemma SameWord(r: seq<byte>, q: seq<byte>, at: nat)
    requires HEADER_LEN <= at && at + 2 <= |q| <= |r| && r[HEADER_LEN..|q|] == q[HEADER_LEN..]
    ensures U16At(r, at) == U16At(q, at)
  {
    var i := at - HEADER_LEN;
    assert r[HEADER_LEN..|q|][i] == q[HEADER_LEN..][i] && r[HEADER_LEN..|q|][i + 1] == q[HEADER_LEN..][i + 1];
  }

  lemma QuestionRead(r: seq<byte>, q: seq<byte>, ls: seq<seq<byte>>)
    requires IsQuestion(q, ls) && |q| <= |r| && WireAt(r, HEADER_LEN, ls) && r[HEADER_LEN..|q|] == q[HEADER_LEN..]
    ensures var at := |q| - 4;
            ReadQuestions(r, HEADER_LEN, 1) == Some(([Question(ls, U16At(q, at), U16At(q, at + 2))], |q|))
  {
    hide Wire, WireAt, U16At, ReadLabels;
    var at := |q| - 4;
    ReadWire(r, HEADER_LEN, ls);
    SameWord(r, q, at);
    SameWord(r, q, at + 2);
    var question := Question(ls, U16At(q, at), U16At(q, at + 2));
    assert [question] + [] == [question];
  }
}
