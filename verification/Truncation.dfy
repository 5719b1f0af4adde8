/** Truncating a response to a size (section 4.1.1 of RFC 1035; `truncate_response_properly` of
  * src/dns/parser.rs): whole answers only, with TC set. */
module Truncation {
  import opened Bytes
  import opened Wrappers
  import opened WireNames
  import opened Messages

  // ---------------------------------------------------------------- on bytes

  /** `b | 0x02` */
  function OrTc(b: byte): byte { if b / 2 % 2 == 1 then b else b + 2 }

  /** The answer loop: how many records it keeps and where the last of them ends. What has been written
    * is as long as what has been read. */
  function KeepAnswers(wire: seq<byte>, pos: nat, n: nat, max: nat): (nat, nat)
    decreases n
  {
    if n == 0 || RecordEnd(wire, pos).None? || RecordEnd(wire, pos).value > max then (0, pos)
    else
      var (count, end) := KeepAnswers(wire, RecordEnd(wire, pos).value, n - 1, max);
      (count + 1, end)
  }

  lemma {:induction false} KeptEnd(wire: seq<byte>, pos: nat, n: nat, max: nat)
    requires pos <= |wire|
    ensures var (count, end) := KeepAnswers(wire, pos, n, max);
      count <= n && pos <= end <= |wire| && (count > 0 ==> end <= max)
    decreases n
  {
    if n > 0 && RecordEnd(wire, pos).Some? {
      SkipAdvances(wire, pos, 0);
      KeptEnd(wire, RecordEnd(wire, pos).value, n - 1, max);
    }
  }

  /** The first `end` octets with TC set and the record counts replaced. */
  function Cut(wire: seq<byte>, end: nat, answers: nat): seq<byte>
    requires HEADER <= end <= |wire|
  {
    wire[..2] + [OrTc(wire[2])] + wire[3..6] + U16(answers) + [0, 0, 0, 0] + wire[HEADER..end]
  }

  /** What `truncate_response_properly` returns. */
  function Truncate(wire: seq<byte>, max: nat): seq<byte> {
    if |wire| <= max || |wire| < HEADER then wire
    else match SkipQuestions(wire, HEADER, ReadU16(wire, 4))
      case None => wire[..HEADER][2 := OrTc(wire[2])]
      case Some(q) =>
        QuestionsBound(wire, HEADER, ReadU16(wire, 4));
        KeptEnd(wire, q, ReadU16(wire, 6), max);
        var (count, end) := KeepAnswers(wire, q, ReadU16(wire, 6), max);
        Cut(wire, end, count)
  }

  lemma {:induction false} QuestionsBound(buf: seq<byte>, pos: nat, n: nat)
    requires pos <= |buf|
    ensures SkipQuestions(buf, pos, n).Some? ==> pos <= SkipQuestions(buf, pos, n).value <= |buf|
    decreases n
  {
    if n > 0 && SkipName(buf, pos).Some? && SkipName(buf, pos).value + 4 <= |buf| {
      SkipAdvances(buf, pos, 0);
      QuestionsBound(buf, SkipName(buf, pos).value + 4, n - 1);
    }
  }

  method MeasureRecord(wire: seq<byte>, pos: nat) returns (r: Option<nat>)
    ensures r == RecordEnd(wire, pos)
  {
    var name := SkipDnsName(wire, pos);
    if name.None? || name.value + 10 > |wire| { return None; }
    var end := name.value + 10 + ReadU16(wire, name.value + 8);
    if end > |wire| { return None; }
    return Some(end);
  }

  /** The answer loop, copying whole records while they fit. */
  method CopyAnswers(wire: seq<byte>, start: nat, ancount: nat, max: nat, front: seq<byte>)
    returns (out: seq<byte>, included: nat)
    requires start <= |wire| && |front| == start
    ensures var (count, end) := KeepAnswers(wire, start, ancount, max);
      start <= end <= |wire| && included == count && out == front + wire[start..end]
  {
    KeptEnd(wire, start, ancount, max);
    out, included := front, 0;
    var pos, i := start, 0;
    while i < ancount
      invariant i == included <= ancount && start <= pos <= |wire| && out == front + wire[start..pos]
      invariant var (count, end) := KeepAnswers(wire, pos, ancount - i, max);
        KeepAnswers(wire, start, ancount, max) == (included + count, end)
    {
      var end := MeasureRecord(wire, pos);
      if end.None? { break; }
      SkipAdvances(wire, pos, 0);
      if |out| + (end.value - pos) > max { break; }
      out := out + wire[pos..end.value];
      assert wire[start..end.value] == wire[start..pos] + wire[pos..end.value];
      included, pos, i := included + 1, end.value, i + 1;
    }
  }

  /** `truncate_response_properly` */
  method TruncateResponseProperly(wire: seq<byte>, max: nat) returns (out: seq<byte>)
    ensures out == Truncate(wire, max)
  {
    if |wire| <= max || |wire| < HEADER { return wire; }
    var q := SkipQuestionSection(wire);
    if q.None? { return wire[..HEADER][2 := OrTc(wire[2])]; }
    QuestionsBound(wire, HEADER, ReadU16(wire, 4));
    var front := wire[..q.value];
    front := front[2 := OrTc(front[2])];
    front := front[6 := 0][7 := 0][8 := 0][9 := 0][10 := 0][11 := 0];
    var included;
    out, included := CopyAnswers(wire, q.value, ReadU16(wire, 6), max, front);
    var count := U16(included);
    out := out[6 := count[0]][7 := count[1]];
    CutIs(wire, q.value, KeepAnswers(wire, q.value, ReadU16(wire, 6), max).1, included, front, out);
  }

  lemma FrontIs(wire: seq<byte>, q: nat, front: seq<byte>)
    requires HEADER <= q <= |wire|
    requires front == wire[..q][2 := OrTc(wire[2])][6 := 0][7 := 0][8 := 0][9 := 0][10 := 0][11 := 0]
    ensures |front| == q && front[..2] == wire[..2] && front[2] == OrTc(wire[2]) && front[3..6] == wire[3..6]
    ensures front[8..12] == [0, 0, 0, 0] && front[HEADER..] == wire[HEADER..q]
  {
  }

  lemma CutIs(wire: seq<byte>, q: nat, end: nat, included: nat, front: seq<byte>, out: seq<byte>)
    requires HEADER <= q <= end <= |wire|
    requires front == wire[..q][2 := OrTc(wire[2])][6 := 0][7 := 0][8 := 0][9 := 0][10 := 0][11 := 0]
    requires out == (front + wire[q..end])[6 := U16(included)[0]][7 := U16(included)[1]]
    ensures out == Cut(wire, end, included)
  {
    FrontIs(wire, q, front);
    var x := front + wire[q..end];
    assert out[..2] == front[..2] && out[2] == front[2] && out[3..6] == front[3..6] && out[6..8] == U16(included);
    assert out[8..12] == front[8..12];
    assert out[HEADER..] == front[HEADER..] + wire[q..end];
    assert wire[HEADER..q] + wire[q..end] == wire[HEADER..end];
    assert out == out[..2] + [out[2]] + out[3..6] + out[6..8] + out[8..12] + out[HEADER..];
  }

  // ---------------------------------------------------------------- what it does to the message

  /** Bit 9 of the flags. */
  function SetTc(flags: nat): nat { if flags / 512 % 2 == 1 then flags else flags + 512 }

  /** How many records from the front fit into `room` octets together. */
  function Fitting(rs: seq<Record>, room: int): (k: nat)
    ensures k <= |rs|
  {
    if rs == [] || RecordLength(rs[0]) > room then 0 else 1 + Fitting(rs[1..], room - RecordLength(rs[0]))
  }

  /** That is the longest prefix that fits: a prefix fits exactly when it is no longer. */
  lemma {:induction false} FittingIsLongest(rs: seq<Record>, room: nat, j: nat)
    requires j <= |rs|
    ensures RecordsLength(rs[..j]) <= room <==> j <= Fitting(rs, room)
    decreases |rs|
  {
    if j == 0 {
    } else {
      assert rs[..j][0] == rs[0] && rs[..j][1..] == rs[1..][..j - 1];
      if RecordLength(rs[0]) <= room { FittingIsLongest(rs[1..], room - RecordLength(rs[0]), j - 1); }
    }
  }

  /** TC set, the questions, the first `k` answers and nothing else. */
  function Truncated(m: Message, k: nat): Message
    requires k <= |m.answers|
  {
    Message(m.id, SetTc(m.flags), m.questions, m.answers[..k], [], [])
  }

  lemma {:induction false} KeptIsFitting(buf: seq<byte>, pos: nat, rs: seq<Record>, n: nat, max: nat)
    requires RecordsFound(buf, pos, rs) && n == |rs|
    ensures var k := Fitting(rs, max - pos); KeepAnswers(buf, pos, n, max) == (k, pos + RecordsLength(rs[..k]))
    decreases |rs|
  {
    if rs == [] {
    } else {
      FoundEnd(buf, pos, rs[0]);
      if pos + RecordLength(rs[0]) <= max {
        var rest := Fitting(rs[1..], max - pos - RecordLength(rs[0]));
        KeptIsFitting(buf, pos + RecordLength(rs[0]), rs[1..], n - 1, max);
        assert rs[..rest + 1][1..] == rs[1..][..rest];
      }
    }
  }

  lemma FoundEnd(buf: seq<byte>, pos: nat, r: Record)
    requires RecordFound(buf, pos, r)
    ensures RecordEnd(buf, pos) == Some(pos + RecordLength(r))
  {
  }

  lemma TcOctet(flags: nat)
    requires flags < 0x1_0000
    ensures U16(SetTc(flags)) == [OrTc(flags / 256), flags % 256] && SetTc(flags) < 0x1_0000
  {
    U16Is(SetTc(flags));
    var x, y := flags / 256, flags % 256;
    assert flags == x * 256 + y && flags / 512 == x / 2;
  }

  /** The octets of a message up to the k-th answer. */
  lemma EncodeUpTo(m: Message, k: nat)
    requires k <= |m.answers|
    ensures var end := AnswersAt(m) + RecordsLength(m.answers[..k]);
      end <= |Encode(m)| && Encode(m)[..end] == Header(m) + (QuestionsBytes(m.questions) + RecordsBytes(m.answers[..k]))
  {
    var an, ns, ar := m.answers, RecordsBytes(m.authority), RecordsBytes(m.additional);
    assert an == an[..k] + an[k..];
    RecordsBytesConcat(an[..k], an[k..]);
    BytesLength(an[..k]);
    QuestionsBytesLength(m.questions);
    TakeFront(Header(m), QuestionsBytes(m.questions), RecordsBytes(an[..k]), RecordsBytes(an[k..]), ns, ar);
  }

  lemma TakeFront<T>(h: seq<T>, q: seq<T>, a: seq<T>, b: seq<T>, c: seq<T>, d: seq<T>)
    ensures var x := h + (q + ((a + b) + c) + d);
      |h| + |q| + |a| <= |x| && x[..|h| + |q| + |a|] == h + (q + a)
  {
  }

  lemma CutHeader(m: Message, buf: seq<byte>, end: nat, k: nat)
    requires ValidMessage(m) && k <= |m.answers| && HEADER <= end <= |buf| && Header(m) <= buf
    ensures Cut(buf, end, k) == Header(Truncated(m, k)) + buf[HEADER..end]
  {
    assert At(buf, 0, Header(m));
    ReadHeader(buf, m);
    TcOctet(m.flags);
    ReadU16Is(buf, 2);
    U16Is(0);
    U16Is(m.flags);
    HeaderFields(buf, Header(m), U16(m.id), U16(m.flags), U16(|m.questions|),
                 U16(|m.answers|) + (U16(|m.authority|) + U16(|m.additional|)));
  }

  lemma HeaderFields(buf: seq<byte>, h: seq<byte>, id: seq<byte>, flags: seq<byte>, count: seq<byte>, rest: seq<byte>)
    requires h == id + (flags + (count + rest)) && h <= buf && |id| == |flags| == |count| == 2
    ensures buf[..2] == id && buf[3..6] == [flags[1]] + count
  {
    assert h == id + [flags[0]] + ([flags[1]] + count) + rest;
    assert buf[..2] == h[..2] && buf[3..6] == h[3..6];
  }

  lemma TruncateWhere(buf: seq<byte>, q: nat, max: nat, k: nat, end: nat)
    requires |buf| > max && |buf| >= HEADER && SkipQuestions(buf, HEADER, ReadU16(buf, 4)) == Some(q)
    requires KeepAnswers(buf, q, ReadU16(buf, 6), max) == (k, end) && HEADER <= end <= |buf|
    ensures Truncate(buf, max) == Cut(buf, end, k)
  {
  }

  lemma TruncateFound(buf: seq<byte>, m: Message, max: nat, k: nat, end: nat)
    requires |buf| > max && HeaderFound(buf, m) && QuestionsFound(buf, HEADER, m.questions)
    requires RecordsFound(buf, AnswersAt(m), m.answers) && HEADER <= end <= |buf|
    requires k == Fitting(m.answers, max - AnswersAt(m)) && end == AnswersAt(m) + RecordsLength(m.answers[..k])
    ensures Truncate(buf, max) == Cut(buf, end, k)
  {
    SkipQuestionsFound(buf, HEADER, m.questions);
    assert SkipQuestions(buf, HEADER, ReadU16(buf, 4)) == SkipQuestions(buf, HEADER, |m.questions|);
    KeptIsFitting(buf, AnswersAt(m), m.answers, ReadU16(buf, 6), max);
    TruncateWhere(buf, AnswersAt(m), max, k, end);
  }

  lemma TruncatedBytes(m: Message, k: nat, front: seq<byte>)
    requires k <= |m.answers| && front == Header(m) + (QuestionsBytes(m.questions) + RecordsBytes(m.answers[..k]))
    ensures Encode(Truncated(m, k)) == Header(Truncated(m, k)) + front[HEADER..]
  {
    var x := QuestionsBytes(m.questions) + RecordsBytes(m.answers[..k]);
    assert front[HEADER..] == x;
    assert QuestionsBytes(m.questions) + (RecordsBytes(m.answers[..k]) + []) + [] == x;
  }

  /** When the message is too long: TC set, the questions, the longest prefix of whole answers that fits,
    * ANCOUNT equal to its length, no other section. */
  lemma TruncateRefines(m: Message, max: nat)
    requires ValidMessage(m) && |Encode(m)| > max
    ensures Truncate(Encode(m), max) == Encode(Truncated(m, Fitting(m.answers, max - AnswersAt(m))))
  {
    var buf, k := Encode(m), Fitting(m.answers, max - AnswersAt(m));
    var end := AnswersAt(m) + RecordsLength(m.answers[..k]);
    EncodeUpTo(m, k);
    CutHeader(m, buf, end, k);
    TruncatedBytes(m, k, buf[..end]);
    assert buf[HEADER..end] == buf[..end][HEADER..];
    Layout(buf, m);
    TruncateFound(buf, m, max, k, end);
  }

  lemma TruncatedLength(m: Message, k: nat)
    requires k <= |m.answers|
    ensures |Encode(Truncated(m, k))| == AnswersAt(m) + RecordsLength(m.answers[..k])
  {
    QuestionsBytesLength(m.questions);
    BytesLength(m.answers[..k]);
  }

  /** When the questions of a message that is too long cannot be skipped: its header, with TC set and otherwise as
    * it was. */
  lemma TruncateMalformed(wire: seq<byte>, max: nat)
    requires |wire| > max && |wire| >= HEADER && SkipQuestions(wire, HEADER, ReadU16(wire, 4)).None?
    ensures var out := Truncate(wire, max);
      |out| == 12 && ReadU16(out, 2) == SetTc(ReadU16(wire, 2)) && forall i | 0 <= i < 12 && i != 2 :: out[i] == wire[i]
  {
    ReadU16Is(wire, 2);
    ReadU16Is(Truncate(wire, max), 2);
  }

  /** The result is within the limit exactly when the message is, or its header and questions are. */
  lemma FitsExactlyWithQuestions(m: Message, max: nat)
    requires ValidMessage(m)
    ensures |Truncate(Encode(m), max)| <= max <==> |Encode(m)| <= max || AnswersAt(m) <= max
  {
    if |Encode(m)| > max { CutFits(m, max); }
  }

  lemma CutFits(m: Message, max: nat)
    requires ValidMessage(m) && |Encode(m)| > max
    ensures |Truncate(Encode(m), max)| <= max <==> AnswersAt(m) <= max
  {
    var k := Fitting(m.answers, max - AnswersAt(m));
    TruncateRefines(m, max);
    TruncatedLength(m, k);
    if AnswersAt(m) <= max { FittingIsLongest(m.answers, max - AnswersAt(m), k); }
  }
}
