/** Whole messages (section 4.1 of RFC 1035): an abstract message with its encoding, and the section
  * walks that the rewriting functions of src/dns/parser.rs share. */
module Messages {
  import opened Bytes
  import opened Wrappers
  import opened WireNames

  const HEADER := 12
  const OPT := 41

  /** The lowest `k` octets of `n`, highest first. */
  function BigEndian(n: nat, k: nat): (r: seq<byte>)
    ensures |r| == k
    decreases k, n
  {
    if k == 0 then [] else BigEndian(n / 256, k - 1) + [n % 256]
  }

  function ReadBig(buf: seq<byte>, i: nat, k: nat): nat
    requires i + k <= |buf|
    decreases k, i
  {
    if k == 0 then 0 else ReadBig(buf, i, k - 1) * 256 + buf[i + k - 1] as int
  }

  /** `(n as u16).to_be_bytes()` */
  function U16(n: nat): (r: seq<byte>)
    ensures |r| == 2
  {
    BigEndian(n, 2)
  }

  function U32(n: nat): (r: seq<byte>)
    ensures |r| == 4
  {
    BigEndian(n, 4)
  }

  function ReadU16(buf: seq<byte>, i: nat): (n: nat)
    requires i + 2 <= |buf|
    ensures n < 0x1_0000
  {
    assert ReadBig(buf, i, 1) < 256;
    ReadBig(buf, i, 2)
  }

  function ReadU32(buf: seq<byte>, i: nat): (n: nat)
    requires i + 4 <= |buf|
    ensures n < 0x1_0000_0000
  {
    assert ReadBig(buf, i, 1) < 256;
    assert ReadBig(buf, i, 2) < 0x1_0000;
    assert ReadBig(buf, i, 3) < 0x100_0000;
    ReadBig(buf, i, 4)
  }

  /** `x` stands in `buf` at `pos`. */
  ghost predicate At(buf: seq<byte>, pos: nat, x: seq<byte>) {
    pos + |x| <= |buf| && buf[pos..pos + |x|] == x
  }

  lemma AtSplit(buf: seq<byte>, pos: nat, x: seq<byte>, y: seq<byte>)
    ensures At(buf, pos, x + y) <==> At(buf, pos, x) && At(buf, pos + |x|, y)
  {
    var z := x + y;
    assert z[..|x|] == x && z[|x|..] == y;
    if At(buf, pos, z) {
      assert buf[pos..pos + |x|] == z[..|x|];
      assert buf[pos + |x|..pos + |x| + |y|] == z[|x|..];
    }
    if At(buf, pos, x) && At(buf, pos + |x|, y) {
      assert buf[pos..pos + |z|] == buf[pos..pos + |x|] + buf[pos + |x|..pos + |x| + |y|];
    }
  }

  lemma ReadU16Is(buf: seq<byte>, i: nat)
    requires i + 2 <= |buf|
    ensures ReadU16(buf, i) == buf[i] as int * 256 + buf[i + 1] as int
  {
    assert ReadBig(buf, i, 1) == buf[i] as int;
  }

  lemma ReadU16Suffix(buf: seq<byte>, pos: nat, i: nat)
    requires pos + i + 2 <= |buf|
    ensures ReadU16(buf[pos..], i) == ReadU16(buf, pos + i)
  {
    ReadU16Is(buf, pos + i);
    ReadU16Is(buf[pos..], i);
  }

  lemma U16Is(n: nat)
    ensures U16(n) == [n / 256 % 256, n % 256]
  {
    assert BigEndian(n / 256, 1) == [n / 256 % 256];
  }

  function Power256(k: nat): (p: nat)
    ensures p > 0
  {
    if k == 0 then 1 else 256 * Power256(k - 1)
  }

  /** Reading undoes writing while the number fits. */
  lemma {:induction false} ReadBigAt(buf: seq<byte>, pos: nat, n: nat, k: nat)
    requires n < Power256(k) && At(buf, pos, BigEndian(n, k))
    ensures ReadBig(buf, pos, k) == n
    decreases k
  {
    if k == 0 {
    } else {
      AtSplit(buf, pos, BigEndian(n / 256, k - 1), [n % 256]);
      ReadBigAt(buf, pos, n / 256, k - 1);
      assert buf[pos + k - 1..pos + k][0] == n % 256;
    }
  }

  lemma ReadU16At(buf: seq<byte>, pos: nat, n: nat)
    requires n < 0x1_0000 && At(buf, pos, U16(n))
    ensures ReadU16(buf, pos) == n
  {
    assert Power256(1) == 256 && Power256(2) == 0x1_0000;
    ReadBigAt(buf, pos, n, 2);
  }

  lemma ReadU32At(buf: seq<byte>, pos: nat, n: nat)
    requires n < 0x1_0000_0000 && At(buf, pos, U32(n))
    ensures ReadU32(buf, pos) == n
  {
    assert Power256(1) == 256 && Power256(2) == 0x1_0000 && Power256(3) == 0x100_0000;
    ReadBigAt(buf, pos, n, 4);
  }

  // ---------------------------------------------------------------- messages

  /** Names are kept as they stand on the wire, compression pointers included. */
  datatype Question = Question(name: seq<byte>, qtype: nat, qclass: nat)

  datatype Record = Record(name: seq<byte>, rtype: nat, class_: nat, ttl: nat, rdata: seq<byte>)

  datatype Message = Message(id: nat, flags: nat, questions: seq<Question>, answers: seq<Record>,
                             authority: seq<Record>, additional: seq<Record>)

  /** Octets that skip as one whole name. */
  predicate IsName(n: seq<byte>) { SkipName(n, 0) == Some(|n|) }

  predicate ValidQuestion(q: Question) { IsName(q.name) && q.qtype < 0x1_0000 && q.qclass < 0x1_0000 }

  predicate ValidRecord(r: Record) {
    IsName(r.name) && r.rtype < 0x1_0000 && r.class_ < 0x1_0000 && r.ttl < 0x1_0000_0000 && |r.rdata| < 0x1_0000
  }

  predicate ValidQuestions(qs: seq<Question>) { forall q <- qs :: ValidQuestion(q) }

  predicate ValidRecords(rs: seq<Record>) { forall r <- rs :: ValidRecord(r) }

  predicate ValidMessage(m: Message) {
    && m.id < 0x1_0000 && m.flags < 0x1_0000
    && ValidQuestions(m.questions) && |m.questions| < 0x1_0000
    && ValidRecords(m.answers) && |m.answers| < 0x1_0000
    && ValidRecords(m.authority) && |m.authority| < 0x1_0000
    && ValidRecords(m.additional) && |m.additional| < 0x1_0000
  }

  function QuestionBytes(q: Question): seq<byte>
  {
    q.name + (U16(q.qtype) + U16(q.qclass))
  }

  /** Type, class and TTL. */
  function Fixed(r: Record): (b: seq<byte>)
    ensures |b| == 8
  {
    U16(r.rtype) + (U16(r.class_) + U32(r.ttl))
  }

  function RecordBytes(r: Record): seq<byte>
  {
    r.name + (Fixed(r) + (U16(|r.rdata|) + r.rdata))
  }

  function QuestionsBytes(qs: seq<Question>): seq<byte>
  {
    if qs == [] then [] else QuestionBytes(qs[0]) + QuestionsBytes(qs[1..])
  }

  function RecordsBytes(rs: seq<Record>): seq<byte>
  {
    if rs == [] then [] else RecordBytes(rs[0]) + RecordsBytes(rs[1..])
  }

  function Header(m: Message): (h: seq<byte>)
    ensures |h| == HEADER
  {
    U16(m.id) + (U16(m.flags) + (U16(|m.questions|) + (U16(|m.answers|) + (U16(|m.authority|) + U16(|m.additional|)))))
  }

  /** Questions, answers and authority. */
  function Front(m: Message): seq<byte>
  {
    QuestionsBytes(m.questions) + (RecordsBytes(m.answers) + RecordsBytes(m.authority))
  }

  function Encode(m: Message): seq<byte>
  {
    Header(m) + (Front(m) + RecordsBytes(m.additional))
  }

  lemma {:induction false} RecordsBytesConcat(a: seq<Record>, b: seq<Record>)
    ensures RecordsBytes(a + b) == RecordsBytes(a) + RecordsBytes(b)
    decreases |a|
  {
    if a == [] {
      assert [] + b == b && [] + RecordsBytes(b) == RecordsBytes(b);
    } else {
      assert (a + b)[1..] == a[1..] + b;
      RecordsBytesConcat(a[1..], b);
      assert RecordBytes(a[0]) + (RecordsBytes(a[1..]) + RecordsBytes(b)) == RecordsBytes(a) + RecordsBytes(b);
    }
  }

  // ---------------------------------------------------------------- walking the sections

  /** The question loop: names and four octets each. */
  function SkipQuestions(buf: seq<byte>, pos: nat, n: nat): Option<nat>
    decreases n
  {
    if n == 0 then Some(pos)
    else match SkipName(buf, pos)
      case None => None
      case Some(p) => if p + 4 > |buf| then None else SkipQuestions(buf, p + 4, n - 1)
  }

  /** The answer and authority loop. */
  function SkipRecords(buf: seq<byte>, pos: nat, n: nat): Option<nat>
    decreases n
  {
    if n == 0 then Some(pos)
    else match SkipName(buf, pos)
      case None => None
      case Some(p) =>
        if p + 10 > |buf| || p + 10 + ReadU16(buf, p + 8) > |buf| then None
        else SkipRecords(buf, p + 10 + ReadU16(buf, p + 8), n - 1)
  }

  /** On any buffer the section walks end inside it. */
  lemma {:induction false} RecordsBound(buf: seq<byte>, pos: nat, n: nat)
    requires pos <= |buf|
    ensures SkipRecords(buf, pos, n).Some? ==> pos <= SkipRecords(buf, pos, n).value <= |buf|
    decreases n
  {
    if n == 0 || SkipName(buf, pos).None? {
    } else {
      var p := SkipName(buf, pos).value;
      SkipAdvances(buf, pos, 0);
      if p + 10 <= |buf| && p + 10 + ReadU16(buf, p + 8) <= |buf| {
        RecordsBound(buf, p + 10 + ReadU16(buf, p + 8), n - 1);
      }
    }
  }

  /** Where the additional section begins. */
  function AdditionalAt(buf: seq<byte>): Option<nat>
    requires |buf| >= HEADER
  {
    match SkipQuestions(buf, HEADER, ReadU16(buf, 4))
    case None => None
    case Some(p) => SkipRecords(buf, p, ReadU16(buf, 6) + ReadU16(buf, 8))
  }

  /** The loop over questions, shared by every rewriting function. */
  method SkipQuestionSection(buf: seq<byte>) returns (r: Option<nat>)
    requires |buf| >= HEADER
    ensures r == SkipQuestions(buf, HEADER, ReadU16(buf, 4))
  {
    var qdcount := ReadU16(buf, 4);
    var pos: nat := HEADER;
    for i := 0 to qdcount
      invariant SkipQuestions(buf, pos, qdcount - i) == SkipQuestions(buf, HEADER, qdcount)
    {
      var p := SkipDnsName(buf, pos);
      if p.None? || p.value + 4 > |buf| { return None; }
      pos := p.value + 4;
    }
    return Some(pos);
  }

  /** The loops that lead to the additional section. */
  method SkipToAdditional(buf: seq<byte>) returns (r: Option<nat>)
    requires |buf| >= HEADER
    ensures r == AdditionalAt(buf)
  {
    var start := SkipQuestionSection(buf);
    if start.None? { return None; }
    var pos: nat := start.value;
    var count := ReadU16(buf, 6) + ReadU16(buf, 8);
    for i := 0 to count
      invariant SkipRecords(buf, pos, count - i) == SkipRecords(buf, start.value, count)
    {
      var p := SkipDnsName(buf, pos);
      if p.None? || p.value + 10 > |buf| { return None; }
      pos := p.value + 10 + ReadU16(buf, p.value + 8);
      if pos > |buf| { return None; }
    }
    return Some(pos);
  }

  /** The first OPT record among `n` from `pos` on: the offset after its name. */
  function FindOpt(buf: seq<byte>, pos: nat, n: nat): (r: Option<nat>)
    ensures r.Some? ==> pos < r.value && r.value + 10 <= |buf|
    decreases n
  {
    if n == 0 || pos >= |buf| then None
    else match SkipName(buf, pos)
      case None => None
      case Some(p) =>
        SkipAdvances(buf, pos, 0);
        if p + 10 > |buf| then None
        else if ReadU16(buf, p) == OPT then Some(p)
        else if p + 10 + ReadU16(buf, p + 8) > |buf| then None
        else FindOpt(buf, p + 10 + ReadU16(buf, p + 8), n - 1)
  }

  lemma {:induction false} SkipAdvances(buf: seq<byte>, pos: nat, count: nat)
    ensures SkipFrom(buf, pos, count).Some? ==> pos < SkipFrom(buf, pos, count).value <= |buf|
    decreases MAX_STEPS - count
  {
    if pos < |buf| && count < MAX_STEPS && 1 <= buf[pos] <= MAX_LABEL && pos + 1 + buf[pos] <= |buf| {
      SkipAdvances(buf, pos + 1 + buf[pos], count + 1);
    }
  }

  /** The additional loop of `append_ede_to_response` and its siblings. */
  method FindOptRecord(buf: seq<byte>, start: nat, count: nat) returns (r: Option<nat>)
    ensures r == FindOpt(buf, start, count)
  {
    var pos: nat := start;
    for i := 0 to count
      invariant FindOpt(buf, pos, count - i) == FindOpt(buf, start, count)
    {
      if pos >= |buf| { return None; }
      var p := SkipDnsName(buf, pos);
      if p.None? || p.value + 10 > |buf| { return None; }
      if ReadU16(buf, p.value) == OPT { return Some(p.value); }
      pos := p.value + 10 + ReadU16(buf, p.value + 8);
      if pos > |buf| { return None; }
    }
    return None;
  }

  /** The first OPT record of a message: the offset after its name. */
  function OptOf(buf: seq<byte>): (r: Option<nat>)
    requires |buf| >= HEADER
    ensures r.Some? ==> r.value + 10 <= |buf|
  {
    match AdditionalAt(buf)
    case None => None
    case Some(start) => FindOpt(buf, start, ReadU16(buf, 10))
  }

  method FindOptOf(buf: seq<byte>) returns (r: Option<nat>)
    requires |buf| >= HEADER
    ensures r == OptOf(buf)
  {
    var start := SkipToAdditional(buf);
    if start.None? { return None; }
    r := FindOptRecord(buf, start.value, ReadU16(buf, 10));
  }

  // ---------------------------------------------------------------- the walks on encoded messages

  /** Skipping reads only the name itself. */
  lemma {:induction false} SkipShift(name: seq<byte>, i: nat, buf: seq<byte>, pos: nat, count: nat)
    requires i <= |name| && SkipFrom(name, i, count).Some? && At(buf, pos, name)
    ensures SkipFrom(buf, pos + i, count) == Some(pos + SkipFrom(name, i, count).value)
    decreases MAX_STEPS - count
  {
    assert buf[pos..pos + |name|][i] == buf[pos + i];
    if name[i] != 0 && !IsPointer(name[i]) { SkipShift(name, i + 1 + name[i], buf, pos, count + 1); }
  }

  lemma ReadName(buf: seq<byte>, pos: nat, name: seq<byte>)
    requires IsName(name) && At(buf, pos, name)
    ensures SkipName(buf, pos) == Some(pos + |name|)
  {
    SkipShift(name, 0, buf, pos, 0);
  }

  /** What the walks read of a record that stands at `pos`. */
  lemma ReadRecord(buf: seq<byte>, pos: nat, r: Record)
    requires ValidRecord(r) && At(buf, pos, RecordBytes(r))
    ensures var p := pos + |r.name|;
      && SkipName(buf, pos) == Some(p) && pos < p && p + 10 + |r.rdata| == pos + |RecordBytes(r)| <= |buf|
      && ReadU16(buf, p) == r.rtype && ReadU32(buf, p + 4) == r.ttl && ReadU16(buf, p + 8) == |r.rdata|
      && At(buf, p, Fixed(r)) && At(buf, p + 10, r.rdata)
  {
    var p := pos + |r.name|;
    AtSplit(buf, pos, r.name, Fixed(r) + (U16(|r.rdata|) + r.rdata));
    ReadName(buf, pos, r.name);
    SkipAdvances(buf, pos, 0);
    ReadLength(buf, p, Fixed(r), r.rdata);
    ReadFixed(buf, p, r);
  }

  lemma ReadLength(buf: seq<byte>, p: nat, fixed: seq<byte>, rdata: seq<byte>)
    requires |fixed| == 8 && |rdata| < 0x1_0000 && At(buf, p, fixed + (U16(|rdata|) + rdata))
    ensures p + 10 + |rdata| <= |buf| && ReadU16(buf, p + 8) == |rdata| && At(buf, p, fixed) && At(buf, p + 10, rdata)
  {
    AtSplit(buf, p, fixed, U16(|rdata|) + rdata);
    AtSplit(buf, p + 8, U16(|rdata|), rdata);
    ReadU16At(buf, p + 8, |rdata|);
  }

  lemma ReadFixed(buf: seq<byte>, p: nat, r: Record)
    requires ValidRecord(r) && At(buf, p, Fixed(r))
    ensures ReadU16(buf, p) == r.rtype && ReadU32(buf, p + 4) == r.ttl
  {
    AtSplit(buf, p, U16(r.rtype), U16(r.class_) + U32(r.ttl));
    AtSplit(buf, p + 2, U16(r.class_), U32(r.ttl));
    ReadU16At(buf, p, r.rtype);
    ReadU32At(buf, p + 4, r.ttl);
  }

  function QuestionLength(q: Question): nat { |q.name| + 4 }

  function RecordLength(r: Record): nat { |r.name| + 10 + |r.rdata| }

  function QuestionsLength(qs: seq<Question>): nat {
    if qs == [] then 0 else QuestionLength(qs[0]) + QuestionsLength(qs[1..])
  }

  function RecordsLength(rs: seq<Record>): nat {
    if rs == [] then 0 else RecordLength(rs[0]) + RecordsLength(rs[1..])
  }

  predicate QuestionFound(buf: seq<byte>, pos: nat, q: Question) {
    SkipName(buf, pos) == Some(pos + |q.name|) && pos + QuestionLength(q) <= |buf|
  }

  /** The walks read `r` at `pos`. */
  predicate RecordFound(buf: seq<byte>, pos: nat, r: Record) {
    var p := pos + |r.name|;
    && SkipName(buf, pos) == Some(p) && pos < p && pos + RecordLength(r) <= |buf|
    && ReadU16(buf, p) == r.rtype && ReadU16(buf, p + 8) == |r.rdata| && ReadU32(buf, p + 4) == r.ttl
  }

  predicate QuestionsFound(buf: seq<byte>, pos: nat, qs: seq<Question>)
    decreases |qs|
  {
    qs == [] || (QuestionFound(buf, pos, qs[0]) && QuestionsFound(buf, pos + QuestionLength(qs[0]), qs[1..]))
  }

  predicate RecordsFound(buf: seq<byte>, pos: nat, rs: seq<Record>)
    decreases |rs|
  {
    rs == [] || (RecordFound(buf, pos, rs[0]) && RecordsFound(buf, pos + RecordLength(rs[0]), rs[1..]))
  }

  lemma FindQuestion(buf: seq<byte>, pos: nat, q: Question)
    requires ValidQuestion(q) && At(buf, pos, QuestionBytes(q))
    ensures QuestionFound(buf, pos, q) && QuestionLength(q) == |QuestionBytes(q)|
  {
    AtSplit(buf, pos, q.name, U16(q.qtype) + U16(q.qclass));
    ReadName(buf, pos, q.name);
  }

  lemma FindRecord(buf: seq<byte>, pos: nat, r: Record)
    requires ValidRecord(r) && At(buf, pos, RecordBytes(r))
    ensures RecordFound(buf, pos, r) && RecordLength(r) == |RecordBytes(r)|
  {
    ReadRecord(buf, pos, r);
  }

  lemma FirstQuestion(buf: seq<byte>, pos: nat, q: Question, rest: seq<byte>)
    requires ValidQuestion(q) && At(buf, pos, QuestionBytes(q) + rest)
    ensures QuestionFound(buf, pos, q) && At(buf, pos + QuestionLength(q), rest)
  {
    AtSplit(buf, pos, QuestionBytes(q), rest);
    FindQuestion(buf, pos, q);
  }

  lemma FirstRecord(buf: seq<byte>, pos: nat, r: Record, rest: seq<byte>)
    requires ValidRecord(r) && At(buf, pos, RecordBytes(r) + rest)
    ensures RecordFound(buf, pos, r) && At(buf, pos + RecordLength(r), rest)
  {
    AtSplit(buf, pos, RecordBytes(r), rest);
    FindRecord(buf, pos, r);
  }

  lemma {:induction false} FindQuestions(buf: seq<byte>, pos: nat, qs: seq<Question>)
    requires ValidQuestions(qs) && At(buf, pos, QuestionsBytes(qs))
    ensures QuestionsFound(buf, pos, qs)
    decreases |qs|
  {
    if qs == [] {
    } else {
      FirstQuestion(buf, pos, qs[0], QuestionsBytes(qs[1..]));
      FindQuestions(buf, pos + QuestionLength(qs[0]), qs[1..]);
    }
  }

  lemma {:induction false} FindRecords(buf: seq<byte>, pos: nat, rs: seq<Record>)
    requires ValidRecords(rs) && At(buf, pos, RecordsBytes(rs))
    ensures RecordsFound(buf, pos, rs)
    decreases |rs|
  {
    if rs == [] {
    } else {
      assert RecordsBytes(rs) == RecordBytes(rs[0]) + RecordsBytes(rs[1..]);
      FirstRecord(buf, pos, rs[0], RecordsBytes(rs[1..]));
      FindRecords(buf, pos + RecordLength(rs[0]), rs[1..]);
    }
  }

  lemma {:induction false} SkipQuestionsFound(buf: seq<byte>, pos: nat, qs: seq<Question>)
    requires QuestionsFound(buf, pos, qs)
    ensures SkipQuestions(buf, pos, |qs|) == Some(pos + QuestionsLength(qs))
    decreases |qs|
  {
    if qs == [] {
    } else {
      SkipQuestionsFound(buf, pos + QuestionLength(qs[0]), qs[1..]);
    }
  }

  lemma {:induction false} SkipRecordsFound(buf: seq<byte>, pos: nat, rs: seq<Record>)
    requires RecordsFound(buf, pos, rs)
    ensures SkipRecords(buf, pos, |rs|) == Some(pos + RecordsLength(rs))
    decreases |rs|
  {
    if rs == [] {
    } else {
      SkipRecordsFound(buf, pos + RecordLength(rs[0]), rs[1..]);
    }
  }

  /** The header of `m` as the functions read it. */
  lemma ReadHeader(buf: seq<byte>, m: Message)
    requires ValidMessage(m) && At(buf, 0, Header(m))
    ensures ReadU16(buf, 0) == m.id && ReadU16(buf, 2) == m.flags && ReadU16(buf, 4) == |m.questions|
    ensures ReadU16(buf, 6) == |m.answers| && ReadU16(buf, 8) == |m.authority| && ReadU16(buf, 10) == |m.additional|
  {
    var x8 := U16(|m.authority|) + U16(|m.additional|);
    var x6 := U16(|m.answers|) + x8;
    var x4 := U16(|m.questions|) + x6;
    var x2 := U16(m.flags) + x4;
    AtSplit(buf, 0, U16(m.id), x2);
    AtSplit(buf, 2, U16(m.flags), x4);
    AtSplit(buf, 4, U16(|m.questions|), x6);
    AtSplit(buf, 6, U16(|m.answers|), x8);
    AtSplit(buf, 8, U16(|m.authority|), U16(|m.additional|));
    ReadU16At(buf, 0, m.id);
    ReadU16At(buf, 2, m.flags);
    ReadU16At(buf, 4, |m.questions|);
    ReadU16At(buf, 6, |m.answers|);
    ReadU16At(buf, 8, |m.authority|);
    ReadU16At(buf, 10, |m.additional|);
  }

  lemma AtWhole(buf: seq<byte>)
    ensures At(buf, 0, buf)
  {
  }

  lemma {:induction false} BytesLength(rs: seq<Record>)
    ensures |RecordsBytes(rs)| == RecordsLength(rs)
    decreases |rs|
  {
    if rs == [] {
    } else {
      BytesLength(rs[1..]);
    }
  }

  lemma {:induction false} QuestionsBytesLength(qs: seq<Question>)
    ensures |QuestionsBytes(qs)| == QuestionsLength(qs)
    decreases |qs|
  {
    if qs == [] {
    } else {
      QuestionsBytesLength(qs[1..]);
    }
  }

  /** Where the sections of an encoded message begin. */
  function AnswersAt(m: Message): nat { HEADER + QuestionsLength(m.questions) }

  function ExtraAt(m: Message): nat { AnswersAt(m) + RecordsLength(m.answers + m.authority) }

  lemma Parts(buf: seq<byte>, h: seq<byte>, q: seq<byte>, an: seq<byte>, ns: seq<byte>, ar: seq<byte>)
    requires h + ((q + (an + ns)) + ar) <= buf
    ensures At(buf, 0, h) && At(buf, |h|, q) && At(buf, |h| + |q|, an) && At(buf, |h| + |q|, an + ns)
    ensures At(buf, |h| + |q| + |an + ns|, ar)
  {
    assert At(buf, 0, h + ((q + (an + ns)) + ar));
    AtSplit(buf, 0, h, (q + (an + ns)) + ar);
    AtSplit(buf, |h|, q + (an + ns), ar);
    AtSplit(buf, |h|, q, an + ns);
    AtSplit(buf, |h| + |q|, an, ns);
  }

  /** The sections of an encoded message stand one after the other, whatever follows. */
  lemma Sections(buf: seq<byte>, m: Message)
    requires Encode(m) <= buf
    ensures At(buf, 0, Header(m)) && At(buf, HEADER, QuestionsBytes(m.questions))
    ensures At(buf, AnswersAt(m), RecordsBytes(m.answers))
    ensures At(buf, AnswersAt(m), RecordsBytes(m.answers + m.authority))
    ensures At(buf, ExtraAt(m), RecordsBytes(m.additional)) && ExtraAt(m) == HEADER + |Front(m)|
  {
    Parts(buf, Header(m), QuestionsBytes(m.questions), RecordsBytes(m.answers), RecordsBytes(m.authority), RecordsBytes(m.additional));
    RecordsBytesConcat(m.answers, m.authority);
    BytesLength(m.answers + m.authority);
    QuestionsBytesLength(m.questions);
  }

  predicate HeaderFound(buf: seq<byte>, m: Message) {
    && |buf| >= HEADER && ReadU16(buf, 0) == m.id && ReadU16(buf, 2) == m.flags
    && ReadU16(buf, 4) == |m.questions| && ReadU16(buf, 6) == |m.answers|
    && ReadU16(buf, 8) == |m.authority| && ReadU16(buf, 10) == |m.additional|
  }

  /** The walks find an encoded message, whatever follows it. */
  lemma Layout(buf: seq<byte>, m: Message)
    requires ValidMessage(m) && Encode(m) <= buf
    ensures HeaderFound(buf, m) && QuestionsFound(buf, HEADER, m.questions)
    ensures RecordsFound(buf, AnswersAt(m), m.answers) && RecordsFound(buf, ExtraAt(m), m.additional)
    ensures AdditionalAt(buf) == Some(ExtraAt(m))
  {
    Sections(buf, m);
    ReadHeader(buf, m);
    FindQuestions(buf, HEADER, m.questions);
    FindRecords(buf, AnswersAt(m), m.answers);
    FindRecords(buf, AnswersAt(m), m.answers + m.authority);
    FindRecords(buf, ExtraAt(m), m.additional);
    AdditionalFrom(buf, m);
  }

  lemma AdditionalFrom(buf: seq<byte>, m: Message)
    requires HeaderFound(buf, m)
    requires QuestionsFound(buf, HEADER, m.questions) && RecordsFound(buf, AnswersAt(m), m.answers + m.authority)
    ensures AdditionalAt(buf) == Some(ExtraAt(m))
  {
    SkipQuestionsFound(buf, HEADER, m.questions);
    var rs := m.answers + m.authority;
    assert |rs| == |m.answers| + |m.authority|;
    SkipRecordsFound(buf, AnswersAt(m), rs);
  }

  lemma Group<T>(a: seq<T>, n: seq<T>, f: seq<T>, l: seq<T>, d: seq<T>, o: seq<T>, b: seq<T>)
    ensures a + n + f + l + d + o + b == a + ((n + (f + (l + (d + o)))) + b)
  {
  }

  lemma RecordAround(a: seq<byte>, r: Record, b: seq<byte>)
    requires ValidRecord(r)
    ensures RecordFound(a + (RecordBytes(r) + b), |a|, r)
    ensures a + (RecordBytes(r) + b) == a + r.name + Fixed(r) + U16(|r.rdata|) + r.rdata + b
  {
    var buf := a + (RecordBytes(r) + b);
    AtWhole(buf);
    AtSplit(buf, 0, a, RecordBytes(r) + b);
    AtSplit(buf, |a|, RecordBytes(r), b);
    FindRecord(buf, |a|, r);
    Group(a, r.name, Fixed(r), U16(|r.rdata|), r.rdata, [], b);
    assert r.rdata + [] == r.rdata;
  }

  lemma RecordAroundTtl(a: seq<byte>, r: Record, b: seq<byte>, ttl: nat)
    ensures a + (RecordBytes(r.(ttl := ttl)) + b) ==
            a + r.name + (U16(r.rtype) + U16(r.class_)) + U32(ttl) + (U16(|r.rdata|) + r.rdata + b)
  {
    var s := r.(ttl := ttl);
    Group(a, s.name, U16(s.rtype) + (U16(s.class_) + U32(s.ttl)), U16(|s.rdata|), s.rdata, [], b);
    assert s.rdata + [] == s.rdata;
    assert U16(s.rtype) + (U16(s.class_) + U32(s.ttl)) == U16(s.rtype) + U16(s.class_) + U32(s.ttl);
  }

  // ---------------------------------------------------------------- what the walks read

  /** The same octets before `e`. */
  ghost predicate Agree(a: seq<byte>, b: seq<byte>, e: nat) {
    e <= |a| && e <= |b| && a[..e] == b[..e]
  }

  lemma AgreeLess(a: seq<byte>, b: seq<byte>, e: nat, d: nat)
    requires Agree(a, b, e) && d <= e
    ensures Agree(a, b, d)
  {
    assert a[..d] == a[..e][..d] && b[..d] == b[..e][..d];
  }

  lemma AgreeAt(a: seq<byte>, b: seq<byte>, e: nat, i: nat)
    requires Agree(a, b, e) && i < e
    ensures a[i] == b[i] && (i + 1 < e ==> ReadU16(a, i) == ReadU16(b, i))
  {
    assert a[i] == a[..e][i] && b[i] == b[..e][i];
    if i + 1 < e {
      assert a[i + 1] == a[..e][i + 1] && b[i + 1] == b[..e][i + 1];
      ReadU16Is(a, i);
      ReadU16Is(b, i);
    }
  }

  /** Skipping reads nothing from the end of the name on. */
  lemma {:induction false} SkipLocal(a: seq<byte>, b: seq<byte>, pos: nat, count: nat, e: nat)
    requires SkipFrom(a, pos, count).Some? && SkipFrom(a, pos, count).value <= e && Agree(a, b, e)
    ensures SkipFrom(b, pos, count) == SkipFrom(a, pos, count)
    decreases MAX_STEPS - count
  {
    SkipAdvances(a, pos, count);
    AgreeAt(a, b, e, pos);
    if a[pos] != 0 && !IsPointer(a[pos]) { SkipLocal(a, b, pos + 1 + a[pos], count + 1, e); }
  }

  lemma {:induction false} SkipQuestionsLocal(a: seq<byte>, b: seq<byte>, pos: nat, n: nat, e: nat)
    requires SkipQuestions(a, pos, n).Some? && SkipQuestions(a, pos, n).value <= e && Agree(a, b, e)
    ensures SkipQuestions(b, pos, n) == SkipQuestions(a, pos, n)
    decreases n
  {
    if n == 0 {
    } else {
      var p := SkipName(a, pos).value;
      QuestionsAdvance(a, p + 4, n - 1);
      SkipLocal(a, b, pos, 0, e);
      SkipQuestionsLocal(a, b, p + 4, n - 1, e);
    }
  }

  lemma {:induction false} QuestionsAdvance(buf: seq<byte>, pos: nat, n: nat)
    ensures SkipQuestions(buf, pos, n).Some? ==> pos <= SkipQuestions(buf, pos, n).value
    decreases n
  {
    if n > 0 && SkipName(buf, pos).Some? {
      SkipAdvances(buf, pos, 0);
      if SkipName(buf, pos).value + 4 <= |buf| { QuestionsAdvance(buf, SkipName(buf, pos).value + 4, n - 1); }
    }
  }

  /** Where the record at `pos` ends, if it is all there. */
  function RecordEnd(buf: seq<byte>, pos: nat): Option<nat> {
    match SkipName(buf, pos)
    case None => None
    case Some(p) =>
      if p + 10 > |buf| || p + 10 + ReadU16(buf, p + 8) > |buf| then None else Some(p + 10 + ReadU16(buf, p + 8))
  }

  lemma RecordEndLocal(a: seq<byte>, b: seq<byte>, pos: nat, e: nat)
    requires RecordEnd(a, pos).Some? && RecordEnd(a, pos).value <= e && Agree(a, b, e)
    ensures RecordEnd(b, pos) == RecordEnd(a, pos) && pos < RecordEnd(a, pos).value
  {
    var p := SkipName(a, pos).value;
    SkipAdvances(a, pos, 0);
    SkipLocal(a, b, pos, 0, e);
    AgreeAt(a, b, e, p + 8);
  }

  lemma {:induction false} RecordsAdvance(buf: seq<byte>, pos: nat, n: nat)
    ensures SkipRecords(buf, pos, n).Some? ==> pos <= SkipRecords(buf, pos, n).value
    decreases n
  {
    if n > 0 && RecordEnd(buf, pos).Some? {
      SkipAdvances(buf, pos, 0);
      RecordsAdvance(buf, RecordEnd(buf, pos).value, n - 1);
    }
  }

  lemma {:induction false} SkipRecordsLocal(a: seq<byte>, b: seq<byte>, pos: nat, n: nat, e: nat)
    requires SkipRecords(a, pos, n).Some? && SkipRecords(a, pos, n).value <= e && Agree(a, b, e)
    ensures SkipRecords(b, pos, n) == SkipRecords(a, pos, n)
    decreases n
  {
    if n == 0 {
    } else {
      var q := RecordEnd(a, pos).value;
      RecordsAdvance(a, q, n - 1);
      RecordEndLocal(a, b, pos, e);
      SkipRecordsLocal(a, b, q, n - 1, e);
    }
  }

  /** The way to the additional section depends only on what precedes it. */
  lemma AdditionalLocal(a: seq<byte>, b: seq<byte>, e: nat)
    requires |a| >= HEADER && AdditionalAt(a).Some? && AdditionalAt(a).value <= e && HEADER <= e && Agree(a, b, e)
    ensures |b| >= HEADER && AdditionalAt(b) == AdditionalAt(a)
  {
    var q := SkipQuestions(a, HEADER, ReadU16(a, 4)).value;
    AgreeAt(a, b, e, 4);
    AgreeAt(a, b, e, 6);
    AgreeAt(a, b, e, 8);
    RecordsAdvance(a, q, ReadU16(a, 6) + ReadU16(a, 8));
    SkipQuestionsLocal(a, b, HEADER, ReadU16(a, 4), e);
    SkipRecordsLocal(a, b, q, ReadU16(a, 6) + ReadU16(a, 8), e);
  }

  /** Finding the OPT record depends only on what precedes its RDLENGTH. */
  lemma {:induction false} FindOptLocal(a: seq<byte>, b: seq<byte>, pos: nat, n: nat, p: nat)
    requires FindOpt(a, pos, n) == Some(p) && Agree(a, b, p + 2) && p + 10 <= |b|
    ensures FindOpt(b, pos, n) == Some(p)
    decreases n
  {
    var name := SkipName(a, pos).value;
    if name == p {
      SkipLocal(a, b, pos, 0, p + 2);
      AgreeAt(a, b, p + 2, p);
    } else {
      var q := RecordEnd(a, pos).value;
      AgreeLess(a, b, p + 2, p);
      RecordEndLocal(a, b, pos, p);
      SkipLocal(a, b, pos, 0, p);
      AgreeAt(a, b, p, name);
      FindOptLocal(a, b, q, n - 1, p);
      FindOptPast(b, pos, n);
    }
  }

  lemma StartIsLate(wire: seq<byte>)
    requires |wire| >= HEADER && AdditionalAt(wire).Some?
    ensures AdditionalAt(wire).value >= HEADER
  {
    QuestionsAdvance(wire, HEADER, ReadU16(wire, 4));
    RecordsAdvance(wire, SkipQuestions(wire, HEADER, ReadU16(wire, 4)).value, ReadU16(wire, 6) + ReadU16(wire, 8));
  }

  /** Where the first OPT record is depends only on what precedes its RDLENGTH. */
  lemma OptOfLocal(a: seq<byte>, b: seq<byte>, p: nat)
    requires |a| >= HEADER && OptOf(a) == Some(p) && Agree(a, b, p + 2) && p + 10 <= |b|
    ensures |b| >= HEADER && OptOf(b) == Some(p)
  {
    var start := AdditionalAt(a).value;
    StartIsLate(a);
    assert start < p;
    AdditionalLocal(a, b, p + 2);
    AgreeAt(a, b, p + 2, 10);
    FindOptLocal(a, b, start, ReadU16(a, 10), p);
  }

  lemma FindOptPast(buf: seq<byte>, pos: nat, n: nat)
    requires n > 0 && RecordEnd(buf, pos).Some? && ReadU16(buf, SkipName(buf, pos).value) != OPT
    ensures FindOpt(buf, pos, n) == FindOpt(buf, RecordEnd(buf, pos).value, n - 1)
  {
    SkipAdvances(buf, pos, 0);
  }
}
