/** What appending EDNS options does to the message: one OPT record, the old options, then the new. */
module EdnsLaws {
  import opened Bytes
  import opened Wrappers
  import opened WireNames
  import opened Messages
  import opened Edns

  // ---------------------------------------------------------------- the OPT record of a message

  /** Index of the first OPT record, the length if there is none. */
  function FirstOpt(rs: seq<Record>): (k: nat)
    ensures k <= |rs| && (k < |rs| ==> rs[k].rtype == OPT)
  {
    if rs == [] || rs[0].rtype == OPT then 0 else 1 + FirstOpt(rs[1..])
  }

  function OptCount(rs: seq<Record>): nat {
    if rs == [] then 0 else (if rs[0].rtype == OPT then 1 else 0) + OptCount(rs[1..])
  }

  /** The records that are not OPT, in order. */
  function Others(rs: seq<Record>): seq<Record> {
    if rs == [] then [] else (if rs[0].rtype == OPT then [] else [rs[0]]) + Others(rs[1..])
  }

  predicate HasOpt(m: Message) { FirstOpt(m.additional) < |m.additional| }

  /** RDATA of the first OPT record, empty if there is none. */
  function OptRdata(m: Message): seq<byte> {
    if HasOpt(m) then m.additional[FirstOpt(m.additional)].rdata else []
  }

  /** The OPT record `ede_append_new_opt` writes. */
  function FreshOpt(rdata: seq<byte>): Record { Record([0], OPT, 4096, 0, rdata) }

  /** `rdata` in the first OPT record, or in a fresh one at the end. */
  function WithRdata(m: Message, rdata: seq<byte>): Message {
    var k := FirstOpt(m.additional);
    if HasOpt(m) then m.(additional := m.additional[k := m.additional[k].(rdata := rdata)])
    else m.(additional := m.additional + [FreshOpt(rdata)])
  }

  /** The 16-bit limits on one more option of `size` octets. */
  predicate Fits(m: Message, size: nat) {
    |OptRdata(m)| + size < 0x1_0000 && (HasOpt(m) || |m.additional| < 0xFFFF)
  }

  // ---------------------------------------------------------------- finding it

  /** Offset of the first OPT record's type. */
  function OptOffset(rs: seq<Record>): nat {
    if rs == [] then 0
    else if rs[0].rtype == OPT then |rs[0].name|
    else RecordLength(rs[0]) + OptOffset(rs[1..])
  }

  lemma {:induction false} OptOffsetIs(rs: seq<Record>)
    requires FirstOpt(rs) < |rs|
    ensures OptOffset(rs) == RecordsLength(rs[..FirstOpt(rs)]) + |rs[FirstOpt(rs)].name|
    decreases |rs|
  {
    if rs[0].rtype != OPT {
      OptOffsetIs(rs[1..]);
      assert rs[..FirstOpt(rs)][1..] == rs[1..][..FirstOpt(rs[1..])];
    }
  }

  lemma {:induction false} FindOptFound(buf: seq<byte>, pos: nat, rs: seq<Record>, n: nat)
    requires RecordsFound(buf, pos, rs) && n == |rs|
    ensures FindOpt(buf, pos, n) == if FirstOpt(rs) == |rs| then None else Some(pos + OptOffset(rs))
    decreases |rs|
  {
    if rs == [] {
    } else if rs[0].rtype == OPT {
      FindOptHit(buf, pos, rs[0], n);
    } else {
      FindOptFound(buf, pos + RecordLength(rs[0]), rs[1..], n - 1);
      FindOptStep(buf, pos, rs[0], n);
    }
  }

  lemma FindOptHit(buf: seq<byte>, pos: nat, r: Record, n: nat)
    requires RecordFound(buf, pos, r) && r.rtype == OPT && n > 0
    ensures FindOpt(buf, pos, n) == Some(pos + |r.name|)
  {
  }

  lemma FindOptStep(buf: seq<byte>, pos: nat, r: Record, n: nat)
    requires RecordFound(buf, pos, r) && r.rtype != OPT && n > 0
    ensures FindOpt(buf, pos, n) == FindOpt(buf, pos + RecordLength(r), n - 1)
  {
  }

  function Types(rs: seq<Record>): seq<nat> { seq(|rs|, i requires 0 <= i < |rs| => rs[i].rtype) }

  lemma {:induction false} FirstOptInTypes(rs: seq<Record>)
    ensures FirstOpt(rs) < |rs| <==> OPT in Types(rs)
    decreases |rs|
  {
    if rs == [] {
    } else {
      FirstOptInTypes(rs[1..]);
      assert Types(rs) == [rs[0].rtype] + Types(rs[1..]);
    }
  }

  // ---------------------------------------------------------------- editing it

  lemma ReplaceRecord(buf: seq<byte>, a: seq<byte>, r: Record, b: seq<byte>, p: nat, rdata: seq<byte>)
    requires ValidRecord(r) && buf == a + (RecordBytes(r) + b) && p == |a| + |r.name|
    ensures p + 10 <= |buf| && RdataEnd(buf, p) == p + 10 + |r.rdata| <= |buf| &&
            buf[p + 10..RdataEnd(buf, p)] == r.rdata
    ensures Replace(buf, p, rdata) == a + (RecordBytes(r.(rdata := rdata)) + b)
  {
    RecordAround(a, r, b);
    var u := a + r.name + Fixed(r);
    assert buf == u + U16(|r.rdata|) + r.rdata + b;
    assert buf[..p + 8] == u && buf[p + 10..p + 10 + |r.rdata|] == r.rdata && buf[p + 10 + |r.rdata|..] == b;
    Group(a, r.name, Fixed(r), U16(|rdata|), rdata, [], b);
    assert rdata + [] == rdata;
    SameFixed(r, rdata);
  }

  lemma SameFixed(r: Record, rdata: seq<byte>)
    ensures Fixed(r.(rdata := rdata)) == Fixed(r)
  {
  }

  /** What precedes the k-th additional record in an encoded message. */
  function Before(m: Message, k: nat): seq<byte>
    requires k <= |m.additional|
  {
    Header(m) + Front(m) + RecordsBytes(m.additional[..k])
  }

  lemma EncodeAround(m: Message, k: nat)
    requires k < |m.additional|
    ensures Encode(m) == Before(m, k) + (RecordBytes(m.additional[k]) + RecordsBytes(m.additional[k + 1..]))
  {
    var rs := m.additional;
    assert rs == rs[..k] + ([rs[k]] + rs[k + 1..]);
    RecordsBytesConcat(rs[..k], [rs[k]] + rs[k + 1..]);
    assert ([rs[k]] + rs[k + 1..])[1..] == rs[k + 1..];
    Regroup(Header(m), Front(m), RecordsBytes(rs[..k]), RecordBytes(rs[k]) + RecordsBytes(rs[k + 1..]));
  }

  lemma Regroup<T>(a: seq<T>, b: seq<T>, c: seq<T>, d: seq<T>)
    ensures a + (b + (c + d)) == a + b + c + d
  {
  }

  lemma ExtraFound(m: Message)
    requires ValidMessage(m)
    ensures var buf := Encode(m);
      && |buf| >= HEADER && AdditionalAt(buf) == Some(ExtraAt(m)) && ReadU16(buf, 10) == |m.additional|
      && RecordsFound(buf, ExtraAt(m), m.additional) && ExtraAt(m) == |Header(m) + Front(m)|
  {
    Layout(Encode(m), m);
    Sections(Encode(m), m);
  }

  /** Where the OPT record of an encoded message is. */
  function OptAt(m: Message): nat
    requires HasOpt(m)
  {
    var k := FirstOpt(m.additional);
    |Before(m, k)| + |m.additional[k].name|
  }

  lemma OptAtIs(m: Message)
    requires HasOpt(m)
    ensures OptAt(m) == ExtraAt(m) + OptOffset(m.additional)
  {
    OptOffsetIs(m.additional);
    BytesLength(m.additional[..FirstOpt(m.additional)]);
    FrontLength(m);
  }

  lemma FrontLength(m: Message)
    ensures |Header(m) + Front(m)| == ExtraAt(m)
  {
    QuestionsBytesLength(m.questions);
    RecordsBytesConcat(m.answers, m.authority);
    BytesLength(m.answers + m.authority);
  }

  lemma ExtraLayout(buf: seq<byte>, m: Message)
    requires ValidMessage(m) && Encode(m) <= buf
    ensures HeaderFound(buf, m) && AdditionalAt(buf) == Some(ExtraAt(m)) && RecordsFound(buf, ExtraAt(m), m.additional)
  {
    Layout(buf, m);
  }

  lemma OptThere(buf: seq<byte>, m: Message, at: nat)
    requires HeaderFound(buf, m) && AdditionalAt(buf) == Some(ExtraAt(m)) && RecordsFound(buf, ExtraAt(m), m.additional)
    requires HasOpt(m) && at == ExtraAt(m) + OptOffset(m.additional)
    ensures OptOf(buf) == Some(at)
  {
    FindOptFound(buf, ExtraAt(m), m.additional, ReadU16(buf, 10));
  }

  lemma OptNowhere(buf: seq<byte>, m: Message)
    requires HeaderFound(buf, m) && AdditionalAt(buf) == Some(ExtraAt(m)) && RecordsFound(buf, ExtraAt(m), m.additional)
    requires !HasOpt(m)
    ensures OptOf(buf) == None
  {
    FindOptFound(buf, ExtraAt(m), m.additional, ReadU16(buf, 10));
  }

  /** The functions find the OPT record of an encoded message, whatever follows the message. */
  lemma OptFound(buf: seq<byte>, m: Message)
    requires ValidMessage(m) && Encode(m) <= buf
    ensures |buf| >= HEADER && OptOf(buf) == if HasOpt(m) then Some(OptAt(m)) else None
  {
    ExtraLayout(buf, m);
    if HasOpt(m) {
      OptAtIs(m);
      OptThere(buf, m, OptAt(m));
    } else {
      OptNowhere(buf, m);
    }
  }

  /** `has_edns` holds exactly of the messages with an OPT record in their additional section. */
  lemma HasEdnsExactlyWithOpt(m: Message)
    requires ValidMessage(m)
    ensures HasEdns(Encode(m)) <==> OPT in Types(m.additional)
  {
    OptFound(Encode(m), m);
    FirstOptInTypes(m.additional);
  }

  /** Replacing the RDATA of the OPT record of an encoded message. */
  lemma ReplaceEncoded(m: Message, rdata: seq<byte>)
    requires ValidMessage(m) && HasOpt(m)
    ensures var p := OptAt(m); p + 10 <= |Encode(m)| && RdataEnd(Encode(m), p) == p + 10 + |OptRdata(m)| <= |Encode(m)|
    ensures Encode(m)[OptAt(m) + 10..RdataEnd(Encode(m), OptAt(m))] == OptRdata(m)
    ensures Replace(Encode(m), OptAt(m), rdata) == Encode(WithRdata(m, rdata))
  {
    var k := FirstOpt(m.additional);
    var r := m.additional[k];
    assert r in m.additional;
    EncodeAround(m, k);
    ReplaceRecord(Encode(m), Before(m, k), r, RecordsBytes(m.additional[k + 1..]), OptAt(m), rdata);
    EncodeReplaced(m, k, r.(rdata := rdata));
  }

  /** Inserting into the OPT record. */
  lemma SpliceRefines(m: Message, option: seq<byte>)
    requires ValidMessage(m) && HasOpt(m) && Fits(m, |option|)
    ensures |Encode(m)| >= HEADER && OptAt(m) + 10 <= |Encode(m)|
    ensures AppendTo(Encode(m), Some(OptAt(m)), option) == Encode(WithRdata(m, OptRdata(m) + option))
  {
    ReplaceEncoded(m, OptRdata(m) + option);
    OptFound(Encode(m), m);
    SpliceIsReplace(Encode(m), OptAt(m), OptRdata(m), option);
  }

  lemma SpliceIsReplace(wire: seq<byte>, p: nat, rdata: seq<byte>, option: seq<byte>)
    requires |wire| >= HEADER && p + 10 <= |wire| && RdataEnd(wire, p) == p + 10 + |rdata| <= |wire|
    requires wire[p + 10..RdataEnd(wire, p)] == rdata && |rdata| + |option| < 0x1_0000
    ensures AppendTo(wire, Some(p), option) == Replace(wire, p, rdata + option)
  {
  }

  lemma EncodeReplaced(m: Message, k: nat, edited: Record)
    requires k < |m.additional|
    ensures Encode(m.(additional := m.additional[k := edited])) ==
            Before(m, k) + (RecordBytes(edited) + RecordsBytes(m.additional[k + 1..]))
  {
    var m' := m.(additional := m.additional[k := edited]);
    EncodeAround(m', k);
    assert m'.additional[..k] == m.additional[..k] && m'.additional[k + 1..] == m.additional[k + 1..];
  }

  /** Adding a fresh OPT record at the end. */
  lemma NewOptRefines(m: Message, option: seq<byte>)
    requires ValidMessage(m) && |m.additional| < 0xFFFF
    ensures NewOpt(Encode(m), option) == Encode(m.(additional := m.additional + [FreshOpt(option)]))
  {
    var m' := m.(additional := m.additional + [FreshOpt(option)]);
    var body, added := Front(m) + RecordsBytes(m.additional), FRESH_OPT + U16(|option|) + option;
    ExtraFound(m);
    CountedHeader(m);
    assert Encode(m)[12..] == body;
    FreshBytes(option);
    RecordsBytesConcat(m.additional, [FreshOpt(option)]);
    assert RecordsBytes([FreshOpt(option)]) == added by { assert [FreshOpt(option)][1..] == []; }
    Regroup(Header(m'), Front(m), RecordsBytes(m.additional), added);
    NewOptParts(Header(m'), Front(m), RecordsBytes(m.additional), FRESH_OPT, U16(|option|), option);
  }

  lemma NewOptParts<T>(h: seq<T>, f: seq<T>, r: seq<T>, o: seq<T>, l: seq<T>, d: seq<T>)
    ensures h + (f + r) + o + l + d == h + f + r + (o + l + d)
  {
  }

  lemma CountedHeader(m: Message)
    requires ValidMessage(m) && |m.additional| < 0xFFFF
    ensures forall r: Record :: Encode(m)[..10] + U16(|m.additional| + 1) == Header(m.(additional := m.additional + [r]))
  {
    assert Encode(m)[..10] == Header(m)[..10];
    forall r: Record
      ensures Encode(m)[..10] + U16(|m.additional| + 1) == Header(m.(additional := m.additional + [r]))
    {
      assert Header(m)[..10] == Header(m.(additional := m.additional + [r]))[..10];
    }
  }

  lemma FreshBytes(option: seq<byte>)
    ensures RecordBytes(FreshOpt(option)) == FRESH_OPT + U16(|option|) + option
    ensures IsName([0])
  {
    var r := FreshOpt(option);
    assert Fixed(r) == [0, 41, 16, 0, 0, 0, 0, 0];
    assert [0] + Fixed(r) == FRESH_OPT;
  }

  lemma WithRdataValid(m: Message, rdata: seq<byte>)
    requires ValidMessage(m) && |rdata| < 0x1_0000 && (HasOpt(m) || |m.additional| < 0xFFFF)
    ensures ValidMessage(WithRdata(m, rdata))
  {
    FreshBytes(rdata);
    assert ValidRecord(FreshOpt(rdata));
    var k, rs := FirstOpt(m.additional), m.additional;
    if HasOpt(m) { assert rs[k] in rs; }
  }

  /** On a valid message and within the 16-bit limits, appending on the bytes is appending to the
    * options of the message: everything else stays. */
  lemma AppendRefines(m: Message, option: seq<byte>)
    requires ValidMessage(m) && Fits(m, |option|)
    ensures AppendOption(Encode(m), option) == Encode(WithRdata(m, OptRdata(m) + option))
    ensures ValidMessage(WithRdata(m, OptRdata(m) + option))
  {
    WithRdataValid(m, OptRdata(m) + option);
    OptFound(Encode(m), m);
    if HasOpt(m) {
      SpliceRefines(m, option);
    } else {
      NewOptRefines(m, option);
      assert [] + option == option;
    }
  }

  /** An option that would take RDATA past 65535 octets leaves the message alone. */
  lemma AppendTooLong(m: Message, option: seq<byte>)
    requires ValidMessage(m) && HasOpt(m) && |OptRdata(m)| + |option| > 0xFFFF
    ensures AppendOption(Encode(m), option) == Encode(m)
  {
    OptFound(Encode(m), m);
    ReplaceEncoded(m, OptRdata(m));
    TooLongStays(Encode(m), OptAt(m), option);
  }

  lemma TooLongStays(wire: seq<byte>, p: nat, option: seq<byte>)
    requires |wire| >= HEADER && OptOf(wire) == Some(p) && RdataEnd(wire, p) - p - 10 + |option| > 0xFFFF
    ensures AppendOption(wire, option) == wire
  {
  }

  // ---------------------------------------------------------------- any sequence of appends

  datatype Request = AddEde(code: nat, text: seq<byte>) | AddCookie(client: seq<byte>, server: seq<byte>)

  /** What one call leaves of the bytes. */
  function Apply(wire: seq<byte>, q: Request): seq<byte> {
    match q
    case AddEde(code, text) => AppendOption(wire, OptionBytes(EdeOption(code, text)))
    case AddCookie(client, server) =>
      if client == [] || server == [] then wire else AppendOption(wire, OptionBytes(CookieOption(client, server)))
  }

  function Run(wire: seq<byte>, qs: seq<Request>): seq<byte>
    decreases |qs|
  {
    if qs == [] then wire else Run(Apply(wire, qs[0]), qs[1..])
  }

  /** The options a call asks for: none for a cookie with an empty half. */
  function Asked(q: Request): seq<EdnsOption> {
    match q
    case AddEde(code, text) => [EdeOption(code, text)]
    case AddCookie(client, server) => if client == [] || server == [] then [] else [CookieOption(client, server)]
  }

  function AllAsked(qs: seq<Request>): seq<EdnsOption> {
    if qs == [] then [] else Asked(qs[0]) + AllAsked(qs[1..])
  }

  lemma {:induction false} OptionsConcat(a: seq<EdnsOption>, b: seq<EdnsOption>)
    ensures OptionsBytes(a + b) == OptionsBytes(a) + OptionsBytes(b)
    decreases |a|
  {
    if a == [] {
      assert [] + b == b;
    } else {
      assert (a + b)[1..] == a[1..] + b;
      OptionsConcat(a[1..], b);
    }
  }

  lemma OptionsSnoc(os: seq<EdnsOption>, o: EdnsOption)
    ensures OptionsBytes(os + [o]) == OptionsBytes(os) + OptionBytes(o)
  {
    OptionsConcat(os, [o]);
    assert [o][1..] == [] && OptionBytes(o) + [] == OptionBytes(o);
  }

  /** Editing the OPT record twice is editing it once; there is one afterwards if there was at most one. */
  lemma WithRdataAgain(m: Message, a: seq<byte>, b: seq<byte>)
    ensures HasOpt(WithRdata(m, a)) && OptRdata(WithRdata(m, a)) == a
    ensures WithRdata(WithRdata(m, a), b) == WithRdata(m, b)
  {
    var rs, k := m.additional, FirstOpt(m.additional);
    var rs' := WithRdata(m, a).additional;
    if HasOpt(m) {
      FirstOptIs(rs, rs', k);
      assert rs[k := rs[k].(rdata := a)][k := rs[k].(rdata := b)] == rs[k := rs[k].(rdata := b)];
    } else {
      FirstOptIs(rs + [FreshOpt(a)], rs', k);
      assert (rs + [FreshOpt(a)])[k := FreshOpt(b)] == rs + [FreshOpt(b)];
      FirstOptSnoc(rs, FreshOpt(a));
    }
  }

  lemma {:induction false} FirstOptIs(rs: seq<Record>, rs': seq<Record>, k: nat)
    requires |rs| == |rs'| && k <= |rs| && forall i | 0 <= i < |rs| :: rs[i].rtype == rs'[i].rtype
    ensures FirstOpt(rs) == FirstOpt(rs') && OptCount(rs) == OptCount(rs')
    decreases |rs|
  {
    if rs == [] {
    } else {
      FirstOptIs(rs[1..], rs'[1..], if k > 0 then k - 1 else 0);
    }
  }

  lemma {:induction false} FirstOptSnoc(rs: seq<Record>, r: Record)
    requires r.rtype == OPT
    ensures FirstOpt(rs + [r]) == FirstOpt(rs) && OptCount(rs + [r]) == OptCount(rs) + 1
    decreases |rs|
  {
    if rs != [] {
      assert (rs + [r])[1..] == rs[1..] + [r];
      FirstOptSnoc(rs[1..], r);
    } else {
      assert ([] + [r])[1..] == [];
    }
  }

  lemma {:induction false} NoOptNoCount(rs: seq<Record>)
    ensures OptCount(rs) == 0 <==> FirstOpt(rs) == |rs|
    decreases |rs|
  {
    if rs == [] {
    } else {
      NoOptNoCount(rs[1..]);
    }
  }

  lemma {:induction false} OthersSnoc(rs: seq<Record>, r: Record)
    ensures Others(rs + [r]) == Others(rs) + if r.rtype == OPT then [] else [r]
    decreases |rs|
  {
    if rs != [] {
      assert (rs + [r])[1..] == rs[1..] + [r];
      OthersSnoc(rs[1..], r);
    } else {
      assert ([] + [r])[1..] == [];
    }
  }

  lemma {:induction false} OthersReplace(rs: seq<Record>, k: nat, r: Record)
    requires k < |rs| && rs[k].rtype == OPT && r.rtype == OPT
    ensures Others(rs[k := r]) == Others(rs)
    decreases |rs|
  {
    if k > 0 {
      assert rs[k := r][1..] == rs[1..][k - 1 := r];
      OthersReplace(rs[1..], k - 1, r);
    } else {
      assert rs[0 := r][1..] == rs[1..];
    }
  }

  /** What `WithRdata` changes: the OPT record only, of which there is one afterwards. */
  lemma WithRdataKeeps(m: Message, rdata: seq<byte>)
    requires OptCount(m.additional) <= 1
    ensures var m' := WithRdata(m, rdata);
      && m'.(additional := m.additional) == m && OptCount(m'.additional) == 1 && OptRdata(m') == rdata
      && Others(m'.additional) == Others(m.additional)
  {
    var rs, k := m.additional, FirstOpt(m.additional);
    WithRdataAgain(m, rdata, rdata);
    NoOptNoCount(rs);
    if HasOpt(m) {
      FirstOptIs(rs, WithRdata(m, rdata).additional, k);
      OthersReplace(rs, k, rs[k].(rdata := rdata));
    } else {
      FirstOptSnoc(rs, FreshOpt(rdata));
      OthersSnoc(rs, FreshOpt(rdata));
    }
  }

  /** The message after the calls `qs` on a message with the options `os`. */
  function After(m: Message, os: seq<EdnsOption>, qs: seq<Request>): Message {
    if AllAsked(qs) == [] then m else WithRdata(m, OptionsBytes(os + AllAsked(qs)))
  }

  /** Any sequence of EDE and COOKIE appends, within the 16-bit limits, leaves one OPT record with the
    * old options and then the new ones in order. */
  lemma AppendsAccumulate(m: Message, os: seq<EdnsOption>, qs: seq<Request>)
    requires ValidMessage(m) && OptRdata(m) == OptionsBytes(os) && (HasOpt(m) || |m.additional| < 0xFFFF)
    requires |OptionsBytes(os + AllAsked(qs))| < 0x1_0000
    ensures Run(Encode(m), qs) == Encode(After(m, os, qs)) && ValidMessage(After(m, os, qs))
  {
    RunAccumulates(m, os, qs);
    WithRdataValid(m, OptionsBytes(os + AllAsked(qs)));
  }

  lemma RunStep(wire: seq<byte>, qs: seq<Request>, next: seq<byte>)
    requires qs != [] && Apply(wire, qs[0]) == next
    ensures Run(wire, qs) == Run(next, qs[1..])
  {
  }

  /** The first call, and what is left for the others. */
  lemma FirstOne(m: Message, os: seq<EdnsOption>, o: EdnsOption, qs: seq<Request>)
    requires ValidMessage(m) && OptRdata(m) == OptionsBytes(os) && (HasOpt(m) || |m.additional| < 0xFFFF)
    requires qs != [] && Asked(qs[0]) == [o] && |OptionsBytes(os + AllAsked(qs))| < 0x1_0000
    ensures os + AllAsked(qs) == os + [o] + AllAsked(qs[1..])
    ensures var m' := WithRdata(m, OptionsBytes(os + [o]));
      && ValidMessage(m') && HasOpt(m') && OptRdata(m') == OptionsBytes(os + [o])
      && Run(Encode(m), qs) == Run(Encode(m'), qs[1..]) && After(m, os, qs) == After(m', os + [o], qs[1..])
  {
    var rest := AllAsked(qs[1..]);
    assert AllAsked(qs) == [o] + rest && os + AllAsked(qs) == os + [o] + rest;
    AppendOne(m, os, qs[0], o, rest);
    AfterOne(m, os, o, qs[1..]);
    RunStep(Encode(m), qs, Encode(WithRdata(m, OptionsBytes(os + [o]))));
  }

  lemma {:induction false} RunAccumulates(m: Message, os: seq<EdnsOption>, qs: seq<Request>)
    requires ValidMessage(m) && OptRdata(m) == OptionsBytes(os) && (HasOpt(m) || |m.additional| < 0xFFFF)
    requires |OptionsBytes(os + AllAsked(qs))| < 0x1_0000
    ensures Run(Encode(m), qs) == Encode(After(m, os, qs))
    decreases |qs|
  {
    if qs == [] {
    } else {
      if Asked(qs[0]) == [] {
        assert AllAsked(qs) == AllAsked(qs[1..]);
        RunAccumulates(m, os, qs[1..]);
      } else {
        var o := Asked(qs[0])[0];
        FirstOne(m, os, o, qs);
        RunAccumulates(WithRdata(m, OptionsBytes(os + [o])), os + [o], qs[1..]);
      }
    }
  }

  /** After one option more, the rest of the calls leads to the same message. */
  lemma AfterOne(m: Message, os: seq<EdnsOption>, o: EdnsOption, qs: seq<Request>)
    ensures var m' := WithRdata(m, OptionsBytes(os + [o]));
      && HasOpt(m') && OptRdata(m') == OptionsBytes(os + [o])
      && After(m', os + [o], qs) == WithRdata(m, OptionsBytes(os + [o] + AllAsked(qs)))
  {
    WithRdataAgain(m, OptionsBytes(os + [o]), OptionsBytes(os + [o] + AllAsked(qs)));
    if AllAsked(qs) == [] { assert os + [o] + AllAsked(qs) == os + [o]; }
  }

  lemma AppendOne(m: Message, os: seq<EdnsOption>, q: Request, o: EdnsOption, rest: seq<EdnsOption>)
    requires ValidMessage(m) && OptRdata(m) == OptionsBytes(os) && (HasOpt(m) || |m.additional| < 0xFFFF)
    requires Asked(q) == [o] && |OptionsBytes(os + [o] + rest)| < 0x1_0000
    ensures Apply(Encode(m), q) == Encode(WithRdata(m, OptionsBytes(os + [o])))
    ensures ValidMessage(WithRdata(m, OptionsBytes(os + [o])))
  {
    OptionsConcat(os + [o], rest);
    OptionsSnoc(os, o);
    AppendRefines(m, OptionBytes(o));
    AskedIsApplied(Encode(m), q, o);
  }

  lemma AskedIsApplied(wire: seq<byte>, q: Request, o: EdnsOption)
    requires Asked(q) == [o]
    ensures Apply(wire, q) == AppendOption(wire, OptionBytes(o))
  {
  }

  /** After at least one append the message has exactly one OPT record, `has_edns` holds and every other
    * record, question and header field but the count is as before. */
  lemma AppendsLeaveOneOpt(m: Message, os: seq<EdnsOption>, qs: seq<Request>)
    requires ValidMessage(m) && OptCount(m.additional) <= 1 && OptRdata(m) == OptionsBytes(os)
    requires (HasOpt(m) || |m.additional| < 0xFFFF) && |OptionsBytes(os + AllAsked(qs))| < 0x1_0000 &&
             AllAsked(qs) != []
    ensures var m' := After(m, os, qs);
      && Run(Encode(m), qs) == Encode(m') && HasEdns(Run(Encode(m), qs))
      && OptCount(m'.additional) == 1 && OptRdata(m') == OptionsBytes(os + AllAsked(qs))
      && m'.(additional := m.additional) == m && Others(m'.additional) == Others(m.additional)
  {
    var m' := After(m, os, qs);
    AppendsAccumulate(m, os, qs);
    WithRdataKeeps(m, OptionsBytes(os + AllAsked(qs)));
    HasEdnsExactlyWithOpt(m');
    FirstOptInTypes(m'.additional);
    NoOptNoCount(m'.additional);
  }

  /** The limit on the count matters: a fresh OPT record is found again exactly when the count could
    * grow, since it saturates at 65535. */
  lemma FreshOptCountedExactly(m: Message, option: seq<byte>)
    requires ValidMessage(m) && !HasOpt(m) && |option| < 0x1_0000
    ensures HasEdns(AppendOption(Encode(m), option)) <==> |m.additional| < 0xFFFF
  {
    if |m.additional| < 0xFFFF {
      AppendRefines(m, option);
      WithRdataAgain(m, option, option);
      assert [] + option == option;
      HasEdnsExactlyWithOpt(WithRdata(m, option));
      FirstOptInTypes(WithRdata(m, option).additional);
    } else {
      OptFound(Encode(m), m);
      SaturatedKeeps(m, option);
    }
  }

  lemma SaturatedKeeps(m: Message, option: seq<byte>)
    requires ValidMessage(m) && !HasOpt(m) && |m.additional| == 0xFFFF
    ensures !HasEdns(NewOpt(Encode(m), option))
  {
    ExtraFound(m);
    SaturatedExtends(Encode(m), option);
    OptFound(NewOpt(Encode(m), option), m);
  }

  lemma SaturatedExtends(buf: seq<byte>, option: seq<byte>)
    requires |buf| >= HEADER && ReadU16(buf, 10) == 0xFFFF
    ensures buf <= NewOpt(buf, option)
  {
    var h := U16(0xFFFF);
    assert h[0] == buf[10] && h[1] == buf[11];
    assert buf[..10] + h + buf[12..] == buf;
  }
}
