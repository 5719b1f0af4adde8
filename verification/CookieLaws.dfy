/** Which cookie `parse_dns_cookie` returns: the first one, so an appended cookie is returned exactly
  * when there was none before. */
module CookieLaws {
  import opened Bytes
  import opened Wrappers
  import opened WireNames
  import opened Messages
  import opened Edns
  import opened EdnsLaws

  function FirstCookie(os: seq<EdnsOption>): Option<Cookie> {
    if os == [] then None
    else if os[0].code == COOKIE && |os[0].data| >= 8 then Some(ToCookie(os[0].data))
    else FirstCookie(os[1..])
  }

  function OptionLength(o: EdnsOption): nat { 4 + |o.data| }

  function OptionsLength(os: seq<EdnsOption>): nat {
    if os == [] then 0 else OptionLength(os[0]) + OptionsLength(os[1..])
  }

  /** The scan reads `o` at `pos`. */
  predicate OptionFound(buf: seq<byte>, pos: nat, o: EdnsOption) {
    && pos + OptionLength(o) <= |buf| && ReadU16(buf, pos) == o.code && ReadU16(buf, pos + 2) == |o.data|
    && buf[pos + 4..pos + OptionLength(o)] == o.data
  }

  predicate OptionsFound(buf: seq<byte>, pos: nat, os: seq<EdnsOption>)
    decreases |os|
  {
    os == [] || (OptionFound(buf, pos, os[0]) && OptionsFound(buf, pos + OptionLength(os[0]), os[1..]))
  }

  lemma FindOption(buf: seq<byte>, pos: nat, o: EdnsOption)
    requires ValidOption(o) && At(buf, pos, OptionBytes(o))
    ensures OptionFound(buf, pos, o) && |OptionBytes(o)| == OptionLength(o)
  {
    AtSplit(buf, pos, U16(o.code), U16(|o.data|) + o.data);
    AtSplit(buf, pos + 2, U16(|o.data|), o.data);
    ReadU16At(buf, pos, o.code);
    ReadU16At(buf, pos + 2, |o.data|);
  }

  lemma {:induction false} FindOptions(buf: seq<byte>, pos: nat, os: seq<EdnsOption>)
    requires ValidOptions(os) && At(buf, pos, OptionsBytes(os))
    ensures OptionsFound(buf, pos, os) && |OptionsBytes(os)| == OptionsLength(os)
    decreases |os|
  {
    if os == [] {
    } else {
      AtSplit(buf, pos, OptionBytes(os[0]), OptionsBytes(os[1..]));
      FindOption(buf, pos, os[0]);
      assert ValidOptions(os[1..]);
      FindOptions(buf, pos + OptionLength(os[0]), os[1..]);
    }
  }

  lemma {:induction false} ScanFound(buf: seq<byte>, pos: nat, end: nat, os: seq<EdnsOption>)
    requires OptionsFound(buf, pos, os) && end == pos + OptionsLength(os) <= |buf|
    ensures ScanCookie(buf, pos, end) == FirstCookie(os)
    decreases |os|
  {
    if os == [] {
    } else {
      ScanFound(buf, pos + OptionLength(os[0]), end, os[1..]);
    }
  }

  /** The first option of code 10 with at least the eight octets of a client cookie (section 4 of RFC 7873); what
    * follows them is the server cookie, if it has at least eight octets, too. */
  lemma {:induction false} FirstCookieIs(os: seq<EdnsOption>, i: nat)
    requires i < |os| && os[i].code == 10 && |os[i].data| >= 8
    requires forall j | 0 <= j < i :: os[j].code != 10 || |os[j].data| < 8
    ensures var d := os[i].data;
      FirstCookie(os) == Some(Cookie(d[..8], if |d| >= 16 then Some(d[8..]) else None))
    decreases i
  {
    if i == 0 {
    } else {
      assert forall j | 0 <= j < i - 1 :: os[1..][j] == os[j + 1];
      FirstCookieIs(os[1..], i - 1);
    }
  }

  lemma {:induction false} NoCookieIs(os: seq<EdnsOption>)
    requires forall j | 0 <= j < |os| :: os[j].code != 10 || |os[j].data| < 8
    ensures FirstCookie(os) == None
    decreases |os|
  {
    if os == [] {
    } else {
      assert forall j | 0 <= j < |os| - 1 :: os[1..][j] == os[j + 1];
      NoCookieIs(os[1..]);
    }
  }

  lemma FirstRdata(buf: seq<byte>, pos: nat, r: Record, rest: seq<byte>)
    requires ValidRecord(r) && At(buf, pos, RecordBytes(r) + rest)
    ensures At(buf, pos + |r.name| + 10, r.rdata) && At(buf, pos + RecordLength(r), rest)
  {
    AtSplit(buf, pos, RecordBytes(r), rest);
    ReadRecord(buf, pos, r);
  }

  /** RDATA of every record stands where the record says. */
  ghost predicate RdataStands(buf: seq<byte>, pos: nat, rs: seq<Record>)
    decreases |rs|
  {
    rs == [] || (At(buf, pos + |rs[0].name| + 10, rs[0].rdata) && RdataStands(buf, pos + RecordLength(rs[0]), rs[1..]))
  }

  lemma {:induction false} FindRdata(buf: seq<byte>, pos: nat, rs: seq<Record>)
    requires ValidRecords(rs) && At(buf, pos, RecordsBytes(rs))
    ensures RdataStands(buf, pos, rs)
    decreases |rs|
  {
    if rs == [] {
    } else {
      assert ValidRecord(rs[0]) && ValidRecords(rs[1..]);
      assert RecordsBytes(rs) == RecordBytes(rs[0]) + RecordsBytes(rs[1..]);
      FirstRdata(buf, pos, rs[0], RecordsBytes(rs[1..]));
      FindRdata(buf, pos + RecordLength(rs[0]), rs[1..]);
    }
  }

  lemma {:induction false} RdataAt(buf: seq<byte>, pos: nat, rs: seq<Record>)
    requires RdataStands(buf, pos, rs) && FirstOpt(rs) < |rs|
    ensures At(buf, pos + OptOffset(rs) + 10, rs[FirstOpt(rs)].rdata)
    decreases |rs|
  {
    if rs[0].rtype != OPT { RdataAt(buf, pos + RecordLength(rs[0]), rs[1..]); }
  }

  lemma CookiePast(buf: seq<byte>, pos: nat, r: Record, n: nat)
    requires RecordFound(buf, pos, r) && n > 0 && r.rtype != OPT
    ensures FindCookie(buf, pos, n) == FindCookie(buf, pos + RecordLength(r), n - 1)
  {
  }

  lemma CookieInside(buf: seq<byte>, pos: nat, r: Record, n: nat)
    requires RecordFound(buf, pos, r) && n > 0 && r.rtype == OPT
    ensures var found := ScanCookie(buf, pos + |r.name| + 10, pos + RecordLength(r));
      FindCookie(buf, pos, n) == if found.Some? then found else FindCookie(buf, pos + RecordLength(r), n - 1)
  {
  }

  lemma {:induction false} NoCookieWithoutOpt(buf: seq<byte>, pos: nat, rs: seq<Record>)
    requires RecordsFound(buf, pos, rs) && FirstOpt(rs) == |rs|
    ensures FindCookie(buf, pos, |rs|) == None
    decreases |rs|
  {
    if rs == [] {
    } else {
      CookiePast(buf, pos, rs[0], |rs|);
      NoCookieWithoutOpt(buf, pos + RecordLength(rs[0]), rs[1..]);
    }
  }

  /** With one OPT record the search returns what is found in its RDATA. */
  lemma {:induction false} FindCookieFound(buf: seq<byte>, pos: nat, rs: seq<Record>, at: nat, end: nat)
    requires RecordsFound(buf, pos, rs) && OptCount(rs) <= 1 && FirstOpt(rs) < |rs| && end <= |buf|
    requires at == pos + OptOffset(rs) + 10 && end == at + |rs[FirstOpt(rs)].rdata|
    ensures FindCookie(buf, pos, |rs|) == ScanCookie(buf, at, end)
    decreases |rs|
  {
    var r, rest := rs[0], rs[1..];
    if r.rtype == OPT {
      CookieInside(buf, pos, r, |rs|);
      NoOptNoCount(rest);
      NoCookieWithoutOpt(buf, pos + RecordLength(r), rest);
    } else {
      CookiePast(buf, pos, r, |rs|);
      FindCookieFound(buf, pos + RecordLength(r), rest, at, end);
    }
  }

  lemma NoBytesNoOptions(os: seq<EdnsOption>)
    requires os != []
    ensures OptionsBytes(os) != []
  {
    assert |OptionBytes(os[0])| >= 4;
  }

  /** Options that stand in the buffer are scanned. */
  lemma OptionsAt(buf: seq<byte>, at: nat, rdata: seq<byte>, os: seq<EdnsOption>)
    requires At(buf, at, rdata) && rdata == OptionsBytes(os) && ValidOptions(os)
    ensures at + |rdata| <= |buf| && ScanCookie(buf, at, at + |rdata|) == FirstCookie(os)
  {
    FindOptions(buf, at, os);
    ScanFound(buf, at, at + |rdata|, os);
  }

  /** On a valid message with at most one OPT record, whose options tile its RDATA, `parse_dns_cookie`
    * returns the first COOKIE option of at least eight octets. */
  lemma CookieIsFirst(m: Message, os: seq<EdnsOption>)
    requires ValidMessage(m) && OptCount(m.additional) <= 1 && ValidOptions(os) && OptRdata(m) == OptionsBytes(os)
    ensures ReadCookie(Encode(m)) == FirstCookie(os)
  {
    ExtraFound(m);
    if HasOpt(m) {
      Sections(Encode(m), m);
      RdataScanned(Encode(m), ExtraAt(m), m.additional, os);
      CookieInOpt(Encode(m), ExtraAt(m), m.additional, FirstCookie(os));
    } else {
      if os != [] { NoBytesNoOptions(os); }
      NoCookieWithoutOpt(Encode(m), ExtraAt(m), m.additional);
    }
    ReadIs(Encode(m), ExtraAt(m), |m.additional|, FirstCookie(os));
  }

  lemma RdataScanned(buf: seq<byte>, pos: nat, rs: seq<Record>, os: seq<EdnsOption>)
    requires ValidRecords(rs) && At(buf, pos, RecordsBytes(rs)) && FirstOpt(rs) < |rs|
    requires ValidOptions(os) && rs[FirstOpt(rs)].rdata == OptionsBytes(os)
    ensures ScansTo(buf, pos, rs, FirstCookie(os))
  {
    FindRdata(buf, pos, rs);
    RdataAt(buf, pos, rs);
    OptionsAt(buf, pos + OptOffset(rs) + 10, rs[FirstOpt(rs)].rdata, os);
  }

  /** Scanning RDATA of the first OPT record finds `found`. */
  predicate ScansTo(buf: seq<byte>, pos: nat, rs: seq<Record>, found: Option<Cookie>)
    requires FirstOpt(rs) < |rs|
  {
    var at := pos + OptOffset(rs) + 10;
    var end := at + |rs[FirstOpt(rs)].rdata|;
    end <= |buf| && ScanCookie(buf, at, end) == found
  }

  lemma CookieInOpt(buf: seq<byte>, pos: nat, rs: seq<Record>, found: Option<Cookie>)
    requires RecordsFound(buf, pos, rs) && OptCount(rs) <= 1 && FirstOpt(rs) < |rs| && ScansTo(buf, pos, rs, found)
    ensures FindCookie(buf, pos, |rs|) == found
  {
    var at := pos + OptOffset(rs) + 10;
    FindCookieFound(buf, pos, rs, at, at + |rs[FirstOpt(rs)].rdata|);
  }

  lemma ReadIs(wire: seq<byte>, start: nat, n: nat, found: Option<Cookie>)
    requires |wire| >= HEADER && AdditionalAt(wire) == Some(start) && ReadU16(wire, 10) == n &&
             FindCookie(wire, start, n) == found
    ensures ReadCookie(wire) == found
  {
  }

  lemma {:induction false} FirstCookieConcat(a: seq<EdnsOption>, b: seq<EdnsOption>)
    ensures FirstCookie(a + b) == if FirstCookie(a).Some? then FirstCookie(a) else FirstCookie(b)
    decreases |a|
  {
    if a == [] {
      assert [] + b == b;
    } else {
      assert (a + b)[1..] == a[1..] + b;
      FirstCookieConcat(a[1..], b);
    }
  }

  /** After any sequence of appends the cookie read back is the one that was there, else the first one
    * appended. */
  lemma CookieAfterAppends(m: Message, os: seq<EdnsOption>, qs: seq<Request>)
    requires ValidMessage(m) && OptCount(m.additional) <= 1 && OptRdata(m) == OptionsBytes(os)
    requires (HasOpt(m) || |m.additional| < 0xFFFF) && |OptionsBytes(os + AllAsked(qs))| < 0x1_0000
    requires ValidOptions(os + AllAsked(qs))
    ensures ReadCookie(Run(Encode(m), qs)) ==
            if ReadCookie(Encode(m)).Some? then ReadCookie(Encode(m)) else FirstCookie(AllAsked(qs))
  {
    var more := AllAsked(qs);
    assert forall o <- os :: o in os + more;
    AppendsAccumulate(m, os, qs);
    CookieIsFirst(m, os);
    FirstCookieConcat(os, more);
    if more == [] {
      assert os + [] == os;
    } else {
      WithRdataKeeps(m, OptionsBytes(os + more));
      CookieIsFirst(After(m, os, qs), os + more);
    }
  }

  /** A cookie of eight client octets and at least eight server octets comes back as it was appended
    * if and only if there was no other cookie before it. */
  lemma CookieComesBackExactlyIfFirst(m: Message, os: seq<EdnsOption>, client: seq<byte>, server: seq<byte>)
    requires ValidMessage(m) && OptCount(m.additional) <= 1 && ValidOptions(os) && OptRdata(m) == OptionsBytes(os)
    requires |client| == 8 && |server| >= 8 && (HasOpt(m) || |m.additional| < 0xFFFF)
    requires |OptionsBytes(os)| + 4 + |client| + |server| < 0x1_0000
    ensures var sent := Cookie(client, Some(server)); var before := ReadCookie(Encode(m));
      ReadCookie(Apply(Encode(m), AddCookie(client, server))) == Some(sent) <==> before.None? || before == Some(sent)
  {
    var q, o := AddCookie(client, server), CookieOption(client, server);
    assert [q][1..] == [] && AllAsked([q]) == [o] + [] == [o];
    assert Run(Encode(m), [q]) == Run(Apply(Encode(m), q), []);
    OptionsSnoc(os, o);
    CookieAfterAppends(m, os, [q]);
    assert (client + server)[..8] == client && (client + server)[8..] == server;
    assert FirstCookie([o]) == Some(Cookie(client, Some(server)));
  }
}
