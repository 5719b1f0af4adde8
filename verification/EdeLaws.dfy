/** Extended DNS errors read back (section 2 of RFC 8914): a reader of the options of an OPT record, and what
  * it finds after `append_ede_to_response` of src/dns/parser.rs. */
module EdeLaws {
  import opened Bytes
  import opened Wrappers
  import opened WireNames
  import opened Messages
  import opened Edns
  import opened EdnsLaws

  /** INFO-CODE and EXTRA-TEXT. */
  datatype Ede = Ede(infoCode: nat, extraText: seq<byte>)

  /** The extended errors among the options in RDATA: options of code 15 with at least the two octets of an
    * INFO-CODE, in network order, and the EXTRA-TEXT after it. */
  function ReadEdes(rdata: seq<byte>): seq<Ede>
    decreases |rdata|
  {
    if |rdata| < 4 || 4 + ReadU16(rdata, 2) > |rdata| then []
    else
      var next := 4 + ReadU16(rdata, 2);
      (if ReadU16(rdata, 0) == 15 && next >= 6 then [Ede(ReadU16(rdata, 4), rdata[6..next])] else []) + ReadEdes(rdata[next..])
  }

  /** The extended errors of a response: those in its first OPT record. */
  function ResponseEdes(wire: seq<byte>): seq<Ede> {
    if |wire| < HEADER || OptOf(wire).None? || RdataEnd(wire, OptOf(wire).value) > |wire| then []
    else ReadEdes(wire[OptOf(wire).value + 10..RdataEnd(wire, OptOf(wire).value)])
  }

  /** What a sequence of calls reports: codes with the first 256 octets of their texts. */
  function Reported(qs: seq<Request>): seq<Ede> {
    if qs == [] then []
    else (match qs[0]
          case AddEde(code, text) => [Ede(code, if |text| > 256 then text[..256] else text)]
          case AddCookie(_, _) => []) + Reported(qs[1..])
  }

  /** Codes are numbers of 16 bits. */
  predicate ValidCodes(qs: seq<Request>) { forall q <- qs :: q.AddEde? ==> q.code < 0x1_0000 }

  // ---------------------------------------------------------------- reading what was written

  /** The extended error in one option. */
  function EdeIn(o: EdnsOption): seq<Ede> {
    if o.code == 15 && |o.data| >= 2 then [Ede(ReadU16(o.data, 0), o.data[2..])] else []
  }

  function EdesIn(os: seq<EdnsOption>): seq<Ede> { if os == [] then [] else EdeIn(os[0]) + EdesIn(os[1..]) }

  /** One whole option in front of others. */
  lemma ReadOption(o: EdnsOption, tail: seq<byte>)
    requires ValidOption(o)
    ensures ReadEdes(OptionBytes(o) + tail) ==
            EdeIn(o) + ReadEdes(tail)
  {
    var r, n := OptionBytes(o) + tail, 4 + |o.data|;
    assert r == U16(o.code) + (U16(|o.data|) + (o.data + tail));
    assert At(r, 0, U16(o.code)) && At(r, 2, U16(|o.data|));
    ReadU16At(r, 0, o.code);
    ReadU16At(r, 2, |o.data|);
    assert r[n..] == tail && r[4..n] == o.data;
    if |o.data| >= 2 {
      assert r[4] == r[4..n][0] && r[5] == r[4..n][1] && r[6..n] == r[4..n][2..];
      SamePair(r, o.data);
    }
  }

  lemma SamePair(a: seq<byte>, b: seq<byte>)
    requires |a| >= 6 && |b| >= 2 && a[4] == b[0] && a[5] == b[1]
    ensures ReadU16(a, 4) == ReadU16(b, 0)
  {
  }

  lemma {:induction false} ReadOptions(os: seq<EdnsOption>)
    requires ValidOptions(os)
    ensures ReadEdes(OptionsBytes(os)) == EdesIn(os)
    decreases |os|
  {
    if os == [] {
    } else {
      assert os[0] in os && forall o <- os[1..] :: o in os;
      ReadOptions(os[1..]);
      ReadOption(os[0], OptionsBytes(os[1..]));
    }
  }

  lemma {:induction false} EdesConcat(a: seq<EdnsOption>, b: seq<EdnsOption>)
    ensures EdesIn(a + b) == EdesIn(a) + EdesIn(b)
    decreases |a|
  {
    if a == [] {
      assert a + b == b;
    } else {
      assert (a + b)[1..] == a[1..] + b;
      EdesConcat(a[1..], b);
    }
  }

  lemma EdesOne(o: EdnsOption)
    ensures EdesIn([o]) == EdeIn(o)
  {
    assert [o][1..] == [] && EdeIn(o) + [] == EdeIn(o);
  }

  /** What one call reports is read back from the option it writes. */
  lemma AskedEde(code: nat, text: seq<byte>)
    requires code < 0x1_0000
    ensures EdeIn(EdeOption(code, text)) == [Ede(code, if |text| > 256 then text[..256] else text)]
  {
    var o := EdeOption(code, text);
    assert At(o.data, 0, U16(code));
    ReadU16At(o.data, 0, code);
    if |text| <= 256 { assert text[..|text|] == text; }
  }

  lemma {:induction false} AskedEdes(qs: seq<Request>)
    requires ValidCodes(qs)
    ensures EdesIn(AllAsked(qs)) == Reported(qs)
    decreases |qs|
  {
    if qs == [] {
    } else {
      var q := qs[0];
      assert q in qs && forall r <- qs[1..] :: r in qs;
      AskedEdes(qs[1..]);
      EdesConcat(Asked(q), AllAsked(qs[1..]));
      match q {
        case AddEde(code, text) =>
          AskedEde(code, text);
          EdesOne(EdeOption(code, text));
        case AddCookie(client, server) => EdesOne(CookieOption(client, server));
      }
    }
  }

  lemma EdesWhere(wire: seq<byte>, p: nat, rdata: seq<byte>)
    requires |wire| >= HEADER && OptOf(wire) == Some(p) && RdataEnd(wire, p) <= |wire|
    requires wire[p + 10..RdataEnd(wire, p)] == rdata
    ensures ResponseEdes(wire) == ReadEdes(rdata)
  {
  }

  /** The extended errors of an encoded message are those in the options of its OPT record. */
  lemma EdesOfEncoded(m: Message)
    requires ValidMessage(m)
    ensures ResponseEdes(Encode(m)) == ReadEdes(OptRdata(m))
  {
    OptFound(Encode(m), m);
    if HasOpt(m) {
      ReplaceEncoded(m, OptRdata(m));
      EdesWhere(Encode(m), OptAt(m), OptRdata(m));
    }
  }

  /** After any sequence of EDE and COOKIE appends, within the 16-bit limits, the response reports the
    * extended errors it reported before and then those of the calls, in order. */
  lemma EdesAfterAppends(m: Message, os: seq<EdnsOption>, qs: seq<Request>)
    requires ValidMessage(m) && OptRdata(m) == OptionsBytes(os) && (HasOpt(m) || |m.additional| < 0xFFFF)
    requires |OptionsBytes(os + AllAsked(qs))| < 0x1_0000 && ValidOptions(os + AllAsked(qs)) && ValidCodes(qs)
    ensures ResponseEdes(Run(Encode(m), qs)) == ResponseEdes(Encode(m)) + Reported(qs)
  {
    var more := AllAsked(qs);
    assert forall o <- os :: o in os + more;
    AppendsAccumulate(m, os, qs);
    EdesOfEncoded(m);
    ReadOptions(os);
    EdesConcat(os, more);
    AskedEdes(qs);
    if more != [] {
      EdesOfEncoded(After(m, os, qs));
      WithRdataAgain(m, OptionsBytes(os + more), OptionsBytes(os + more));
      ReadOptions(os + more);
    }
  }
}
