/** The DO bit (section 6.1.3 of RFC 6891, RFC 3225; `ensure_edns0_do_bit` of src/dns/parser.rs): set in
  * the OPT record, which is added when there is none. */
module DoBit {
  import opened Bytes
  import opened Wrappers
  import opened WireNames
  import opened NameText
  import opened Messages
  import opened Edns
  import opened EdnsLaws

  // ---------------------------------------------------------------- on bytes

  /** `flags | 0x80` */
  function OrHigh(b: byte): byte { if b >= 128 then b else b + 128 }

  /** The additional loop of `ensure_edns0_do_bit`, which parses names instead of skipping them. */
  function FindOptParsed(buf: seq<byte>, pos: nat, n: nat): (r: Option<nat>)
    ensures r.Some? ==> r.value + 10 <= |buf|
    decreases n, 1
  {
    if n == 0 || pos >= |buf| || WalkName(buf, pos).None? then None
    else AfterName(buf, WalkName(buf, pos).value.end, n)
  }

  function AfterName(buf: seq<byte>, p: nat, n: nat): (r: Option<nat>)
    requires n > 0
    ensures r.Some? ==> r.value + 10 <= |buf|
    decreases n, 0
  {
    if p + 10 > |buf| then None
    else if ReadU16(buf, p) == OPT then Some(p)
    else FindOptParsed(buf, p + 10 + ReadU16(buf, p + 8), n - 1)
  }

  const OPT_DO: seq<byte> := [0, 0, 41, 4, 208, 0, 0, 128, 0, 0, 0]

  function NewOptDo(wire: seq<byte>): seq<byte>
    requires |wire| >= HEADER
  {
    wire[..10] + U16(Min(ReadU16(wire, 10) + 1, 65535)) + wire[12..] + OPT_DO
  }

  /** The DO bit set in the OPT record at `found`, or in a fresh one. */
  function SetDoAt(wire: seq<byte>, found: Option<nat>): seq<byte>
    requires |wire| >= HEADER && (found.Some? ==> found.value + 10 <= |wire|)
  {
    match found
    case Some(p) => wire[p + 6 := OrHigh(wire[p + 6])]
    case None => NewOptDo(wire)
  }

  /** What `ensure_edns0_do_bit` returns. */
  function EnsureDo(wire: seq<byte>): seq<byte> {
    if |wire| < HEADER || AdditionalAt(wire).None? then wire
    else SetDoAt(wire, FindOptParsed(wire, AdditionalAt(wire).value, ReadU16(wire, 10)))
  }

  /** `ensure_edns0_do_bit` */
  method EnsureEdns0DoBit(query: seq<byte>) returns (modified: seq<byte>)
    ensures modified == EnsureDo(query)
  {
    if |query| < HEADER { return query; }
    var start := SkipToAdditional(query);
    if start.None? { return query; }
    var arcount := ReadU16(query, 10);
    var found := FindOptByName(query, start.value, arcount);
    if found.Some? { return query[found.value + 6 := OrHigh(query[found.value + 6])]; }
    modified := query;
    var more := U16(Min(arcount + 1, 65535));
    modified := modified[10 := more[0]][11 := more[1]];
    assert modified == query[..10] + more + query[12..];
    modified := modified + OPT_DO;
  }

  method FindOptByName(buf: seq<byte>, start: nat, count: nat) returns (r: Option<nat>)
    ensures r == FindOptParsed(buf, start, count)
  {
    var pos: nat := start;
    for i := 0 to count
      invariant FindOptParsed(buf, pos, count - i) == FindOptParsed(buf, start, count)
    {
      if pos >= |buf| { return None; }
      var name := ParseNameWithOffset(buf, pos, true);
      if name.None? || name.value.end + 10 > |buf| { return None; }
      if ReadU16(buf, name.value.end) == OPT { return Some(name.value.end); }
      pos := name.value.end + 10 + ReadU16(buf, name.value.end + 8);
    }
    return None;
  }

  // ---------------------------------------------------------------- names that resolve in what precedes them

  /** Octets before `e` with the header out of bounds: 128 begins no label and no pointer. */
  function Masked(buf: seq<byte>, e: nat): seq<byte>
    requires HEADER <= e <= |buf|
  {
    seq(HEADER, i => 128) + buf[HEADER..e]
  }

  /** The name at `pos` ends in a root byte and is read from the octets between the header and `e` only,
    * as names compressed against earlier names are. */
  predicate Resolves(buf: seq<byte>, pos: nat, e: nat) {
    HEADER <= e <= |buf| && WalkName(Masked(buf, e), pos).Some? && WalkName(Masked(buf, e), pos).value.rooted
  }

  /** `b` has the octets of `a` from the header on, and `a` has nothing readable before. */
  ghost predicate Unmasks(a: seq<byte>, b: seq<byte>) {
    && HEADER <= |a| <= |b| && (forall i | 0 <= i < HEADER :: a[i] == 128)
    && forall i | HEADER <= i < |a| :: a[i] == b[i]
  }

  lemma MaskedUnmasks(buf: seq<byte>, e: nat, b: seq<byte>)
    requires HEADER <= e <= |buf| && e <= |b| && buf[HEADER..e] == b[HEADER..e]
    ensures Unmasks(Masked(buf, e), b)
  {
    assert forall i | HEADER <= i < e :: buf[HEADER..e][i - HEADER] == buf[i] && b[HEADER..e][i - HEADER] == b[i];
  }

  lemma {:induction false} WalkUnmasked(a: seq<byte>, b: seq<byte>, pos: nat, jumps: nat, steps: nat, total: nat)
    requires Unmasks(a, b)
    requires WalkFrom(a, pos, jumps, steps, total).Some? && WalkFrom(a, pos, jumps, steps, total).value.rooted
    ensures WalkFrom(b, pos, jumps, steps, total) == WalkFrom(a, pos, jumps, steps, total)
    decreases MAX_STEPS - steps
  {
    var len := a[pos];
    assert pos >= HEADER && b[pos] == len;
    if len != 0 {
      if IsPointer(len) {
        assert a[pos + 1] == b[pos + 1];
        WalkUnmasked(a, b, Target(len, a[pos + 1]), jumps + 1, steps + 1, total);
      } else {
        assert a[pos + 1..pos + 1 + len] == b[pos + 1..pos + 1 + len];
        WalkUnmasked(a, b, pos + 1 + len, jumps, steps + 1, total + 1 + len);
      }
    }
  }

  /** Every name up to that of the first OPT record resolves in what precedes its end. */
  predicate NamesResolve(buf: seq<byte>, pos: nat, rs: seq<Record>)
    decreases |rs|
  {
    rs == [] || (Resolves(buf, pos, pos + |rs[0].name|)
                 && (rs[0].rtype == OPT || NamesResolve(buf, pos + RecordLength(rs[0]), rs[1..])))
  }

  lemma WalkFound(buf: seq<byte>, pos: nat, r: Record)
    requires RecordFound(buf, pos, r) && Resolves(buf, pos, pos + |r.name|)
    ensures WalkName(buf, pos).Some? && WalkName(buf, pos).value.end == pos + |r.name|
  {
    MaskedUnmasks(buf, pos + |r.name|, buf);
    WalkUnmasked(Masked(buf, pos + |r.name|), buf, pos, 0, 0, 0);
    SkipAgrees(buf, pos);
  }

  /** Walking finds the names, up to that of the first OPT record. */
  predicate NamesWalk(buf: seq<byte>, pos: nat, rs: seq<Record>)
    decreases |rs|
  {
    rs == [] || (WalkName(buf, pos).Some? && WalkName(buf, pos).value.end == pos + |rs[0].name|
                 && (rs[0].rtype == OPT || NamesWalk(buf, pos + RecordLength(rs[0]), rs[1..])))
  }

  lemma {:induction false} ResolvedWalk(buf: seq<byte>, pos: nat, rs: seq<Record>)
    requires RecordsFound(buf, pos, rs) && NamesResolve(buf, pos, rs)
    ensures NamesWalk(buf, pos, rs)
    decreases |rs|
  {
    if rs == [] {
    } else {
      WalkFound(buf, pos, rs[0]);
      if rs[0].rtype != OPT { ResolvedWalk(buf, pos + RecordLength(rs[0]), rs[1..]); }
    }
  }

  /** The parsing loop finds the first OPT record exactly when the names up to its own parse. */
  lemma {:induction false} FindParsedFound(buf: seq<byte>, pos: nat, rs: seq<Record>, n: nat)
    requires RecordsFound(buf, pos, rs) && n == |rs|
    ensures FindOptParsed(buf, pos, n) ==
            if FirstOpt(rs) < |rs| && NamesWalk(buf, pos, rs) then Some(pos + OptOffset(rs)) else None
    decreases |rs|
  {
    if rs == [] {
    } else {
      if rs[0].rtype != OPT { FindParsedFound(buf, pos + RecordLength(rs[0]), rs[1..], n - 1); }
      if WalkName(buf, pos).Some? {
        WalkEnd(buf, pos, rs[0]);
        if rs[0].rtype == OPT { ParsedHit(buf, pos, rs[0], n); } else { ParsedStep(buf, pos, rs[0], n); }
      } else {
        ParsedMiss(buf, pos, n);
      }
    }
  }

  lemma ParsedMiss(buf: seq<byte>, pos: nat, n: nat)
    requires WalkName(buf, pos).None?
    ensures FindOptParsed(buf, pos, n) == None
  {
  }

  lemma WalkEnd(buf: seq<byte>, pos: nat, r: Record)
    requires RecordFound(buf, pos, r) && WalkName(buf, pos).Some?
    ensures WalkName(buf, pos).value.end == pos + |r.name|
  {
    SkipAgrees(buf, pos);
  }

  lemma ParsedHit(buf: seq<byte>, pos: nat, r: Record, n: nat)
    requires RecordFound(buf, pos, r) && r.rtype == OPT && n > 0
    requires WalkName(buf, pos).Some? && WalkName(buf, pos).value.end == pos + |r.name|
    ensures FindOptParsed(buf, pos, n) == Some(pos + |r.name|)
  {
    assert AfterName(buf, pos + |r.name|, n) == Some(pos + |r.name|);
  }

  lemma ParsedStep(buf: seq<byte>, pos: nat, r: Record, n: nat)
    requires RecordFound(buf, pos, r) && r.rtype != OPT && n > 0
    requires WalkName(buf, pos).Some? && WalkName(buf, pos).value.end == pos + |r.name|
    ensures FindOptParsed(buf, pos, n) == FindOptParsed(buf, pos + RecordLength(r), n - 1)
  {
    assert AfterName(buf, pos + |r.name|, n) == FindOptParsed(buf, pos + RecordLength(r), n - 1);
  }

  lemma SliceSame<T>(a: seq<T>, b: seq<T>, lo: nat, d: nat, e: nat)
    requires lo <= d <= e <= |a| && e <= |b| && a[lo..e] == b[lo..e]
    ensures a[lo..d] == b[lo..d]
  {
    assert a[lo..d] == a[lo..e][..d - lo] && b[lo..d] == b[lo..e][..d - lo];
  }

  /** The names resolve in another buffer that has the same octets up to the OPT record's. */
  lemma {:induction false} ResolveLocal(a: seq<byte>, b: seq<byte>, pos: nat, rs: seq<Record>, e: nat)
    requires NamesResolve(a, pos, rs) && HEADER <= e <= |a| && e <= |b| && a[HEADER..e] == b[HEADER..e]
    requires if FirstOpt(rs) < |rs| then pos + OptOffset(rs) <= e else pos + RecordsLength(rs) <= e
    ensures NamesResolve(b, pos, rs)
    decreases |rs|
  {
    if rs == [] {
    } else {
      var d := pos + |rs[0].name|;
      assert d <= e;
      SliceSame(a, b, HEADER, d, e);
      if rs[0].rtype != OPT { ResolveLocal(a, b, pos + RecordLength(rs[0]), rs[1..], e); }
    }
  }

  // ---------------------------------------------------------------- what it does to the message

  /** Bit 15 of the TTL field. */
  function SetDo(ttl: nat): nat { if ttl / 0x8000 % 2 == 1 then ttl else ttl + 0x8000 }

  const FRESH_DO := Record([0], OPT, 1232, 0x8000, [])

  /** The DO bit set in the first OPT record, or in a fresh one at the end. */
  function WithDo(m: Message): Message {
    var k := FirstOpt(m.additional);
    if HasOpt(m) then m.(additional := m.additional[k := m.additional[k].(ttl := SetDo(m.additional[k].ttl))])
    else m.(additional := m.additional + [FRESH_DO])
  }

  /** The names of the additional records of the encoded message resolve. */
  predicate ExtraResolves(m: Message) { NamesResolve(Encode(m), ExtraAt(m), m.additional) }

  lemma DoArithmetic(x: nat, y: nat, z: nat)
    requires y < 256 && z < 256
    ensures var ttl := (x * 256 + y) * 256 + z; var n := SetDo(ttl);
      && ttl / 256 == x * 256 + y && ttl / 256 / 256 == x && ttl / 256 % 256 == y && ttl % 256 == z
      && n % 256 == z && n / 256 / 256 == x && n / 256 % 256 == OrHigh(y)
  {
    var ttl := (x * 256 + y) * 256 + z;
    assert ttl / 0x8000 == 2 * x + y / 128;
  }

  lemma FourOctets(n: nat)
    ensures U32(n) == BigEndian(n / 256 / 256, 2) + [n / 256 % 256] + [n % 256]
  {
    assert BigEndian(n / 256, 3) == BigEndian(n / 256 / 256, 2) + [n / 256 % 256];
  }

  lemma TtlOctets(ttl: nat)
    ensures var b := U32(ttl); U32(SetDo(ttl)) == b[2 := OrHigh(b[2])]
  {
    DoArithmetic(ttl / 256 / 256, ttl / 256 % 256, ttl % 256);
    FourOctets(ttl);
    FourOctets(SetDo(ttl));
  }

  lemma UpdateMiddle<T>(u: seq<T>, t: seq<T>, z: seq<T>, i: nat, v: T)
    requires i < |t|
    ensures (u + t + z)[|u| + i := v] == u + t[i := v] + z && (u + t + z)[|u| + i] == t[i]
  {
  }

  lemma SetTtl(buf: seq<byte>, a: seq<byte>, r: Record, b: seq<byte>, p: nat)
    requires ValidRecord(r) && buf == a + (RecordBytes(r) + b) && p == |a| + |r.name|
    ensures p + 10 <= |buf|
    ensures buf[p + 6 := OrHigh(buf[p + 6])] == a + (RecordBytes(r.(ttl := SetDo(r.ttl))) + b)
  {
    RecordAroundTtl(a, r, b, r.ttl);
    RecordAroundTtl(a, r, b, SetDo(r.ttl));
    TtlOctets(r.ttl);
    SetMiddle(buf, a + r.name + (U16(r.rtype) + U16(r.class_)), U32(r.ttl), U16(|r.rdata|) + r.rdata + b, p);
  }

  lemma SetMiddle(buf: seq<byte>, u: seq<byte>, t: seq<byte>, z: seq<byte>, p: nat)
    requires buf == u + t + z && |u| == p + 4 && |t| == 4 && |z| >= 2
    ensures buf[p + 6 := OrHigh(buf[p + 6])] == u + t[2 := OrHigh(t[2])] + z
  {
    UpdateMiddle(u, t, z, 2, OrHigh(t[2]));
  }

  lemma SetDoEncoded(m: Message, p: nat)
    requires ValidMessage(m) && HasOpt(m) && p == OptAt(m)
    ensures p + 10 <= |Encode(m)| && Encode(m)[p + 6 := OrHigh(Encode(m)[p + 6])] == Encode(WithDo(m))
  {
    var k := FirstOpt(m.additional);
    var r := m.additional[k];
    assert r in m.additional;
    EncodeAround(m, k);
    SetTtl(Encode(m), Before(m, k), r, RecordsBytes(m.additional[k + 1..]), p);
    EncodeReplaced(m, k, r.(ttl := SetDo(r.ttl)));
  }

  lemma EnsureIs(wire: seq<byte>, start: nat, found: Option<nat>)
    requires |wire| >= HEADER && AdditionalAt(wire) == Some(start) &&
             FindOptParsed(wire, start, ReadU16(wire, 10)) == found
    ensures EnsureDo(wire) == SetDoAt(wire, found)
  {
  }

  lemma NewOptDoRefines(m: Message)
    requires ValidMessage(m) && |m.additional| < 0xFFFF
    ensures NewOptDo(Encode(m)) == Encode(m.(additional := m.additional + [FRESH_DO]))
  {
    ExtraFound(m);
    CountedHeader(m);
    assert Encode(m)[12..] == Front(m) + RecordsBytes(m.additional);
    var m' := m.(additional := m.additional + [FRESH_DO]);
    NewOptDoIs(Encode(m), Header(m'), Front(m), RecordsBytes(m.additional));
    MoreRecords(m);
  }

  lemma NewOptDoIs(wire: seq<byte>, h: seq<byte>, f: seq<byte>, r: seq<byte>)
    requires |wire| >= HEADER && ReadU16(wire, 10) < 0xFFFF
    requires wire[..10] + U16(ReadU16(wire, 10) + 1) == h && wire[12..] == f + r
    ensures NewOptDo(wire) == h + f + r + OPT_DO
  {
    assert h + (f + r) + OPT_DO == h + f + r + OPT_DO;
  }

  lemma MoreRecords(m: Message)
    ensures var m' := m.(additional := m.additional + [FRESH_DO]);
      Encode(m') == Header(m') + Front(m) + RecordsBytes(m.additional) + OPT_DO
  {
    FreshDoBytes();
    RecordsBytesConcat(m.additional, [FRESH_DO]);
    assert RecordsBytes([FRESH_DO]) == OPT_DO by { assert [FRESH_DO][1..] == []; }
    Regroup(Header(m.(additional := m.additional + [FRESH_DO])), Front(m), RecordsBytes(m.additional), OPT_DO);
  }

  lemma FreshDoBytes()
    ensures RecordBytes(FRESH_DO) == OPT_DO && ValidRecord(FRESH_DO)
  {
    U16Is(OPT);
    U16Is(1232);
    U16Is(0);
    FourOctets(0x8000);
    assert Fixed(FRESH_DO) == [0, 41, 4, 208, 0, 0, 128, 0];
    FreshBytes([]);
  }

  /** Where `ensure_edns0_do_bit` edits an encoded message, whatever follows it. */
  function Site(m: Message): Option<nat> { if HasOpt(m) then Some(OptAt(m)) else None }

  lemma SiteIs(m: Message)
    ensures Site(m) == if HasOpt(m) then Some(ExtraAt(m) + OptOffset(m.additional)) else None
  {
    if HasOpt(m) { OptAtIs(m); }
  }

  /** The names of the additional records, up to that of the first OPT record, parse where they stand. */
  predicate ExtraParses(buf: seq<byte>, m: Message) { NamesWalk(buf, ExtraAt(m), m.additional) }

  lemma ResolvedParses(buf: seq<byte>, m: Message)
    requires ValidMessage(m) && Encode(m) <= buf && NamesResolve(buf, ExtraAt(m), m.additional)
    ensures ExtraParses(buf, m)
  {
    ExtraLayout(buf, m);
    ResolvedWalk(buf, ExtraAt(m), m.additional);
  }

  lemma ParsedWhere(buf: seq<byte>, m: Message, at: Option<nat>)
    requires HeaderFound(buf, m) && RecordsFound(buf, ExtraAt(m), m.additional)
    requires at == if HasOpt(m) && ExtraParses(buf, m) then Some(ExtraAt(m) + OptOffset(m.additional)) else None
    ensures FindOptParsed(buf, ExtraAt(m), ReadU16(buf, 10)) == at
  {
    FindParsedFound(buf, ExtraAt(m), m.additional, ReadU16(buf, 10));
  }

  lemma EnsureAt(buf: seq<byte>, m: Message)
    requires ValidMessage(m) && Encode(m) <= buf
    ensures HeaderFound(buf, m) && (HasOpt(m) ==> OptAt(m) + 10 <= |buf|)
    ensures EnsureDo(buf) == SetDoAt(buf, if ExtraParses(buf, m) then Site(m) else None)
  {
    var at := if ExtraParses(buf, m) then Site(m) else None;
    ExtraLayout(buf, m);
    SiteIs(m);
    ParsedWhere(buf, m, at);
    EnsureIs(buf, ExtraAt(m), at);
    OptFound(buf, m);
  }

  /** On a valid message whose count can grow `ensure_edns0_do_bit` sets the DO bit of the OPT record, or
    * adds one, and changes nothing else, if and only if the names up to the OPT record parse. */
  lemma EnsureRefinesExactly(m: Message)
    requires ValidMessage(m) && (HasOpt(m) || |m.additional| < 0xFFFF)
    ensures EnsureDo(Encode(m)) == Encode(WithDo(m)) <==> !HasOpt(m) || ExtraParses(Encode(m), m)
  {
    EnsureAt(Encode(m), m);
    if !HasOpt(m) { NewOptDoRefines(m); } else { RefinesWithOpt(m, Encode(m)); }
  }

  lemma RefinesWithOpt(m: Message, wire: seq<byte>)
    requires ValidMessage(m) && HasOpt(m) && wire == Encode(m) && |wire| >= HEADER && OptAt(m) + 10 <= |wire|
    requires EnsureDo(wire) == SetDoAt(wire, if ExtraParses(wire, m) then Site(m) else None)
    ensures EnsureDo(wire) == Encode(WithDo(m)) <==> ExtraParses(wire, m)
  {
    SetDoEncoded(m, OptAt(m));
    SetsExactly(wire, OptAt(m), ExtraParses(wire, m), Encode(WithDo(m)));
  }

  lemma SetsExactly(wire: seq<byte>, p: nat, found: bool, set_: seq<byte>)
    requires |wire| >= HEADER && p + 10 <= |wire| && EnsureDo(wire) == SetDoAt(wire, if found then Some(p) else None)
    requires set_ == wire[p + 6 := OrHigh(wire[p + 6])]
    ensures EnsureDo(wire) == set_ <==> found
  {
    SetOrAdd(wire, p, found);
  }

  lemma SetOrAdd(wire: seq<byte>, p: nat, found: bool)
    requires |wire| >= HEADER && p + 10 <= |wire|
    ensures SetDoAt(wire, if found then Some(p) else None) == wire[p + 6 := OrHigh(wire[p + 6])] <==> found
  {
    NewOptDoLonger(wire);
  }

  lemma NewOptDoLonger(wire: seq<byte>)
    requires |wire| >= HEADER
    ensures |NewOptDo(wire)| == |wire| + 11
  {
  }

  // ---------------------------------------------------------------- doing it twice

  lemma WithDoAgain(m: Message)
    ensures HasOpt(WithDo(m)) && WithDo(WithDo(m)) == WithDo(m)
    ensures SetDo(WithDo(m).additional[FirstOpt(WithDo(m).additional)].ttl) == WithDo(m).additional[FirstOpt(WithDo(m).additional)].ttl
  {
    var rs, rs', k := m.additional, WithDo(m).additional, FirstOpt(m.additional);
    if HasOpt(m) {
      FirstOptIs(rs, rs', k);
    } else {
      FirstOptSnoc(rs, FRESH_DO);
    }
    assert rs'[FirstOpt(rs') := rs'[FirstOpt(rs')]] == rs';
  }

  lemma WithDoValid(m: Message)
    requires ValidMessage(m) && (HasOpt(m) || |m.additional| < 0xFFFF)
    ensures ValidMessage(WithDo(m))
  {
    var rs, k := m.additional, FirstOpt(m.additional);
    FreshDoBytes();
    if HasOpt(m) {
      assert rs[k] in rs;
      DoBound(rs[k].ttl);
    }
  }

  lemma DoBound(ttl: nat)
    requires ttl < 0x1_0000_0000
    ensures SetDo(ttl) < 0x1_0000_0000
  {
    var h := ttl / 0x8000;
    assert h <= 0x1_FFFF && (h % 2 == 0 ==> h <= 0x1_FFFE);
  }

  lemma RootResolves(buf: seq<byte>, pos: nat)
    requires HEADER <= pos < |buf| && buf[pos] == 0
    ensures Resolves(buf, pos, pos + 1)
  {
    var a := Masked(buf, pos + 1);
    assert a[pos] == buf[HEADER..pos + 1][pos - HEADER] == 0;
  }

  lemma {:induction false} ResolvesSnoc(buf: seq<byte>, pos: nat, rs: seq<Record>, r: Record)
    requires NamesResolve(buf, pos, rs) && FirstOpt(rs) == |rs| && HEADER <= pos + RecordsLength(rs) < |buf|
    requires r.name == [0] && r.rtype == OPT && buf[pos + RecordsLength(rs)] == 0
    ensures NamesResolve(buf, pos, rs + [r])
    decreases |rs|
  {
    if rs == [] {
      RootResolves(buf, pos);
      assert ([] + [r])[0] == r;
    } else {
      assert (rs + [r])[1..] == rs[1..] + [r] && (rs + [r])[0] == rs[0];
      ResolvesSnoc(buf, pos + RecordLength(rs[0]), rs[1..], r);
    }
  }

  /** The first OPT record of an encoded message and the octets before it. */
  lemma SameBefore(m: Message, ttl: nat)
    requires ValidMessage(m) && HasOpt(m)
    ensures var k := FirstOpt(m.additional); var m' := m.(additional := m.additional[k := m.additional[k].(ttl := ttl)]);
      var e := ExtraAt(m) + OptOffset(m.additional);
      && e <= |Encode(m)| && e <= |Encode(m')| && Encode(m)[..e] == Encode(m')[..e] && ExtraAt(m') == ExtraAt(m)
  {
    var k := FirstOpt(m.additional);
    var r := m.additional[k];
    OptAtIs(m);
    EncodeAround(m, k);
    EncodeReplaced(m, k, r.(ttl := ttl));
    PrefixThrough(Before(m, k), r.name, r, r.(ttl := ttl), RecordsBytes(m.additional[k + 1..]));
  }

  lemma PrefixThrough(a: seq<byte>, name: seq<byte>, r: Record, s: Record, b: seq<byte>)
    requires r.name == s.name == name
    ensures var e := |a| + |name|; var x := a + (RecordBytes(r) + b); var y := a + (RecordBytes(s) + b);
      e <= |x| && e <= |y| && x[..e] == y[..e]
  {
    var x, y := a + (RecordBytes(r) + b), a + (RecordBytes(s) + b);
    assert x[..|a| + |name|] == a + name && y[..|a| + |name|] == a + name;
  }

  lemma ReplacedResolves(m: Message)
    requires ValidMessage(m) && HasOpt(m) && ExtraResolves(m)
    ensures ExtraResolves(WithDo(m))
  {
    var k := FirstOpt(m.additional);
    var m' := WithDo(m);
    var e := ExtraAt(m) + OptOffset(m.additional);
    SameBefore(m, SetDo(m.additional[k].ttl));
    var x, y := Encode(m), Encode(m');
    assert x[HEADER..e] == x[..e][HEADER..] && y[HEADER..e] == y[..e][HEADER..];
    ResolveLocal(x, y, ExtraAt(m), m.additional, e);
    SameNames(y, ExtraAt(m), m.additional, m'.additional);
  }

  /** Resolving looks at names, types and lengths only. */
  lemma {:induction false} SameNames(buf: seq<byte>, pos: nat, rs: seq<Record>, rs': seq<Record>)
    requires NamesResolve(buf, pos, rs) && |rs| == |rs'|
    requires forall i | 0 <= i < |rs| :: rs'[i].name == rs[i].name && rs'[i].rtype == rs[i].rtype && |rs'[i].rdata| == |rs[i].rdata|
    ensures NamesResolve(buf, pos, rs')
    decreases |rs|
  {
    if rs != [] && rs[0].rtype != OPT { SameNames(buf, pos + RecordLength(rs[0]), rs[1..], rs'[1..]); }
  }

  /** A fresh OPT record changes the count and adds octets at the end. */
  lemma AddedSame(m: Message)
    requires ValidMessage(m)
    ensures var x := Encode(m); var y := Encode(m.(additional := m.additional + [FRESH_DO]));
      |y| == |x| + 11 && y[HEADER..|x|] == x[HEADER..] && y[|x|] == 0
  {
    MoreRecords(m);
    var m' := m.(additional := m.additional + [FRESH_DO]);
    assert Front(m') == Front(m);
    AddedParts(Header(m), Header(m'), Front(m), RecordsBytes(m.additional), Encode(m'));
  }

  lemma AddedParts(h: seq<byte>, h': seq<byte>, f: seq<byte>, r: seq<byte>, y: seq<byte>)
    requires |h| == |h'| == HEADER && y == h' + f + r + OPT_DO
    ensures var x := h + (f + r); |y| == |x| + 11 && y[HEADER..|x|] == x[HEADER..] && y[|x|] == 0
  {
    var x := h + (f + r);
    assert x[HEADER..] == f + r && y[HEADER..|x|] == f + r;
  }

  lemma AddedResolves(m: Message)
    requires ValidMessage(m) && !HasOpt(m) && ExtraResolves(m)
    ensures ExtraResolves(WithDo(m))
  {
    EncodeLength(m);
    AddedSame(m);
    MoreResolves(Encode(m), Encode(WithDo(m)), ExtraAt(m), m.additional);
  }

  lemma MoreResolves(x: seq<byte>, y: seq<byte>, pos: nat, rs: seq<Record>)
    requires NamesResolve(x, pos, rs) && FirstOpt(rs) == |rs| && HEADER <= pos && |x| == pos + RecordsLength(rs) < |y|
    requires y[HEADER..|x|] == x[HEADER..] && y[|x|] == 0
    ensures NamesResolve(y, pos, rs + [FRESH_DO])
  {
    ResolveLocal(x, y, pos, rs, |x|);
    ResolvesSnoc(y, pos, rs, FRESH_DO);
  }

  lemma EncodeLength(m: Message)
    ensures |Encode(m)| == ExtraAt(m) + RecordsLength(m.additional) && HEADER <= ExtraAt(m)
  {
    FrontLength(m);
    BytesLength(m.additional);
  }

  /** A message whose count is saturated grows by one uncounted OPT record each time. */
  lemma SaturatedGrows(m: Message)
    requires ValidMessage(m) && !HasOpt(m) && |m.additional| == 0xFFFF
    ensures EnsureDo(EnsureDo(Encode(m))) != EnsureDo(Encode(m))
  {
    var x := Encode(m);
    EnsureAt(x, m);
    var y := NewOptDo(x);
    SaturatedPrefix(x);
    EnsureAt(y, m);
    NewOptDoLonger(y);
  }

  lemma SaturatedPrefix(x: seq<byte>)
    requires |x| >= HEADER && ReadU16(x, 10) == 0xFFFF
    ensures x <= NewOptDo(x)
  {
    ReadU16Is(x, 10);
    U16Is(0xFFFF);
    assert x[..10] + U16(0xFFFF) + x[12..] == x;
  }

  /** Doing it twice is doing it once, exactly when there is an OPT record or the count can grow, and the
    * names up to the OPT record parse in the result as well. */
  lemma IdempotentWhenParsed(m: Message)
    requires ValidMessage(m) && (HasOpt(m) ==> ExtraParses(Encode(m), m))
    ensures EnsureDo(EnsureDo(Encode(m))) == EnsureDo(Encode(m)) <==>
            (HasOpt(m) || |m.additional| < 0xFFFF) && ExtraParses(Encode(WithDo(m)), WithDo(m))
  {
    if HasOpt(m) || |m.additional| < 0xFFFF {
      WithDoValid(m);
      WithDoAgain(m);
      EnsureRefinesExactly(m);
      EnsureRefinesExactly(WithDo(m));
    } else {
      SaturatedGrows(m);
    }
  }

  /** Names compressed against what stands before them parse before and after. */
  lemma ResolvedStaysParsed(m: Message)
    requires ValidMessage(m) && ExtraResolves(m) && (HasOpt(m) || |m.additional| < 0xFFFF)
    ensures ExtraParses(Encode(m), m) && ExtraParses(Encode(WithDo(m)), WithDo(m))
  {
    WithDoValid(m);
    if HasOpt(m) { ReplacedResolves(m); } else { AddedResolves(m); }
    ResolvedParses(Encode(m), m);
    ResolvedParses(Encode(WithDo(m)), WithDo(m));
  }
}
