/** Client-subnet scrubbing (section 6 of RFC 7871; `process_ecs_option` of src/dns/parser.rs in Strip
  * mode). */
module Ecs {
  import opened Bytes
  import opened Wrappers
  import opened WireNames
  import opened Messages
  import opened Edns
  import opened EdnsLaws

  const ECS := 8

  // ---------------------------------------------------------------- on bytes

  /** A whole option begins `r`. */
  predicate HasOption(r: seq<byte>) { |r| >= 4 && 4 + ReadU16(r, 2) <= |r| }

  /** What `strip_ecs_from_rdata` keeps. */
  function Strip(r: seq<byte>): seq<byte> {
    if !HasOption(r) then []
    else
      var n := 4 + ReadU16(r, 2);
      (if ReadU16(r, 0) == ECS then [] else r[..n]) + Strip(r[n..])
  }

  /** The loop of `strip_ecs_from_rdata`: what it keeps from `pos` on. */
  function StripFrom(rdata: seq<byte>, pos: nat): seq<byte>
    decreases |rdata| - pos
  {
    if pos + 4 > |rdata| || pos + 4 + ReadU16(rdata, pos + 2) > |rdata| then []
    else
      var end := pos + 4 + ReadU16(rdata, pos + 2);
      (if ReadU16(rdata, pos) == ECS then [] else rdata[pos..end]) + StripFrom(rdata, end)
  }

  lemma SuffixOption(rdata: seq<byte>, pos: nat)
    requires pos + 4 <= |rdata|
    ensures var r := rdata[pos..]; var n := 4 + ReadU16(rdata, pos + 2);
      && ReadU16(r, 0) == ReadU16(rdata, pos) && ReadU16(r, 2) == n - 4
      && (pos + n <= |rdata| ==> r[..n] == rdata[pos..pos + n] && r[n..] == rdata[pos + n..])
  {
    ReadU16Suffix(rdata, pos, 0);
    ReadU16Suffix(rdata, pos, 2);
  }

  lemma {:induction false} StripFromIs(rdata: seq<byte>, pos: nat)
    requires pos <= |rdata|
    ensures StripFrom(rdata, pos) == Strip(rdata[pos..])
    decreases |rdata| - pos
  {
    if pos + 4 <= |rdata| {
      SuffixOption(rdata, pos);
      var end := pos + 4 + ReadU16(rdata, pos + 2);
      if end <= |rdata| {
        StripFromIs(rdata, end);
        assert HasOption(rdata[pos..]);
      }
    }
  }

  lemma StripStep(rdata: seq<byte>, pos: nat, out: seq<byte>)
    requires pos + 4 <= |rdata| && pos + 4 + ReadU16(rdata, pos + 2) <= |rdata|
    ensures var end := pos + 4 + ReadU16(rdata, pos + 2);
      out + StripFrom(rdata, pos) ==
      (if ReadU16(rdata, pos) == ECS then out else out + rdata[pos..end]) + StripFrom(rdata, end)
  {
    var end := pos + 4 + ReadU16(rdata, pos + 2);
    Reassociate(out, if ReadU16(rdata, pos) == ECS then [] else rdata[pos..end], StripFrom(rdata, end));
    assert out + [] == out;
  }

  method StripEcsFromRdata(rdata: seq<byte>) returns (out: seq<byte>)
    ensures out == Strip(rdata)
  {
    out := StripLoop(rdata);
    StripFromIs(rdata, 0);
    assert rdata[0..] == rdata;
  }

  /** The loop of `strip_ecs_from_rdata` */
  method StripLoop(rdata: seq<byte>) returns (out: seq<byte>)
    ensures out == StripFrom(rdata, 0)
  {
    ghost var all := StripFrom(rdata, 0);
    out := [];
    var pos := 0;
    while pos + 4 <= |rdata|
      invariant out + StripFrom(rdata, pos) == all
    {
      var end := pos + 4 + ReadU16(rdata, pos + 2);
      if end > |rdata| { return; }
      StripStep(rdata, pos, out);
      if ReadU16(rdata, pos) != ECS { out := out + rdata[pos..end]; }
      pos := end;
    }
  }

  /** Stripping in a message whose OPT record is at `found`. */
  function StripAt(wire: seq<byte>, found: Option<nat>): seq<byte>
    requires found.Some? ==> found.value + 10 <= |wire|
  {
    if found.None? || RdataEnd(wire, found.value) > |wire| then wire
    else Replace(wire, found.value, Strip(wire[found.value + 10..RdataEnd(wire, found.value)]))
  }

  /** What `process_ecs_option` returns in Strip mode. */
  function StripEcs(wire: seq<byte>): seq<byte> { if |wire| < HEADER then wire else StripAt(wire, OptOf(wire)) }

  /** The answer and authority loop of `process_ecs_option`, which lets the last record overrun. */
  function SkipLoosely(buf: seq<byte>, pos: nat, n: nat): Option<nat>
    decreases n
  {
    if n == 0 then Some(pos)
    else match SkipName(buf, pos)
      case None => None
      case Some(p) => if p + 10 > |buf| then None else SkipLoosely(buf, p + 10 + ReadU16(buf, p + 8), n - 1)
  }

  /** Overrunning leads nowhere: the loose loop makes no difference. */
  lemma {:induction false} LooseIsEnough(buf: seq<byte>, pos: nat, n: nat)
    ensures SkipRecords(buf, pos, n).Some? ==> SkipLoosely(buf, pos, n) == SkipRecords(buf, pos, n)
    ensures SkipRecords(buf, pos, n).None? ==> SkipLoosely(buf, pos, n).None? || SkipLoosely(buf, pos, n).value >= |buf|
    decreases n
  {
    if n > 0 && SkipName(buf, pos).Some? {
      var p := SkipName(buf, pos).value;
      if p + 10 <= |buf| {
        var end := p + 10 + ReadU16(buf, p + 8);
        if end > |buf| { LooseStops(buf, end, n - 1); } else { LooseIsEnough(buf, end, n - 1); }
      }
    }
  }

  lemma LooseStops(buf: seq<byte>, pos: nat, n: nat)
    requires pos > |buf|
    ensures SkipLoosely(buf, pos, n) == if n == 0 then Some(pos) else None
  {
  }

  /** The loops of `process_ecs_option` up to the OPT record find what the others find. */
  method FindOptLoosely(wire: seq<byte>) returns (found: Option<nat>)
    requires |wire| >= HEADER
    ensures found == OptOf(wire)
  {
    var start := SkipQuestionSection(wire);
    if start.None? { return None; }
    var pos: nat := start.value;
    var count := ReadU16(wire, 6) + ReadU16(wire, 8);
    LooseIsEnough(wire, pos, count);
    for i := 0 to count
      invariant SkipLoosely(wire, pos, count - i) == SkipLoosely(wire, start.value, count)
    {
      var p := SkipDnsName(wire, pos);
      if p.None? || p.value + 10 > |wire| { return None; }
      pos := p.value + 10 + ReadU16(wire, p.value + 8);
    }
    found := FindOptRecord(wire, pos, ReadU16(wire, 10));
  }

  /** `process_ecs_option` in Strip mode */
  method ProcessEcsStrip(wire: seq<byte>) returns (out: seq<byte>)
    ensures out == StripEcs(wire)
  {
    if |wire| < HEADER { return wire; }
    var found := FindOptLoosely(wire);
    if found.None? { return wire; }
    var end := RdataEnd(wire, found.value);
    if end > |wire| { return wire; }
    var rdata := StripEcsFromRdata(wire[found.value + 10..end]);
    out := ReplaceRdata(wire, found.value, rdata);
  }

  lemma LengthWritten(head: seq<byte>, tail: seq<byte>, q: nat, length: seq<byte>)
    requires |head| == q + 2 && |length| == 2
    ensures (head + tail)[q := length[0]][q + 1 := length[1]] == head[..q] + length + tail
  {
    var out := (head + tail)[q := length[0]][q + 1 := length[1]];
    assert out[..q] == head[..q] && out[q..q + 2] == length && out[q + 2..] == tail;
    assert out == out[..q] + out[q..q + 2] + out[q + 2..];
  }

  method ReplaceRdata(wire: seq<byte>, p: nat, rdata: seq<byte>) returns (out: seq<byte>)
    requires p + 10 <= |wire| && RdataEnd(wire, p) <= |wire|
    ensures out == Replace(wire, p, rdata)
  {
    var end := p + 10 + ReadU16(wire, p + 8);
    out := wire[..p + 10] + rdata + wire[end..];
    var length := U16(|rdata|);
    out := out[p + 8 := length[0]][p + 9 := length[1]];
    Reassociate(wire[..p + 10], rdata, wire[end..]);
    LengthWritten(wire[..p + 10], rdata + wire[end..], p + 8, length);
    assert wire[..p + 10][..p + 8] == wire[..p + 8];
    Reassociate(wire[..p + 8] + length, rdata, wire[end..]);
  }

  // ---------------------------------------------------------------- stripping twice is stripping once

  lemma {:induction false} StripShorter(r: seq<byte>)
    ensures |Strip(r)| <= |r|
    decreases |r|
  {
    if HasOption(r) { StripShorter(r[4 + ReadU16(r, 2)..]); }
  }

  /** Whole options, none of them a client-subnet option, are all there is. */
  predicate NoEcs(r: seq<byte>) { r == [] || (HasOption(r) && ReadU16(r, 0) != ECS && NoEcs(r[4 + ReadU16(r, 2)..])) }

  /** Nothing is stripped exactly from such RDATA. */
  lemma {:induction false} StripsNothingExactly(r: seq<byte>)
    ensures Strip(r) == r <==> NoEcs(r)
    decreases |r|
  {
    if HasOption(r) {
      var n := 4 + ReadU16(r, 2);
      StripsNothingExactly(r[n..]);
      StripShorter(r[n..]);
      assert r == r[..n] + r[n..];
      if ReadU16(r, 0) == ECS { assert [] + Strip(r[n..]) == Strip(r[n..]); } else { SameTail(r[..n], Strip(r[n..]), r[n..]); }
    }
  }

  lemma SameTail<T>(a: seq<T>, x: seq<T>, y: seq<T>)
    ensures a + x == a + y <==> x == y
  {
    assert (a + x)[|a|..] == x && (a + y)[|a|..] == y;
  }

  lemma {:induction false} StripKept(r: seq<byte>)
    ensures Strip(Strip(r)) == Strip(r)
    decreases |r|
  {
    if HasOption(r) {
      var n := 4 + ReadU16(r, 2);
      StripKept(r[n..]);
      if ReadU16(r, 0) == ECS {
        assert [] + Strip(r[n..]) == Strip(r[n..]);
      } else {
        ReadPrefix(r, n);
        StripHead(r[..n], Strip(r[n..]));
      }
    }
  }

  lemma ReadPrefix(r: seq<byte>, n: nat)
    requires 4 <= n <= |r|
    ensures ReadU16(r[..n], 0) == ReadU16(r, 0) && ReadU16(r[..n], 2) == ReadU16(r, 2)
  {
    AgreeAt(r[..n], r, n, 0);
    AgreeAt(r[..n], r, n, 2);
  }

  /** One whole option in front of a tail. */
  lemma StripHead(o: seq<byte>, tail: seq<byte>)
    requires |o| >= 4 && |o| == 4 + ReadU16(o, 2)
    ensures Strip(o + tail) == (if ReadU16(o, 0) == ECS then [] else o) + Strip(tail)
  {
    var x := o + tail;
    assert x[..|o|] == o && x[|o|..] == tail;
    ReadPrefix(x, |o|);
  }

  lemma ReplaceLayout(wire: seq<byte>, p: nat, rdata: seq<byte>)
    requires p + 10 <= |wire| && RdataEnd(wire, p) <= |wire| && |rdata| < 0x1_0000
    ensures var out := Replace(wire, p, rdata);
      && Agree(wire, out, p + 8) && p + 10 <= |out| && RdataEnd(out, p) == p + 10 + |rdata| <= |out|
      && out[p + 10..RdataEnd(out, p)] == rdata && Replace(out, p, rdata) == out
  {
    var out, end := Replace(wire, p, rdata), RdataEnd(wire, p);
    assert out[..p + 8] == wire[..p + 8];
    assert At(out, p + 8, U16(|rdata|));
    ReadU16At(out, p + 8, |rdata|);
    assert out[p + 10 + |rdata|..] == wire[end..];
  }

  lemma StripWhere(wire: seq<byte>, p: nat, rdata: seq<byte>)
    requires |wire| >= HEADER && OptOf(wire) == Some(p) && p + 10 <= |wire| && RdataEnd(wire, p) <= |wire|
    requires wire[p + 10..RdataEnd(wire, p)] == rdata
    ensures StripEcs(wire) == Replace(wire, p, Strip(rdata))
  {
  }

  /** A message whose options are all kept is not changed. */
  lemma StrippedStays(out: seq<byte>, p: nat)
    requires |out| >= HEADER && OptOf(out) == Some(p) && p + 10 <= RdataEnd(out, p) <= |out|
    requires var rdata := out[p + 10..RdataEnd(out, p)]; Strip(rdata) == rdata && Replace(out, p, rdata) == out
    ensures StripEcs(out) == out
  {
  }

  /** Options that are all kept, in place of the old ones. */
  lemma KeptStays(wire: seq<byte>, p: nat, kept: seq<byte>)
    requires |wire| >= HEADER && OptOf(wire) == Some(p) && RdataEnd(wire, p) <= |wire|
    requires |kept| < 0x1_0000 && Strip(kept) == kept
    ensures StripEcs(Replace(wire, p, kept)) == Replace(wire, p, kept)
  {
    var out := Replace(wire, p, kept);
    ReplaceLayout(wire, p, kept);
    AgreeLess(wire, out, p + 8, p + 2);
    OptOfLocal(wire, out, p);
    StrippedStays(out, p);
  }

  /** A whole OPT record is there to strip. */
  predicate Strips(wire: seq<byte>) {
    |wire| >= HEADER && OptOf(wire).Some? && RdataEnd(wire, OptOf(wire).value) <= |wire|
  }

  lemma StripsNot(wire: seq<byte>)
    requires !Strips(wire)
    ensures StripEcs(wire) == wire
  {
  }

  /** Stripping is idempotent, on any bytes at all. */
  lemma StripIdempotent(wire: seq<byte>)
    ensures StripEcs(StripEcs(wire)) == StripEcs(wire)
  {
    if Strips(wire) {
      var p := OptOf(wire).value;
      var rdata := wire[p + 10..RdataEnd(wire, p)];
      StripWhere(wire, p, rdata);
      StripKept(rdata);
      StripShorter(rdata);
      KeptStays(wire, p, Strip(rdata));
    } else {
      StripsNot(wire);
    }
  }

  // ---------------------------------------------------------------- what stripping does to the message

  /** The options that are not client-subnet options, in order. */
  function Kept(os: seq<EdnsOption>): seq<EdnsOption> {
    if os == [] then [] else (if os[0].code == ECS then [] else [os[0]]) + Kept(os[1..])
  }

  lemma ReadOption(o: EdnsOption)
    requires ValidOption(o)
    ensures var b := OptionBytes(o); |b| == 4 + |o.data| && ReadU16(b, 0) == o.code && ReadU16(b, 2) == |o.data|
  {
    var b := OptionBytes(o);
    AtWhole(b);
    AtSplit(b, 0, U16(o.code), U16(|o.data|) + o.data);
    AtSplit(b, 2, U16(|o.data|), o.data);
    ReadU16At(b, 0, o.code);
    ReadU16At(b, 2, |o.data|);
  }

  /** On options that tile RDATA, stripping removes exactly those of code 8. */
  lemma {:induction false} StripKeepsOthers(os: seq<EdnsOption>)
    requires ValidOptions(os)
    ensures Strip(OptionsBytes(os)) == OptionsBytes(Kept(os))
    decreases |os|
  {
    if os == [] {
    } else {
      var o, rest := os[0], os[1..];
      ReadOption(o);
      StripHead(OptionBytes(o), OptionsBytes(rest));
      StripKeepsOthers(rest);
      if o.code == ECS {
        assert [] + Kept(rest) == Kept(rest) && [] + OptionsBytes(Kept(rest)) == OptionsBytes(Kept(rest));
      } else {
        assert ([o] + Kept(rest))[1..] == Kept(rest);
      }
    }
  }

  lemma StripNowhere(wire: seq<byte>)
    requires |wire| >= HEADER && OptOf(wire) == None
    ensures StripEcs(wire) == wire
  {
  }

  /** Stripping an encoded message strips the RDATA of its OPT record. */
  lemma StripEncoded(m: Message)
    requires ValidMessage(m) && HasOpt(m)
    ensures OptAt(m) + 10 <= |Encode(m)| &&
            RdataEnd(Encode(m), OptAt(m)) == OptAt(m) + 10 + |OptRdata(m)| <= |Encode(m)|
    ensures StripEcs(Encode(m)) == Replace(Encode(m), OptAt(m), Strip(OptRdata(m)))
    ensures StripEcs(Encode(m)) == Encode(WithRdata(m, Strip(OptRdata(m))))
  {
    OptFound(Encode(m), m);
    ReplaceEncoded(m, Strip(OptRdata(m)));
    StripWhere(Encode(m), OptAt(m), OptRdata(m));
  }

  /** `process_ecs_option` in Strip mode removes exactly the code-8 options of the OPT record, keeps the
    * others in order with the right RDLENGTH, and leaves everything else alone. */
  lemma StripRefines(m: Message, os: seq<EdnsOption>)
    requires ValidMessage(m) && ValidOptions(os) && OptRdata(m) == OptionsBytes(os)
    ensures StripEcs(Encode(m)) == Encode(if HasOpt(m) then WithRdata(m, OptionsBytes(Kept(os))) else m)
  {
    if HasOpt(m) {
      StripKeepsOthers(os);
      StripEncoded(m);
    } else {
      OptFound(Encode(m), m);
      StripNowhere(Encode(m));
    }
  }
}
