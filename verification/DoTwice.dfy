/** `ensure_edns0_do_bit` of src/dns/parser.rs applied twice: the octet it sets belongs to the message it
  * parses, so that a name which reads that octet as a length no longer parses the second time. */
module DoTwice {
  import opened Bytes
  import opened Wrappers
  import opened WireNames
  import opened Messages
  import opened Edns
  import opened EdnsLaws
  import opened DoBit
  import NameReach

  // ---------------------------------------------------------------- reading one octet

  /** How a walk reads the octet at `f` first, what it copies into labels aside: never, as the length of a
    * label or the root byte, or as the low half of a pointer. */
  datatype Reading = Never | AsLength | AsLow

  function ReadingFrom(buf: seq<byte>, f: nat, pos: nat, steps: nat): Reading
    decreases MAX_STEPS - steps, buf
  {
    if pos >= |buf| || steps + 1 > MAX_STEPS then Never
    else if pos == f then AsLength
    else
      var len := buf[pos];
      if len == 0 then Never
      else if IsPointer(len) then
        if pos + 1 == f then AsLow
        else if pos + 1 >= |buf| || Target(len, buf[pos + 1]) >= |buf| then Never
        else ReadingFrom(buf, f, Target(len, buf[pos + 1]), steps + 1)
      else if len > MAX_LABEL || pos + 1 + len > |buf| then Never
      else ReadingFrom(buf, f, pos + 1 + len, steps + 1)
  }

  /** `b` is `a` with another octet at `f`. */
  ghost predicate Changed(a: seq<byte>, b: seq<byte>, f: nat) {
    |b| == |a| && forall i | 0 <= i < |a| && i != f :: b[i] == a[i]
  }

  /** A walk that never reads the octet ends where it ended. */
  lemma {:induction false} NeverSame(a: seq<byte>, b: seq<byte>, f: nat, pos: nat, jumps: nat, steps: nat, total: nat)
    requires Changed(a, b, f) && ReadingFrom(a, f, pos, steps) == Never && WalkFrom(a, pos, jumps, steps, total).Some?
    ensures WalkFrom(b, pos, jumps, steps, total).Some?
    ensures WalkFrom(b, pos, jumps, steps, total).value.end == WalkFrom(a, pos, jumps, steps, total).value.end
    decreases MAX_STEPS - steps
  {
    if pos >= |a| || a[pos] == 0 {
    } else if IsPointer(a[pos]) {
      NeverSame(a, b, f, Target(a[pos], a[pos + 1]), jumps + 1, steps + 1, total);
    } else {
      NeverSame(a, b, f, pos + 1 + a[pos], jumps, steps + 1, total + 1 + a[pos]);
    }
  }

  /** A walk that reads it as a length fails once it is neither a length nor a pointer. */
  lemma {:induction false} LengthLost(a: seq<byte>, b: seq<byte>, f: nat, pos: nat, jumps: nat, steps: nat, total: nat)
    requires Changed(a, b, f) && ReadingFrom(a, f, pos, steps) == AsLength && f < |b| && 64 <= b[f] < 192
    ensures WalkFrom(b, pos, jumps, steps, total).None?
    decreases MAX_STEPS - steps
  {
    if pos == f {
    } else if IsPointer(a[pos]) {
      LengthLost(a, b, f, Target(a[pos], a[pos + 1]), jumps + 1, steps + 1, total);
    } else {
      LengthLost(a, b, f, pos + 1 + a[pos], jumps, steps + 1, total + 1 + a[pos]);
    }
  }

  /** Some name, up to that of the first OPT record, reads the octet in this way. */
  predicate SomeReads(buf: seq<byte>, f: nat, pos: nat, rs: seq<Record>, how: Reading)
    decreases |rs|
  {
    rs != [] && (ReadingFrom(buf, f, pos, 0) == how
                 || (rs[0].rtype != OPT && SomeReads(buf, f, pos + RecordLength(rs[0]), rs[1..], how)))
  }

  /** The names still parse exactly when none reads the octet as a length, halves of pointers aside. */
  lemma {:induction false} StillWalk(a: seq<byte>, b: seq<byte>, f: nat, pos: nat, rs: seq<Record>)
    requires Changed(a, b, f) && f < |b| && NamesWalk(a, pos, rs) && !SomeReads(a, f, pos, rs, AsLow)
    requires 64 <= b[f] < 192 || !SomeReads(a, f, pos, rs, AsLength)
    ensures NamesWalk(b, pos, rs) <==> !SomeReads(a, f, pos, rs, AsLength)
    decreases |rs|
  {
    if rs == [] {
    } else if ReadingFrom(a, f, pos, 0) == AsLength {
      LengthLost(a, b, f, pos, 0, 0, 0);
    } else {
      NeverSame(a, b, f, pos, 0, 0, 0);
      if rs[0].rtype != OPT { StillWalk(a, b, f, pos + RecordLength(rs[0]), rs[1..]); }
    }
  }

  /** Names that parse read no octet as a length that cannot be one. */
  lemma {:induction false} NoLength(a: seq<byte>, f: nat, pos: nat, rs: seq<Record>)
    requires NamesWalk(a, pos, rs) && f < |a| && 64 <= a[f] < 192
    ensures !SomeReads(a, f, pos, rs, AsLength)
    decreases |rs|
  {
    if rs == [] {
    } else {
      if ReadingFrom(a, f, pos, 0) == AsLength { LengthLost(a, a, f, pos, 0, 0, 0); }
      if rs[0].rtype != OPT { NoLength(a, f, pos + RecordLength(rs[0]), rs[1..]); }
    }
  }

  // ---------------------------------------------------------------- setting the bit twice

  /** The octet that holds the DO bit of the OPT record. */
  function FlagAt(m: Message): nat requires HasOpt(m) { OptAt(m) + 6 }

  /** Some name up to that of the OPT record reads the octet of the DO bit in this way. */
  predicate FlagRead(m: Message, how: Reading)
    requires HasOpt(m)
  {
    SomeReads(Encode(m), FlagAt(m), ExtraAt(m), m.additional, how)
  }

  lemma FlagOctet(m: Message)
    requires ValidMessage(m) && HasOpt(m)
    ensures FlagAt(m) + 4 <= |Encode(m)|
    ensures Encode(WithDo(m)) == Encode(m)[FlagAt(m) := OrHigh(Encode(m)[FlagAt(m)])]
  {
    SetDoEncoded(m, OptAt(m));
  }

  lemma {:induction false} SameWalk(buf: seq<byte>, pos: nat, rs: seq<Record>, rs': seq<Record>)
    requires |rs| == |rs'|
    requires forall i | 0 <= i < |rs| :: rs'[i].name == rs[i].name && rs'[i].rtype == rs[i].rtype && |rs'[i].rdata| == |rs[i].rdata|
    ensures NamesWalk(buf, pos, rs') <==> NamesWalk(buf, pos, rs)
    decreases |rs|
  {
    if rs == [] {
    } else {
      SameWalk(buf, pos + RecordLength(rs[0]), rs[1..], rs'[1..]);
    }
  }

  /** The same names stand at the same places after the bit is set. */
  lemma WithDoWalks(m: Message, wire: seq<byte>)
    requires HasOpt(m)
    ensures ExtraParses(wire, WithDo(m)) <==> ExtraParses(wire, m)
  {
    SameWalk(wire, ExtraAt(m), m.additional, WithDo(m).additional);
  }

  /** With an OPT record: when the names up to it parse and none reads the octet of a clear DO bit as half a
    * pointer, doing it twice is doing it once exactly when the bit was set or no name reads its octet as a
    * length. */
  lemma IdempotentExactlyWithOpt(m: Message)
    requires ValidMessage(m) && HasOpt(m) && ExtraParses(Encode(m), m) && FlagAt(m) < |Encode(m)|
    requires Encode(m)[FlagAt(m)] < 128 ==> !FlagRead(m, AsLow)
    ensures EnsureDo(EnsureDo(Encode(m))) == EnsureDo(Encode(m)) <==>
            Encode(m)[FlagAt(m)] >= 128 || !FlagRead(m, AsLength)
  {
    var x, f := Encode(m), FlagAt(m);
    FlagOctet(m);
    EnsureRefinesExactly(m);
    if x[f] >= 128 {
      assert x[f := x[f]] == x;
    } else {
      var y := x[f := x[f] + 128];
      ClearBit(m, x, y, f);
    }
  }

  lemma ClearBit(m: Message, x: seq<byte>, y: seq<byte>, f: nat)
    requires ValidMessage(m) && HasOpt(m) && x == Encode(m) && y == Encode(WithDo(m)) && ExtraParses(x, m) &&
             f == FlagAt(m)
    requires f < |x| && x[f] < 128 && y == x[f := x[f] + 128] && !FlagRead(m, AsLow)
    ensures EnsureDo(EnsureDo(x)) == EnsureDo(x) <==> !FlagRead(m, AsLength)
  {
    IdempotentWhenParsed(m);
    WithDoWalks(m, y);
    if x[f] >= 64 { NoLength(x, f, ExtraAt(m), m.additional); }
    StillWalk(x, y, f, ExtraAt(m), m.additional);
  }

  // ---------------------------------------------------------------- adding a record

  /** The names of the records end in a root byte and do not read the octets of the count. */
  predicate CountUnread(buf: seq<byte>, pos: nat, rs: seq<Record>)
    decreases |rs|
  {
    rs == [] || (NameReach.Expands(buf, pos).Some? && NameReach.ReachFrom(buf, NameReach.Edit(10, 12, |buf|), pos, 0).Clear?
                 && CountUnread(buf, pos + RecordLength(rs[0]), rs[1..]))
  }

  /** Such names parse after the count is raised and octets are added at the end, and so does a root name
    * there. */
  lemma {:induction false} WalksWithOneMore(x: seq<byte>, y: seq<byte>, pos: nat, rs: seq<Record>)
    requires NameReach.Edited(x, y, NameReach.Edit(10, 12, |x|)) && CountUnread(x, pos, rs) && FirstOpt(rs) == |rs|
    requires RecordsFound(y, pos, rs) && pos + RecordsLength(rs) < |y| && y[pos + RecordsLength(rs)] == 0
    ensures NamesWalk(y, pos, rs + [FRESH_DO])
    decreases |rs|
  {
    if rs == [] {
      assert ([] + [FRESH_DO])[0] == FRESH_DO && WalkName(y, pos) == Some(Walk([], pos + 1, true));
    } else {
      assert (rs + [FRESH_DO])[0] == rs[0] && (rs + [FRESH_DO])[1..] == rs[1..] + [FRESH_DO];
      NameReach.ClearSame(x, y, NameReach.Edit(10, 12, |x|), pos, 0, 0, 0);
      assert WalkName(y, pos).Some?;
      WalkEnd(y, pos, rs[0]);
      WalksWithOneMore(x, y, pos + RecordLength(rs[0]), rs[1..]);
    }
  }

  lemma {:induction false} FoundFront(buf: seq<byte>, pos: nat, rs: seq<Record>, r: Record)
    requires RecordsFound(buf, pos, rs + [r])
    ensures RecordsFound(buf, pos, rs)
    decreases |rs|
  {
    if rs == [] {
    } else {
      assert (rs + [r])[0] == rs[0] && (rs + [r])[1..] == rs[1..] + [r];
      FoundFront(buf, pos + RecordLength(rs[0]), rs[1..], r);
    }
  }

  lemma AddedEdit(x: seq<byte>, y: seq<byte>)
    requires HEADER <= |x| <= |y| && x[..10] == y[..10] && x[HEADER..] == y[HEADER..|x|]
    ensures NameReach.Edited(x, y, NameReach.Edit(10, 12, |x|))
  {
    forall i | 0 <= i < 10 ensures y[i] == x[i] { assert x[..10][i] == y[..10][i]; }
    forall i | 12 <= i < |x| ensures y[i] == x[i] { assert x[HEADER..][i - HEADER] == y[HEADER..|x|][i - HEADER]; }
  }

  lemma AddedEdits(m: Message)
    requires ValidMessage(m) && !HasOpt(m)
    ensures var x, y := Encode(m), Encode(WithDo(m));
      NameReach.Edited(x, y, NameReach.Edit(10, 12, |x|)) && |x| == ExtraAt(m) + RecordsLength(m.additional) < |y| && y[|x|] == 0
  {
    var x, y := Encode(m), Encode(WithDo(m));
    EncodeLength(m);
    AddedSame(m);
    assert x[..10] == Header(m)[..10] && y[..10] == Header(WithDo(m))[..10];
    AddedEdit(x, y);
  }

  lemma AddedFound(m: Message)
    requires ValidMessage(m) && !HasOpt(m) && |m.additional| < 0xFFFF
    ensures RecordsFound(Encode(WithDo(m)), ExtraAt(m), m.additional)
  {
    WithDoValid(m);
    ExtraFound(WithDo(m));
    FoundFront(Encode(WithDo(m)), ExtraAt(m), m.additional, FRESH_DO);
  }

  lemma AddedParses(m: Message)
    requires ValidMessage(m) && !HasOpt(m) && |m.additional| < 0xFFFF &&
             CountUnread(Encode(m), ExtraAt(m), m.additional)
    ensures ExtraParses(Encode(WithDo(m)), WithDo(m))
  {
    AddedEdits(m);
    AddedFound(m);
    WalksWithOneMore(Encode(m), Encode(WithDo(m)), ExtraAt(m), m.additional);
    MoreParses(Encode(WithDo(m)), m);
  }

  lemma MoreParses(wire: seq<byte>, m: Message)
    requires !HasOpt(m) && NamesWalk(wire, ExtraAt(m), m.additional + [FRESH_DO])
    ensures ExtraParses(wire, WithDo(m))
  {
  }

  /** Without an OPT record: when the names of the additional records end in a root byte and none reads the
    * count, doing it twice is doing it once exactly when the count can grow. */
  lemma IdempotentExactlyWithoutOpt(m: Message)
    requires ValidMessage(m) && !HasOpt(m) && CountUnread(Encode(m), ExtraAt(m), m.additional)
    ensures EnsureDo(EnsureDo(Encode(m))) == EnsureDo(Encode(m)) <==> |m.additional| < 0xFFFF
  {
    IdempotentWhenParsed(m);
    if |m.additional| < 0xFFFF { AddedParses(m); }
  }

  // ---------------------------------------------------------------- names that never parse

  lemma NewOptDoEdits(a: seq<byte>)
    requires |a| >= HEADER
    ensures |NewOptDo(a)| == |a| + 11
    ensures NameReach.Edited(a, NewOptDo(a), NameReach.Edit(10, 12, |a|))
  {
    var head := a[..10] + U16(Min(ReadU16(a, 10) + 1, 65535)) + a[12..];
    assert |head| == |a| && NewOptDo(a) == head + OPT_DO;
    assert forall i | 12 <= i < |a| :: head[i] == a[i];
  }

  /** A walk that fails inside the message, at a step or wire limit or at an octet that is no length, without
    * reading the count. */
  predicate StuckFrom(buf: seq<byte>, pos: nat, jumps: nat, steps: nat, total: nat)
    decreases MAX_STEPS - steps, buf
  {
    if pos >= |buf| || 10 <= pos < 12 then false
    else if steps + 1 > MAX_STEPS || jumps > MAX_JUMPS then true
    else
      var len := buf[pos];
      if len == 0 then total + 1 > MAX_WIRE
      else if IsPointer(len) then
        pos + 1 < |buf| && !(10 <= pos + 1 < 12) && Target(len, buf[pos + 1]) < |buf| &&
        StuckFrom(buf, Target(len, buf[pos + 1]), jumps + 1, steps + 1, total)
      else if len > MAX_LABEL then true
      else pos + 1 + len <= |buf| && (total + 1 + len > MAX_WIRE || StuckFrom(buf, pos + 1 + len, jumps, steps + 1, total + 1 + len))
  }

  /** It fails as well after the count is rewritten and octets are added at the end. */
  lemma {:induction false} StuckStays(x: seq<byte>, y: seq<byte>, pos: nat, jumps: nat, steps: nat, total: nat)
    requires NameReach.Edited(x, y, NameReach.Edit(10, 12, |x|)) && |x| <= |y| && StuckFrom(x, pos, jumps, steps, total)
    ensures WalkFrom(y, pos, jumps, steps, total).None?
    decreases MAX_STEPS - steps
  {
    if steps + 1 > MAX_STEPS || jumps > MAX_JUMPS || x[pos] == 0 {
    } else if IsPointer(x[pos]) {
      StuckStays(x, y, Target(x[pos], x[pos + 1]), jumps + 1, steps + 1, total);
    } else if x[pos] <= MAX_LABEL && total + 1 + x[pos] <= MAX_WIRE {
      StuckStays(x, y, pos + 1 + x[pos], jumps, steps + 1, total + 1 + x[pos]);
    }
  }

  /** Some name, up to that of the first OPT record, is stuck. */
  predicate SomeStuck(buf: seq<byte>, pos: nat, rs: seq<Record>)
    decreases |rs|
  {
    rs != [] && (StuckFrom(buf, pos, 0, 0, 0) || (rs[0].rtype != OPT && SomeStuck(buf, pos + RecordLength(rs[0]), rs[1..])))
  }

  lemma {:induction false} StuckFails(x: seq<byte>, y: seq<byte>, pos: nat, rs: seq<Record>)
    requires NameReach.Edited(x, y, NameReach.Edit(10, 12, |x|)) && |x| <= |y| && SomeStuck(x, pos, rs)
    ensures !NamesWalk(y, pos, rs)
    decreases |rs|
  {
    if StuckFrom(x, pos, 0, 0, 0) {
      StuckStays(x, y, pos, 0, 0, 0);
    } else {
      StuckFails(x, y, pos + RecordLength(rs[0]), rs[1..]);
    }
  }

  /** Records after the first OPT record do not matter. */
  lemma {:induction false} WalkFront(buf: seq<byte>, pos: nat, rs: seq<Record>, r: Record)
    requires FirstOpt(rs) < |rs|
    ensures NamesWalk(buf, pos, rs + [r]) <==> NamesWalk(buf, pos, rs)
    decreases |rs|
  {
    assert (rs + [r])[0] == rs[0] && (rs + [r])[1..] == rs[1..] + [r];
    if rs[0].rtype != OPT { WalkFront(buf, pos + RecordLength(rs[0]), rs[1..], r); }
  }

  lemma UnparsedAgain(m: Message, y: seq<byte>)
    requires ValidMessage(m) && HasOpt(m) && |m.additional| < 0xFFFF && |Encode(m)| >= HEADER &&
             y == NewOptDo(Encode(m))
    requires !NamesWalk(y, ExtraAt(m), m.additional)
    ensures EnsureDo(y) == NewOptDo(y)
  {
    NewOptDoRefines(m);
    WalkFront(y, ExtraAt(m), m.additional, FRESH_DO);
    UnparsedMore(m.(additional := m.additional + [FRESH_DO]), m, y);
  }

  lemma MoreValid(m: Message)
    requires ValidMessage(m) && |m.additional| < 0xFFFF
    ensures ValidMessage(m.(additional := m.additional + [FRESH_DO]))
  {
    FreshDoBytes();
  }

  /** With names that do not parse a record is added. */
  lemma UnparsedAdds(m: Message, y: seq<byte>)
    requires ValidMessage(m) && Encode(m) <= y && !ExtraParses(y, m)
    ensures |y| >= HEADER && EnsureDo(y) == NewOptDo(y)
  {
    EnsureAt(y, m);
  }

  lemma UnparsedMore(m': Message, m: Message, y: seq<byte>)
    requires ValidMessage(m) && |m.additional| < 0xFFFF && m' == m.(additional := m.additional + [FRESH_DO])
    requires y == Encode(m') && !NamesWalk(y, ExtraAt(m), m'.additional)
    ensures |y| >= HEADER && EnsureDo(y) == NewOptDo(y)
  {
    MoreValid(m);
    assert ExtraAt(m') == ExtraAt(m);
    UnparsedAdds(m', y);
  }

  lemma UnparsedSaturated(m: Message, y: seq<byte>)
    requires ValidMessage(m) && |m.additional| == 0xFFFF && |Encode(m)| >= HEADER && y == NewOptDo(Encode(m))
    requires !NamesWalk(y, ExtraAt(m), m.additional)
    ensures EnsureDo(y) == NewOptDo(y)
  {
    ExtraFound(m);
    SaturatedPrefix(Encode(m));
    UnparsedAdds(m, y);
  }

  /** A name that never parses hides the OPT record from every call: each adds another. */
  lemma StuckNeverIdempotent(m: Message)
    requires ValidMessage(m) && HasOpt(m) && SomeStuck(Encode(m), ExtraAt(m), m.additional)
    ensures EnsureDo(EnsureDo(Encode(m))) != EnsureDo(Encode(m))
  {
    var x := Encode(m);
    EnsureAt(x, m);
    NewOptDoEdits(x);
    StuckFails(x, x, ExtraAt(m), m.additional);
    StuckFails(x, NewOptDo(x), ExtraAt(m), m.additional);
    if |m.additional| < 0xFFFF { UnparsedAgain(m, NewOptDo(x)); } else { UnparsedSaturated(m, NewOptDo(x)); }
    NewOptDoLonger(NewOptDo(x));
  }

  // ---------------------------------------------------------------- a name that reads the flag

  /** A record whose name is a pointer to the octet of the DO bit, and an OPT record. */
  function Pointing(n: seq<byte>): Message {
    Message(0, 0, [], [], [], [Record(n, 1, 1, 0, []), Record([0], OPT, 4096, 0, [])])
  }

  /** The bit is clear, which makes it a root byte; once it is set the name no longer parses, and the second
    * call adds another OPT record. */
  lemma FlagNameLost() returns (m: Message)
    ensures ValidMessage(m) && HasOpt(m) && ExtraParses(Encode(m), m)
    ensures EnsureDo(EnsureDo(Encode(m))) != EnsureDo(Encode(m))
  {
    var n: seq<byte> := [192, 31];
    m := Pointing(n);
    PointingValid(m, n);
    PointingPlaces(m, n);
    PointingOctets(m, n);
    var x := Encode(m);
    PointingReads(x, m.additional);
    IdempotentExactlyWithOpt(m);
  }

  lemma PointingValid(m: Message, n: seq<byte>)
    requires n == [192, 31] && m == Pointing(n)
    ensures ValidMessage(m) && HasOpt(m) && FirstOpt(m.additional) == 1
  {
    assert IsName(n) && IsName([0]);
    assert m.additional[1..][0].rtype == OPT;
  }

  lemma PointingPlaces(m: Message, n: seq<byte>)
    requires n == [192, 31] && m == Pointing(n)
    ensures ExtraAt(m) == 12 && OptAt(m) == 25 && Before(m, 1) == Header(m) + RecordBytes(m.additional[0])
  {
    var a := m.additional[0];
    PointingValid(m, n);
    assert m.additional[..1] == [a] && [a][1..] == [];
    assert Front(m) == [];
    FrontLength(m);
  }

  lemma PointingOctets(m: Message, n: seq<byte>)
    requires n == [192, 31] && m == Pointing(n)
    ensures var x := Encode(m); |x| == 35 && x[12] == 192 && x[13] == 31 && x[24] == 0 && x[31] == 0
  {
    var a, o := m.additional[0], m.additional[1];
    PointingPlaces(m, n);
    EncodeAround(m, 1);
    assert m.additional[2..] == [];
    assert Fixed(o)[6] == U32(0)[2];
    U32Zero();
    TwoRecords(Header(m), n, Fixed(a), U16(0), o.name, Fixed(o));
  }

  lemma TwoRecords(h: seq<byte>, n: seq<byte>, f: seq<byte>, l: seq<byte>, z: seq<byte>, g: seq<byte>)
    requires |h| == 12 && |n| == 2 && |f| == |g| == 8 && |l| == 2 && |z| == 1
    ensures var x := h + (n + (f + (l + []))) + ((z + (g + (l + []))) + []);
      |x| == 35 && x[12] == n[0] && x[13] == n[1] && x[24] == z[0] && x[31] == g[6]
  {
  }

  lemma U32Zero()
    ensures U32(0) == [0, 0, 0, 0]
  {
    FourOctets(0);
    U16Is(0);
  }

  lemma PointingReads(x: seq<byte>, rs: seq<Record>)
    requires |x| == 35 && x[12] == 192 && x[13] == 31 && x[24] == 0 && x[31] == 0
    requires |rs| == 2 && rs[0].rtype == 1 && rs[1].rtype == OPT && RecordLength(rs[0]) == 12 && |rs[0].name| == 2 &&
             |rs[1].name| == 1
    ensures NamesWalk(x, 12, rs) && SomeReads(x, 31, 12, rs, AsLength) && !SomeReads(x, 31, 12, rs, AsLow)
  {
    assert WalkFrom(x, 31, 1, 1, 0) == Some(Walk([], 32, true));
    assert WalkName(x, 24) == Some(Walk([], 25, true));
    assert ReadingFrom(x, 31, 31, 1) == AsLength && ReadingFrom(x, 31, 24, 0) == Never;
    assert rs[1..][0] == rs[1];
  }
}
