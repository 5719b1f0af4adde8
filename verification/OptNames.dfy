/** What the names of a message expand to after an edit of its OPT record. The functions of
  * src/dns/parser.rs that insert or remove octets there move what follows and rewrite RDLENGTH, and
  * rewrite no compression pointer (section 4.1.4 of RFC 1035). */
module OptNames {
  import opened Bytes
  import opened Wrappers
  import opened WireNames
  import opened Messages
  import opened Edns
  import opened EdnsLaws
  import opened Ecs
  import opened DoBit
  import DoTwice
  import opened NameReach

  // ---------------------------------------------------------------- the names of a message

  ghost predicate NameOf(m: Message, n: seq<byte>) {
    || (exists q <- m.questions :: q.name == n)
    || (exists r <- m.answers + m.authority + m.additional :: r.name == n)
  }

  predicate QuestionsMean(buf: seq<byte>, pos: nat, qs: seq<Question>)
    decreases |qs|
  {
    qs == [] || (Expands(buf, pos) == Meaning(buf, qs[0].name) && QuestionsMean(buf, pos + QuestionLength(qs[0]), qs[1..]))
  }

  predicate RecordsMean(buf: seq<byte>, pos: nat, rs: seq<Record>)
    decreases |rs|
  {
    rs == [] || (Expands(buf, pos) == Meaning(buf, rs[0].name) && RecordsMean(buf, pos + RecordLength(rs[0]), rs[1..]))
  }

  lemma QuestionRead(buf: seq<byte>, pos: nat, q: Question)
    requires IsName(q.name) && At(buf, pos, QuestionBytes(q))
    ensures Expands(buf, pos) == Meaning(buf, q.name)
  {
    AtSplit(buf, pos, q.name, U16(q.qtype) + U16(q.qclass));
    MeaningIsExpansion(buf, pos, q.name);
  }

  lemma RecordRead(buf: seq<byte>, pos: nat, r: Record)
    requires IsName(r.name) && At(buf, pos, RecordBytes(r))
    ensures Expands(buf, pos) == Meaning(buf, r.name)
  {
    AtSplit(buf, pos, r.name, Fixed(r) + (U16(|r.rdata|) + r.rdata));
    MeaningIsExpansion(buf, pos, r.name);
  }

  lemma {:induction false} QuestionsRead(buf: seq<byte>, pos: nat, qs: seq<Question>)
    requires ValidQuestions(qs) && At(buf, pos, QuestionsBytes(qs))
    ensures QuestionsMean(buf, pos, qs)
    decreases |qs|
  {
    if qs == [] {
    } else {
      assert ValidQuestion(qs[0]);
      AtSplit(buf, pos, QuestionBytes(qs[0]), QuestionsBytes(qs[1..]));
      QuestionRead(buf, pos, qs[0]);
      QuestionsRead(buf, pos + QuestionLength(qs[0]), qs[1..]);
    }
  }

  lemma {:induction false} RecordsRead(buf: seq<byte>, pos: nat, rs: seq<Record>)
    requires ValidRecords(rs) && At(buf, pos, RecordsBytes(rs))
    ensures RecordsMean(buf, pos, rs)
    decreases |rs|
  {
    if rs == [] {
    } else {
      assert ValidRecord(rs[0]);
      AtSplit(buf, pos, RecordBytes(rs[0]), RecordsBytes(rs[1..]));
      RecordRead(buf, pos, rs[0]);
      RecordsRead(buf, pos + RecordLength(rs[0]), rs[1..]);
    }
  }

  /** Parsing the names of an encoded message where they stand gives their meanings. */
  lemma NamesAreRead(m: Message)
    requires ValidMessage(m)
    ensures QuestionsMean(Encode(m), HEADER, m.questions)
    ensures RecordsMean(Encode(m), AnswersAt(m), m.answers + m.authority)
    ensures RecordsMean(Encode(m), ExtraAt(m), m.additional)
  {
    Sections(Encode(m), m);
    QuestionsRead(Encode(m), HEADER, m.questions);
    RecordsRead(Encode(m), AnswersAt(m), m.answers + m.authority);
    RecordsRead(Encode(m), ExtraAt(m), m.additional);
  }

  /** Every name of `m` that expands expands to the same labels in `wire`. */
  ghost predicate NamesKept(m: Message, wire: seq<byte>) {
    forall n | NameOf(m, n) && Meaning(Encode(m), n).Some? :: Meaning(wire, n) == Meaning(Encode(m), n)
  }

  // ---------------------------------------------------------------- appending an option

  /** What an append does to an encoded message: RDLENGTH rewritten and the option put behind RDATA, or
    * the count rewritten and a record put at the end. */
  function AppendEdit(m: Message): Edit {
    if HasOpt(m) then Edit(OptAt(m) + 8, OptAt(m) + 10, OptAt(m) + 10 + |OptRdata(m)|) else Edit(10, 12, |Encode(m)|)
  }

  function ReachIn(m: Message, n: seq<byte>): Reach { ReachOf(Encode(m), AppendEdit(m), n) }

  /** No name reads a length or count that an append rewrites, nor straddles the insertion with a pointer. */
  ghost predicate NoneTorn(m: Message) {
    forall n | NameOf(m, n) && Meaning(Encode(m), n).Some? :: !ReachIn(m, n).Torn?
  }

  /** The name never gets to the insertion or beyond, except to a root that stands there. */
  predicate Steady(m: Message, n: seq<byte>) {
    ReachIn(m, n).Clear? || AtRoot(Encode(m), AppendEdit(m), ReachIn(m, n))
  }

  lemma SpliceEdits(a: seq<byte>, p: nat, option: seq<byte>)
    requires p + 10 <= |a| && RdataEnd(a, p) <= |a|
    ensures Edited(a, Splice(a, p, option), Edit(p + 8, p + 10, RdataEnd(a, p))) &&
            At(Splice(a, p, option), RdataEnd(a, p), option)
  {
    var end := RdataEnd(a, p);
    var rdata := a[p + 10..end];
    var b := Splice(a, p, option);
    assert b == a[..p + 8] + U16(|rdata + option|) + rdata + option + a[end..];
    assert forall i | p + 10 <= i < end :: rdata[i - p - 10] == a[i];
  }

  lemma NewOptEdits(a: seq<byte>, option: seq<byte>)
    requires |a| >= HEADER
    ensures Edited(a, NewOpt(a, option), Edit(10, 12, |a|)) && |a| < |NewOpt(a, option)| && NewOpt(a, option)[|a|] == 0
  {
    var b := NewOpt(a, option);
    var head := a[..10] + U16(Min(ReadU16(a, 10) + 1, 65535)) + a[12..];
    assert |head| == |a| && b == head + (FRESH_OPT + U16(|option|) + option);
    assert forall i | 12 <= i < |a| :: head[i] == a[i];
  }

  /** `b` is `a` after the edit `e`, with a zero at the insertion. */
  ghost predicate Grown(a: seq<byte>, b: seq<byte>, e: Edit) { Edited(a, b, e) && e.ins < |b| && b[e.ins] == 0 }

  lemma AppendToEdits(a: seq<byte>, found: Option<nat>, e: Edit, option: seq<byte>)
    requires |a| >= HEADER && option != [] && option[0] == 0
    requires match found
      case None => e == Edit(10, 12, |a|)
      case Some(p) => p + 10 <= |a| && RdataEnd(a, p) <= |a| && e == Edit(p + 8, p + 10, RdataEnd(a, p))
    ensures AppendTo(a, found, option) == a || Grown(a, AppendTo(a, found, option), e)
    ensures found.Some? && e.ins - e.hi + |option| < 0x1_0000 ==>
              Edited(a, AppendTo(a, found, option), e) && At(AppendTo(a, found, option), e.ins, option)
  {
    if found.Some? {
      SpliceEdits(a, found.value, option);
      OctetAt(Splice(a, found.value, option), e.ins, option, 0);
    } else {
      NewOptEdits(a, option);
    }
  }

  lemma AppendSite(m: Message, option: seq<byte>)
    requires ValidMessage(m)
    ensures var a := Encode(m); var found := if HasOpt(m) then Some(OptAt(m)) else None;
      && |a| >= HEADER && (HasOpt(m) ==> OptAt(m) + 10 <= |a| && RdataEnd(a, OptAt(m)) == AppendEdit(m).ins <= |a|)
      && AppendOption(a, option) == AppendTo(a, found, option)
  {
    OptFound(Encode(m), m);
    if HasOpt(m) { ReplaceEncoded(m, []); }
  }

  /** An option appended to an encoded message, unless it does not fit the RDATA. */
  lemma AppendIsEdit(m: Message, option: seq<byte>)
    requires ValidMessage(m) && option != [] && option[0] == 0
    ensures AppendOption(Encode(m), option) == Encode(m) || Grown(Encode(m), AppendOption(Encode(m), option), AppendEdit(m))
    ensures HasOpt(m) && |OptRdata(m)| + |option| < 0x1_0000 ==>
              && Edited(Encode(m), AppendOption(Encode(m), option), AppendEdit(m))
              && At(AppendOption(Encode(m), option), AppendEdit(m).ins, option)
  {
    AppendSite(m, option);
    AppendToEdits(Encode(m), if HasOpt(m) then Some(OptAt(m)) else None, AppendEdit(m), option);
  }

  /** A walk that ends in a root byte gets no further than the buffer, and no further past the insertion
    * than a pointer can. */
  lemma {:induction false} PastWithin(a: seq<byte>, e: Edit, pos: nat, jumps: nat, steps: nat, total: nat)
    requires Rest(a, pos, jumps, steps, total).Some? && ReachFrom(a, e, pos, steps).Past? && pos < 0x4000 + total
    ensures e.ins < |a| && e.ins < 0x4100
    decreases MAX_STEPS - steps
  {
    RestStep(a, pos, jumps, steps, total);
    RestLimits(a, pos, jumps, steps, total);
    if pos < e.ins {
      PastWithin(a, e, Onto(a, pos), Jumped(a[pos], jumps), steps + 1, Counted(a[pos], total));
    }
  }

  /** A name that reads nothing that changes means the same after the edit. */
  lemma NameClear(a: seq<byte>, b: seq<byte>, e: Edit, n: seq<byte>)
    requires Edited(a, b, e) && Meaning(a, n).Some? && ReachOf(a, e, n).Clear?
    ensures Meaning(b, n) == Meaning(a, n)
  {
    var own := OwnPart(n, 0, 0, 0);
    if own.Jumps? { ClearSame(a, b, e, own.target, 1, own.steps, own.total); }
  }

  /** So does one that reads a root at the insertion; neither reads anything that a later edit changes. */
  lemma NameStays(a: seq<byte>, b: seq<byte>, e: Edit, n: seq<byte>)
    requires Grown(a, b, e) && Meaning(a, n).Some?
    requires ReachOf(a, e, n).Clear? || AtRoot(a, e, ReachOf(a, e, n))
    ensures Meaning(b, n) == Meaning(a, n)
    ensures forall e' | Later(e, e') :: ReachOf(b, e', n).Clear?
  {
    var own := OwnPart(n, 0, 0, 0);
    if own.Jumps? {
      if ReachOf(a, e, n).Clear? {
        NameClear(a, b, e, n);
      } else {
        RootStays(a, b, e, own.target, 1, own.steps, own.total);
      }
      forall e' | Later(e, e') ensures ReachOf(b, e', n).Clear? {
        ClearStays(a, b, e, e', own.target, own.steps);
      }
    }
  }

  /** A name that gets past the insertion, and not just to a root there, is lost to a long enough cookie. */
  lemma NameLost(a: seq<byte>, b: seq<byte>, e: Edit, option: seq<byte>, n: seq<byte>)
    requires Edited(a, b, e) && At(b, e.ins, option) && Misleading(option) && Meaning(a, n).Some?
    requires ReachOf(a, e, n).Past? && !AtRoot(a, e, ReachOf(a, e, n))
    ensures Meaning(b, n) != Meaning(a, n)
  {
    var own := OwnPart(n, 0, 0, 0);
    JumpNear(n, 0, 0, 0);
    LedAstray(a, b, e, option, own.target, 1, own.steps, own.total);
    var x, y := Rest(a, own.target, 1, own.steps, own.total), Rest(b, own.target, 1, own.steps, own.total);
    if y.Some? { assert (own.labels + x.value)[|own.labels|..] == x.value && (own.labels + y.value)[|own.labels|..] == y.value; }
  }

  /** A pointer reaches no further than 16383. */
  lemma {:induction false} JumpNear(n: seq<byte>, pos: nat, steps: nat, total: nat)
    ensures OwnPart(n, pos, steps, total).Jumps? ==> OwnPart(n, pos, steps, total).target < 0x4000
    decreases MAX_STEPS - steps
  {
    if pos < |n| && steps + 1 <= MAX_STEPS && 1 <= n[pos] <= MAX_LABEL { JumpNear(n, pos + 1 + n[pos], steps + 1, total + 1 + n[pos]); }
  }

  lemma NamePastWithin(a: seq<byte>, e: Edit, n: seq<byte>)
    requires Meaning(a, n).Some? && ReachOf(a, e, n).Past?
    ensures e.ins < |a| && e.ins < 0x4100
  {
    var own := OwnPart(n, 0, 0, 0);
    JumpNear(n, 0, 0, 0);
    PastWithin(a, e, own.target, 1, own.steps, own.total);
  }

  /** A cookie that misleads. */
  lemma MisleadingCookie() returns (q: Request, o: EdnsOption)
    ensures Asked(q) == [o] && Misleading(OptionBytes(o)) && |OptionBytes(o)| == 0x5044
    ensures forall wire :: Apply(wire, q) == AppendOption(wire, OptionBytes(o))
  {
    var half: seq<byte> := seq(0x2820, i => 64);
    q := AddCookie(half, half);
    o := CookieOption(half, half);
    U16Is(COOKIE);
    U16Is(0x5040);
  }

  /** The first octet of an option that is appended is zero. */
  lemma AskedOption(q: Request)
    ensures |Asked(q)| <= 1
    ensures Asked(q) == [] ==> forall wire :: Apply(wire, q) == wire
    ensures Asked(q) != [] ==> OptionBytes(Asked(q)[0])[0] == 0
    ensures Asked(q) != [] ==> forall wire :: Apply(wire, q) == AppendOption(wire, OptionBytes(Asked(q)[0]))
  {
    U16Is(EDE);
    U16Is(COOKIE);
  }

  /** For any one name: every append keeps its labels, exactly when it is steady. */
  lemma NameKeptExactly(m: Message, n: seq<byte>)
    requires ValidMessage(m) && Meaning(Encode(m), n).Some? && !ReachIn(m, n).Torn?
    ensures (forall q: Request :: Meaning(Apply(Encode(m), q), n) == Meaning(Encode(m), n)) <==> Steady(m, n)
  {
    if Steady(m, n) {
      forall q: Request ensures Meaning(Apply(Encode(m), q), n) == Meaning(Encode(m), n) { AppendKeeps(m, n, q); }
    } else {
      var q := LosingAppend(m, n);
    }
  }

  lemma AppendKeeps(m: Message, n: seq<byte>, q: Request)
    requires ValidMessage(m) && Meaning(Encode(m), n).Some? && Steady(m, n)
    ensures Meaning(Apply(Encode(m), q), n) == Meaning(Encode(m), n)
  {
    AskedOption(q);
    if Asked(q) != [] {
      var option := OptionBytes(Asked(q)[0]);
      AppendIsEdit(m, option);
      if AppendOption(Encode(m), option) != Encode(m) {
        NameStays(Encode(m), AppendOption(Encode(m), option), AppendEdit(m), n);
      }
    }
  }

  lemma LosingAppend(m: Message, n: seq<byte>) returns (q: Request)
    requires ValidMessage(m) && Meaning(Encode(m), n).Some? && ReachIn(m, n).Past? && !Steady(m, n)
    ensures HasOpt(m) && |Asked(q)| == 1 && |OptRdata(m)| + |OptionBytes(Asked(q)[0])| < 0x1_0000
    ensures Meaning(Apply(Encode(m), q), n) != Meaning(Encode(m), n)
  {
    var o;
    q, o := MisleadingCookie();
    NamePastWithin(Encode(m), AppendEdit(m), n);
    AppendIsEdit(m, OptionBytes(o));
    NameLost(Encode(m), AppendOption(Encode(m), OptionBytes(o)), AppendEdit(m), OptionBytes(o), n);
  }

  /** The options a run asks for fit the RDATA of a message whose options are `os`. */
  predicate RunFits(os: seq<EdnsOption>, qs: seq<Request>) { |OptionsBytes(os + AllAsked(qs))| < 0x1_0000 }

  /** One append that fits, as an edit of the message after which steady names are steady again. */
  lemma SteadyAgain(m: Message, option: seq<byte>, n: seq<byte>)
    requires ValidMessage(m) && Fits(m, |option|) && option != [] && option[0] == 0
    requires Meaning(Encode(m), n).Some? && Steady(m, n)
    ensures var m' := WithRdata(m, OptRdata(m) + option);
      Meaning(Encode(m'), n) == Meaning(Encode(m), n) && Steady(m', n)
  {
    var m' := WithRdata(m, OptRdata(m) + option);
    AppendRefines(m, option);
    AppendIsEdit(m, option);
    Longer(m, option);
    LaterEdit(m, option);
    NameStays(Encode(m), Encode(m'), AppendEdit(m), n);
    assert ReachOf(Encode(m'), AppendEdit(m'), n).Clear?;
  }

  lemma Longer(m: Message, option: seq<byte>)
    requires ValidMessage(m) && Fits(m, |option|) && option != []
    ensures AppendOption(Encode(m), option) != Encode(m)
  {
    AppendSite(m, option);
    AppendLonger(Encode(m), if HasOpt(m) then Some(OptAt(m)) else None, option, |OptRdata(m)|);
  }

  lemma AppendLonger(wire: seq<byte>, found: Option<nat>, option: seq<byte>, length: nat)
    requires |wire| >= HEADER && option != []
    requires found.Some? ==> found.value + 10 <= |wire| && RdataEnd(wire, found.value) == found.value + 10 + length <= |wire|
    requires found.Some? ==> length + |option| < 0x1_0000
    ensures |AppendTo(wire, found, option)| > |wire|
  {
    if found.Some? { SpliceLonger(wire, found.value, option); } else { NewOptEdits(wire, option); }
  }

  lemma SpliceLonger(a: seq<byte>, p: nat, option: seq<byte>)
    requires p + 10 <= |a| && RdataEnd(a, p) <= |a|
    ensures |Splice(a, p, option)| == |a| + |option|
  {
  }

  lemma LaterEdit(m: Message, option: seq<byte>)
    requires ValidMessage(m) && option != []
    ensures Later(AppendEdit(m), AppendEdit(WithRdata(m, OptRdata(m) + option)))
  {
    var rdata := OptRdata(m) + option;
    var m' := WithRdata(m, rdata);
    var rs, k := m.additional, FirstOpt(m.additional);
    WithRdataAgain(m, rdata, rdata);
    if HasOpt(m) {
      FirstOptIs(rs, m'.additional, k);
      assert m'.additional[..k] == rs[..k];
    } else {
      FirstOptSnoc(rs, FreshOpt(rdata));
      assert m'.additional[..k] == rs;
      assert Front(m') == Front(m);
    }
  }

  /** A run of appends keeps a steady name. */
  lemma {:induction false} RunKeeps(m: Message, os: seq<EdnsOption>, qs: seq<Request>, n: seq<byte>)
    requires ValidMessage(m) && OptRdata(m) == OptionsBytes(os) && (HasOpt(m) || |m.additional| < 0xFFFF) &&
             RunFits(os, qs)
    requires Meaning(Encode(m), n).Some? && Steady(m, n)
    ensures Meaning(Run(Encode(m), qs), n) == Meaning(Encode(m), n)
    decreases |qs|
  {
    if qs == [] {
    } else {
      var rest := AllAsked(qs[1..]);
      AskedOption(qs[0]);
      if Asked(qs[0]) == [] {
        assert AllAsked(qs) == rest;
        RunKeeps(m, os, qs[1..], n);
      } else {
        var o := Asked(qs[0])[0];
        assert AllAsked(qs) == [o] + rest && os + AllAsked(qs) == os + [o] + rest;
        OptionsConcat(os + [o], rest);
        OptionsSnoc(os, o);
        AppendRefines(m, OptionBytes(o));
        SteadyAgain(m, OptionBytes(o), n);
        WithRdataAgain(m, OptionsBytes(os + [o]), []);
        RunKeeps(WithRdata(m, OptionsBytes(os + [o])), os + [o], qs[1..], n);
      }
    }
  }

  ghost predicate AllSteady(m: Message) {
    forall n | NameOf(m, n) && Meaning(Encode(m), n).Some? :: Steady(m, n)
  }

  ghost predicate RunsKeep(m: Message, os: seq<EdnsOption>) {
    forall qs | RunFits(os, qs) :: NamesKept(m, Run(Encode(m), qs))
  }

  /** The labels every name of a message expands to survive all runs of EDE and COOKIE appends within the
    * 16-bit limits, if and only if no name gets, by its pointers, to where the options are inserted or
    * beyond, except to a root that stands right there. */
  lemma RunsKeepNamesExactly(m: Message, os: seq<EdnsOption>)
    requires ValidMessage(m) && OptRdata(m) == OptionsBytes(os) && (HasOpt(m) || |m.additional| < 0xFFFF)
    ensures AllSteady(m) ==> RunsKeep(m, os)
    ensures NoneTorn(m) ==> (RunsKeep(m, os) <==> AllSteady(m))
  {
    if AllSteady(m) {
      forall qs, n | RunFits(os, qs) && NameOf(m, n) && Meaning(Encode(m), n).Some?
        ensures Meaning(Run(Encode(m), qs), n) == Meaning(Encode(m), n)
      {
        RunKeeps(m, os, qs, n);
      }
    } else if NoneTorn(m) {
      var n :| NameOf(m, n) && Meaning(Encode(m), n).Some? && !Steady(m, n);
      var q := LosingAppend(m, n);
      OneAppend(m, os, q);
      assert !NamesKept(m, Run(Encode(m), [q]));
    }
  }

  lemma OneAppend(m: Message, os: seq<EdnsOption>, q: Request)
    requires OptRdata(m) == OptionsBytes(os) && |Asked(q)| == 1 && |OptRdata(m)| + |OptionBytes(Asked(q)[0])| < 0x1_0000
    ensures RunFits(os, [q]) && Run(Encode(m), [q]) == Apply(Encode(m), q)
  {
    assert [q][1..] == [];
    assert AllAsked([q]) == Asked(q) + [] == [Asked(q)[0]];
    OptionsSnoc(os, Asked(q)[0]);
  }

  // ---------------------------------------------------------------- stripping and the DO bit

  /** What stripping rewrites: RDLENGTH and all that follows. */
  function StripEdit(m: Message): Edit
    requires HasOpt(m)
  {
    Edit(OptAt(m) + 8, AppendEdit(m).ins, AppendEdit(m).ins)
  }

  lemma SameRdata(m: Message)
    requires HasOpt(m)
    ensures WithRdata(m, OptRdata(m)) == m
  {
    var k, rs := FirstOpt(m.additional), m.additional;
    assert rs[k := rs[k].(rdata := rs[k].rdata)] == rs;
  }

  /** Stripping keeps the labels of every name when there is no client-subnet option, and otherwise of the
    * names that read nothing from RDLENGTH on, once they leave their own octets. */
  lemma StripKeepsNames(m: Message, n: seq<byte>)
    requires ValidMessage(m) && Meaning(Encode(m), n).Some?
    requires HasOpt(m) ==> NoEcs(OptRdata(m)) || ReachOf(Encode(m), StripEdit(m), n).Clear?
    ensures Meaning(StripEcs(Encode(m)), n) == Meaning(Encode(m), n)
  {
    if !HasOpt(m) {
      OptFound(Encode(m), m);
      StripNowhere(Encode(m));
    } else {
      StripEncoded(m);
      if NoEcs(OptRdata(m)) {
        StripsNothingExactly(OptRdata(m));
        SameRdata(m);
      } else {
        ReplaceEdits(Encode(m), OptAt(m), Strip(OptRdata(m)));
        NameClear(Encode(m), Replace(Encode(m), OptAt(m), Strip(OptRdata(m))), StripEdit(m), n);
      }
    }
  }

  lemma ReplaceEdits(a: seq<byte>, p: nat, rdata: seq<byte>)
    requires p + 10 <= |a| && RdataEnd(a, p) <= |a|
    ensures Edited(a, Replace(a, p, rdata), Edit(p + 8, RdataEnd(a, p), RdataEnd(a, p)))
  {
  }

  /** What `ensure_edns0_do_bit` rewrites: an octet of the OPT record, or the count. */
  function DoEdit(m: Message): Edit {
    if HasOpt(m) && ExtraParses(Encode(m), m) then Edit(OptAt(m) + 6, OptAt(m) + 7, |Encode(m)|)
    else Edit(10, 12, |Encode(m)|)
  }

  /** A name keeps its labels unless it reads those octets; nothing moves. */
  lemma DoKeepsNames(m: Message, n: seq<byte>)
    requires ValidMessage(m) && Meaning(Encode(m), n).Some? && !ReachOf(Encode(m), DoEdit(m), n).Torn?
    ensures Meaning(EnsureDo(Encode(m)), n) == Meaning(Encode(m), n)
  {
    var a := Encode(m);
    EnsureAt(a, m);
    if !HasOpt(m) || !ExtraParses(a, m) { DoTwice.NewOptDoEdits(a); }
    if ReachOf(a, DoEdit(m), n).Past? { NamePastWithin(a, DoEdit(m), n); }
    NameClear(a, EnsureDo(a), DoEdit(m), n);
  }

  // ---------------------------------------------------------------- names that lose their labels

  /** An OPT record and two records with the given names. */
  function Trio(rdata: seq<byte>, n: seq<byte>, pointing: seq<byte>): Message {
    Message(0, 0, [], [], [], [Record([0], OPT, 4096, 0, rdata), Record(n, 256, 1, 0, []), Record(pointing, 1, 1, 0, [])])
  }

  lemma TrioValid(rdata: seq<byte>, n: seq<byte>, pointing: seq<byte>)
    requires |rdata| < 200 && IsName(n) && IsName(pointing)
    ensures var m := Trio(rdata, n, pointing); ValidMessage(m) && HasOpt(m) && OptRdata(m) == rdata && NameOf(m, pointing)
  {
    var m := Trio(rdata, n, pointing);
    assert IsName([0]);
    assert (m.answers + m.authority + m.additional)[2].name == pointing;
  }

  /** Where its names stand. */
  lemma TrioLayout(m: Message, rdata: seq<byte>, n: seq<byte>, pointing: seq<byte>)
    requires m == Trio(rdata, n, pointing)
    ensures OptAt(m) == 13 && At(Encode(m), 0, U16(0)) && At(Encode(m), 23, rdata) &&
            At(Encode(m), 23 + |rdata|, n + U16(256))
  {
    var opt, r, rest := m.additional[0], m.additional[1], RecordsBytes(m.additional[2..]);
    assert m.additional[1..][1..] == m.additional[2..];
    TrioFront(m, rdata, n, pointing);
    EncodeAround(m, 0);
    RecordsAre(Header(m), opt, r, rest);
  }

  lemma TrioFront(m: Message, rdata: seq<byte>, n: seq<byte>, pointing: seq<byte>)
    requires m == Trio(rdata, n, pointing)
    ensures Before(m, 0) == Header(m) && OptAt(m) == 13 && At(Header(m), 0, U16(0)) && HasOpt(m) &&
            FirstOpt(m.additional) == 0
  {
    assert m.additional[..0] == [];
    assert Front(m) == [];
    assert Header(m)[..2] == U16(0);
  }

  lemma RecordsAre(h: seq<byte>, opt: Record, r: Record, rest: seq<byte>)
    requires opt.name == [0] && |h| == HEADER && At(h, 0, U16(0))
    ensures var x := h + (RecordBytes(opt) + (RecordBytes(r) + rest));
      && At(x, 0, U16(0)) && At(x, 23, opt.rdata) && At(x, 23 + |opt.rdata|, r.name + U16(r.rtype))
  {
    var o := U16(r.class_) + U32(r.ttl) + (U16(|r.rdata|) + r.rdata);
    assert RecordBytes(r) == r.name + (U16(r.rtype) + o);
    Spread(h, opt.name, Fixed(opt), U16(|opt.rdata|), opt.rdata, r.name, U16(r.rtype), o, rest);
    var x := h + (RecordBytes(opt) + (RecordBytes(r) + rest));
    assert x[..2] == x[..|h|][..2];
  }

  lemma Spread<T>(h: seq<T>, z: seq<T>, f: seq<T>, l: seq<T>, d: seq<T>, n: seq<T>, t: seq<T>, o: seq<T>, b: seq<T>)
    ensures var x := h + ((z + (f + (l + d))) + ((n + (t + o)) + b)); var i := |h| + |z| + |f| + |l|;
      i + |d| + |n + t| <= |x| && x[..|h|] == h && x[i..i + |d|] == d && x[i + |d|..i + |d| + |n + t|] == n + t
  {
    var x := h + ((z + (f + (l + d))) + ((n + (t + o)) + b));
    assert x == h + z + f + l + d + (n + t) + o + b;
  }

  lemma PointerMeans(buf: seq<byte>, t: nat)
    requires t < 256 && t < |buf|
    ensures Meaning(buf, [192, t]) == Rest(buf, t, 1, 1, 0)
  {
    assert OwnPart([192, t], 0, 0, 0) == Jumps([], t, 1, 0);
    JoinedNone(Rest(buf, t, 1, 1, 0));
  }

  /** A pointer to a name of one letter. */
  lemma PointsToLetter(buf: seq<byte>, t: nat)
    requires t < 256 && At(buf, t, [1, 97, 0])
    ensures Meaning(buf, [192, t]) == Some([[97]])
  {
    OctetAt(buf, t, [1, 97, 0], 0);
    OctetAt(buf, t, [1, 97, 0], 1);
    OctetAt(buf, t, [1, 97, 0], 2);
    assert buf[t + 1..t + 2] == [97];
    PointerMeans(buf, t);
    ZeroEnds(buf, t + 2, 1, 2, 2);
    assert WalkFrom(buf, t, 1, 1, 0) == Prepend([97], WalkFrom(buf, t + 2, 1, 2, 2));
    assert [[97]] + [] == [[97]];
  }

  /** A pointer to a root. */
  lemma PointsToRoot(buf: seq<byte>, t: nat)
    requires t < 256 && t < |buf| && buf[t] == 0
    ensures Meaning(buf, [192, t]) == Some([])
  {
    PointerMeans(buf, t);
    ZeroEnds(buf, t, 1, 1, 0);
  }

  /** A message with a name that is a pointer to what follows the OPT record, where `a.` stands. */
  lemma Stray(rdata: seq<byte>, t: nat) returns (m: Message, n: seq<byte>)
    requires t == 23 + |rdata| < 200
    ensures ValidMessage(m) && HasOpt(m) && OptAt(m) == 13 && OptRdata(m) == rdata && AppendEdit(m).ins == t
    ensures t + 5 <= |Encode(m)| && Encode(m)[t + 4] == 0
    ensures NameOf(m, n) && Meaning(Encode(m), n) == Some([[97]])
    ensures forall buf: seq<byte> :: t < |buf| && buf[t] == 0 ==> Meaning(buf, n) == Some([])
  {
    n := [192, t];
    m := Trio(rdata, [1, 97, 0], n);
    assert SkipFrom([1, 97, 0], 2, 1) == Some(3);
    TrioValid(rdata, [1, 97, 0], n);
    TrioLayout(m, rdata, [1, 97, 0], n);
    LetterStands(Encode(m), t, [1, 97, 0]);
    forall buf: seq<byte> | t < |buf| && buf[t] == 0 ensures Meaning(buf, n) == Some([]) { PointsToRoot(buf, t); }
  }

  lemma LetterStands(buf: seq<byte>, t: nat, name: seq<byte>)
    requires t < 256 && name == [1, 97, 0] && At(buf, t, name + U16(256))
    ensures t + 5 <= |buf| && buf[t + 4] == 0 && Meaning(buf, [192, t]) == Some([[97]])
  {
    AtSplit(buf, t, name, U16(256));
    U16Is(256);
    OctetAt(buf, t + 3, U16(256), 1);
    PointsToLetter(buf, t);
  }

  /** Appending any option that fits takes the labels of some name that points past it. */
  lemma AppendLosesName(q: Request) returns (m: Message, n: seq<byte>)
    requires |Asked(q)| == 1 && |OptionBytes(Asked(q)[0])| < 0x1_0000
    ensures ValidMessage(m) && NameOf(m, n) && Meaning(Encode(m), n) == Some([[97]])
    ensures Meaning(Apply(Encode(m), q), n) == Some([])
  {
    var option := OptionBytes(Asked(q)[0]);
    m, n := Stray([], 23);
    AskedOption(q);
    AppendIsEdit(m, option);
    OctetAt(AppendOption(Encode(m), option), 23, option, 0);
  }

  /** So does stripping an option. */
  lemma StripLosesName() returns (m: Message, n: seq<byte>)
    ensures ValidMessage(m) && NameOf(m, n) && Meaning(Encode(m), n) == Some([[97]])
    ensures Meaning(StripEcs(Encode(m)), n) == Some([])
  {
    var rdata := EmptyEcs();
    m, n := Stray(rdata, 27);
    var a := Encode(m);
    OptFound(a, m);
    ReplaceEncoded(m, []);
    Removed(a, 13, 4, 27);
  }

  lemma Removed(a: seq<byte>, p: nat, k: nat, i: nat)
    requires p + 10 + k <= |a| && RdataEnd(a, p) == p + 10 + k && p + 10 <= i < |a| - k
    ensures i < |Replace(a, p, [])| && Replace(a, p, [])[i] == a[i + k]
  {
    var head := a[..p + 8] + U16(0) + [];
    assert |head| == p + 10 && Replace(a, p, []) == head + a[p + 10 + k..];
  }

  lemma EmptyEcs() returns (r: seq<byte>)
    ensures |r| == 4 && Strip(r) == []
  {
    r := [0, 8, 0, 0];
    ReadU16Is(r, 0);
    ReadU16Is(r, 2);
    assert r[4..] == [];
  }

  /** A name that straddles the insertion can come out the same by accident, whatever is appended. */
  lemma TornByAccident() returns (m: Message, n: seq<byte>)
    ensures ValidMessage(m) && NameOf(m, n) && Meaning(Encode(m), n).Some? && ReachIn(m, n).Torn?
    ensures forall q: Request :: Meaning(Apply(Encode(m), q), n) == Meaning(Encode(m), n)
  {
    n := [192, 23];
    m := Trio([192], [0], n);
    TrioValid([192], [0], n);
    TrioLayout(m, [192], [0], n);
    var a := Encode(m);
    AtSplit(a, 24, [0], U16(256));
    U16Is(0);
    OctetAt(a, 0, U16(0), 0);
    OctetAt(a, 23, [192], 0);
    OctetAt(a, 24, [0], 0);
    PointsRound(a);
    assert OwnPart(n, 0, 0, 0) == Jumps([], 23, 1, 0);
    forall q: Request ensures Meaning(Apply(a, q), n) == Some([]) {
      AskedOption(q);
      if Asked(q) != [] { AppendIsEdit(m, OptionBytes(Asked(q)[0])); }
      PointsRound(Apply(a, q));
    }
  }

  /** A pointer to a pointer to a root at the very beginning. */
  lemma PointsRound(buf: seq<byte>)
    requires |buf| > 24 && buf[0] == 0 && buf[23] == 192 && buf[24] == 0
    ensures Meaning(buf, [192, 23]) == Some([])
  {
    PointerMeans(buf, 23);
    ZeroEnds(buf, 0, 2, 2, 0);
    assert WalkFrom(buf, 23, 1, 1, 0) == EndingAt(WalkFrom(buf, 0, 2, 2, 0), 25);
  }
}
