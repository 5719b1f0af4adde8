/** Names through their text and back (src/dns/parser.rs): a query built from the text of a name parses
  * to the same name exactly when the text has no white space at its ends. */
module NameRoundTrip {
  import opened Bytes
  import opened Text
  import opened Wrappers
  import opened WireNames
  import opened NameText
  import opened QueryWire
  import Messages

  // ---------------------------------------------------------------- walking what was encoded

  lemma {:induction false} EncodedLength(labels: seq<Label>)
    requires ValidLabels(labels)
    ensures |EncodeLabels(labels)| + 1 == WireLength(labels)
    decreases |labels|
  {
    if labels == [] {
    } else {
      EncodedLength(labels[1..]);
    }
  }

  /** The labels and their root byte are in `buf` at `pos`. */
  ghost predicate HoldsName(buf: seq<byte>, pos: nat, labels: seq<Label>)
    requires ValidLabels(labels)
  {
    pos <= |buf| && EncodeLabels(labels) + [0] <= buf[pos..]
  }

  lemma HoldsFirst(buf: seq<byte>, pos: nat, labels: seq<Label>)
    requires ValidLabels(labels) && labels != [] && HoldsName(buf, pos, labels)
    ensures var next := pos + 1 + |labels[0]|;
      next <= |buf| && buf[pos] == |labels[0]| && buf[pos + 1..next] == labels[0] && HoldsName(buf, next, labels[1..])
  {
    var l, rest := labels[0], EncodeLabels(labels[1..]);
    var all := EncodeLabels(labels) + [0];
    assert all == [|l|] + l + (rest + [0]);
    assert buf[pos..][..|all|] == all;
    assert buf[pos..][0] == all[0];
    assert buf[pos + 1..pos + 1 + |l|] == all[1..1 + |l|] == l;
    assert rest + [0] == all[1 + |l|..] == buf[pos + 1 + |l|..][..|rest| + 1];
  }

  /** The walk of encoded labels, as far as the limit of 255 octets lets it. */
  function FittingWalk(labels: seq<Label>, pos: nat, total: nat): Option<Walk> {
    if total + WireLength(labels) <= MAX_WIRE then Some(Walk(labels, pos + WireLength(labels), true)) else None
  }

  lemma FittingFirst(l: Label, rest: seq<Label>, pos: nat, total: nat)
    ensures FittingWalk([l] + rest, pos, total) == Prepend(l, FittingWalk(rest, pos + 1 + |l|, total + 1 + |l|))
    ensures WireLength([l] + rest) > 1 + |l|
  {
    assert ([l] + rest)[1..] == rest;
  }

  /** What the walk reads of the labels at `pos`. */
  ghost predicate ReadsLabels(buf: seq<byte>, pos: nat, labels: seq<Label>)
    decreases |labels|
  {
    if labels == [] then pos < |buf| && buf[pos] == 0
    else ReadsLabel(buf, pos, labels[0]) && ReadsLabels(buf, pos + 1 + |labels[0]|, labels[1..])
  }

  predicate ReadsLabel(buf: seq<byte>, pos: nat, l: Label) {
    1 <= |l| <= MAX_LABEL && pos + 1 + |l| <= |buf| && buf[pos] == |l| && buf[pos + 1..pos + 1 + |l|] == l
  }

  lemma {:induction false} HoldsReads(buf: seq<byte>, pos: nat, labels: seq<Label>)
    requires ValidLabels(labels) && HoldsName(buf, pos, labels)
    ensures ReadsLabels(buf, pos, labels)
    decreases |labels|
  {
    if labels == [] {
      assert (EncodeLabels([]) + [0])[0] == buf[pos..][0];
    } else {
      HoldsFirst(buf, pos, labels);
      HoldsReads(buf, pos + 1 + |labels[0]|, labels[1..]);
    }
  }

  /** An encoded name walks to its labels if it fits 255 octets, and to nothing otherwise. */
  lemma {:induction false} EncodedWalk(buf: seq<byte>, pos: nat, labels: seq<Label>, steps: nat, total: nat)
    requires ReadsLabels(buf, pos, labels) && 2 * steps <= total <= MAX_WIRE
    ensures WalkFrom(buf, pos, 0, steps, total) == FittingWalk(labels, pos, total)
    decreases |labels|
  {
    if labels == [] {
    } else {
      var l, rest := labels[0], labels[1..];
      assert labels == [l] + rest;
      FittingFirst(l, rest, pos, total);
      if total + 1 + |l| <= MAX_WIRE {
        EncodedWalk(buf, pos + 1 + |l|, rest, steps + 1, total + 1 + |l|);
        LabelThen(buf, pos, steps, total, l);
      } else {
        TooLong(buf, pos, steps, total, |l|);
      }
    }
  }

  lemma LabelThen(buf: seq<byte>, pos: nat, steps: nat, total: nat, l: Label)
    requires ReadsLabel(buf, pos, l) && total + 1 + |l| <= MAX_WIRE && 2 * steps <= total
    ensures WalkFrom(buf, pos, 0, steps, total) == Prepend(l, WalkFrom(buf, pos + 1 + |l|, 0, steps + 1, total + 1 + |l|))
  {
    assert AtLabel(buf, pos, 0, steps, total);
    WalkLabel(buf, pos, 0, steps, total);
  }

  lemma TooLong(buf: seq<byte>, pos: nat, steps: nat, total: nat, len: nat)
    requires pos < |buf| && buf[pos] == len && 1 <= len <= MAX_LABEL && total + 1 + len > MAX_WIRE
    ensures WalkFrom(buf, pos, 0, steps, total) == None
  {
  }

  lemma QueryWalk(labels: seq<Label>, qtype: nat)
    requires ValidLabels(labels) && qtype < 65536
    ensures WalkName(Query(labels, qtype), 12) == FittingWalk(labels, 12, 0)
  {
    var buf := Query(labels, qtype);
    var all := EncodeLabels(labels) + [0];
    assert buf[12..] == all + [qtype / 256, qtype % 256, 0, 1];
    assert all <= buf[12..];
    HoldsReads(buf, 12, labels);
    EncodedWalk(buf, 12, labels, 0, 0);
  }

  // ---------------------------------------------------------------- what a built query asks

  /** A built query is the encoding of a message: recursion desired, one question for the name, the type asked
    * for and class IN, and no records. */
  lemma QueryIsMessage(labels: seq<Label>, qtype: nat)
    requires ValidLabels(labels) && qtype < 65536
    ensures Query(labels, qtype) ==
            Messages.Encode(Messages.Message(0x1234, 0x0100, [Messages.Question(EncodeLabels(labels) + [0], qtype, 1)], [], [], []))
  {
    var name := EncodeLabels(labels) + [0];
    var q := Messages.Question(name, qtype, 1);
    var m := Messages.Message(0x1234, 0x0100, [q], [], [], []);
    QueryHeader(m);
    QuestionOctets(name, qtype);
    OneQuestion(q);
    var tail: seq<byte> := [qtype / 256, qtype % 256, 0, 1];
    assert EncodeLabels(labels) + ([0] + tail) == name + tail && [0] + tail == [0, qtype / 256, qtype % 256, 0, 1];
    assert Messages.Front(m) + [] == Messages.Front(m) == name + tail + ([] + []);
  }

  lemma QueryHeader(m: Messages.Message)
    requires m.id == 0x1234 && m.flags == 0x0100 && |m.questions| == 1 && m.answers == m.authority == m.additional == []
    ensures Messages.Header(m) == QUERY_HEADER
  {
    Messages.U16Is(0x1234);
    Messages.U16Is(0x0100);
    Messages.U16Is(0);
    Messages.U16Is(1);
  }

  lemma QuestionOctets(name: seq<byte>, qtype: nat)
    requires qtype < 65536
    ensures Messages.QuestionBytes(Messages.Question(name, qtype, 1)) == name + [qtype / 256, qtype % 256, 0, 1]
  {
    Messages.U16Is(qtype);
    Messages.U16Is(1);
  }

  lemma OneQuestion(q: Messages.Question)
    ensures Messages.QuestionsBytes([q]) == Messages.QuestionBytes(q)
  {
    assert [q][1..] == [] && Messages.QuestionBytes(q) + [] == Messages.QuestionBytes(q);
  }

  /** Read back: the header counts one question, and after the name stand the type asked for and class IN, with
    * nothing behind. */
  lemma QueryAsks(labels: seq<Label>, qtype: nat)
    requires ValidLabels(labels) && qtype < 65536 && WalkName(Query(labels, qtype), 12).Some?
    ensures var buf := Query(labels, qtype); var end := WalkName(buf, 12).value.end;
      && |buf| == end + 4 && Messages.ReadU16(buf, 4) == 1
      && Messages.ReadU16(buf, end) == qtype && Messages.ReadU16(buf, end + 2) == 1
  {
    var buf := Query(labels, qtype);
    QueryWalk(labels, qtype);
    EncodedLength(labels);
    var end := 12 + WireLength(labels);
    assert buf[end] == qtype / 256 && buf[end + 1] == qtype % 256 && buf[end + 2] == 0 && buf[end + 3] == 1;
    Messages.ReadU16Is(buf, 4);
    Messages.ReadU16Is(buf, end);
    Messages.ReadU16Is(buf, end + 2);
  }

  // ---------------------------------------------------------------- case does not show

  lemma {:induction false} EscapeLower(l: Label)
    ensures Escape(LowerBytes(l)) == Escape(l)
    decreases |l|
  {
    if l == [] {
    } else {
      var k := Piece(l).1;
      PieceLower(l);
      LowerBytesSplit(l, k);
      assert LowerBytes(l)[k..] == LowerBytes(l[k..]);
      EscapeLower(l[k..]);
    }
  }

  lemma PieceLower(l: Label)
    requires l != []
    ensures Piece(LowerBytes(l)) == Piece(l)
  {
    var m := LowerBytes(l);
    assert m[0] >= 0x80 ==> m[0] == l[0];
    assert |m| >= 2 && l[1] >= 0x80 ==> m[1] == l[1];
    assert Utf8Length(m) == Utf8Length(l);
    if l[0] >= 0x80 {
      var n := Utf8Length(l);
      assert m[..n] == l[..n];
    }
  }

  lemma {:induction false} ShowLower(labels: seq<Label>)
    ensures Show(LowerAll(labels)) == Show(labels)
    ensures WireLength(LowerAll(labels)) == WireLength(labels)
    decreases |labels|
  {
    if labels == [] {
    } else {
      EscapeLower(labels[0]);
      ShowLower(labels[1..]);
      assert LowerAll(labels)[1..] == LowerAll(labels[1..]);
    }
  }

  lemma {:induction false} AllUsable(labels: seq<Label>)
    requires ValidLabels(labels)
    ensures Usable(labels) == labels
    decreases |labels|
  {
    if labels == [] {
    } else {
      AllUsable(labels[1..]);
    }
  }

  // ---------------------------------------------------------------- counting octets

  /** The octets a text spells, dots between labels not counted. */
  function Octets(s: string): nat {
    if s == "" then 0
    else if s[0] == '.' then Octets(s[1..])
    else |Step(s).0| + Octets(s[Step(s).1..])
  }

  function Total(labels: seq<Label>): nat { if labels == [] then 0 else |labels[0]| + Total(labels[1..]) }

  lemma {:induction false} OctetsHead(s: string)
    ensures Octets(s) == |HeadOctets(s)| + Octets(s[Head(s)..])
    decreases |s|
  {
    if s != "" && s[0] != '.' {
      var k := Step(s).1;
      OctetsHead(s[k..]);
      assert s[k..][Head(s[k..])..] == s[Head(s)..];
    } else {
      assert s[0..] == s;
    }
  }

  /** Splitting and unescaping yields exactly the octets the text spells. */
  lemma {:induction false} OctetsOfSplit(s: string)
    ensures Total(UnescapeAll(SplitText(s))) == Octets(s)
    decreases |s|
  {
    if s == "" {
    } else {
      var n := Head(s);
      OctetsHead(s);
      UnescapeHead(s);
      DotAtHead(s);
      var rest := if n == |s| then [] else SplitText(s[n + 1..]);
      if n < |s| {
        OctetsOfSplit(s[n + 1..]);
        assert s[n..][1..] == s[n + 1..];
      }
      if n > 0 { UnescapeFirst(s[..n], rest); } else { assert [] + rest == rest; }
    }
  }

  lemma {:induction false} DotAtHead(s: string)
    ensures Head(s) < |s| ==> s[Head(s)] == '.'
    decreases |s|
  {
    if s != "" && s[0] != '.' { DotAtHead(s[Step(s).1..]); }
  }

  lemma {:induction false} UsableTotal(labels: seq<Label>)
    ensures Total(Usable(labels)) <= Total(labels)
    decreases |labels|
  {
    if labels == [] {
    } else {
      UsableTotal(labels[1..]);
      var rest := Usable(labels[1..]);
      assert ([labels[0]] + rest)[1..] == rest && [] + rest == rest;
    }
  }

  lemma {:induction false} TotalLower(labels: seq<Label>)
    ensures Total(LowerAll(labels)) == Total(labels)
    decreases |labels|
  {
    if labels == [] {
    } else {
      TotalLower(labels[1..]);
      assert LowerAll(labels)[1..] == LowerAll(labels[1..]);
    }
  }

  lemma OctetsOfShow(labels: seq<Label>)
    requires ValidLabels(labels)
    ensures Octets(Show(labels)) == Total(labels)
  {
    SplitShow(labels);
    OctetsOfSplit(Show(labels));
    TotalLower(labels);
  }

  // ---------------------------------------------------------------- white space carries octets

  predicate Inert(c: char) { c != '.' && c != '\\' && !IsDigit(c) }

  lemma SpaceIsInert(s: string)
    ensures forall i | 0 <= i < SpaceAt(s) :: Inert(s[i])
    ensures forall i | |s| - SpaceBefore(s) <= i < |s| :: Inert(s[i])
  {
  }

  lemma {:induction false} OctetsAfter(s: string, n: nat)
    requires n <= |s| && forall i | 0 <= i < n :: Inert(s[i])
    ensures Octets(s) == n + Octets(s[n..])
    decreases n
  {
    if n > 0 {
      OctetsAfter(s[1..], n - 1);
      assert s[1..][n - 1..] == s[n..];
    } else {
      assert s[0..] == s;
    }
  }

  lemma {:induction false} OctetsSnoc(s: string, c: char)
    requires Inert(c)
    ensures Octets(s + [c]) == Octets(s) + 1
    decreases |s|
  {
    var t := s + [c];
    if s == "" {
      assert t[1..] == "";
    } else if s[0] == '.' {
      OctetsSnoc(s[1..], c);
      assert t[1..] == s[1..] + [c];
    } else {
      var k := Step(s).1;
      if |s| == 1 && s[0] == '\\' {
        assert t[2..] == "";
      } else {
        OctetsSnoc(s[k..], c);
        assert t[k..] == s[k..] + [c];
        StepSnoc(s, c);
      }
    }
  }

  lemma StepSnoc(s: string, c: char)
    requires s != "" && Inert(c) && !(|s| == 1 && s[0] == '\\')
    ensures Step(s + [c]) == Step(s)
  {
    var t := s + [c];
    assert t[0] == s[0];
    assert |s| > 1 ==> t[1] == s[1];
    assert |s| > 2 ==> t[2] == s[2];
    assert |s| > 3 ==> t[3] == s[3];
    assert |s| == 3 ==> t[3] == c;
  }

  lemma {:induction false} OctetsBefore(s: string, n: nat)
    requires n <= |s| && forall i | |s| - n <= i < |s| :: Inert(s[i])
    ensures Octets(s) == n + Octets(s[..|s| - n])
    decreases n
  {
    if n > 0 {
      var t := s[..|s| - 1];
      assert s == t + [s[|s| - 1]];
      OctetsSnoc(t, s[|s| - 1]);
      OctetsBefore(t, n - 1);
      assert t[..|t| - (n - 1)] == s[..|s| - n];
    } else {
      assert s[..|s|] == s;
    }
  }

  lemma {:induction false} TrimStartLoses(s: string)
    ensures TrimStart(s) == s || Octets(TrimStart(s)) < Octets(s)
    decreases |s|
  {
    var n := SpaceAt(s);
    if n == 0 {
    } else {
      SpaceIsInert(s);
      OctetsAfter(s, n);
      TrimStartLoses(s[n..]);
    }
  }

  lemma {:induction false} TrimEndLoses(s: string)
    ensures TrimEnd(s) == s || Octets(TrimEnd(s)) < Octets(s)
    decreases |s|
  {
    var n := SpaceBefore(s);
    if n == 0 {
    } else {
      SpaceIsInert(s);
      OctetsBefore(s, n);
      TrimEndLoses(s[..|s| - n]);
    }
  }

  // ---------------------------------------------------------------- the round trip

  /** A query for text with white space at its ends asks for fewer octets than the text spells. */
  lemma TrimmedAsksForLess(domain: string)
    requires Trim(domain) != domain
    ensures Total(QueryLabels(domain)) < Octets(domain)
  {
    TrimStartLoses(domain);
    TrimEndLoses(TrimStart(domain));
    OctetsOfSplit(Trim(domain));
    UsableTotal(UnescapeAll(SplitLabels(domain)));
  }

  lemma RebuiltLabels(labels: seq<Label>)
    requires ValidLabels(labels) && Trim(Show(labels)) == Show(labels)
    ensures QueryLabels(Show(labels)) == LowerAll(labels)
  {
    SplitUnescapeIsLower(labels);
    AllUsable(LowerAll(labels));
  }

  /** For every name on the wire that ends at a root byte, through compression pointers and for all
    * octets: the query built from its text parses to the same name if and only if the text has no
    * white space at its ends. */
  lemma RoundTripExactlyWhenTrimmed(buf: seq<byte>, pos: nat, qtype: nat)
    requires WalkName(buf, pos).Some? && WalkName(buf, pos).value.rooted && qtype < 65536
    ensures var name := ParseName(buf, pos, true).value.name;
      var again := ParseName(Query(QueryLabels(name), qtype), 12, true);
      (again.Some? && again.value.name == name) <==> Trim(name) == name
  {
    var labels := WalkName(buf, pos).value.labels;
    WalkLimits(buf, pos, 0, 0, 0);
    var name := Show(labels);
    var asked := QueryLabels(name);
    QueryWalk(asked, qtype);
    if Trim(name) == name {
      RebuiltLabels(labels);
      ShowLower(labels);
    } else {
      TrimmedAsksForLess(name);
      OctetsOfShow(labels);
      OctetsOfShow(asked);
    }
  }

  /** A label of one space prints as a space, which the builder trims away: it asks for the root. */
  lemma SpaceDoesNotSurvive()
    ensures WalkName([1, 32, 0], 0) == Some(Walk([[32]], 3, true)) && QueryLabels(Show([[32]])) == []
  {
    var buf: seq<byte> := [1, 32, 0];
    HoldsSpace(buf);
    HoldsReads(buf, 0, [[32]]);
    EncodedWalk(buf, 0, [[32]], 0, 0);
    var text := " ";
    assert Escape([32]) == text by { assert Piece([32]) == (text, 1); assert Escape([]) == ""; }
    assert TrimStart(text) == "" by { assert text[1..] == ""; assert TrimStart("") == ""; }
  }

  lemma HoldsSpace(buf: seq<byte>)
    requires buf == [1, 32, 0]
    ensures ValidLabels([[32]]) && HoldsName(buf, 0, [[32]]) && WireLength([[32]]) == 3
  {
    assert [[32]][1..] == [] && EncodeLabels([]) == [] && WireLength([]) == 1;
    assert EncodeLabels([[32]]) == [1] + [32] + [];
    assert buf[0..] == buf;
  }
}
