/** Presentation form of names (section 5.1 of RFC 1035; src/dns/parser.rs): printing labels with
  * escapes, splitting and unescaping, and building a query from the text. */
module NameText {
  import opened Bytes
  import opened Text
  import opened Wrappers
  import opened WireNames

  const MAX_TEXT := 1024

  // ---------------------------------------------------------------- printing

  /** Bytes printed as they are, letters in lower case. */
  predicate IsHostByte(b: byte) {
    48 <= b <= 57 || 65 <= b <= 90 || 97 <= b <= 122 || b == 45 || b == 95 || b == 42
  }

  function LowerByte(b: byte): byte { if 65 <= b <= 90 then b + 32 else b }

  function LowerBytes(l: Label): (r: Label)
    ensures |r| == |l| && forall i | 0 <= i < |l| :: r[i] == LowerByte(l[i])
  {
    seq(|l|, i requires 0 <= i < |l| => LowerByte(l[i]))
  }

  predicate IsTail(b: byte) { 0x80 <= b <= 0xBF }

  /** Length of the well-formed UTF-8 sequence of two bytes or more that `l` begins with, 0 if none. */
  function Utf8Length(l: Label): (n: nat)
    ensures n <= |l| && n <= 4 && forall i | 0 <= i < n :: l[i] >= 0x80
  {
    if |l| >= 2 && 0xC2 <= l[0] <= 0xDF && IsTail(l[1]) then 2
    else if |l| >= 3 && IsTail(l[1]) && IsTail(l[2]) && 0xE0 <= l[0] <= 0xEF
            && (l[0] == 0xE0 ==> l[1] >= 0xA0) && (l[0] == 0xED ==> l[1] <= 0x9F) then 3
    else if |l| >= 4 && IsTail(l[1]) && IsTail(l[2]) && IsTail(l[3]) && 0xF0 <= l[0] <= 0xF4
            && (l[0] == 0xF0 ==> l[1] >= 0x90) && (l[0] == 0xF4 ==> l[1] <= 0x8F) then 4
    else 0
  }

  function Digit(n: nat): char requires n < 10 { (48 + n) as char }

  /** `\DDD` */
  function Decimal(b: byte): string { ['\\', Digit(b / 100), Digit(b / 10 % 10), Digit(b % 10)] }

  function Chars(l: Label): (s: string)
    ensures |s| == |l| && forall i | 0 <= i < |l| :: s[i] == l[i] as char
  {
    seq(|l|, i requires 0 <= i < |l| => l[i] as char)
  }

  /** What one step of the printing loop appends, and how many bytes it consumes. */
  function Piece(l: Label): (string, nat)
    requires l != []
  {
    var b := l[0];
    if IsHostByte(b) then ([LowerByte(b) as char], 1)
    else if b == 46 then ("\\.", 1)
    else if b == 92 then ("\\\\", 1)
    else if 0x20 <= b <= 0x7E then ([b as char], 1)
    else if b < 0x80 || Utf8Length(l) == 0 then (Decimal(b), 1)
    else (Chars(l[..Utf8Length(l)]), Utf8Length(l))
  }

  function Escape(l: Label): string {
    if l == [] then "" else Piece(l).0 + Escape(l[Piece(l).1..])
  }

  /** The text of a name: its printed labels, dots between. */
  function Show(labels: seq<Label>): string {
    if labels == [] then ""
    else if |labels| == 1 then Escape(labels[0])
    else Escape(labels[0]) + "." + Show(labels[1..])
  }

  // ---------------------------------------------------------------- parsing names

  predicate HostLabels(labels: seq<Label>) { forall l <- labels :: forall b <- l :: IsHostByte(b) }

  datatype Parsed = Parsed(name: string, end: nat)

  /** What `parse_name_with_offset_opts` returns. */
  function ParseName(buf: seq<byte>, pos: nat, allow8bit: bool): Option<Parsed> {
    match WalkName(buf, pos)
    case None => None
    case Some(w) => if allow8bit || HostLabels(w.labels) then Some(Parsed(Show(w.labels), w.end)) else None
  }

  function AppendLabel(name: string, l: Label): string { (if name == "" then "" else name + ".") + Escape(l) }

  /** Appending label after label, as the loop does. */
  function AppendAll(name: string, labels: seq<Label>): string
    decreases |labels|
  {
    if labels == [] then name else AppendAll(AppendLabel(name, labels[0]), labels[1..])
  }

  lemma {:induction false} EscapeNonEmpty(l: Label)
    ensures l != [] ==> Escape(l) != ""
  {
    if l == [] {
    } else {
      assert Piece(l).0 != "";
    }
  }

  lemma {:induction false} AppendAllIsShow(name: string, labels: seq<Label>)
    requires ValidLabels(labels)
    ensures AppendAll(name, labels) == if labels == [] || name == "" then name + Show(labels) else name + "." + Show(labels)
    decreases |labels|
  {
    if labels == [] {
    } else {
      EscapeNonEmpty(labels[0]);
      AppendAllIsShow(AppendLabel(name, labels[0]), labels[1..]);
      if |labels| == 1 { assert labels[1..] == []; }
    }
  }

  /** A printed label is at most four times as long as the label. */
  lemma {:induction false} EscapeLength(l: Label)
    ensures |Escape(l)| <= 4 * |l|
    decreases |l|
  {
    if l == [] {
    } else {
      EscapeLength(l[Piece(l).1..]);
    }
  }

  lemma {:induction false} ShowLength(labels: seq<Label>)
    requires ValidLabels(labels)
    ensures |Show(labels)| + 3 * |labels| <= 4 * (WireLength(labels) - 1)
    decreases |labels|
  {
    if labels == [] {
    } else {
      EscapeLength(labels[0]);
      if |labels| > 1 { ShowLength(labels[1..]); } else { assert labels[1..] == []; }
    }
  }

  /** The presentation cap of 1024 can never fire: the wire limits keep the text shorter. */
  lemma TextCapNeverFires(labels: seq<Label>)
    requires ValidLabels(labels) && WireLength(labels) <= MAX_WIRE + 1
    ensures |Show(labels)| < 1024
  {
    ShowLength(labels);
  }

  lemma {:induction false} AppendAllSnoc(name: string, labels: seq<Label>, l: Label)
    ensures AppendAll(name, labels + [l]) == AppendLabel(AppendAll(name, labels), l)
    decreases |labels|
  {
    if labels == [] {
      assert ([] + [l])[1..] == [];
    } else {
      AppendAllSnoc(AppendLabel(name, labels[0]), labels[1..], l);
      assert (labels + [l])[1..] == labels[1..] + [l];
    }
  }

  lemma {:induction false} WireLengthSnoc(labels: seq<Label>, l: Label)
    ensures WireLength(labels + [l]) == WireLength(labels) + 1 + |l|
    decreases |labels|
  {
    if labels != [] {
      WireLengthSnoc(labels[1..], l);
      assert (labels + [l])[1..] == labels[1..] + [l];
    } else {
      assert ([] + [l])[1..] == [];
    }
  }

  /** The printing loop over one label. */
  method NextPiece(l: Label, i: nat) returns (more: string, length: nat)
    requires i < |l|
    ensures (more, length) == Piece(l[i..]) && 1 <= length <= |l| - i
  {
    var piece := Piece(l[i..]);
    return piece.0, piece.1;
  }

  lemma EscapeStep(s: string, l: Label, i: nat, p: string, k: nat)
    requires i < |l| && (p, k) == Piece(l[i..]) && i + k <= |l|
    ensures s + Escape(l[i..]) == s + p + Escape(l[i + k..])
  {
    assert l[i..][k..] == l[i + k..];
    assert s + (p + Escape(l[i + k..])) == s + p + Escape(l[i + k..]);
  }

  method EscapeLabel(l: Label) returns (s: string)
    ensures s == Escape(l)
  {
    ghost var all := Escape(l);
    s := "";
    var i := 0;
    assert l[0..] == l;
    while i < |l|
      invariant i <= |l| && s + Escape(l[i..]) == all
    {
      var more, length := NextPiece(l, i);
      EscapeStep(s, l, i, more, length);
      s, i := s + more, i + length;
    }
  }

  method IsHostLabel(l: Label) returns (r: bool)
    ensures r <==> forall b <- l :: IsHostByte(b)
  {
    for i := 0 to |l|
      invariant forall k | 0 <= k < i :: IsHostByte(l[k])
    {
      if !IsHostByte(l[i]) { return false; }
    }
    return true;
  }

  function Finish(name: string, nextPos: Option<nat>, end: nat): Option<Parsed> {
    Some(Parsed(name, if nextPos.Some? then nextPos.value else end))
  }

  /** The loop of `parse_name_with_offset_opts` as a function of its variables, text cap included. */
  function ParseLoop(buf: seq<byte>, allow8bit: bool, pos: nat, jumps: nat, steps: nat, total: nat,
                     nextPos: Option<nat>, name: string): Option<Parsed>
    decreases MAX_STEPS - steps, buf
  {
    if pos >= |buf| then Finish(name, nextPos, pos)
    else if steps + 1 > MAX_STEPS || jumps > MAX_JUMPS then None
    else
      var len := buf[pos];
      if len == 0 then if total + 1 > MAX_WIRE then None else Finish(name, nextPos, pos + 1)
      else if IsPointer(len) then
        if pos + 1 >= |buf| || Target(len, buf[pos + 1]) >= |buf| then None
        else ParseLoop(buf, allow8bit, Target(len, buf[pos + 1]), jumps + 1, steps + 1, total,
                       if nextPos.None? then Some(pos + 2) else nextPos, name)
      else if len > MAX_LABEL || pos + 1 + len > |buf| || total + 1 + len > MAX_WIRE then None
      else
        var octets := buf[pos + 1..pos + 1 + len];
        var longer := AppendLabel(name, octets);
        if (!allow8bit && !HostLabels([octets])) || |longer| > MAX_TEXT then None
        else ParseLoop(buf, allow8bit, pos + 1 + len, jumps, steps + 1, total + 1 + len, nextPos, longer)
  }

  lemma ParseLoopTaken(buf: seq<byte>, allow8bit: bool, pos: nat, jumps: nat, steps: nat, total: nat,
                       nextPos: Option<nat>, name: string, longer: Option<string>)
    requires AtLabel(buf, pos, jumps, steps, total)
    requires var octets := buf[pos + 1..pos + 1 + buf[pos]];
      longer == if allow8bit || HostLabels([octets]) then Some(AppendLabel(name, octets)) else None
    ensures ParseLoop(buf, allow8bit, pos, jumps, steps, total, nextPos, name) ==
            if longer.None? || |longer.value| > MAX_TEXT then None
            else ParseLoop(buf, allow8bit, pos + 1 + buf[pos], jumps, steps + 1, total + 1 + buf[pos], nextPos, longer.value)
  {
  }

  /** One label's text, unless a strict parse refuses it. */
  method TakeLabel(name: string, octets: Label, allow8bit: bool) returns (r: Option<string>)
    ensures r == if allow8bit || HostLabels([octets]) then Some(AppendLabel(name, octets)) else None
  {
    if !allow8bit {
      var host := IsHostLabel(octets);
      assert octets in [octets];
      if !host { return None; }
    }
    var text := EscapeLabel(octets);
    return Some((if name == "" then "" else name + ".") + text);
  }

  /** `parse_name_with_offset_opts` */
  method ParseNameWithOffset(buf: seq<byte>, start: nat, allow8bit: bool) returns (r: Option<Parsed>)
    ensures r == ParseName(buf, start, allow8bit)
  {
    r := ParseFrom(buf, start, allow8bit);
    ParseLoopIsParseName(buf, allow8bit, start);
  }

  /** The loop of `parse_name_with_offset_opts` */
  method ParseFrom(buf: seq<byte>, start: nat, allow8bit: bool) returns (r: Option<Parsed>)
    ensures r == ParseLoop(buf, allow8bit, start, 0, 0, 0, None, "")
  {
    ghost var answer := ParseLoop(buf, allow8bit, start, 0, 0, 0, None, "");
    var pos: nat, jumps: nat, labelCount: nat, total: nat := start, 0, 0, 0;
    var nextPos: Option<nat>, name := None, "";
    while pos < |buf|
      invariant labelCount <= MAX_STEPS
      invariant ParseLoop(buf, allow8bit, pos, jumps, labelCount, total, nextPos, name) == answer
      decreases MAX_STEPS - labelCount
    {
      ghost var steps := labelCount;
      labelCount := labelCount + 1;
      if labelCount > MAX_STEPS || jumps > MAX_JUMPS { return None; }
      var len := buf[pos];
      if len == 0 {
        if total + 1 > MAX_WIRE { return None; }
        return Some(Parsed(name, if nextPos.None? then pos + 1 else nextPos.value));
      }
      if IsPointer(len) {
        if pos + 1 >= |buf| { return None; }
        var ptr := Target(len, buf[pos + 1]);
        if ptr >= |buf| { return None; }
        ParseLoopPointer(buf, allow8bit, pos, jumps, steps, total, nextPos, name);
        if nextPos.None? { nextPos := Some(pos + 2); }
        pos, jumps := ptr, jumps + 1;
      } else {
        if len > MAX_LABEL || pos + 1 + len > |buf| || total + 1 + len > MAX_WIRE { return None; }
        var longer := TakeLabel(name, buf[pos + 1..pos + 1 + len], allow8bit);
        ParseLoopTaken(buf, allow8bit, pos, jumps, steps, total, nextPos, name, longer);
        if longer.None? || |longer.value| > MAX_TEXT { return None; }
        name := longer.value;
        pos, total := pos + 1 + len, total + 1 + len;
      }
    }
    return Some(Parsed(name, if nextPos.Some? then nextPos.value else pos));
  }

  /** The loop computes the walk's labels, printed; its text cap never makes a difference. */
  lemma {:induction false} ParseLoopIsWalk(buf: seq<byte>, allow8bit: bool, pos: nat, jumps: nat, steps: nat,
        total: nat,
                                           nextPos: Option<nat>, name: string, seen: seq<Label>)
    requires ValidLabels(seen) && WireLength(seen) == total + 1 && total <= MAX_WIRE && name == AppendAll("", seen)
    ensures ParseLoop(buf, allow8bit, pos, jumps, steps, total, nextPos, name) ==
            WalkText(WalkFrom(buf, pos, jumps, steps, total), allow8bit, nextPos, name)
    decreases MAX_STEPS - steps, 1
  {
    if AtLabel(buf, pos, jumps, steps, total) {
      ParseLabelIsWalk(buf, allow8bit, pos, jumps, steps, total, nextPos, name, seen);
    } else if AtPointer(buf, pos, jumps, steps) {
      ParsePointerIsWalk(buf, allow8bit, pos, jumps, steps, total, nextPos, name, seen);
    } else {
      ParseLoopStops(buf, allow8bit, pos, jumps, steps, total, nextPos, name);
    }
  }

  predicate AtPointer(buf: seq<byte>, pos: nat, jumps: nat, steps: nat) {
    && pos + 1 < |buf| && steps < MAX_STEPS && jumps <= MAX_JUMPS
    && IsPointer(buf[pos]) && Target(buf[pos], buf[pos + 1]) < |buf|
  }

  lemma ParseLoopStops(buf: seq<byte>, allow8bit: bool, pos: nat, jumps: nat, steps: nat, total: nat,
                       nextPos: Option<nat>, name: string)
    requires !AtLabel(buf, pos, jumps, steps, total) && !AtPointer(buf, pos, jumps, steps)
    ensures ParseLoop(buf, allow8bit, pos, jumps, steps, total, nextPos, name) ==
            WalkText(WalkFrom(buf, pos, jumps, steps, total), allow8bit, nextPos, name)
  {
  }

  lemma ParseLoopPointer(buf: seq<byte>, allow8bit: bool, pos: nat, jumps: nat, steps: nat, total: nat,
                         nextPos: Option<nat>, name: string)
    requires AtPointer(buf, pos, jumps, steps)
    ensures ParseLoop(buf, allow8bit, pos, jumps, steps, total, nextPos, name) ==
            ParseLoop(buf, allow8bit, Target(buf[pos], buf[pos + 1]), jumps + 1, steps + 1, total,
                      if nextPos.None? then Some(pos + 2) else nextPos, name)
  {
  }

  lemma WalkPointer(buf: seq<byte>, pos: nat, jumps: nat, steps: nat, total: nat)
    requires AtPointer(buf, pos, jumps, steps)
    ensures WalkFrom(buf, pos, jumps, steps, total) ==
            EndingAt(WalkFrom(buf, Target(buf[pos], buf[pos + 1]), jumps + 1, steps + 1, total), pos + 2)
  {
  }

  lemma {:induction false} ParsePointerIsWalk(buf: seq<byte>, allow8bit: bool, pos: nat, jumps: nat, steps: nat,
        total: nat,
                                              nextPos: Option<nat>, name: string, seen: seq<Label>)
    requires ValidLabels(seen) && WireLength(seen) == total + 1 && total <= MAX_WIRE && name == AppendAll("", seen)
    requires AtPointer(buf, pos, jumps, steps)
    ensures ParseLoop(buf, allow8bit, pos, jumps, steps, total, nextPos, name) ==
            WalkText(WalkFrom(buf, pos, jumps, steps, total), allow8bit, nextPos, name)
    decreases MAX_STEPS - steps, 0
  {
    var target := Target(buf[pos], buf[pos + 1]);
    var nextPos' := if nextPos.None? then Some(pos + 2) else nextPos;
    ParseLoopIsWalk(buf, allow8bit, target, jumps + 1, steps + 1, total, nextPos', name, seen);
    ParseLoopPointer(buf, allow8bit, pos, jumps, steps, total, nextPos, name);
    WalkPointer(buf, pos, jumps, steps, total);
  }

  lemma {:induction false} ParseLabelIsWalk(buf: seq<byte>, allow8bit: bool, pos: nat, jumps: nat, steps: nat,
        total: nat,
                                            nextPos: Option<nat>, name: string, seen: seq<Label>)
    requires ValidLabels(seen) && WireLength(seen) == total + 1 && total <= MAX_WIRE && name == AppendAll("", seen)
    requires AtLabel(buf, pos, jumps, steps, total)
    ensures ParseLoop(buf, allow8bit, pos, jumps, steps, total, nextPos, name) ==
            WalkText(WalkFrom(buf, pos, jumps, steps, total), allow8bit, nextPos, name)
    decreases MAX_STEPS - steps, 0
  {
    var next := pos + 1 + buf[pos];
    var octets := buf[pos + 1..next];
    LabelKeepsText(seen, octets, total);
    ParseLoopLabel(buf, allow8bit, pos, jumps, steps, total, nextPos, name);
    ParseLoopIsWalk(buf, allow8bit, next, jumps, steps + 1, total + 1 + buf[pos], nextPos, AppendLabel(name, octets), seen + [octets]);
    WalkLabel(buf, pos, jumps, steps, total);
    WalkTextLabel(WalkFrom(buf, next, jumps, steps + 1, total + 1 + buf[pos]), allow8bit, nextPos, name, octets);
  }

  predicate AtLabel(buf: seq<byte>, pos: nat, jumps: nat, steps: nat, total: nat) {
    && pos < |buf| && steps < MAX_STEPS && jumps <= MAX_JUMPS
    && 1 <= buf[pos] <= MAX_LABEL && pos + 1 + buf[pos] <= |buf| && total + 1 + buf[pos] <= MAX_WIRE
  }

  lemma WalkLabel(buf: seq<byte>, pos: nat, jumps: nat, steps: nat, total: nat)
    requires AtLabel(buf, pos, jumps, steps, total)
    ensures var next := pos + 1 + buf[pos];
      var rest := WalkFrom(buf, next, jumps, steps + 1, total + 1 + buf[pos]);
      WalkFrom(buf, pos, jumps, steps, total) == Prepend(buf[pos + 1..next], rest)
  {
  }

  lemma ParseLoopLabel(buf: seq<byte>, allow8bit: bool, pos: nat, jumps: nat, steps: nat, total: nat,
        nextPos: Option<nat>, name: string)
    requires AtLabel(buf, pos, jumps, steps, total)
    requires |AppendLabel(name, buf[pos + 1..pos + 1 + buf[pos]])| <= MAX_TEXT
    ensures var next := pos + 1 + buf[pos]; var octets := buf[pos + 1..next];
      ParseLoop(buf, allow8bit, pos, jumps, steps, total, nextPos, name) ==
      if allow8bit || HostLabels([octets])
      then ParseLoop(buf, allow8bit, next, jumps, steps + 1, total + 1 + buf[pos], nextPos, AppendLabel(name, octets)) else None
  {
  }

  /** What a walk gives as text, after the text so far. */
  function WalkText(walk: Option<Walk>, allow8bit: bool, nextPos: Option<nat>, name: string): Option<Parsed> {
    match walk
    case None => None
    case Some(w) => if allow8bit || HostLabels(w.labels) then Finish(AppendAll(name, w.labels), nextPos, w.end) else None
  }

  lemma LabelKeepsText(seen: seq<Label>, octets: Label, total: nat)
    requires ValidLabels(seen + [octets]) && WireLength(seen) == total + 1 && total + 1 + |octets| <= MAX_WIRE
    ensures WireLength(seen + [octets]) == total + 2 + |octets|
    ensures AppendAll("", seen + [octets]) == AppendLabel(AppendAll("", seen), octets)
    ensures |AppendLabel(AppendAll("", seen), octets)| <= MAX_TEXT
  {
    WireLengthSnoc(seen, octets);
    AppendAllSnoc("", seen, octets);
    AppendAllIsShow("", seen + [octets]);
    TextCapNeverFires(seen + [octets]);
  }

  lemma WalkTextLabel(rest: Option<Walk>, allow8bit: bool, nextPos: Option<nat>, name: string, octets: Label)
    ensures WalkText(Prepend(octets, rest), allow8bit, nextPos, name) ==
            if allow8bit || HostLabels([octets]) then WalkText(rest, allow8bit, nextPos, AppendLabel(name, octets)) else None
  {
    if rest.Some? {
      var all := [octets] + rest.value.labels;
      assert all[0] == octets && all[1..] == rest.value.labels;
      assert octets in all && octets in [octets];
      assert forall l <- rest.value.labels :: l in all;
    }
  }

  lemma ParseLoopIsParseName(buf: seq<byte>, allow8bit: bool, pos: nat)
    ensures ParseLoop(buf, allow8bit, pos, 0, 0, 0, None, "") == ParseName(buf, pos, allow8bit)
  {
    ParseLoopIsWalk(buf, allow8bit, pos, 0, 0, 0, None, "", []);
    if WalkName(buf, pos).Some? {
      WalkLimits(buf, pos, 0, 0, 0);
      AppendAllIsShow("", WalkName(buf, pos).value.labels);
      assert "" + Show(WalkName(buf, pos).value.labels) == Show(WalkName(buf, pos).value.labels);
    }
  }

  // ---------------------------------------------------------------- what the text shows

  /** Characters of host names as their text has them: small letters, digits, hyphen, underscore, star, dot. */
  predicate HostChar(c: char) { 'a' <= c <= 'z' || '0' <= c <= '9' || c == '-' || c == '_' || c == '*' || c == '.' }

  predicate HostText(s: string) { forall i | 0 <= i < |s| :: HostChar(s[i]) }

  lemma HostTextConcat(a: string, b: string)
    ensures HostText(a + b) <==> HostText(a) && HostText(b)
  {
    var s := a + b;
    assert forall i | 0 <= i < |a| :: s[i] == a[i];
    assert forall i | 0 <= i < |b| :: s[|a| + i] == b[i];
    if HostText(s) { forall i | 0 <= i < |b| ensures HostChar(b[i]) { assert HostChar(s[|a| + i]); } }
  }

  lemma PieceHost(l: Label)
    requires l != []
    ensures var (p, k) := Piece(l); HostText(p) <==> IsHostByte(l[0])
    ensures IsHostByte(l[0]) ==> Piece(l).1 == 1
  {
    var (p, k) := Piece(l);
    assert p != "" && (!IsHostByte(l[0]) ==> !HostChar(p[0]));
  }

  lemma {:induction false} EscapeHost(l: Label)
    ensures HostText(Escape(l)) <==> forall i | 0 <= i < |l| :: IsHostByte(l[i])
    decreases |l|
  {
    if l == [] {
    } else {
      var (p, k) := Piece(l);
      PieceHost(l);
      HostTextConcat(p, Escape(l[k..]));
      if IsHostByte(l[0]) {
        EscapeHost(l[1..]);
        assert l == [l[0]] + l[1..];
      }
    }
  }

  lemma HostLabelsCons(l: Label, rest: seq<Label>)
    ensures HostLabels([l] + rest) <==> (forall i | 0 <= i < |l| :: IsHostByte(l[i])) && HostLabels(rest)
  {
    var all := [l] + rest;
    assert l == all[0] && forall m <- rest :: m in all;
    if (forall i | 0 <= i < |l| :: IsHostByte(l[i])) && HostLabels(rest) {
      forall m <- all, b <- m ensures IsHostByte(b) { assert m == l || m in rest; }
    }
    if HostLabels(all) {
      forall i | 0 <= i < |l| ensures IsHostByte(l[i]) { assert l in all && l[i] in l; }
    }
  }

  lemma {:induction false} ShowHost(labels: seq<Label>)
    ensures HostText(Show(labels)) <==> HostLabels(labels)
    decreases |labels|
  {
    if labels == [] {
    } else {
      var l, rest := labels[0], labels[1..];
      EscapeHost(l);
      HostLabelsCons(l, rest);
      assert labels == [l] + rest && HostText(".");
      if |labels| > 1 {
        ShowHost(rest);
        HostTextConcat(Escape(l) + ".", Show(rest));
        HostTextConcat(Escape(l), ".");
      } else {
        assert rest == [];
      }
    }
  }

  /** The strict mode accepts exactly the names whose text is that of a host name, and prints the same text. */
  lemma StrictExactlyHostText(buf: seq<byte>, pos: nat)
    ensures var (strict, lenient) := (ParseName(buf, pos, false), ParseName(buf, pos, true));
      strict == if lenient.Some? && HostText(lenient.value.name) then lenient else None
  {
    if WalkName(buf, pos).Some? { ShowHost(WalkName(buf, pos).value.labels); }
  }

  /** How one octet prints: a dot or a backslash after a backslash, another character of ASCII that can be seen, or
    * the space, as itself in lower case, any other octet as a backslash and its three decimal digits. */
  lemma OctetText(b: byte)
    ensures var s := Escape([b]);
      if b == 0x2E then s == "\\." else if b == 0x5C then s == "\\\\"
      else if 0x41 <= b <= 0x5A then s == [(b + 0x20) as char]
      else if ' ' as int <= b <= '~' as int then s == [b as char]
      else |s| == 4 && s[0] == '\\' && (forall i | 1 <= i < 4 :: '0' <= s[i] <= '9')
           && (s[1] as int - 48) * 100 + (s[2] as int - 48) * 10 + (s[3] as int - 48) == b
  {
    assert [b][1..] == [] && Piece([b]).1 == 1 && Escape([b]) == Piece([b]).0 + "";
  }
}
