/** From a name's text back to the wire (section 5.1 of RFC 1035; src/dns/parser.rs): splitting on
  * unescaped dots, unescaping, building a query, and when the text of a name survives the round trip. */
module QueryWire {
  import opened Bytes
  import opened Text
  import opened Wrappers
  import opened WireNames
  import opened NameText

  /** Characters stand for bytes, so the remainder never changes anything. */
  function ByteOf(c: char): byte { c as int % 256 }

  predicate IsDigit(c: char) { '0' <= c <= '9' }

  function Value3(s: string): nat
    requires |s| >= 4 && IsDigit(s[1]) && IsDigit(s[2]) && IsDigit(s[3])
  {
    (s[1] as int - 48) * 100 + (s[2] as int - 48) * 10 + (s[3] as int - 48)
  }

  /** `s` begins with `\DDD`, a number that fits an octet. */
  predicate IsDecimal(s: string) {
    |s| >= 4 && s[0] == '\\' && IsDigit(s[1]) && IsDigit(s[2]) && IsDigit(s[3]) && Value3(s) <= 255
  }

  /** The octets the next escape or character stands for, and its length. */
  function Step(s: string): (seq<byte>, nat)
    requires s != ""
  {
    if s[0] != '\\' then ([ByteOf(s[0])], 1)
    else if IsDecimal(s) then ([Value3(s)], 4)
    else if |s| == 1 then ([], 1)
    else ([ByteOf(s[1])], 2)
  }

  /** `unescape_label_to_bytes` */
  function Unescape(s: string): seq<byte> {
    if s == "" then [] else Step(s).0 + Unescape(s[Step(s).1..])
  }

  lemma UnescapeAt(s: string, i: nat, r: seq<byte>)
    requires i < |s|
    ensures r + Unescape(s[i..]) == r + Step(s[i..]).0 + Unescape(s[i + Step(s[i..]).1..])
  {
    var rest := s[i..];
    assert rest[Step(rest).1..] == s[i + Step(rest).1..];
  }

  /** One turn of the loop of `unescape_label_to_bytes`. */
  method ReadStep(rest: string) returns (octets: seq<byte>, width: nat)
    requires rest != ""
    ensures (octets, width) == Step(rest)
  {
    octets, width := [ByteOf(rest[0])], 1;
    if rest[0] == '\\' {
      if |rest| >= 4 && IsDigit(rest[1]) && IsDigit(rest[2]) && IsDigit(rest[3]) && Value3(rest) <= 255 {
        octets, width := [Value3(rest)], 4;
      } else if |rest| == 1 {
        octets := [];
      } else {
        octets, width := [ByteOf(rest[1])], 2;
      }
    }
  }

  method UnescapeLabelToBytes(s: string) returns (r: seq<byte>)
    ensures r == Unescape(s)
  {
    r := [];
    var i := 0;
    assert s[0..] == s;
    while i < |s|
      invariant i <= |s| && r + Unescape(s[i..]) == Unescape(s)
    {
      var octets, width := ReadStep(s[i..]);
      UnescapeAt(s, i, r);
      r, i := r + octets, i + width;
    }
  }

  // ---------------------------------------------------------------- splitting

  /** Length of the text before the first unescaped dot. */
  function Head(s: string): (n: nat)
    ensures n <= |s|
  {
    if s == "" || s[0] == '.' then 0 else Step(s).1 + Head(s[Step(s).1..])
  }

  /** A part, unless it is empty. */
  function Part(p: string): seq<string> { if p == "" then [] else [p] }

  /** The non-empty stretches between unescaped dots. */
  function SplitText(s: string): seq<string>
    decreases |s|, 1
  {
    if s == "" then [] else Part(s[..Head(s)]) + AfterHead(s, Head(s))
  }

  function AfterHead(s: string, n: nat): seq<string>
    requires n <= |s| && s != ""
    decreases |s|, 0
  {
    if n == |s| then [] else SplitText(s[n + 1..])
  }

  /** `split_domain_labels` */
  function SplitLabels(domain: string): seq<string> {
    if Trim(domain) == "" || Trim(domain) == "." then [] else SplitText(Trim(domain))
  }

  /** The loop of `split_domain_labels`, as a function of its variables. */
  function SplitLoop(s: string, current: string, escaped: bool): seq<string>
    decreases |s|
  {
    if s == "" then if current == "" then [] else [current]
    else if escaped then SplitLoop(s[1..], current + [s[0]], false)
    else if s[0] == '\\' then SplitLoop(s[1..], current + [s[0]], true)
    else if s[0] == '.' then (if current == "" then [] else [current]) + SplitLoop(s[1..], "", false)
    else SplitLoop(s[1..], current + [s[0]], false)
  }

  /** The loop crosses one escape or character as a whole. */
  lemma SplitLoopStep(s: string, current: string)
    requires s != "" && s[0] != '.'
    ensures SplitLoop(s, current, false) == SplitLoop(s[Step(s).1..], current + s[..Step(s).1], false)
  {
    var c1 := current + [s[0]];
    assert current + s[..1] == c1;
    if s[0] == '\\' && |s| > 1 {
      var c2 := c1 + [s[1]];
      assert s[1..][1..] == s[2..] && current + s[..2] == c2;
      assert SplitLoop(s, current, false) == SplitLoop(s[2..], c2, false);
      if IsDecimal(s) {
        var c3 := c2 + [s[2]];
        assert s[2..][1..] == s[3..] && s[3..][1..] == s[4..];
        assert SplitLoop(s[2..], c2, false) == SplitLoop(s[3..], c3, false);
        assert SplitLoop(s[3..], c3, false) == SplitLoop(s[4..], c3 + [s[3]], false);
        assert current + s[..4] == c3 + [s[3]];
      }
    }
  }

  /** The rest of the loop once the first part is complete. */
  function LoopAfter(s: string, n: nat): seq<string>
    requires n <= |s|
  {
    if n == |s| then [] else SplitLoop(s[n + 1..], "", false)
  }

  /** The loop finds the stretches between unescaped dots. */
  lemma {:induction false} SplitLoopHead(s: string, current: string)
    ensures SplitLoop(s, current, false) == Part(current + s[..Head(s)]) + LoopAfter(s, Head(s))
    decreases |s|
  {
    if s == "" || s[0] == '.' {
      assert current + s[..0] == current;
    } else {
      var k := Step(s).1;
      SplitLoopStep(s, current);
      SplitLoopHead(s[k..], current + s[..k]);
      Shift(s, k, current);
    }
  }

  lemma Shift(s: string, k: nat, current: string)
    requires s != "" && s[0] != '.' && k == Step(s).1
    ensures current + s[..k] + s[k..][..Head(s[k..])] == current + s[..Head(s)]
    ensures LoopAfter(s[k..], Head(s[k..])) == LoopAfter(s, Head(s))
  {
    ShiftSlices(s, k, Head(s[k..]), current);
  }

  lemma ShiftSlices(s: string, k: nat, n: nat, current: string)
    requires k + n <= |s|
    ensures current + s[..k] + s[k..][..n] == current + s[..k + n]
    ensures k + n < |s| ==> s[k..][n + 1..] == s[k + n + 1..]
  {
    assert s[..k] + s[k..][..n] == s[..k + n];
  }

  lemma {:induction false} SplitLoopIsSplit(s: string)
    ensures SplitLoop(s, "", false) == SplitText(s)
    decreases |s|
  {
    if s == "" {
    } else {
      var n := Head(s);
      SplitLoopHead(s, "");
      assert "" + s[..n] == s[..n];
      if n < |s| { SplitLoopIsSplit(s[n + 1..]); }
      assert LoopAfter(s, n) == AfterHead(s, n);
    }
  }

  /** The parts found so far and those to come. */
  function Splitting(labels: seq<string>, s: string, current: string, escaped: bool): seq<string> {
    labels + SplitLoop(s, current, escaped)
  }

  /** `split_domain_labels` */
  method SplitDomainLabels(domain: string) returns (labels: seq<string>)
    ensures labels == SplitLabels(domain)
  {
    var clean := Trim(domain);
    if clean == "" || clean == "." { return []; }
    SplitLoopIsSplit(clean);
    labels := SplitAll(clean);
  }

  /** The loop of `split_domain_labels` */
  method SplitAll(clean: string) returns (labels: seq<string>)
    ensures labels == SplitLoop(clean, "", false)
  {
    ghost var all := SplitLoop(clean, "", false);
    labels := [];
    var current, escaped := "", false;
    assert clean[0..] == clean && [] + all == all;
    for i := 0 to |clean|
      invariant Splitting(labels, clean[i..], current, escaped) == all
    {
      var ch := clean[i];
      SplittingStep(labels, clean, i, current, escaped);
      if escaped {
        current, escaped := current + [ch], false;
      } else if ch == '\\' {
        current, escaped := current + [ch], true;
      } else if ch == '.' {
        if current != "" { labels := labels + [current]; }
        current := "";
      } else {
        current := current + [ch];
      }
    }
    if current != "" { labels := labels + [current]; } else { assert labels + [] == labels; }
  }

  lemma SplittingStep(labels: seq<string>, s: string, i: nat, current: string, escaped: bool)
    requires i < |s|
    ensures var ch := s[i]; var rest := s[i + 1..];
      Splitting(labels, s[i..], current, escaped) ==
      if escaped then Splitting(labels, rest, current + [ch], false)
      else if ch == '\\' then Splitting(labels, rest, current + [ch], true)
      else if ch == '.' then Splitting(labels + Part(current), rest, "", false)
      else Splitting(labels, rest, current + [ch], false)
    ensures labels + Part("") == labels
  {
    assert s[i..][1..] == s[i + 1..] && labels + [] == labels;
    assert labels + (Part(current) + SplitLoop(s[i + 1..], "", false)) == labels + Part(current) + SplitLoop(s[i + 1..], "", false);
  }

  // ---------------------------------------------------------------- building

  function UnescapeAll(parts: seq<string>): seq<Label> {
    if parts == [] then [] else [Unescape(parts[0])] + UnescapeAll(parts[1..])
  }

  /** The labels a query can carry: 1 to 63 octets. The others are dropped. */
  function Usable(labels: seq<Label>): (r: seq<Label>)
    ensures ValidLabels(r)
  {
    if labels == [] then []
    else (if 1 <= |labels[0]| <= MAX_LABEL then [labels[0]] else []) + Usable(labels[1..])
  }

  function QueryLabels(domain: string): (r: seq<Label>)
    ensures ValidLabels(r)
  {
    Usable(UnescapeAll(SplitLabels(domain)))
  }

  function EncodeLabels(labels: seq<Label>): seq<byte>
    requires ValidLabels(labels)
  {
    if labels == [] then [] else [|labels[0]|] + labels[0] + EncodeLabels(labels[1..])
  }

  const QUERY_HEADER: seq<byte> := [0x12, 0x34, 1, 0, 0, 1, 0, 0, 0, 0, 0, 0]

  /** A recursive query for the labels: one question, class IN. */
  function Query(labels: seq<Label>, qtype: nat): seq<byte>
    requires ValidLabels(labels) && qtype < 65536
  {
    QUERY_HEADER + EncodeLabels(labels) + [0, qtype / 256, qtype % 256, 0, 1]
  }

  lemma {:induction false} EncodeLabelsSnoc(labels: seq<Label>, l: Label)
    requires ValidLabels(labels + [l])
    ensures ValidLabels(labels)
    ensures EncodeLabels(labels + [l]) == EncodeLabels(labels) + ([|l|] + l)
    decreases |labels|
  {
    assert forall i | 0 <= i < |labels| :: (labels + [l])[i] == labels[i];
    assert (labels + [l])[|labels|] == l;
    if labels != [] {
      assert (labels + [l])[1..] == labels[1..] + [l];
      EncodeLabelsSnoc(labels[1..], l);
      Reassociate([|labels[0]|] + labels[0], EncodeLabels(labels[1..]), [|l|] + l);
    } else {
      assert ([] + [l])[1..] == [] && [|l|] + l + [] == [] + ([|l|] + l);
    }
  }

  lemma {:induction false} UsableSnoc(labels: seq<Label>, l: Label)
    ensures Usable(labels + [l]) == Usable(labels) + if 1 <= |l| <= MAX_LABEL then [l] else []
    decreases |labels|
  {
    if labels != [] {
      assert (labels + [l])[1..] == labels[1..] + [l];
      UsableSnoc(labels[1..], l);
    } else {
      assert ([] + [l])[1..] == [];
    }
  }

  lemma {:induction false} UnescapeAllSnoc(parts: seq<string>, p: string)
    ensures UnescapeAll(parts + [p]) == UnescapeAll(parts) + [Unescape(p)]
    decreases |parts|
  {
    if parts != [] {
      assert (parts + [p])[1..] == parts[1..] + [p];
      UnescapeAllSnoc(parts[1..], p);
    } else {
      assert ([] + [p])[1..] == [];
    }
  }

  /** What one more part adds to the question. */
  lemma PartAdds(parts: seq<string>, i: nat)
    requires i < |parts|
    ensures var (before, raw) := (Usable(UnescapeAll(parts[..i])), Unescape(parts[i]));
      EncodeLabels(Usable(UnescapeAll(parts[..i + 1]))) == EncodeLabels(before) + if 1 <= |raw| <= MAX_LABEL then [|raw|] + raw else []
  {
    var before, raw := UnescapeAll(parts[..i]), Unescape(parts[i]);
    assert parts[..i + 1] == parts[..i] + [parts[i]];
    UnescapeAllSnoc(parts[..i], parts[i]);
    UsableSnoc(before, raw);
    if 1 <= |raw| <= MAX_LABEL {
      EncodeLabelsSnoc(Usable(before), raw);
    } else {
      assert Usable(before) + [] == Usable(before);
    }
  }

  /** The part of `build_query_wire` that writes the labels. */
  method WriteLabels(parts: seq<string>) returns (buf: seq<byte>)
    ensures buf == EncodeLabels(Usable(UnescapeAll(parts)))
  {
    buf := [];
    for i := 0 to |parts|
      invariant buf == EncodeLabels(Usable(UnescapeAll(parts[..i])))
    {
      PartAdds(parts, i);
      var raw := UnescapeLabelToBytes(parts[i]);
      if raw != [] && |raw| <= 63 { buf := buf + ([|raw|] + raw); }
    }
    assert parts[..|parts|] == parts;
  }

  /** `build_query_wire` */
  method BuildQueryWire(domain: string, qtype: nat) returns (buf: seq<byte>)
    requires qtype < 65536
    ensures buf == Query(QueryLabels(domain), qtype)
  {
    var parts := SplitDomainLabels(domain);
    var question := WriteLabels(parts);
    buf := QUERY_HEADER + question + [0, qtype / 256, qtype % 256, 0, 1];
  }

  // ---------------------------------------------------------------- unescaping undoes escaping

  /** The octets of the text before the first unescaped dot. */
  function HeadOctets(s: string): seq<byte> {
    if s == "" || s[0] == '.' then [] else Step(s).0 + HeadOctets(s[Step(s).1..])
  }

  lemma {:induction false} UnescapeHead(s: string)
    ensures Unescape(s[..Head(s)]) == HeadOctets(s)
    decreases |s|
  {
    if s != "" && s[0] != '.' {
      var k := Step(s).1;
      var head := s[..Head(s)];
      UnescapeHead(s[k..]);
      assert head != "" && head[0] == s[0];
      assert IsDecimal(s) ==> head[1] == s[1] && head[2] == s[2] && head[3] == s[3];
      assert Step(head) == Step(s);
      assert head[k..] == s[k..][..Head(s[k..])];
    }
  }

  lemma PlainStep(b: byte, s: string)
    requires s != "" && b >= 0x80 && s[0] == b as char
    ensures Head(s) == 1 + Head(s[1..]) && HeadOctets(s) == [b] + HeadOctets(s[1..])
  {
    assert Step(s) == ([b], 1);
  }

  lemma CharsFirst(l: Label, r: string)
    requires l != []
    ensures var s := Chars(l) + r; s != "" && s[0] == l[0] as char && s[1..] == Chars(l[1..]) + r
  {
    assert Chars(l) == [l[0] as char] + Chars(l[1..]);
  }

  lemma FirstOctet(l: Label, r: seq<byte>)
    requires l != []
    ensures [l[0]] + (l[1..] + r) == l + r
  {
  }

  /** Characters of two-byte and longer UTF-8 sequences stand for themselves. */
  lemma {:induction false} PlainRun(l: Label, r: string)
    requires forall i | 0 <= i < |l| :: l[i] >= 0x80
    ensures Head(Chars(l) + r) == |l| + Head(r) && HeadOctets(Chars(l) + r) == l + HeadOctets(r)
    decreases |l|
  {
    if l == [] {
      assert Chars(l) + r == r;
    } else {
      CharsFirst(l, r);
      PlainRun(l[1..], r);
      PlainStep(l[0], Chars(l) + r);
      FirstOctet(l, HeadOctets(r));
    }
  }

  lemma DecimalStep(b: byte, r: string)
    ensures Step(Decimal(b) + r) == ([b], 4)
  {
    var s := Decimal(b) + r;
    assert s[1] == Digit(b / 100) && s[2] == Digit(b / 10 % 10) && s[3] == Digit(b % 10);
    assert b / 100 * 100 + b / 10 % 10 * 10 + b % 10 == b;
  }

  /** One step of unescaping undoes one step of printing, up to the case of letters. */
  lemma PieceRead(l: Label, r: string)
    requires l != []
    ensures var (p, k) := Piece(l); k <= |l| && Head(p + r) == |p| + Head(r) && HeadOctets(p + r) == LowerBytes(l[..k]) + HeadOctets(r)
  {
    var b := l[0];
    var (p, k) := Piece(l);
    if b >= 0x80 && Utf8Length(l) > 0 {
      PlainRun(l[..k], r);
      assert LowerBytes(l[..k]) == l[..k];
    } else {
      OctetRead(l, r);
      assert LowerBytes(l[..1]) == [LowerByte(b)];
      assert (p + r)[|p|..] == r;
    }
  }

  lemma OctetRead(l: Label, r: string)
    requires l != [] && (l[0] < 0x80 || Utf8Length(l) == 0)
    ensures var p := Piece(l).0; p + r != "" && Piece(l).1 == 1 && Step(p + r) == ([LowerByte(l[0])], |p|)
  {
    var b, p := l[0], Piece(l).0;
    if b == 46 || b == 92 {
      assert (p + r)[0] == '\\' && (p + r)[1] == b as char;
      SlashStep(p + r, b);
    } else if b < 0x20 || b >= 0x7F {
      DecimalStep(b, r);
    } else {
      assert (p + r)[0] == p[0];
    }
  }

  lemma SlashStep(s: string, b: byte)
    requires |s| >= 2 && s[0] == '\\' && s[1] == b as char && (b == 46 || b == 92)
    ensures Step(s) == ([b], 2)
  {
  }

  lemma LowerBytesSplit(l: Label, k: nat)
    requires k <= |l|
    ensures LowerBytes(l) == LowerBytes(l[..k]) + LowerBytes(l[k..])
  {
  }

  lemma {:induction false} EscapeRead(l: Label, r: string)
    requires r == "" || r[0] == '.'
    ensures Head(Escape(l) + r) == |Escape(l)| && HeadOctets(Escape(l) + r) == LowerBytes(l)
    decreases |l|
  {
    if l == [] {
      assert "" + r == r;
    } else {
      var k := Piece(l).1;
      EscapeRead(l[k..], r);
      PieceRead(l, Escape(l[k..]) + r);
      Reassociate(Piece(l).0, Escape(l[k..]), r);
      LowerBytesSplit(l, k);
    }
  }

  /** Unescaping a printed label gives the label in lower case, whatever its octets. */
  lemma UnescapeUndoesEscape(l: Label)
    ensures Unescape(Escape(l)) == LowerBytes(l)
  {
    EscapeRead(l, "");
    assert Escape(l) + "" == Escape(l);
    UnescapeHead(Escape(l));
    assert Escape(l)[..|Escape(l)|] == Escape(l);
  }

  function LowerAll(labels: seq<Label>): (r: seq<Label>)
    ensures |r| == |labels| && (forall i | 0 <= i < |labels| :: r[i] == LowerBytes(labels[i]))
    ensures ValidLabels(labels) ==> ValidLabels(r)
  {
    seq(|labels|, i requires 0 <= i < |labels| => LowerBytes(labels[i]))
  }

  /** A printed label at the beginning of a text is its first part. */
  lemma SplitFirst(l: Label, r: string)
    requires l != [] && (r == "" || r[0] == '.')
    ensures SplitText(Escape(l) + r) == [Escape(l)] + SplitText(if r == "" then "" else r[1..])
  {
    var s := Escape(l) + r;
    EscapeNonEmpty(l);
    EscapeRead(l, r);
    assert s[..|Escape(l)|] == Escape(l);
    assert r != "" ==> s[|Escape(l)| + 1..] == r[1..];
  }

  function Rest(labels: seq<Label>): string { if labels == [] then "" else "." + Show(labels) }

  lemma ShowFirst(l: Label, rest: seq<Label>)
    ensures Show([l] + rest) == Escape(l) + Rest(rest)
  {
    var all := [l] + rest;
    assert all[0] == l && all[1..] == rest;
    if rest == [] {
      assert Escape(l) + "" == Escape(l);
    } else {
      assert Escape(l) + ("." + Show(rest)) == Escape(l) + "." + Show(rest);
    }
  }

  lemma LowerFirst(l: Label, rest: seq<Label>)
    ensures LowerAll([l] + rest) == [LowerBytes(l)] + LowerAll(rest)
  {
  }

  lemma {:induction false} SplitShow(labels: seq<Label>)
    requires ValidLabels(labels)
    ensures UnescapeAll(SplitText(Show(labels))) == LowerAll(labels)
    decreases |labels|
  {
    if labels == [] {
    } else {
      var l, rest := labels[0], labels[1..];
      assert labels == [l] + rest;
      ShowFirst(l, rest);
      LowerFirst(l, rest);
      UnescapeUndoesEscape(l);
      SplitFirst(l, Rest(rest));
      SplitShow(rest);
      UnescapeFirst(Escape(l), SplitText(Show(rest)));
    }
  }

  lemma UnescapeFirst(p: string, parts: seq<string>)
    ensures UnescapeAll([p] + parts) == [Unescape(p)] + UnescapeAll(parts)
  {
    assert ([p] + parts)[1..] == parts;
  }

  /** Splitting the text of a name and unescaping gives the labels back in lower case, when the text has
    * no white space at its ends. */
  lemma SplitUnescapeIsLower(labels: seq<Label>)
    requires ValidLabels(labels) && Trim(Show(labels)) == Show(labels)
    ensures UnescapeAll(SplitLabels(Show(labels))) == LowerAll(labels)
  {
    SplitShow(labels);
    assert Head(".") == 0 && SplitText(".") == [];
  }
}
