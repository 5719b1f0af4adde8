/** Names as the denial verifiers read them (src/dns/dnssec.rs). A query's name reaches them as text;
  * `canonical_wire_name` trims that text and splits it at every dot, without undoing escapes. Which names
  * it reads right is decided by their octets. */
module CanonicalName {
  import opened Bytes
  import opened Text
  import opened WireNames
  import opened NameText
  import opened QueryWire

  /** A name as its labels on the wire, the root being the empty sequence. */
  type Name = seq<Label>

  predicate IsLower(l: Label) { forall i | 0 <= i < |l| :: !(65 <= l[i] <= 90) }

  predicate AllLower(n: Name) { forall i | 0 <= i < |n| :: IsLower(n[i]) }

  /** A name on the wire in canonical form: within the limits, letters in lower case. */
  predicate IsName(n: Name) { ValidLabels(n) && AllLower(n) && WireLength(n) <= MAX_WIRE }

  lemma WireLengthOne(l: Label)
    ensures WireLength([l]) == |l| + 2
  {
    assert [l][1..] == [] && WireLength([]) == 1;
  }

  lemma SmallName(n: Name)
    requires 1 <= |n| <= 2 && forall i | 0 <= i < |n| :: 1 <= |n[i]| <= 3 && IsLower(n[i])
    ensures IsName(n)
  {
    WireLengthOne(n[|n| - 1]);
    assert |n| == 1 ==> n == [n[0]];
    assert |n| == 2 ==> n[1..] == [n[1]];
  }

  /** The octets of a label, each as a character. */
  function Texts(n: Name): (r: seq<string>)
    ensures |r| == |n| && forall i | 0 <= i < |n| :: r[i] == Chars(n[i])
  {
    seq(|n|, i requires 0 <= i < |n| => Chars(n[i]))
  }

  function ToOctets(s: string): (r: seq<byte>)
    ensures |r| == |s| && forall i | 0 <= i < |s| :: r[i] == ByteOf(s[i])
  {
    seq(|s|, i requires 0 <= i < |s| => ByteOf(s[i]))
  }

  /** Labels with their length octets, which wrap at 256. */
  function WireOf(labels: seq<string>): seq<byte> {
    if labels == [] then [] else Counted(labels[0]) + WireOf(labels[1..])
  }

  function Counted(l: string): (r: seq<byte>)
    ensures |r| == |l| + 1
  {
    [|l| % 256] + ToOctets(l)
  }

  /** The canonical wire form of labels, root octet included. */
  function Canonical(labels: seq<string>): seq<byte> { WireOf(labels) + [0] }

  /** The labels `canonical_wire_name` finds in a text. */
  function LabelsRead(domain: string): seq<string> {
    var clean := TrimDots(Trim(domain));
    if clean == "" then [] else Split(Lower(clean))
  }

  /** `canonical_wire_name` */
  method CanonicalWireName(domain: string) returns (out: seq<byte>)
    ensures out == Canonical(LabelsRead(domain))
  {
    var clean := TrimDots(Trim(domain));
    if clean == "" { return [0]; }
    SplitLower(clean);
    out := WriteParts(Split(clean));
    out := out + [0];
  }

  method WriteParts(parts: seq<string>) returns (out: seq<byte>)
    ensures out == WireOf(LowerParts(parts))
  {
    ghost var all := LowerParts(parts);
    out := [];
    assert all[0..] == all;
    for i := 0 to |parts|
      invariant out + WireOf(all[i..]) == WireOf(all)
    {
      WireNext(all, i, out);
      var lower := Lower(parts[i]);
      out := out + ([|lower| % 256] + ToOctets(lower));
    }
    assert out + [] == out;
  }

  lemma WireNext(parts: seq<string>, i: nat, out: seq<byte>)
    requires i < |parts|
    ensures out + WireOf(parts[i..]) == out + Counted(parts[i]) + WireOf(parts[i + 1..])
  {
    assert parts[i..][1..] == parts[i + 1..];
  }

  function LowerParts(parts: seq<string>): seq<string> {
    seq(|parts|, i requires 0 <= i < |parts| => Lower(parts[i]))
  }

  lemma LowerPartsCons(p: string, rest: seq<string>)
    ensures LowerParts([p] + rest) == [Lower(p)] + LowerParts(rest)
  {
  }

  lemma LowerSlices(s: string, k: nat)
    requires k < |s|
    ensures Lower(s)[..k] == Lower(s[..k]) && Lower(s)[k + 1..] == Lower(s[k + 1..])
  {
  }

  lemma LowerKeepsDot(s: string, k: nat)
    requires k == FirstDot(s) < |s|
    ensures FirstDot(Lower(s)) == k
  {
    assert Lower(s)[k] == '.';
  }

  lemma LowerCut(s: string, k: nat)
    requires k == FirstDot(s) < |s|
    ensures Split(Lower(s)) == [Lower(s[..k])] + Split(Lower(s[k + 1..]))
  {
    LowerSlices(s, k);
    LowerKeepsDot(s, k);
    SplitAtDot(Lower(s), k, Lower(s[..k]), Lower(s[k + 1..]));
  }

  lemma SplitAtDot(s: string, k: nat, head: string, tail: string)
    requires k == FirstDot(s) < |s| && s[..k] == head && s[k + 1..] == tail
    ensures Split(s) == [head] + Split(tail)
  {
  }

  /** The source lowers each label after splitting. */
  lemma {:induction false} SplitLower(s: string)
    ensures Split(Lower(s)) == LowerParts(Split(s))
    decreases |s|
  {
    var k := FirstDot(s);
    if k < |s| {
      SplitLower(s[k + 1..]);
      LowerCut(s, k);
      LowerPartsCons(s[..k], Split(s[k + 1..]));
    } else {
      SplitUndotted(s);
      SplitUndotted(Lower(s));
    }
  }

  // ---------------------------------------------------------------- the wire form determines the labels

  predicate Octal(s: string) { forall i | 0 <= i < |s| :: s[i] as int < 256 }

  lemma OctetsInjective(s: string, u: string)
    requires Octal(s) && Octal(u) && ToOctets(s) == ToOctets(u)
    ensures s == u
  {
    forall i | 0 <= i < |s| ensures s[i] == u[i] { assert ToOctets(s)[i] == ToOctets(u)[i]; }
  }

  lemma CountedInjective(s: string, u: string)
    requires Octal(s) && Octal(u) && Counted(s) == Counted(u)
    ensures s == u
  {
    assert ToOctets(s) == Counted(s)[1..] && ToOctets(u) == Counted(u)[1..];
    OctetsInjective(s, u);
  }

  /** The first octet says how long the first label is. */
  lemma FirstCounted(s: string, x: seq<byte>, u: string, y: seq<byte>)
    requires Counted(s) + x == Counted(u) + y && |Counted(s) + x| <= 256
    ensures Counted(s) == Counted(u) && x == y
  {
    assert (Counted(s) + x)[0] == |s| && (Counted(u) + y)[0] == |u|;
    var k := |s| + 1;
    assert Counted(s) == (Counted(s) + x)[..k] && Counted(u) == (Counted(u) + y)[..k];
    assert x == (Counted(s) + x)[k..] && y == (Counted(u) + y)[k..];
  }

  /** Shorter than 256 octets, the wire form determines its labels. */
  lemma {:induction false} WireOfInjective(a: seq<string>, b: seq<string>)
    requires WireOf(a) == WireOf(b) && |WireOf(a)| <= 256
    requires (forall i | 0 <= i < |a| :: Octal(a[i])) && (forall i | 0 <= i < |b| :: Octal(b[i]))
    ensures a == b
  {
    if a != [] && b != [] {
      FirstCounted(a[0], WireOf(a[1..]), b[0], WireOf(b[1..]));
      CountedInjective(a[0], b[0]);
      WireOfInjective(a[1..], b[1..]);
      assert a == [a[0]] + a[1..] && b == [b[0]] + b[1..];
    }
  }

  lemma {:induction false} WireOfTexts(n: Name)
    ensures |WireOf(Texts(n))| + 1 == WireLength(n)
  {
    if n == [] {
    } else {
      assert Texts(n)[1..] == Texts(n[1..]);
      WireOfTexts(n[1..]);
    }
  }

  /** The canonical wire form of a name is that of no other labels. */
  lemma CanonicalInjective(labels: seq<string>, n: Name)
    requires IsName(n) && forall i | 0 <= i < |labels| :: Octal(labels[i])
    ensures Canonical(labels) == Canonical(Texts(n)) <==> labels == Texts(n)
  {
    if Canonical(labels) == Canonical(Texts(n)) {
      var a, b := WireOf(labels), WireOf(Texts(n));
      assert a == Canonical(labels)[..|a|] && b == Canonical(Texts(n))[..|b|];
      WireOfTexts(n);
      WireOfInjective(labels, Texts(n));
    }
  }

  lemma TextsInjective(m: Name, n: Name)
    ensures Texts(m) == Texts(n) <==> m == n
  {
    if Texts(m) == Texts(n) {
      forall i | 0 <= i < |m| ensures m[i] == n[i] {
        assert Chars(m[i]) == Texts(m)[i] == Texts(n)[i] == Chars(n[i]);
        assert forall j | 0 <= j < |m[i]| :: Chars(m[i])[j] == Chars(n[i])[j];
      }
    }
  }

  // ---------------------------------------------------------------- labels that print as they are

  /** Octets of the character `l` begins with, if it prints as itself. */
  function Width(l: Label): nat
    requires l != []
  {
    if l[0] >= 0x80 then Utf8Length(l) else if 0x20 <= l[0] < 0x7F && l[0] != 46 && l[0] != 92 then 1 else 0
  }

  /** No octet is printed as an escape: no dot, backslash or control octet, and well-formed UTF-8. */
  predicate Plain(l: Label)
    decreases |l|
  {
    l == [] || (Width(l) > 0 && Plain(l[Width(l)..]))
  }

  function Slashes(s: string): nat {
    if s == "" then 0 else (if s[0] == '\\' then 1 else 0) + Slashes(s[1..])
  }

  lemma {:induction false} SlashesConcat(a: string, b: string)
    ensures Slashes(a + b) == Slashes(a) + Slashes(b)
  {
    if a == "" {
      assert a + b == b;
    } else {
      SlashesConcat(a[1..], b);
      assert (a + b)[1..] == a[1..] + b;
    }
  }

  lemma {:induction false} NoSlash(s: string)
    requires '\\' !in s
    ensures Slashes(s) == 0
  {
    if s == "" {
    } else {
      NoSlash(s[1..]);
    }
  }

  lemma PlainPiece(l: Label)
    requires l != [] && IsLower(l) && Width(l) > 0
    ensures Piece(l) == (Chars(l[..Width(l)]), Width(l))
  {
    if l[0] < 0x80 { assert Chars(l[..1]) == [l[0] as char]; }
  }

  lemma EscapedPiece(l: Label)
    requires l != [] && Width(l) == 0
    ensures Piece(l).1 == 1 && Slashes(Piece(l).0) == Slashes(Chars(l[..1])) + 1
  {
    var b := l[0];
    var p := Piece(l).0;
    assert Chars(l[..1]) == [b as char] && [b as char][1..] == "";
    if b == 46 {
      assert p[1..] == "." && "."[1..] == "";
    } else if b == 92 {
      assert p[1..] == "\\" && "\\"[1..] == "";
    } else {
      assert p == Decimal(b) && '\\' !in p[1..];
      NoSlash(p[1..]);
    }
  }

  lemma CharsCut(l: Label, k: nat)
    requires k <= |l|
    ensures Chars(l) == Chars(l[..k]) + Chars(l[k..])
  {
  }

  /** Each escape shows as a backslash that the label does not hold. */
  lemma {:induction false} EscapeSlashes(l: Label)
    requires IsLower(l)
    ensures Slashes(Escape(l)) >= Slashes(Chars(l))
    ensures if Plain(l) then Escape(l) == Chars(l) else Slashes(Escape(l)) > Slashes(Chars(l))
    decreases |l|
  {
    if l == [] {
    } else {
      var (p, k) := Piece(l);
      var tail := l[k..];
      CharsCut(l, k);
      EscapeSlashes(tail);
      SlashesConcat(p, Escape(tail));
      SlashesConcat(Chars(l[..k]), Chars(tail));
      if Width(l) > 0 { PlainPiece(l); } else { EscapedPiece(l); }
    }
  }

  predicate AllPlain(n: Name) { forall i | 0 <= i < |n| :: Plain(n[i]) }

  lemma {:induction false} ShowSlashes(n: Name)
    requires n != [] && AllLower(n)
    ensures Slashes(Show(n)) >= Slashes(Join(Texts(n)))
    ensures if AllPlain(n) then Show(n) == Join(Texts(n)) else Slashes(Show(n)) > Slashes(Join(Texts(n)))
  {
    EscapeSlashes(n[0]);
    if |n| > 1 {
      var rest := n[1..];
      ShowSlashes(rest);
      assert Texts(n)[1..] == Texts(rest);
      SlashesConcat(Escape(n[0]) + ".", Show(rest));
      SlashesConcat(Escape(n[0]), ".");
      SlashesConcat(Chars(n[0]) + ".", Join(Texts(rest)));
      SlashesConcat(Chars(n[0]), ".");
      assert AllPlain(n) <==> Plain(n[0]) && AllPlain(rest) by {
        if Plain(n[0]) && AllPlain(rest) {
          forall i | 0 <= i < |n| ensures Plain(n[i]) { if i > 0 { assert n[i] == rest[i - 1]; } }
        }
      }
    }
  }

  // ---------------------------------------------------------------- trimming takes no backslash

  lemma {:induction false} TrimStartSlashes(s: string)
    ensures Slashes(TrimStart(s)) == Slashes(s)
    decreases |s|
  {
    var n := SpaceAt(s);
    if n == 0 {
    } else {
      assert s == s[..n] + s[n..] && '\\' !in s[..n];
      NoSlash(s[..n]);
      SlashesConcat(s[..n], s[n..]);
      TrimStartSlashes(s[n..]);
    }
  }

  lemma {:induction false} TrimEndSlashes(s: string)
    ensures Slashes(TrimEnd(s)) == Slashes(s)
    decreases |s|
  {
    var n := SpaceBefore(s);
    if n == 0 {
    } else {
      var k := |s| - n;
      assert s == s[..k] + s[k..] && '\\' !in s[k..];
      NoSlash(s[k..]);
      SlashesConcat(s[..k], s[k..]);
      TrimEndSlashes(s[..k]);
    }
  }

  lemma {:induction false} TrimDotsSlashes(s: string)
    ensures Slashes(TrimDots(s)) == Slashes(s)
  {
    if s != "" && s[|s| - 1] == '.' {
      var t := s[..|s| - 1];
      assert s == t + ".";
      SlashesConcat(t, ".");
      assert "."[1..] == "";
      TrimDotsSlashes(t);
    }
  }

  lemma {:induction false} TrimShorter(s: string)
    ensures |TrimStart(s)| <= |s| && (SpaceAt(s) != 0 ==> |TrimStart(s)| < |s|)
    decreases |s|
  {
    if SpaceAt(s) != 0 { TrimShorter(s[SpaceAt(s)..]); }
  }

  lemma {:induction false} TrimEndShorter(s: string)
    ensures |TrimEnd(s)| <= |s| && (SpaceBefore(s) != 0 ==> |TrimEnd(s)| < |s|)
    decreases |s|
  {
    if SpaceBefore(s) != 0 { TrimEndShorter(s[..|s| - SpaceBefore(s)]); }
  }

  /** Cleaning keeps the backslashes, and keeps the length only of a text it leaves alone. */
  lemma CleanKeeps(t: string)
    ensures var c := TrimDots(Trim(t));
      Slashes(c) == Slashes(t) && |c| <= |t| && (|c| == |t| ==> SpaceAt(t) == 0 && SpaceBefore(t) == 0)
  {
    var s := TrimStart(t);
    TrimStartSlashes(t);
    TrimEndSlashes(s);
    TrimDotsSlashes(TrimEnd(s));
    TrimShorter(t);
    TrimEndShorter(s);
    TrimDotsResult(TrimEnd(s));
  }

  lemma {:induction false} LowerSlashes(s: string)
    ensures Slashes(Lower(s)) == Slashes(s)
  {
    if s == "" {
    } else {
      LowerSlashes(s[1..]);
      assert Lower(s)[1..] == Lower(s[1..]);
    }
  }

  // ---------------------------------------------------------------- which names are read right

  predicate BeginsBlank(l: Label) { SpaceAt(Chars(l)) != 0 }
  predicate EndsBlank(l: Label) { SpaceBefore(Chars(l)) != 0 }

  /** No octet needs an escape, and no white space begins or ends the name. */
  predicate ReadsRight(n: Name) {
    AllPlain(n) && (n != [] ==> !BeginsBlank(n[0]) && !EndsBlank(n[|n| - 1]))
  }

  lemma SpaceAtOfHead(s: string, rest: string)
    requires s != "" && (rest == "" || rest[0] == '.')
    ensures SpaceAt(s + rest) == SpaceAt(s)
  {
    var u := s + rest;
    assert rest == "" ==> u == s;
    assert |s| == 1 && rest != "" ==> u[1] == '.';
    assert |s| == 2 && rest != "" ==> u[2] == '.';
  }

  lemma SpaceBeforeOfEnd(s: string, p: nat)
    requires p < |s| && (p > 0 ==> s[p - 1] == '.')
    ensures SpaceBefore(s) == SpaceBefore(s[p..])
  {
    var u := s[p..];
    assert u[|u| - 1] == s[|s| - 1];
    assert |u| >= 2 ==> u[|u| - 2] == s[|s| - 2];
    assert |u| >= 3 ==> u[|u| - 3] == s[|s| - 3];
  }

  lemma {:induction false} PlainDotFree(l: Label)
    requires Plain(l)
    ensures DotFree(Chars(l))
    decreases |l|
  {
    if l == [] {
    } else {
      var k := Width(l);
      PlainDotFree(l[k..]);
      forall i | 0 <= i < |l| ensures Chars(l)[i] != '.' {
        if i >= k { assert Chars(l)[i] == Chars(l[k..])[i - k]; }
      }
    }
  }

  lemma TextsDotFree(n: Name)
    requires AllPlain(n)
    ensures forall i | 0 <= i < |n| :: DotFree(Texts(n)[i])
  {
    forall i | 0 <= i < |n| ensures DotFree(Texts(n)[i]) { PlainDotFree(n[i]); }
  }

  lemma JoinedStart(labels: seq<string>)
    requires labels != [] && labels[0] != ""
    ensures Join(labels) != "" && SpaceAt(Join(labels)) == SpaceAt(labels[0])
  {
    if |labels| > 1 {
      var rest := "." + Join(labels[1..]);
      SpaceAtOfHead(labels[0], rest);
      assert Join(labels) == labels[0] + rest;
    }
  }

  lemma JoinedEnd(labels: seq<string>)
    requires labels != [] && labels[|labels| - 1] != ""
    ensures var t, last := Join(labels), labels[|labels| - 1];
      t != "" && SpaceBefore(t) == SpaceBefore(last) && t[|t| - 1] == last[|last| - 1]
  {
    var last := labels[|labels| - 1];
    var p := JoinTail(labels, |labels| - 1);
    assert labels[|labels| - 1..] == [last];
    assert Join([last]) == last;
    SpaceBeforeOfEnd(Join(labels), p);
  }

  /** White space at the ends of the joined labels is that of the first and of the last label. */
  lemma JoinedEnds(n: Name)
    requires n != [] && ValidLabels(n)
    ensures var t, last := Join(Texts(n)), Texts(n)[|n| - 1];
      && SpaceAt(t) == SpaceAt(Texts(n)[0]) && SpaceBefore(t) == SpaceBefore(last)
      && t != "" && last != "" && t[|t| - 1] == last[|last| - 1]
  {
    JoinedStart(Texts(n));
    JoinedEnd(Texts(n));
  }

  predicate NoUpper(s: string) { forall i | 0 <= i < |s| :: !('A' <= s[i] <= 'Z') && s[i] as int < 256 }

  lemma {:induction false} EscapeNoUpper(l: Label)
    ensures NoUpper(Escape(l))
    decreases |l|
  {
    if l == [] {
    } else {
      assert NoUpper(Piece(l).0);
      EscapeNoUpper(l[Piece(l).1..]);
    }
  }

  lemma {:induction false} ShowNoUpper(n: Name)
    ensures NoUpper(Show(n)) && Lower(Show(n)) == Show(n)
  {
    if n == [] {
    } else {
      EscapeNoUpper(n[0]);
      if |n| > 1 { ShowNoUpper(n[1..]); }
    }
  }

  /** The text of a name that reads right is its labels, joined; nothing is trimmed from it. */
  lemma ReadsRightText(n: Name)
    requires IsName(n) && ReadsRight(n) && n != []
    ensures var t := Show(n);
      && t == Join(Texts(n)) && t != "" && t[|t| - 1] != '.' && Lower(t) == t && SpaceAt(t) == 0 == SpaceBefore(t)
      && forall i | 0 <= i < |n| :: DotFree(Texts(n)[i])
  {
    ShowSlashes(n);
    ShowNoUpper(n);
    JoinedEnds(n);
    TextsDotFree(n);
  }

  /** A text with nothing to trim and no capitals is split as it is. */
  lemma UntrimmedRead(t: string)
    requires t != "" && t[|t| - 1] != '.' && Lower(t) == t && SpaceAt(t) == 0 == SpaceBefore(t)
    ensures LabelsRead(t) == Split(t)
  {
    Untrimmed(t);
    CleanedRead(t, t);
  }

  lemma Untrimmed(t: string)
    requires t != "" && t[|t| - 1] != '.' && SpaceAt(t) == 0 == SpaceBefore(t)
    ensures TrimDots(Trim(t)) == t
  {
    assert TrimStart(t) == t && TrimEnd(t) == t;
  }

  lemma CleanedRead(t: string, clean: string)
    requires clean == TrimDots(Trim(t)) && clean != ""
    ensures LabelsRead(t) == Split(Lower(clean))
  {
  }

  lemma RightIsRead(n: Name)
    requires IsName(n) && ReadsRight(n)
    ensures LabelsRead(Show(n)) == Texts(n)
  {
    if n != [] {
      ReadsRightText(n);
      UntrimmedRead(Show(n));
      SplitJoin(Texts(n));
    }
  }

  lemma ReadIsRight(n: Name)
    requires IsName(n) && LabelsRead(Show(n)) == Texts(n)
    ensures ReadsRight(n)
  {
    if n != [] {
      var t := Show(n);
      var c := TrimDots(Trim(t));
      CleanKeeps(t);
      LowerSlashes(c);
      JoinSplit(Lower(c));
      ShowSlashes(n);
      assert AllPlain(n) && t == Lower(c);
      JoinedEnds(n);
    }
  }

  lemma {:induction false} TextsEncode(n: Name, texts: seq<string>)
    requires ValidLabels(n) && |texts| == |n| && forall i | 0 <= i < |n| :: texts[i] == Chars(n[i])
    ensures WireOf(texts) == EncodeLabels(n)
    decreases |n|
  {
    if n == [] {
    } else {
      assert ToOctets(texts[0]) == n[0];
      TextsEncode(n[1..], texts[1..]);
    }
  }

  /** The canonical wire form of a name is the name as it stands on the wire, uncompressed and in lower case
    * (section 6.2 of RFC 4034), root octet included. */
  lemma CanonicalIsWireName(n: Name)
    requires IsName(n)
    ensures Canonical(Texts(n)) == EncodeLabels(n) + [0]
  {
    TextsEncode(n, Texts(n));
  }

  /** The code reads the text of a name as that name if and only if no octet needs an escape and no white
    * space begins or ends the name. */
  lemma ReadExactlyWhenRight(n: Name)
    requires IsName(n)
    ensures Canonical(LabelsRead(Show(n))) == EncodeLabels(n) + [0] <==> ReadsRight(n)
  {
    CanonicalIsWireName(n);
    OctalRead(Show(n));
    ShowNoUpper(n);
    CanonicalInjective(LabelsRead(Show(n)), n);
    if ReadsRight(n) { RightIsRead(n); } else if LabelsRead(Show(n)) == Texts(n) { ReadIsRight(n); }
  }

  lemma OctalRead(t: string)
    ensures Octal(t) ==> forall i | 0 <= i < |LabelsRead(t)| :: Octal(LabelsRead(t)[i])
  {
    if Octal(t) {
      OctalTrim(t);
      OctalSplit(Lower(TrimDots(Trim(t))));
    }
  }

  lemma OctalTrim(t: string)
    requires Octal(t)
    ensures Octal(TrimDots(Trim(t)))
  {
    OctalTrimStart(t);
    OctalTrimEnd(TrimStart(t));
    TrimDotsResult(Trim(t));
  }

  lemma {:induction false} OctalTrimStart(t: string)
    requires Octal(t)
    ensures Octal(TrimStart(t))
    decreases |t|
  {
    if SpaceAt(t) != 0 { OctalTrimStart(t[SpaceAt(t)..]); }
  }

  lemma {:induction false} OctalTrimEnd(t: string)
    requires Octal(t)
    ensures Octal(TrimEnd(t))
    decreases |t|
  {
    if SpaceBefore(t) != 0 { OctalTrimEnd(t[..|t| - SpaceBefore(t)]); }
  }

  lemma {:induction false} OctalSplit(t: string)
    requires Octal(t)
    ensures forall i | 0 <= i < |Split(t)| :: Octal(Split(t)[i])
    decreases |t|
  {
    if FirstDot(t) < |t| { OctalSplit(t[FirstDot(t) + 1..]); }
  }

  // ---------------------------------------------------------------- the text determines the name

  /** Whether the text ends inside an escape, begun inside one if `escaped`. */
  function Open(s: string, escaped: bool): bool {
    if s == "" then escaped else Open(s[1..], !escaped && s[0] == '\\')
  }

  lemma {:induction false} OpenConcat(a: string, b: string, escaped: bool)
    ensures Open(a + b, escaped) == Open(b, Open(a, escaped))
  {
    if a == "" {
      assert a + b == b;
    } else {
      OpenConcat(a[1..], b, !escaped && a[0] == '\\');
      assert (a + b)[1..] == a[1..] + b;
    }
  }

  lemma {:induction false} OpenPlain(s: string)
    requires '\\' !in s
    ensures !Open(s, false)
  {
    if s == "" {
    } else {
      OpenPlain(s[1..]);
    }
  }

  /** A dot at the end of a text is escaped: what comes before it ends inside an escape. */
  predicate DotIsEscaped(s: string) { s != "" && s[|s| - 1] == '.' ==> Open(s[..|s| - 1], false) }

  lemma PieceCloses(l: Label)
    requires l != []
    ensures Piece(l).0 != "" && !Open(Piece(l).0, false) && DotIsEscaped(Piece(l).0)
  {
    var b, p := l[0], Piece(l).0;
    if !IsHostByte(b) && b == 46 {
      assert p[1..] == "." && p[..1] == "\\" && p[..1][1..] == "";
      assert Open(p, false) == Open(".", true) == Open("."[1..], false);
    } else if !IsHostByte(b) && b == 92 {
      assert p[1..] == "\\" && Open(p, false) == Open("\\", true) == Open("\\"[1..], false);
    } else if !IsHostByte(b) && !(0x20 <= b <= 0x7E) && (b < 0x80 || Utf8Length(l) == 0) {
      assert p == Decimal(b) && Open(p, false) == Open(p[1..], true) == Open(p[1..][1..], false);
      assert '\\' !in p[1..][1..];
      OpenPlain(p[1..][1..]);
    } else {
      assert '\\' !in p;
      OpenPlain(p);
    }
  }

  lemma DotAfter(a: string, b: string)
    requires !Open(a, false) && b != "" && DotIsEscaped(b)
    ensures DotIsEscaped(a + b)
  {
    var s := a + b;
    assert s[..|s| - 1] == a + b[..|b| - 1];
    OpenConcat(a, b[..|b| - 1], false);
  }

  lemma {:induction false} EscapeCloses(l: Label)
    ensures !Open(Escape(l), false) && DotIsEscaped(Escape(l))
    decreases |l|
  {
    if l == [] {
    } else {
      var (p, k) := Piece(l);
      var rest := Escape(l[k..]);
      PieceCloses(l);
      EscapeCloses(l[k..]);
      OpenConcat(p, rest, false);
      if rest == "" { assert p + rest == p; } else { DotAfter(p, rest); }
    }
  }

  lemma {:induction false} ShowCloses(n: Name)
    requires ValidLabels(n)
    ensures !Open(Show(n), false) && DotIsEscaped(Show(n)) && (n != [] ==> Show(n) != "")
  {
    if n == [] {
    } else {
      EscapeCloses(n[0]);
      EscapeNonEmpty(n[0]);
      if |n| > 1 {
        var head, rest := Escape(n[0]) + ".", Show(n[1..]);
        ShowCloses(n[1..]);
        OpenConcat(Escape(n[0]), ".", false);
        assert "."[1..] == "";
        OpenConcat(head, rest, false);
        DotAfter(head, rest);
      }
    }
  }

  /** Dots at the end of a name's text belong to escapes, so that at most one of them is trimmed. */
  lemma TrimmedShow(n: Name)
    requires ValidLabels(n)
    ensures var t := Show(n); TrimDots(t) == if Open(TrimDots(t), false) then t[..|t| - 1] else t
    ensures Open(TrimDots(Show(n)), false) ==> Show(n) == TrimDots(Show(n)) + "."
  {
    var t := Show(n);
    ShowCloses(n);
    if t != "" && t[|t| - 1] == '.' {
      var u := t[..|t| - 1];
      OpenNotDot(u);
      assert t == u + ".";
    }
  }

  lemma OpenNotDot(u: string)
    requires Open(u, false)
    ensures u != "" && u[|u| - 1] == '\\'
  {
    var v := u[..|u| - 1];
    assert u == v + [u[|u| - 1]];
    OpenConcat(v, [u[|u| - 1]], false);
    assert [u[|u| - 1]][1..] == "";
  }

  /** The text of a name, dots at its end aside, determines the name. */
  lemma TextDeterminesName(m: Name, n: Name)
    requires IsName(m) && IsName(n) && TrimDots(Show(m)) == TrimDots(Show(n))
    ensures m == n
  {
    TrimmedShow(m);
    TrimmedShow(n);
    assert Show(m) == Show(n);
    SplitShow(m);
    SplitShow(n);
    LowerName(m);
    LowerName(n);
  }

  lemma LowerName(n: Name)
    requires AllLower(n)
    ensures LowerAll(n) == n
  {
    forall i | 0 <= i < |n| ensures LowerAll(n)[i] == n[i] {
      assert forall j | 0 <= j < |n[i]| :: LowerBytes(n[i])[j] == n[i][j];
    }
  }

  /** A name without escapes is split into its labels. */
  lemma PlainSplit(n: Name)
    requires IsName(n) && AllPlain(n) && n != []
    ensures Split(Lower(TrimDots(Show(n)))) == Texts(n)
  {
    ShowSlashes(n);
    ShowNoUpper(n);
    JoinedEnds(n);
    TextsDotFree(n);
    SplitJoin(Texts(n));
  }
}
