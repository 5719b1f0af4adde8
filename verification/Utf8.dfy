/** The sequences of two octets and more that the printing loop copies (src/dns/parser.rs) are the characters of
  * UTF-8 (section 3 of RFC 3629). */
module Utf8 {
  import opened Bytes
  import opened WireNames
  import opened NameText
  import opened Text

  /** Unicode scalar values beyond ASCII. */
  predicate IsScalar(cp: nat) { 0x80 <= cp < 0x11_0000 && !(0xD800 <= cp <= 0xDFFF) }

  /** The encoding of a scalar value. */
  function Encoding(cp: nat): seq<byte>
    requires IsScalar(cp)
  {
    if cp < 0x800 then [0xC0 + cp / 0x40, 0x80 + cp % 0x40]
    else if cp < 0x1_0000 then [0xE0 + cp / 0x1000, 0x80 + cp / 0x40 % 0x40, 0x80 + cp % 0x40]
    else [0xF0 + cp / 0x4_0000, 0x80 + cp / 0x1000 % 0x40, 0x80 + cp / 0x40 % 0x40, 0x80 + cp % 0x40]
  }

  /** `l` begins with the encoding of `cp`. */
  predicate Begins(l: Label, cp: nat)
    requires IsScalar(cp)
  {
    |Encoding(cp)| <= |l| && l[..|Encoding(cp)|] == Encoding(cp)
  }

  lemma Sextet(q: nat, r: nat)
    requires r < 0x40
    ensures (q * 0x40 + r) / 0x40 == q && (q * 0x40 + r) % 0x40 == r
  {
  }

  lemma TwoOctets(l: Label) returns (cp: nat)
    requires Utf8Length(l) == 2
    ensures IsScalar(cp) && Begins(l, cp) && |Encoding(cp)| == 2
  {
    var a, b := l[0] as int - 0xC0, l[1] as int - 0x80;
    cp := a * 0x40 + b;
    Sextet(a, b);
    assert l[..2] == Encoding(cp);
  }

  lemma ThreeOctets(l: Label) returns (cp: nat)
    requires Utf8Length(l) == 3
    ensures IsScalar(cp) && Begins(l, cp) && |Encoding(cp)| == 3
  {
    var a, b, c := l[0] as int - 0xE0, l[1] as int - 0x80, l[2] as int - 0x80;
    var ab: nat := a * 0x40 + b;
    cp := ab * 0x40 + c;
    Sextet(ab, c);
    Sextet(a, b);
    ScalarOfThree(a, b, c);
    assert cp / 0x1000 == cp / 0x40 / 0x40;
    assert l[..3] == [0xE0 + cp / 0x1000, 0x80 + cp / 0x40 % 0x40, 0x80 + cp % 0x40];
  }

  lemma ScalarOfThree(a: nat, b: nat, c: nat)
    requires a < 16 && b < 0x40 && c < 0x40 && (a == 0 ==> b >= 0x20) && (a == 13 ==> b < 0x20)
    ensures var cp := (a * 0x40 + b) * 0x40 + c; IsScalar(cp) && 0x800 <= cp < 0x1_0000
  {
  }

  lemma FourOctets(l: Label) returns (cp: nat)
    requires Utf8Length(l) == 4
    ensures IsScalar(cp) && Begins(l, cp) && |Encoding(cp)| == 4
  {
    var a, b, c, d := l[0] as int - 0xF0, l[1] as int - 0x80, l[2] as int - 0x80, l[3] as int - 0x80;
    var ab: nat := a * 0x40 + b;
    var abc: nat := ab * 0x40 + c;
    cp := abc * 0x40 + d;
    Sextet(abc, d);
    Sextet(ab, c);
    Sextet(a, b);
    ScalarOfFour(a, b, c, d);
    assert cp / 0x1000 == cp / 0x40 / 0x40 && cp / 0x4_0000 == cp / 0x1000 / 0x40;
    assert l[..4] == [0xF0 + cp / 0x4_0000, 0x80 + cp / 0x1000 % 0x40, 0x80 + cp / 0x40 % 0x40, 0x80 + cp % 0x40];
  }

  lemma ScalarOfFour(a: nat, b: nat, c: nat, d: nat)
    requires a < 5 && b < 0x40 && c < 0x40 && d < 0x40 && (a == 0 ==> b >= 0x10) && (a == 4 ==> b < 0x10)
    ensures 0x1_0000 <= ((a * 0x40 + b) * 0x40 + c) * 0x40 + d < 0x11_0000
  {
  }

  /** The octets of an encoding are in the ranges of section 4 of RFC 3629. */
  lemma TwoRanges(cp: nat)
    requires IsScalar(cp) && cp < 0x800
    ensures var e := Encoding(cp); |e| == 2 && 0xC2 <= e[0] <= 0xDF && 0x80 <= e[1] <= 0xBF
  {
  }

  lemma ThreeRanges(cp: nat)
    requires IsScalar(cp) && 0x800 <= cp < 0x1_0000
    ensures var e := Encoding(cp);
      && |e| == 3 && 0xE0 <= e[0] <= 0xEF && 0x80 <= e[1] <= 0xBF && 0x80 <= e[2] <= 0xBF
      && (e[0] == 0xE0 ==> e[1] >= 0xA0) && (e[0] == 0xED ==> e[1] <= 0x9F)
  {
    assert cp / 0x1000 == cp / 0x40 / 0x40;
  }

  lemma FourRanges(cp: nat)
    requires IsScalar(cp) && 0x1_0000 <= cp
    ensures var e := Encoding(cp);
      && |e| == 4 && 0xF0 <= e[0] <= 0xF4 && 0x80 <= e[1] <= 0xBF && 0x80 <= e[2] <= 0xBF && 0x80 <= e[3] <= 0xBF
      && (e[0] == 0xF0 ==> e[1] >= 0x90) && (e[0] == 0xF4 ==> e[1] <= 0x8F)
  {
    assert cp / 0x4_0000 == cp / 0x1000 / 0x40;
  }

  lemma CharacterIsMeasured(l: Label, cp: nat)
    requires IsScalar(cp) && Begins(l, cp)
    ensures Utf8Length(l) == |Encoding(cp)|
  {
    if cp < 0x800 { TwoRanges(cp); } else if cp < 0x1_0000 { ThreeRanges(cp); } else { FourRanges(cp); }
    MeasuredByRanges(l, Encoding(cp));
  }

  lemma MeasuredByRanges(l: Label, e: seq<byte>)
    requires 2 <= |e| <= 4 && |e| <= |l| && l[..|e|] == e && Utf8Length(e) == |e|
    ensures Utf8Length(l) == |e|
  {
    assert forall i | 0 <= i < |e| :: l[i] == e[i];
  }

  /** A run of octets is copied exactly if it is the encoding of a scalar value beyond ASCII. */
  lemma CopiesExactlyCharacters(l: Label, n: nat)
    requires n > 0
    ensures Utf8Length(l) == n <==> exists cp :: IsScalar(cp) && Begins(l, cp) && |Encoding(cp)| == n
  {
    if Utf8Length(l) == n {
      if n == 2 {
        var _ := TwoOctets(l);
      } else if n == 3 {
        var _ := ThreeOctets(l);
      } else {
        var _ := FourOctets(l);
      }
    }
    if cp :| IsScalar(cp) && Begins(l, cp) && |Encoding(cp)| == n { CharacterIsMeasured(l, cp); }
  }

  // ---------------------------------------------------------------- white space

  /** The code points with the property White_Space. */
  predicate WhiteSpace(cp: nat) {
    || 0x09 <= cp <= 0x0D || cp == 0x20 || cp == 0x85 || cp == 0xA0 || cp == 0x1680 || 0x2000 <= cp <= 0x200A
    || cp == 0x2028 || cp == 0x2029 || cp == 0x202F || cp == 0x205F || cp == 0x3000
  }

  /** Its octets in UTF-8. */
  function SpaceOctets(cp: nat): seq<byte>
    requires WhiteSpace(cp)
  {
    if cp < 0x80 then [cp] else Encoding(cp)
  }

  /** The characters of a text from `i` on stand for the octets. */
  predicate StandsAt(s: string, i: int, octets: seq<byte>) {
    0 <= i <= |s| - |octets| && forall k | 0 <= k < |octets| :: s[i + k] as int == octets[k]
  }

  lemma SpaceOfThree(c: char, d: char, e: char) returns (cp: nat)
    requires IsSpace3(c, d, e)
    ensures WhiteSpace(cp) && cp >= 0x800 && SpaceOctets(cp) == [c as int, d as int, e as int]
  {
    cp := (c as int - 0xE0) * 0x1000 + (d as int - 0x80) * 0x40 + (e as int - 0x80);
  }

  lemma OctetsOfSpace(cp: nat)
    requires WhiteSpace(cp)
    ensures var o := SpaceOctets(cp);
      && (cp < 0x80 ==> |o| == 1 && IsSpace1(o[0] as char))
      && (0x80 <= cp < 0x800 ==> |o| == 2 && IsSpace2(o[0] as char, o[1] as char))
      && (0x800 <= cp ==> |o| == 3 && IsSpace3(o[0] as char, o[1] as char, o[2] as char))
  {
    if 0x2000 <= cp <= 0x203F { assert cp / 0x1000 == 2 && cp / 0x40 % 0x40 == 0 && cp % 0x40 == cp - 0x2000; }
  }

  /** A text begins with white space of `n` octets exactly if it begins with the encoding of a code point that is
    * white space, and so long. */
  lemma BeginsWithSpaceExactly(s: string, n: nat)
    requires n > 0
    ensures SpaceAt(s) == n <==> exists cp :: WhiteSpace(cp) && |SpaceOctets(cp)| == n && StandsAt(s, 0, SpaceOctets(cp))
  {
    if SpaceAt(s) == n {
      var cp: nat;
      if n < 3 { cp := s[n - 1] as int; } else { cp := SpaceOfThree(s[0], s[1], s[2]); }
      assert WhiteSpace(cp) && |SpaceOctets(cp)| == n && StandsAt(s, 0, SpaceOctets(cp));
    }
    if cp :| WhiteSpace(cp) && |SpaceOctets(cp)| == n && StandsAt(s, 0, SpaceOctets(cp)) { OctetsOfSpace(cp); }
  }

  lemma EndSpace(s: string, n: nat)
    requires 0 < n <= |s|
    ensures SpaceBefore(s) == n <==> SpaceAt(s[|s| - n..]) == n
  {
    var u := s[|s| - n..];
    assert forall k | 0 <= k < n :: u[k] == s[|s| - n + k];
  }

  lemma EndsWithSpaceExactly(s: string, n: nat)
    requires n > 0
    ensures SpaceBefore(s) == n <==> exists cp :: WhiteSpace(cp) && |SpaceOctets(cp)| == n && StandsAt(s, |s| - n, SpaceOctets(cp))
  {
    if n <= |s| {
      var i := |s| - n;
      var u := s[i..];
      EndSpace(s, n);
      BeginsWithSpaceExactly(u, n);
      forall cp | WhiteSpace(cp) && |SpaceOctets(cp)| == n
        ensures StandsAt(s, i, SpaceOctets(cp)) <==> StandsAt(u, 0, SpaceOctets(cp))
      {
        SameStand(s, i, SpaceOctets(cp));
      }
    }
  }

  lemma SameStand(s: string, i: nat, octets: seq<byte>)
    requires i <= |s|
    ensures StandsAt(s, i, octets) <==> StandsAt(s[i..], 0, octets)
  {
    if StandsAt(s[i..], 0, octets) {
      forall k | 0 <= k < |octets| ensures s[i + k] as int == octets[k] { assert s[i..][0 + k] as int == octets[k]; }
    }
  }

  // ---------------------------------------------------------------- letters

  const CAPITALS := "ABCDEFGHIJKLMNOPQRSTUVWXYZ"
  const SMALL := "abcdefghijklmnopqrstuvwxyz"

  /** Lowering takes each capital letter of ASCII to its small letter. */
  lemma LowerLetters(k: nat)
    requires k < 26
    ensures |CAPITALS| == |SMALL| == 26 && LowerChar(CAPITALS[k]) == SMALL[k]
    ensures LowerByte(CAPITALS[k] as int) == SMALL[k] as int
  {
  }

  /** And no other character. */
  lemma OthersStay(c: char)
    ensures LowerChar(c) != c ==> c in CAPITALS
  {
    if LowerChar(c) != c {
      var k := c as int - 'A' as int;
      LowerLetters(k);
      assert CAPITALS[k] == c;
    }
  }
}
