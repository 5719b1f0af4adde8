/** When the source and section 6.1 of RFC 4034 put two names in the same order, by the octets of their
  * labels: the first octets that differ decide, and whether they print as themselves or as an escape, which
  * begins with a backslash. */
module PairOrder {
  import opened Bytes
  import opened Text
  import opened WireNames
  import opened NameText
  import opened CanonicalName
  import opened Nsec
  import opened SignedZone
  import QueryWire

  predicate Undotted(l: Label) { forall i | 0 <= i < |l| :: l[i] != 46 }

  /** Whether labels without dots come in the same order in both. At the first characters that differ:
    * as themselves they agree; an octet that prints as itself agrees with one that is escaped if the
    * backslash, 92, lies on the same side of it; two escaped ones agree unless one is the backslash and the
    * other 127 or more. */
  predicate LabelsAgree(l: Label, r: Label)
    decreases |l|
  {
    if l == [] || r == [] then true
    else if Width(l) > 0 && Width(r) > 0 then
      l[..Width(l)] == r[..Width(r)] ==> LabelsAgree(l[Width(l)..], r[Width(r)..])
    else if Width(l) > 0 then BackslashAgrees(l, r)
    else if Width(r) > 0 then BackslashAgrees(r, l)
    else if l[0] == r[0] then LabelsAgree(l[1..], r[1..])
    else (l[0] == 92 ==> r[0] < 92) && (r[0] == 92 ==> l[0] < 92)
  }

  /** `raw` begins with a character that prints as itself, `escaped` with an octet that does not. */
  predicate BackslashAgrees(raw: Label, escaped: Label)
    requires raw != [] && escaped != []
  {
    if raw[0] == escaped[0] then WireLabelLess(escaped, raw) else raw[0] < 92 <==> raw[0] < escaped[0]
  }

  // ---------------------------------------------------------------- labels

  lemma LexPrefix<T(!new)>(less: (T, T) -> bool, p: seq<T>, a: seq<T>, b: seq<T>)
    ensures LexLess(less, p + a, p + b) <==> LexLess(less, a, b)
    decreases |p|
  {
    if p == [] {
      assert p + a == a && p + b == b;
    } else {
      assert (p + a)[1..] == p[1..] + a && (p + b)[1..] == p[1..] + b;
      LexPrefix(less, p[1..], a, b);
    }
  }

  /** Where two sequences of one length differ first. */
  lemma FirstDifference<T>(a: seq<T>, b: seq<T>) returns (d: nat)
    requires |a| == |b| && a != b
    ensures d < |a| && a[..d] == b[..d] && a[d] != b[d]
  {
    d := 0;
    while d < |a| && a[d] == b[d]
      invariant d <= |a| && a[..d] == b[..d]
    {
      d := d + 1;
    }
  }

  lemma LexFirst<T(!new)>(less: (T, T) -> bool, a: seq<T>, b: seq<T>)
    requires a != [] && b != [] && a[0] != b[0]
    ensures LexLess(less, a, b) <==> less(a[0], b[0])
  {
  }

  lemma LexSecond<T(!new)>(less: (T, T) -> bool, a: seq<T>, b: seq<T>)
    requires |a| >= 2 && |b| >= 2 && a[0] == b[0] && a[1] != b[1]
    ensures LexLess(less, a, b) <==> less(a[1], b[1])
  {
  }

  lemma EscapeHead(l: Label)
    requires l != []
    ensures var (p, k) := Piece(l); k <= |l| && Escape(l) == p + Escape(l[k..])
  {
  }

  /** The same octets in front leave the question to the rest. */
  lemma SameFront(l: Label, r: Label, k: nat, p: string)
    requires k <= |l| && k <= |r| && l[..k] == r[..k]
    requires Escape(l) == p + Escape(l[k..]) && Escape(r) == p + Escape(r[k..])
    ensures LabelLess(Escape(l), Escape(r)) <==> LabelLess(Escape(l[k..]), Escape(r[k..]))
    ensures WireLabelLess(l, r) <==> WireLabelLess(l[k..], r[k..])
  {
    LexPrefix(CharLess, p, Escape(l[k..]), Escape(r[k..]));
    LexSuffix(OctetLess, l, r, k);
  }

  lemma LexSuffix<T(!new)>(less: (T, T) -> bool, a: seq<T>, b: seq<T>, k: nat)
    requires k <= |a| && k <= |b| && a[..k] == b[..k]
    ensures LexLess(less, a, b) <==> LexLess(less, a[k..], b[k..])
  {
    var p, x, y := a[..k], a[k..], b[k..];
    assert a == p + x && b == p + y;
    LexPrefix(less, p, x, y);
  }

  /** Different characters that print as themselves are of different octets at the same place. */
  lemma RawDiffer(l: Label, r: Label)
    requires IsLower(l) && IsLower(r) && l != [] && r != [] && Width(l) > 0 && Width(r) > 0 &&
             l[..Width(l)] != r[..Width(r)]
    ensures LabelLess(Escape(l), Escape(r)) <==> WireLabelLess(l, r)
  {
    PlainPiece(l);
    PlainPiece(r);
    EscapeHead(l);
    EscapeHead(r);
    var w, v := Width(l), Width(r);
    if l[0] != r[0] {
      assert Escape(l)[0] == l[0] as char && Escape(r)[0] == r[0] as char;
      LexFirst(CharLess, Escape(l), Escape(r));
      LexFirst(OctetLess, l, r);
    } else {
      assert w == v;
      var d := FirstDifference(l[..w], r[..w]);
      RunsDiffer(l, r, w, d, Escape(l[w..]), Escape(r[w..]));
    }
  }

  lemma RunsDiffer(l: Label, r: Label, w: nat, d: nat, x: string, y: string)
    requires d < w <= |l| && w <= |r| && l[..w][..d] == r[..w][..d] && l[d] != r[d]
    ensures LabelLess(Chars(l[..w]) + x, Chars(r[..w]) + y) <==> WireLabelLess(l, r)
  {
    var a, b := Chars(l[..w]) + x, Chars(r[..w]) + y;
    assert l[..d] == l[..w][..d] && r[..d] == r[..w][..d];
    forall i | 0 <= i < d ensures a[i] == b[i] { assert l[i] == l[..d][i] && r[i] == r[..d][i]; }
    assert a[..d] == b[..d];
    LexAtDifference(CharLess, a, b, d);
    LexAtDifference(OctetLess, l, r, d);
  }

  /** An escape begins with a backslash. */
  lemma EscapedHead(l: Label)
    requires l != [] && Width(l) == 0 && l[0] != 46
    ensures Piece(l).1 == 1 && Escape(l) == Piece(l).0 + Escape(l[1..])
    ensures Piece(l).0 == if l[0] == 92 then "\\\\" else Decimal(l[0])
  {
  }

  lemma RawAgainstEscaped(raw: Label, escaped: Label)
    requires IsLower(raw) && raw != [] && escaped != [] && Width(raw) > 0 && Width(escaped) == 0 && escaped[0] != 46
    ensures (LabelLess(Escape(raw), Escape(escaped)) <==> WireLabelLess(raw, escaped)) <==> BackslashAgrees(raw, escaped)
    ensures (LabelLess(Escape(escaped), Escape(raw)) <==> WireLabelLess(escaped, raw)) <==> BackslashAgrees(raw, escaped)
  {
    PlainPiece(raw);
    EscapeHead(raw);
    EscapedHead(escaped);
    var a, b := Escape(raw), Escape(escaped);
    assert a[0] == raw[0] as char && b[0] == '\\' && a[0] != b[0];
    LexFirst(CharLess, a, b);
    LexFirst(CharLess, b, a);
    if raw[0] != escaped[0] {
      LexFirst(OctetLess, raw, escaped);
      LexFirst(OctetLess, escaped, raw);
    } else {
      assert raw != escaped;
      LexConnected(OctetLess, raw, escaped);
    }
  }

  lemma DecimalsDiffer(b: byte, c: byte, x: string, y: string, k: nat)
    requires 1 <= k <= 3 && Decimal(b)[..k] == Decimal(c)[..k] && Decimal(b)[k] != Decimal(c)[k]
    ensures LabelLess(Decimal(b) + x, Decimal(c) + y) <==> Decimal(b)[k] < Decimal(c)[k]
  {
    var s, t := Decimal(b) + x, Decimal(c) + y;
    assert s[..k] == Decimal(b)[..k] && t[..k] == Decimal(c)[..k];
    LexAtDifference(CharLess, s, t, k);
  }

  lemma Digits(b: byte)
    ensures b as int == b / 100 * 100 + b / 10 % 10 * 10 + b % 10
  {
  }

  lemma DecimalOrder(b: byte, c: byte, x: string, y: string)
    requires b != c
    ensures LabelLess(Decimal(b) + x, Decimal(c) + y) <==> b < c
  {
    Digits(b);
    Digits(c);
    if b / 100 != c / 100 {
      DecimalsDiffer(b, c, x, y, 1);
    } else if b / 10 % 10 != c / 10 % 10 {
      DecimalsDiffer(b, c, x, y, 2);
    } else {
      DecimalsDiffer(b, c, x, y, 3);
    }
  }

  lemma EscapesDiffer(l: Label, r: Label)
    requires l != [] && r != [] && Width(l) == 0 == Width(r) && l[0] != r[0] && l[0] != 46 && r[0] != 46
    ensures (LabelLess(Escape(l), Escape(r)) <==> WireLabelLess(l, r)) <==>
            ((l[0] == 92 ==> r[0] < 92) && (r[0] == 92 ==> l[0] < 92))
  {
    EscapedHead(l);
    EscapedHead(r);
    LexFirst(OctetLess, l, r);
    var x, y := Escape(l[1..]), Escape(r[1..]);
    if l[0] != 92 && r[0] != 92 {
      DecimalOrder(l[0], r[0], x, y);
    } else {
      LexSecond(CharLess, Escape(l), Escape(r));
    }
  }

  /** The printed labels compare as the labels do, exactly when these agree. */
  lemma {:induction false} EscapeOrder(l: Label, r: Label)
    requires IsLower(l) && IsLower(r) && Undotted(l) && Undotted(r) && l != r
    ensures (LabelLess(Escape(l), Escape(r)) <==> WireLabelLess(l, r)) <==> LabelsAgree(l, r)
    decreases |l|
  {
    if l == [] {
      EscapeNonEmpty(r);
    } else if r == [] {
      EscapeNonEmpty(l);
    } else if Width(l) > 0 && Width(r) > 0 {
      if l[..Width(l)] == r[..Width(r)] {
        PlainPiece(l);
        PlainPiece(r);
        RestOrder(l, r, Width(l), Chars(l[..Width(l)]));
      } else {
        RawDiffer(l, r);
      }
    } else if Width(l) > 0 {
      RawAgainstEscaped(l, r);
    } else if Width(r) > 0 {
      RawAgainstEscaped(r, l);
    } else if l[0] == r[0] {
      EscapedHead(l);
      EscapedHead(r);
      RestOrder(l, r, 1, Piece(l).0);
    } else {
      EscapesDiffer(l, r);
    }
  }

  lemma {:induction false} RestOrder(l: Label, r: Label, k: nat, p: string)
    requires IsLower(l) && IsLower(r) && Undotted(l) && Undotted(r) && l != r && 0 < k <= |l| && k <= |r| &&
             l[..k] == r[..k]
    requires Escape(l) == p + Escape(l[k..]) && Escape(r) == p + Escape(r[k..])
    ensures (LabelLess(Escape(l), Escape(r)) <==> WireLabelLess(l, r)) <==> LabelsAgree(l[k..], r[k..])
    decreases |l|, 0
  {
    SameFront(l, r, k, p);
    assert l == l[..k] + l[k..] && r == r[..k] + r[k..];
    EscapeOrder(l[k..], r[k..]);
  }

  // ---------------------------------------------------------------- names

  lemma {:induction false} UndottedEscape(l: Label)
    requires Undotted(l)
    ensures DotFree(Escape(l))
    decreases |l|
  {
    if l == [] {
    } else {
      UndottedPiece(l);
      UndottedEscape(l[Piece(l).1..]);
    }
  }

  lemma UndottedPiece(l: Label)
    requires l != [] && Undotted(l)
    ensures DotFree(Piece(l).0)
  {
  }

  /** The text labels of a name that ends in an undotted label end in that label's text. */
  lemma SplitShown(x: Name, l: Label)
    requires Undotted(l)
    ensures var t := Split(Show(x + [l])); t[|t| - 1] == Escape(l)
  {
    UndottedEscape(l);
    SplitUndotted(Escape(l));
    assert Show([l]) == Escape(l);
    if x == [] {
      assert x + [l] == [l];
    } else {
      ShowConcat(x, [l]);
      SplitConcat(Show(x), Escape(l));
    }
  }

  lemma UntrimmedShow(x: Name, l: Label)
    requires Undotted(l) && l != []
    ensures TrimDots(Show(x + [l])) == Show(x + [l])
  {
    UndottedEscape(l);
    EscapeNonEmpty(l);
    assert Show([l]) == Escape(l);
    if x == [] {
      assert x + [l] == [l];
    } else {
      ShowConcat(x, [l]);
    }
  }

  /** The key of the ancestor `s`, nothing for the root. */
  function KeyAbove(s: Name): Key { if s == [] then [] else TextKey(s) }

  /** After the key of an ancestor the key of a name goes on with the text of the label in front of it. */
  lemma KeyAt(x: Name, l: Label, s: Name)
    requires IsName(x + [l] + s) && Undotted(l)
    ensures var k, t := TextKey(x + [l] + s), KeyAbove(s); |t| < |k| && k[..|t|] == t && k[|t|] == Escape(l)
  {
    var y := x + [l];
    SplitShown(x, l);
    if s == [] {
      assert y + s == y && y[|x|] == l;
      UntrimmedShow(x, l);
      TrimmedLower(y);
    } else {
      KeyOfDescendant(y, s);
    }
  }

  lemma WireAt(x: Name, l: Label, s: Name)
    ensures var k, t := Reverse(x + [l] + s), Reverse(s); |t| < |k| && k[..|t|] == t && k[|t|] == l
  {
    ReverseConcat(x + [l], s);
    ReverseConcat(x, [l]);
  }

  /** Two names below a common ancestor, by the first labels in which they differ. */
  lemma PairAgreesExactly(x: Name, l: Label, y: Name, r: Label, s: Name)
    requires IsName(x + [l] + s) && IsName(y + [r] + s) && Undotted(l) && Undotted(r) && l != r
    ensures var m, n := x + [l] + s, y + [r] + s;
      (TextLess(m, n) <==> WireLess(m, n)) <==> LabelsAgree(l, r)
  {
    var m, n := x + [l] + s, y + [r] + s;
    assert m[|x|] == l && n[|y|] == r;
    KeyAt(x, l, s);
    KeyAt(y, r, s);
    WireAt(x, l, s);
    WireAt(y, r, s);
    EscapeOrder(l, r);
    EscapeInjective(l, r);
    LexAtDifference(LabelLess, TextKey(m), TextKey(n), |KeyAbove(s)|);
    LexAtDifference(WireLabelLess, Reverse(m), Reverse(n), |s|);
  }

  lemma EscapeInjective(l: Label, r: Label)
    requires IsLower(l) && IsLower(r) && l != r
    ensures Escape(l) != Escape(r)
  {
    QueryWire.UnescapeUndoesEscape(l);
    QueryWire.UnescapeUndoesEscape(r);
    assert LowerBytes(l) == l && LowerBytes(r) == r;
  }

  function Front(n: Name): Name requires n != [] { n[..|n| - 1] }
  function Last(n: Name): Label requires n != [] { n[|n| - 1] }

  /** Whether two names come in the same order in both, from the top-level label down. */
  predicate NamesAgree(m: Name, n: Name)
    decreases |m|
  {
    m == [] || n == [] || if Last(m) == Last(n) then NamesAgree(Front(m), Front(n)) else LabelsAgree(Last(m), Last(n))
  }

  predicate AllUndotted(n: Name) { forall i | 0 <= i < |n| :: Undotted(n[i]) }

  /** On names whose labels hold no dot the two orders put a pair the same way round, exactly when its octets
    * say so at the first difference. */
  lemma {:induction false} NamesAgreeExactly(m: Name, n: Name, s: Name)
    requires IsName(m + s) && IsName(n + s) && AllUndotted(m) && AllUndotted(n)
    ensures (TextLess(m + s, n + s) <==> WireLess(m + s, n + s)) <==> NamesAgree(m, n)
    decreases |m|
  {
    if m == [] || n == [] {
      AncestorAgrees(m, n, s);
    } else if Last(m) == Last(n) {
      var s' := [Last(m)] + s;
      assert m + s == Front(m) + s' && n + s == Front(n) + s';
      NamesAgreeExactly(Front(m), Front(n), s');
    } else {
      assert m == Front(m) + [Last(m)] && n == Front(n) + [Last(n)];
      PairAgreesExactly(Front(m), Last(m), Front(n), Last(n), s);
    }
  }

  lemma AncestorAgrees(m: Name, n: Name, s: Name)
    requires IsName(m + s) && IsName(n + s) && (m == [] || n == [])
    ensures TextLess(m + s, n + s) <==> WireLess(m + s, n + s)
  {
    assert [] + s == s;
    if m == n {
      KeyOrder();
      WireOrder();
    } else if m == [] {
      AncestorFirst(n + s, s);
    } else {
      AncestorFirst(m + s, s);
    }
  }

  /** The names of a zone without dots in labels come in the same order in both, exactly when all pairs agree
    * by their octets. */
  lemma SameOrderByOctets(zone: set<Name>)
    requires forall n <- zone :: IsName(n) && AllUndotted(n)
    ensures SameOrder(zone) <==> forall m <- zone, n <- zone :: NamesAgree(m, n)
  {
    if SameOrder(zone) {
      forall m <- zone, n <- zone ensures NamesAgree(m, n) { PairByOctets(m, n); }
    } else {
      var m, n :| m in zone && n in zone && !(TextLess(m, n) <==> WireLess(m, n));
      PairByOctets(m, n);
    }
  }

  lemma PairByOctets(m: Name, n: Name)
    requires IsName(m) && IsName(n) && AllUndotted(m) && AllUndotted(n)
    ensures (TextLess(m, n) <==> WireLess(m, n)) <==> NamesAgree(m, n)
  {
    assert m + [] == m && n + [] == n;
    NamesAgreeExactly(m, n, []);
  }

  /** A dot in a label makes two labels of it in the source: `a\.b.c` comes before `b.c` in the standard and
    * after it in the source. */
  lemma DottedNameMisorders(l: Label, r: Label, s: Label)
    requires l == [97, 46, 98] && r == [98] && s == [99]
    ensures IsName([l, s]) && IsName([r, s]) && WireLess([l, s], [r, s]) && TextLess([r, s], [l, s])
  {
    SmallName([l, s]);
    SmallName([r, s]);
    SiblingsInOrder(l, r, s);
    DottedText(l);
    LetterText(r);
    ChildKey(l, s);
    ChildKey(r, s);
    DottedKeys(TextKey([s]), TextKey([r, s]), TextKey([l, s]));
  }

  lemma ChildKey(l: Label, s: Label)
    requires IsName([l, s])
    ensures TextKey([l, s]) == TextKey([s]) + Reverse(Split(Show([l])))
  {
    assert [l] + [s] == [l, s];
    KeyOfDescendant([l], [s]);
  }

  lemma SiblingsInOrder(l: Label, r: Label, s: Label)
    requires WireLabelLess(l, r) && l != r
    ensures WireLess([l, s], [r, s])
  {
    var a, b := Reverse([l, s]), Reverse([r, s]);
    assert a == [s, l] && b == [s, r];
    assert a[..1] == b[..1];
    LexAtDifference(WireLabelLess, a, b, 1);
  }

  lemma DottedText(l: Label)
    requires l == [97, 46, 98]
    ensures Reverse(Split(Show([l]))) == ["b", "a\\"]
  {
    var head, tail := "a\\", "b";
    assert Piece(l) == ("a", 1) && l[1..] == [46, 98];
    assert Piece([46, 98]) == ("\\.", 1) && [46, 98][1..] == [98];
    assert Piece([98]) == (tail, 1) && [98][1..] == [] && Escape([]) == "";
    assert Escape([98]) == tail;
    assert Escape([46, 98]) == "\\." + tail;
    assert Show([l]) == head + "." + tail;
    SplitDotted(Show([l]), head, tail);
    SplitUndotted(tail);
    assert Reverse([head, tail]) == [tail, head];
  }

  lemma LetterText(r: Label)
    requires r == [98]
    ensures Reverse(Split(Show([r]))) == ["b"]
  {
    assert Piece(r) == ("b", 1) && r[1..] == [] && Escape([]) == "";
    assert Show([r]) == "b";
    SplitUndotted("b");
  }

  lemma DottedKeys(top: Key, short: Key, long: Key)
    requires short == top + ["b"] && long == top + ["b", "a\\"]
    ensures KeyLess(short, long)
  {
    assert long == short + ["a\\"];
    LongerLater(LabelLess, short, ["a\\"]);
  }
}
