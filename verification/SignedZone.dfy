/** Zones signed with NSEC in the order of section 6.1 of RFC 4034, and when the order of the source, which
  * is on presentation text, serves them as well. */
module SignedZone {
  import opened Bytes
  import opened Text
  import opened WireNames
  import opened NameText
  import opened CanonicalName
  import opened Nsec
  import Ring

  // ---------------------------------------------------------------- rings in the order of the standard

  /** Records of the zone, any of them, each naming the next name in the order of the standard. */
  ghost predicate FromSigned(records: seq<Record>, owners: seq<Name>, nexts: seq<Name>, zone: set<Name>)
  {
    && |owners| == |nexts| == |records| && (forall n <- zone :: IsName(n))
    && (forall i | 0 <= i < |records| :: records[i].name == Show(owners[i]) && records[i].nextDomainName == Show(nexts[i]))
    && (forall i | 0 <= i < |records| :: Ring.Follows(WireLess, zone, owners[i], nexts[i]))
  }

  /** One such record for every name of the zone. */
  ghost predicate SignedRing(records: seq<Record>, owners: seq<Name>, nexts: seq<Name>, zone: set<Name>)
  {
    && FromSigned(records, owners, nexts, zone)
    && (forall n {:trigger n in owners} | n in zone :: n in owners)
    && (forall i, j | 0 <= i < j < |owners| :: owners[i] != owners[j])
  }

  /** The order of the source. */
  predicate TextLess(m: Name, n: Name) { KeyLess(TextKey(m), TextKey(n)) }

  /** In the code's order, too, no name of the zone lies between an owner and the next one. */
  ghost predicate TextRing(owners: seq<Name>, nexts: seq<Name>, zone: set<Name>)
    requires |owners| == |nexts|
  {
    forall i, x | 0 <= i < |owners| && x in zone :: !Ring.Between(KeyLess, TextKey(owners[i]), TextKey(nexts[i]), TextKey(x))
  }

  ghost function Keys(zone: set<Name>): set<Key> { set n <- zone :: TextKey(n) }

  lemma KeyInZone(zone: set<Name>, n: Name)
    requires (forall m <- zone :: IsName(m)) && IsName(n)
    ensures TextKey(n) in Keys(zone) <==> n in zone
  {
    if TextKey(n) in Keys(zone) {
      var m :| m in zone && TextKey(m) == TextKey(n);
      TextKeyInjective(m, n);
    }
  }

  lemma TwoKeys(zone: set<Name>)
    requires (forall m <- zone :: IsName(m)) && |zone| >= 2
    ensures |Keys(zone)| >= 2
  {
    var m :| m in zone;
    assert |zone - {m}| >= 1;
    var n :| n in zone - {m};
    TextKeyInjective(m, n);
    assert Keys(zone) == {TextKey(m), TextKey(n)} + (Keys(zone) - {TextKey(m), TextKey(n)});
  }

  lemma KeysOwned(records: seq<Record>, owners: seq<Name>, nexts: seq<Name>, zone: set<Name>)
    requires SignedRing(records, owners, nexts, zone)
    ensures forall k <- Keys(zone) :: k in Owners(records)
  {
    forall k <- Keys(zone) ensures k in Owners(records) {
      var n :| n in zone && TextKey(n) == k;
      assert n in owners;
      var i :| 0 <= i < |owners| && owners[i] == n;
      assert Owners(records)[i] == k;
    }
  }

  lemma KeysFollow(records: seq<Record>, owners: seq<Name>, nexts: seq<Name>, zone: set<Name>, i: nat)
    requires SignedRing(records, owners, nexts, zone) && TextRing(owners, nexts, zone) && i < |records|
    ensures Ring.Follows(KeyLess, Keys(zone), KeyOf(records[i].name), KeyOf(records[i].nextDomainName))
  {
    assert Ring.Follows(WireLess, zone, owners[i], nexts[i]);
    forall k <- Keys(zone) ensures !Ring.Between(KeyLess, TextKey(owners[i]), TextKey(nexts[i]), k) {
      var x :| x in zone && TextKey(x) == k;
    }
  }

  lemma SignedRingIsFull(records: seq<Record>, owners: seq<Name>, nexts: seq<Name>, zone: set<Name>)
    requires SignedRing(records, owners, nexts, zone) && TextRing(owners, nexts, zone)
    ensures FullRing(records, Keys(zone))
  {
    forall i | 0 <= i < |records|
      ensures Ring.Follows(KeyLess, Keys(zone), KeyOf(records[i].name), KeyOf(records[i].nextDomainName))
    {
      KeysFollow(records, owners, nexts, zone, i);
    }
    KeysOwned(records, owners, nexts, zone);
    forall i, j | 0 <= i < j < |records| ensures KeyOf(records[i].name) != KeyOf(records[j].name) {
      OwnerIsName(records, owners, nexts, zone, i);
      OwnerIsName(records, owners, nexts, zone, j);
      TextKeyInjective(owners[i], owners[j]);
    }
  }

  lemma OwnerIsName(records: seq<Record>, owners: seq<Name>, nexts: seq<Name>, zone: set<Name>, i: nat)
    requires FromSigned(records, owners, nexts, zone) && i < |records|
    ensures owners[i] in zone && nexts[i] in zone && IsName(owners[i]) && IsName(nexts[i])
  {
    assert Ring.Follows(WireLess, zone, owners[i], nexts[i]);
  }

  /** The verifier denies exactly the absent names. */
  ghost predicate DeniesTheAbsent(records: seq<Record>, zone: set<Name>) {
    forall n | IsName(n) :: Denies(records, Show(n)) <==> n !in zone
  }

  lemma RightOverTextRing(records: seq<Record>, owners: seq<Name>, nexts: seq<Name>, zone: set<Name>, n: Name)
    requires SignedRing(records, owners, nexts, zone) && TextRing(owners, nexts, zone) && |zone| >= 2 && IsName(n)
    ensures Denies(records, Show(n)) <==> n !in zone
  {
    SignedRingIsFull(records, owners, nexts, zone);
    TwoKeys(zone);
    KeyInZone(zone, n);
    DeniedExactlyWhenAbsent(records, Keys(zone), Show(n));
  }

  lemma LabelsTotal()
    ensures StrictTotal(WireLabelLess)
  {
    forall a: Label, b: Label ensures (WireLabelLess(a, b) || WireLabelLess(b, a) || a == b) && !WireLabelLess(a, a) {
      LexConnected(OctetLess, a, b);
    }
    forall a: Label, b: Label, c: Label | WireLabelLess(a, b) && WireLabelLess(b, c) ensures WireLabelLess(a, c) {
      LexTransitive(OctetLess, a, b, c);
    }
  }

  lemma WireOrder()
    ensures StrictTotal(WireLess)
  {
    LabelsTotal();
    forall a: Name, b: Name ensures (WireLess(a, b) || WireLess(b, a) || a == b) && !WireLess(a, a) {
      LexConnected(WireLabelLess, Reverse(a), Reverse(b));
      ReverseInjective(a, b);
    }
    forall a: Name, b: Name, c: Name | WireLess(a, b) && WireLess(b, c) ensures WireLess(a, c) {
      LexTransitive(WireLabelLess, Reverse(a), Reverse(b), Reverse(c));
    }
  }

  lemma ReverseInjective<T>(a: seq<T>, b: seq<T>)
    ensures Reverse(a) == Reverse(b) <==> a == b
  {
    if Reverse(a) == Reverse(b) {
      assert |a| == |b|;
      forall i | 0 <= i < |a| ensures a[i] == b[i] {
        assert Reverse(a)[|a| - 1 - i] == a[i] && Reverse(b)[|a| - 1 - i] == b[i];
      }
    }
  }

  /** A name of the zone that the code's order puts between an owner and the next one is denied. */
  lemma MisorderedIsDenied(records: seq<Record>, owners: seq<Name>, nexts: seq<Name>, zone: set<Name>, i: nat, x: Name)
    requires SignedRing(records, owners, nexts, zone) && |zone| >= 2 && i < |records| && x in zone
    requires Ring.Between(KeyLess, TextKey(owners[i]), TextKey(nexts[i]), TextKey(x))
    ensures Denies(records, Show(x))
  {
    OwnerIsName(records, owners, nexts, zone, i);
    WireOrder();
    assert Ring.Follows(WireLess, zone, owners[i], nexts[i]);
    Ring.NextIsAnother(WireLess, zone, owners[i], nexts[i]);
    TextKeyInjective(owners[i], nexts[i]);
    assert records[i].Covers(Show(x)) && records[i] in records;
  }

  /** Over a zone of two names or more, signed in the order of the standard, the verifier denies exactly
    * the absent names if and only if the ring is in order for the code, too. */
  lemma RightExactlyOverTextRing(records: seq<Record>, owners: seq<Name>, nexts: seq<Name>, zone: set<Name>)
    requires SignedRing(records, owners, nexts, zone) && |zone| >= 2
    ensures DeniesTheAbsent(records, zone) <==> TextRing(owners, nexts, zone)
  {
    if TextRing(owners, nexts, zone) {
      forall n | IsName(n) ensures Denies(records, Show(n)) <==> n !in zone {
        RightOverTextRing(records, owners, nexts, zone, n);
      }
    } else {
      var i, x :| 0 <= i < |owners| && x in zone && Ring.Between(KeyLess, TextKey(owners[i]), TextKey(nexts[i]), TextKey(x));
      MisorderedIsDenied(records, owners, nexts, zone, i, x);
    }
  }

  // ---------------------------------------------------------------- the key of a name and of its ancestors

  lemma {:induction false} SplitConcat(a: string, b: string)
    ensures Split(a + "." + b) == Split(a) + Split(b)
    decreases |a|
  {
    var k := FirstDot(a);
    if k == |a| {
      SplitUndotted(a);
      SplitDotted(a + "." + b, a, b);
    } else {
      SplitConcat(a[k + 1..], b);
      CutAtDot(a, k);
      DottedConcat(a, a[..k], a[k + 1..], b);
    }
  }

  lemma DottedConcat(a: string, l: string, rest: string, b: string)
    requires a == l + "." + rest && DotFree(l) && Split(rest + "." + b) == Split(rest) + Split(b)
    ensures Split(a + "." + b) == Split(a) + Split(b)
  {
    SplitDotted(a, l, rest);
    FiveParts(l, ".", rest, b);
    SplitDotted(a + "." + b, l, rest + "." + b);
    Reassociate([l], Split(rest), Split(b));
  }

  lemma FiveParts<T>(l: seq<T>, d: seq<T>, rest: seq<T>, b: seq<T>)
    ensures l + d + rest + d + b == l + d + (rest + d + b)
  {
  }

  lemma ReverseConcat<T>(a: seq<T>, b: seq<T>)
    ensures Reverse(a + b) == Reverse(b) + Reverse(a)
  {
  }

  lemma {:induction false} ShowConcat(x: Name, s: Name)
    requires x != [] && s != []
    ensures Show(x + s) == Show(x) + "." + Show(s)
  {
    assert (x + s)[0] == x[0] && (x + s)[1..] == x[1..] + s;
    if |x| == 1 {
      assert x[1..] + s == s;
    } else {
      ShowConcat(x[1..], s);
      assert Show(x + s) == Escape(x[0]) + "." + (Show(x[1..]) + "." + Show(s));
    }
  }

  lemma {:induction false} TrimDotsTail(a: string, t: string)
    requires TrimDots(t) != ""
    ensures TrimDots(a + t) == a + TrimDots(t)
    decreases |t|
  {
    if t[|t| - 1] == '.' {
      assert (a + t)[..|a + t| - 1] == a + t[..|t| - 1];
      TrimDotsTail(a, t[..|t| - 1]);
    }
  }

  lemma TrimmedNotEmpty(n: Name)
    requires ValidLabels(n) && n != []
    ensures TrimDots(Show(n)) != ""
  {
    TrimmedShow(n);
    ShowCloses(n);
    if Open(TrimDots(Show(n)), false) { OpenNotDot(TrimDots(Show(n))); }
  }

  /** The key of a name begins with the key of each of its ancestors but the root. */
  lemma KeyOfDescendant(x: Name, s: Name)
    requires x != [] && s != [] && ValidLabels(x + s)
    ensures TextKey(x + s) == TextKey(s) + Reverse(Split(Show(x)))
  {
    assert ValidLabels(s) by { assert forall i | 0 <= i < |s| :: s[i] == (x + s)[|x| + i]; }
    ShowConcat(x, s);
    TrimmedNotEmpty(s);
    TrimDotsTail(Show(x) + ".", Show(s));
    TrimmedLower(x + s);
    TrimmedLower(s);
    SplitConcat(Show(x), TrimDots(Show(s)));
    ReverseConcat(Split(Show(x)), Split(TrimDots(Show(s))));
  }

  // ---------------------------------------------------------------- ancestors first

  /** `n` is `s` or a name under it. */
  predicate EndsIn(n: Name, s: Name) { |s| <= |n| && n[|n| - |s|..] == s }

  lemma LongerLater<T(!new)>(less: (T, T) -> bool, a: seq<T>, b: seq<T>)
    requires b != []
    ensures LexLess(less, a, a + b) && !LexLess(less, a + b, a)
  {
    assert a[..|a|] == (a + b)[..|a|];
    LexAtDifference(less, a, a + b, |a|);
    LexAtDifference(less, a + b, a, |a|);
  }

  lemma TopTextNotEmpty(n: Name)
    requires ValidLabels(n) && n != []
    ensures TextKey(n) != [] && TextKey(n)[0] != ""
  {
    var t := TrimDots(Show(n));
    TrimmedNotEmpty(n);
    TrimmedLower(n);
    TrimDotsResult(Show(n));
    LastNotEmpty(t);
  }

  lemma {:induction false} LastNotEmpty(t: string)
    requires t != "" && t[|t| - 1] != '.'
    ensures Split(t)[|Split(t)| - 1] != ""
    decreases |t|
  {
    var k := FirstDot(t);
    if k < |t| {
      LastNotEmpty(t[k + 1..]);
    } else {
      SplitUndotted(t);
    }
  }

  /** In both orders a name comes after its ancestors. */
  lemma AncestorFirst(n: Name, s: Name)
    requires IsName(n) && EndsIn(n, s) && n != s
    ensures TextLess(s, n) && !TextLess(n, s) && WireLess(s, n) && !WireLess(n, s)
  {
    var x := n[..|n| - |s|];
    assert n == x + s;
    ReverseConcat(x, s);
    LongerLater(WireLabelLess, Reverse(s), Reverse(x));
    if s == [] {
      TopTextNotEmpty(n);
      SplitUndotted("");
      assert TextKey([]) == Reverse([""]) == [""];
      RootKeyLeast(TextKey(n));
    } else {
      KeyOfDescendant(x, s);
      LongerLater(LabelLess, TextKey(s), Reverse(Split(Show(x))));
    }
  }

  // ---------------------------------------------------------------- one order or two

  /** The names of the zone come in the same order in the source and in the standard. */
  ghost predicate SameOrder(zone: set<Name>) {
    forall m <- zone, n <- zone :: TextLess(m, n) <==> WireLess(m, n)
  }

  /** The zone holds its apex and otherwise names under it. */
  ghost predicate HasApex(zone: set<Name>, apex: Name) { apex in zone && forall n <- zone :: EndsIn(n, apex) }

  /** No name of the zone is denied. */
  ghost predicate DeniesNone(records: seq<Record>, zone: set<Name>) { forall n <- zone :: !Denies(records, Show(n)) }

  lemma SameOrderNotBetween(owner: Name, next: Name, zone: set<Name>, x: Name)
    requires SameOrder(zone) && Ring.Follows(WireLess, zone, owner, next) && x in zone
    ensures !Ring.Between(KeyLess, TextKey(owner), TextKey(next), TextKey(x))
  {
    assert !Ring.Between(WireLess, owner, next, x);
    assert TextLess(owner, next) <==> WireLess(owner, next);
    assert TextLess(owner, x) <==> WireLess(owner, x);
    assert TextLess(x, next) <==> WireLess(x, next);
  }

  lemma SameOrderIsTextRing(records: seq<Record>, owners: seq<Name>, nexts: seq<Name>, zone: set<Name>)
    requires FromSigned(records, owners, nexts, zone) && SameOrder(zone)
    ensures TextRing(owners, nexts, zone)
  {
    forall i, x | 0 <= i < |owners| && x in zone
      ensures !Ring.Between(KeyLess, TextKey(owners[i]), TextKey(nexts[i]), TextKey(x))
    {
      SameOrderNotBetween(owners[i], nexts[i], zone, x);
    }
  }

  /** Soundness: when the orders agree, no records of the zone, however few, deny a name of it. */
  lemma SameOrderDeniesNone(records: seq<Record>, owners: seq<Name>, nexts: seq<Name>, zone: set<Name>)
    requires FromSigned(records, owners, nexts, zone) && SameOrder(zone)
    ensures DeniesNone(records, zone)
  {
    forall n <- zone ensures !Denies(records, Show(n)) {
      forall i | 0 <= i < |records| ensures !records[i].Covers(Show(n)) {
        SameOrderNotBetween(owners[i], nexts[i], zone, n);
      }
    }
  }

  lemma TextOrders(zone: set<Name>)
    requires forall n <- zone :: IsName(n)
    ensures Ring.Orders(TextLess, zone)
  {
    KeyOrder();
    forall x <- zone, y <- zone ensures x != y ==> TextLess(x, y) || TextLess(y, x) { TextKeyInjective(x, y); }
  }

  /** What follows each name of the zone, by its record. */
  ghost function NextNames(owners: seq<Name>, nexts: seq<Name>, zone: set<Name>): map<Name, Name>
    requires |owners| == |nexts| && forall n {:trigger n in owners} | n in zone :: n in owners
  {
    map n | n in zone :: nexts[IndexOf(owners, n)]
  }

  ghost function IndexOf(owners: seq<Name>, n: Name): (i: nat)
    requires n in owners
    ensures i < |owners| && owners[i] == n
  {
    var i :| 0 <= i < |owners| && owners[i] == n;
    i
  }

  lemma ApexFirst(zone: set<Name>, apex: Name)
    requires (forall n <- zone :: IsName(n)) && HasApex(zone, apex)
    ensures Ring.IsLeast(WireLess, zone, apex) && Ring.IsLeast(TextLess, zone, apex)
  {
    forall n <- zone ensures n == apex || (WireLess(apex, n) && TextLess(apex, n)) {
      if n != apex { AncestorFirst(n, apex); }
    }
  }

  lemma TextFollows(owners: seq<Name>, nexts: seq<Name>, zone: set<Name>, i: nat)
    requires |owners| == |nexts| && i < |owners| && TextRing(owners, nexts, zone) && owners[i] in zone &&
             nexts[i] in zone
    ensures Ring.Follows(TextLess, zone, owners[i], nexts[i])
  {
    forall x <- zone ensures !Ring.Between(TextLess, owners[i], nexts[i], x) {
      assert !Ring.Between(KeyLess, TextKey(owners[i]), TextKey(nexts[i]), TextKey(x));
    }
  }

  lemma NextsFollow(records: seq<Record>, owners: seq<Name>, nexts: seq<Name>, zone: set<Name>, n: Name)
    requires SignedRing(records, owners, nexts, zone) && TextRing(owners, nexts, zone) && n in zone
    ensures var next := NextNames(owners, nexts, zone)[n];
      Ring.Follows(WireLess, zone, n, next) && Ring.Follows(TextLess, zone, n, next)
  {
    var i := IndexOf(owners, n);
    OwnerIsName(records, owners, nexts, zone, i);
    TextFollows(owners, nexts, zone, i);
  }

  lemma WireOrders(zone: set<Name>)
    ensures Ring.Orders(WireLess, zone)
  {
    WireOrder();
  }

  lemma WireSteps(records: seq<Record>, owners: seq<Name>, nexts: seq<Name>, zone: set<Name>, apex: Name)
    requires SignedRing(records, owners, nexts, zone) && HasApex(zone, apex) && TextRing(owners, nexts, zone)
    ensures Ring.Steps(WireLess, zone, NextNames(owners, nexts, zone), apex)
  {
    var next := NextNames(owners, nexts, zone);
    ApexFirst(zone, apex);
    WireOrders(zone);
    forall m, x | m in zone && x in zone ensures next[m] in zone && Ring.Step(WireLess, apex, m, next[m], x) {
      NextsFollow(records, owners, nexts, zone, m);
      Ring.NextAbove(WireLess, zone, apex, m, next[m], x);
    }
  }

  lemma TextSteps(records: seq<Record>, owners: seq<Name>, nexts: seq<Name>, zone: set<Name>, apex: Name)
    requires SignedRing(records, owners, nexts, zone) && HasApex(zone, apex) && TextRing(owners, nexts, zone)
    ensures Ring.Steps(TextLess, zone, NextNames(owners, nexts, zone), apex)
  {
    var next := NextNames(owners, nexts, zone);
    ApexFirst(zone, apex);
    TextOrders(zone);
    forall m, x | m in zone && x in zone ensures next[m] in zone && Ring.Step(TextLess, apex, m, next[m], x) {
      NextsFollow(records, owners, nexts, zone, m);
      Ring.NextAbove(TextLess, zone, apex, m, next[m], x);
    }
  }

  /** A ring that is in order for the source, too, fixes the order of all its names. */
  lemma TextRingIsSameOrder(records: seq<Record>, owners: seq<Name>, nexts: seq<Name>, zone: set<Name>, apex: Name)
    requires SignedRing(records, owners, nexts, zone) && HasApex(zone, apex) && TextRing(owners, nexts, zone)
    ensures SameOrder(zone)
  {
    WireSteps(records, owners, nexts, zone, apex);
    TextSteps(records, owners, nexts, zone, apex);
    forall m <- zone, n <- zone ensures TextLess(m, n) <==> WireLess(m, n) {
      Ring.SameAbove(TextLess, WireLess, zone, NextNames(owners, nexts, zone), apex, m, n);
    }
  }

  /** Over the full ring of a zone of two names or more, signed in the order of the standard, the verifier
    * denies exactly the absent names if and only if the names of the zone come in the same order in both. */
  lemma RightExactlyInSameOrder(records: seq<Record>, owners: seq<Name>, nexts: seq<Name>, zone: set<Name>, apex: Name)
    requires SignedRing(records, owners, nexts, zone) && HasApex(zone, apex) && |zone| >= 2
    ensures DeniesTheAbsent(records, zone) <==> SameOrder(zone)
  {
    RightExactlyOverTextRing(records, owners, nexts, zone);
    if SameOrder(zone) {
      SameOrderIsTextRing(records, owners, nexts, zone);
    } else if TextRing(owners, nexts, zone) {
      TextRingIsSameOrder(records, owners, nexts, zone, apex);
    }
  }

  lemma {:induction false} Listed<T>(part: set<T>) returns (owners: seq<T>)
    ensures forall n :: n in owners <==> n in part
    ensures forall i, j | 0 <= i < j < |owners| :: owners[i] != owners[j]
    decreases |part|
  {
    owners := [];
    if part == {} {
    } else {
      var n :| n in part;
      var rest := Listed(part - {n});
      owners := [n] + rest;
    }
  }

  lemma OneMoreSigned(records: seq<Record>, owners: seq<Name>, nexts: seq<Name>, zone: set<Name>, n: Name, next: Name)
    requires FromSigned(records, owners, nexts, zone) && Ring.Follows(WireLess, zone, n, next)
    ensures FromSigned(records + [Record(Show(n), Show(next), [])], owners + [n], nexts + [next], zone)
  {
  }

  /** Records for some names of a zone. */
  lemma {:induction false} SignedRecords(zone: set<Name>, owners: seq<Name>)
    returns (records: seq<Record>, nexts: seq<Name>)
    requires (forall n <- zone :: IsName(n)) && forall n <- owners :: n in zone
    ensures FromSigned(records, owners, nexts, zone)
    decreases |owners|
  {
    records, nexts := [], [];
    if owners == [] {
    } else {
      var front, n := owners[..|owners| - 1], owners[|owners| - 1];
      assert owners == front + [n];
      records, nexts := SignedRecords(zone, front);
      WireOrder();
      var next := Ring.NextExists(WireLess, zone, n);
      OneMoreSigned(records, front, nexts, zone, n, next);
      records, nexts := records + [Record(Show(n), Show(next), [])], nexts + [next];
    }
  }

  /** No records of a zone of two names or more ever deny a name of it, if and only if the names come in the
    * same order in both. */
  lemma SoundExactlyInSameOrder(zone: set<Name>, apex: Name)
    requires (forall n <- zone :: IsName(n)) && HasApex(zone, apex) && |zone| >= 2
    ensures (forall records, owners, nexts | FromSigned(records, owners, nexts, zone) :: DeniesNone(records, zone)) <==> SameOrder(zone)
  {
    if SameOrder(zone) {
      forall records, owners, nexts | FromSigned(records, owners, nexts, zone) ensures DeniesNone(records, zone) {
        SameOrderDeniesNone(records, owners, nexts, zone);
      }
    } else {
      var owners := Listed(zone);
      var records, nexts := SignedRecords(zone, owners);
      RightExactlyInSameOrder(records, owners, nexts, zone, apex);
      if DeniesNone(records, zone) { NoneDeniedIsRight(records, owners, nexts, zone); }
    }
  }

  lemma NoneDeniedIsRight(records: seq<Record>, owners: seq<Name>, nexts: seq<Name>, zone: set<Name>)
    requires SignedRing(records, owners, nexts, zone) && |zone| >= 2 && DeniesNone(records, zone)
    ensures DeniesTheAbsent(records, zone)
  {
    RightExactlyOverTextRing(records, owners, nexts, zone);
    if !TextRing(owners, nexts, zone) {
      var i, x :| 0 <= i < |owners| && x in zone && Ring.Between(KeyLess, TextKey(owners[i]), TextKey(nexts[i]), TextKey(x));
      MisorderedIsDenied(records, owners, nexts, zone, i, x);
    }
  }

  /** Names that need no escapes come in the same order in both. */
  lemma PlainZoneSameOrder(zone: set<Name>)
    requires forall n <- zone :: IsName(n) && AllPlain(n)
    ensures SameOrder(zone)
  {
    forall m <- zone, n <- zone ensures TextLess(m, n) <==> WireLess(m, n) { TextOrderIsWireOrder(m, n); }
  }

  // ---------------------------------------------------------------- an escaped name out of order

  lemma ParentKey(c: Name)
    requires c == [[99]]
    ensures IsName(c) && TextKey(c) == ["c"]
  {
    SmallName(c);
    assert Plain(c[0]) by { assert Plain([]); }
    PlainKey(c);
    assert Chars(c[0]) == "c";
  }

  lemma DigitKey(o: Name)
    requires o == [[48], [99]]
    ensures IsName(o) && TextKey(o) == ["c", "0"]
  {
    SmallName(o);
    assert Plain(o[0]) && Plain(o[1]) by { assert Plain([]); }
    PlainKey(o);
    assert Chars(o[0]) == "0" && Chars(o[1]) == "c";
  }

  lemma EscapedText(z: Name)
    requires z == [[0], [99]]
    ensures Show(z) == "\\000" + "." + "c"
  {
    assert Escape([0]) == "\\000" by { assert Piece([0]) == ("\\000", 1) && Escape([]) == ""; }
    assert Escape([99]) == "c" by { assert Piece([99]) == ("c", 1) && Escape([]) == ""; }
    assert z[1..] == [[99]];
  }

  /** Two labels in lower case, without dots. */
  lemma PairSplits(t: string, head: string, tail: string)
    requires t == head + "." + tail && DotFree(head) && DotFree(tail) && tail != ""
    requires Lower(head) == head && Lower(tail) == tail
    ensures Split(Lower(TrimDots(t))) == [head, tail]
  {
    assert t[|t| - 1] == tail[|tail| - 1] != '.';
    assert Lower(t) == t;
    SplitDotted(t, head, tail);
    SplitUndotted(tail);
  }

  lemma EscapedKey(z: Name)
    requires z == [[0], [99]]
    ensures IsName(z) && TextKey(z) == ["c", "\\000"]
  {
    SmallName(z);
    EscapedText(z);
    var head, tail := "\\000", "c";
    PairSplits(Show(z), head, tail);
    assert Reverse([head, tail]) == [tail, head];
  }

  lemma WireOrderOf(c: Name, z: Name, o: Name)
    requires c == [[99]] && z == [[0], [99]] && o == [[48], [99]]
    ensures WireLess(c, z) && WireLess(z, o)
  {
    var rc, rz, ro := Reverse(c), Reverse(z), Reverse(o);
    assert rc == [[99]] && rz == [[99], [0]] && ro == [[99], [48]];
    WireOrder();
    assert StrictTotal(WireLabelLess) by { LabelsTotal(); }
    assert rc[..1] == rz[..1] == ro[..1];
    LexAtDifference(WireLabelLess, rc, rz, 1);
    LexAtDifference(WireLabelLess, rz, ro, 1);
    assert WireLabelLess([0], [48]);
  }

  lemma TextOrderOf(kc: Key, kz: Key, ko: Key)
    requires kc == ["c"] && kz == ["c", "\\000"] && ko == ["c", "0"]
    ensures KeyLess(kc, kz) && KeyLess(kc, ko) && KeyLess(ko, kz) && kc != kz
  {
    LabelOrder();
    assert kc[..1] == kz[..1] == ko[..1];
    LexAtDifference(LabelLess, kc, kz, 1);
    LexAtDifference(LabelLess, kc, ko, 1);
    LexAtDifference(LabelLess, ko, kz, 1);
    assert LabelLess("0", "\\000");
  }

  /** The record from `c` to `\000.c` is in order on the wire, but covers the existing name `0.c` for the
    * code, because a backslash sorts after a digit. */
  lemma EscapedNameMisorders(c: Name, z: Name, o: Name)
    requires c == [[99]] && z == [[0], [99]] && o == [[48], [99]]
    ensures IsName(c) && IsName(z) && IsName(o) && Ring.Follows(WireLess, {c, z, o}, c, z)
    ensures Record(Show(c), Show(z), []).Covers(Show(o))
  {
    ParentKey(c);
    EscapedKey(z);
    DigitKey(o);
    WireOrderOf(c, z, o);
    WireOrder();
    TextOrderOf(TextKey(c), TextKey(z), TextKey(o));
  }
}
