/** NSEC denial of existence and the canonical name order (section 6.1 of RFC 4034; src/dns/dnssec.rs).
  * The source compares names as presentation text, split at every dot; the standard orders them by the
  * octets of their labels. */
module Nsec {
  import opened Bytes
  import opened Text
  import opened WireNames
  import opened NameText
  import opened CanonicalName
  import Ring
  import TypeBitMaps

  // ---------------------------------------------------------------- the canonical order

  /** The labels of a name from the top-level one down. */
  type Key = seq<string>

  function Reverse<T>(s: seq<T>): (r: seq<T>)
    ensures |r| == |s| && forall i | 0 <= i < |s| :: r[i] == s[|s| - 1 - i]
  {
    seq(|s|, i requires 0 <= i < |s| => s[|s| - 1 - i])
  }

  function Clean(name: string): string { Lower(TrimDots(name)) }

  function KeyOf(name: string): Key { Reverse(Split(Clean(name))) }

  predicate CharLess(c: char, d: char) { c < d }
  predicate LabelLess(a: string, b: string) { LexLess(CharLess, a, b) }
  predicate KeyLess(a: Key, b: Key) { LexLess(LabelLess, a, b) }

  lemma LabelOrder()
    ensures StrictTotal(LabelLess)
  {
    forall a: string, b: string ensures (LabelLess(a, b) || LabelLess(b, a) || a == b) && !LabelLess(a, a) {
      LexConnected(CharLess, a, b);
    }
    forall a: string, b: string, c: string | LabelLess(a, b) && LabelLess(b, c) ensures LabelLess(a, c) {
      LexTransitive(CharLess, a, b, c);
    }
  }

  lemma KeyOrder()
    ensures StrictTotal(KeyLess)
  {
    LabelOrder();
    forall a: Key, b: Key ensures (KeyLess(a, b) || KeyLess(b, a) || a == b) && !KeyLess(a, a) {
      LexConnected(LabelLess, a, b);
    }
    forall a: Key, b: Key, c: Key | KeyLess(a, b) && KeyLess(b, c) ensures KeyLess(a, c) {
      LexTransitive(LabelLess, a, b, c);
    }
  }

  /** Names with one key are one name, dots at the end and letter case aside. */
  lemma KeyIsName(a: string, b: string)
    ensures KeyOf(a) == KeyOf(b) <==> Clean(a) == Clean(b)
  {
    if KeyOf(a) == KeyOf(b) {
      var x, y := Split(Clean(a)), Split(Clean(b));
      forall i | 0 <= i < |x| ensures x[i] == y[i] {
        assert x[i] == KeyOf(a)[|x| - 1 - i] && y[i] == KeyOf(b)[|x| - 1 - i];
      }
      assert x == y;
      JoinSplit(Clean(a));
      JoinSplit(Clean(b));
    }
  }

  datatype Ordering = Less | Equal | Greater

  function Compare<T(==)>(less: (T, T) -> bool, a: T, b: T): Ordering {
    if a == b then Equal else if less(a, b) then Less else Greater
  }

  /** `canonical_name_cmp` */
  method CanonicalNameCmp(a: string, b: string) returns (r: Ordering)
    ensures r == Compare(KeyLess, KeyOf(a), KeyOf(b))
  {
    var cleanA, cleanB := Clean(a), Clean(b);
    KeyIsName(a, b);
    if cleanA == cleanB { return Equal; }
    var labelsA, labelsB := Split(cleanA), Split(cleanB);
    ghost var ka, kb := KeyOf(a), KeyOf(b);
    var ia, ib := |labelsA|, |labelsB|;
    while ia > 0 && ib > 0
      invariant 0 <= ia <= |labelsA| && 0 <= ib <= |labelsB| && |labelsA| - ia == |labelsB| - ib
      invariant ka[..|labelsA| - ia] == kb[..|labelsA| - ia]
    {
      ia, ib := ia - 1, ib - 1;
      ghost var k := |labelsA| - ia - 1;
      var la, lb := labelsA[ia], labelsB[ib];
      assert la == ka[k] && lb == kb[k];
      if la != lb {
        LexAtDifference(LabelLess, ka, kb, k);
        return if LabelLess(la, lb) then Less else Greater;
      }
      assert ka[..k + 1] == ka[..k] + [la] && kb[..k + 1] == kb[..k] + [lb];
    }
    LexAtDifference(LabelLess, ka, kb, |labelsA| - ia);
    return if |labelsA| < |labelsB| then Less else if |labelsA| == |labelsB| then Equal else Greater;
  }

  // ---------------------------------------------------------------- records

  datatype Record = Record(name: string, nextDomainName: string, typeBitMaps: seq<byte>) {
    /** `NsecRecord::matches` */
    predicate Matches(qname: string) { KeyOf(name) == KeyOf(qname) }

    /** What `NsecRecord::covers` decides: nothing when owner and next are one name. */
    predicate Covers(qname: string) {
      KeyOf(name) != KeyOf(nextDomainName) && Ring.Between(KeyLess, KeyOf(name), KeyOf(nextDomainName), KeyOf(qname))
    }
  }

  /** `NsecRecord::covers` */
  method RecordCovers(r: Record, qname: string) returns (b: bool)
    ensures b == r.Covers(qname)
  {
    KeyOrder();
    KeyIsName(r.name, r.nextDomainName);
    if Clean(r.name) == Clean(r.nextDomainName) { return false; }
    var ownerNext := CanonicalNameCmp(r.name, r.nextDomainName);
    var ownerQ := CanonicalNameCmp(r.name, qname);
    var qOwner := CanonicalNameCmp(qname, r.name);
    var qNext := CanonicalNameCmp(qname, r.nextDomainName);
    if ownerNext == Less {
      b := ownerQ == Less && qNext == Less;
    } else {
      b := qOwner == Greater || qNext == Less;
    }
  }

  /** `verify_nsec_nxdomain` */
  method VerifyNxDomain(qname: string, records: seq<Record>) returns (b: bool)
    ensures b <==> Denies(records, qname)
  {
    for i := 0 to |records|
      invariant !Denies(records[..i], qname)
    {
      DeniesNext(records, qname, i);
      var covers := RecordCovers(records[i], qname);
      if covers { return true; }
    }
    assert records[..|records|] == records;
    return false;
  }

  /** The first record at the name decides. */
  function DeniesType(qname: string, qtype: TypeBitMaps.Type, records: seq<Record>): bool {
    if records == [] then false
    else if records[0].Matches(qname) then TypeBitMaps.NoData(records[0].typeBitMaps, qtype)
    else DeniesType(qname, qtype, records[1..])
  }

  /** `verify_nsec_nodata` */
  method VerifyNoData(qname: string, qtype: TypeBitMaps.Type, records: seq<Record>) returns (b: bool)
    ensures b == DeniesType(qname, qtype, records)
  {
    assert records[0..] == records;
    for i := 0 to |records|
      invariant DeniesType(qname, qtype, records[i..]) == DeniesType(qname, qtype, records)
    {
      assert records[i..][1..] == records[i + 1..];
      if records[i].Matches(qname) {
        var hasType := TypeBitMaps.ContainsType(records[i].typeBitMaps, qtype);
        var hasCname := TypeBitMaps.ContainsType(records[i].typeBitMaps, TypeBitMaps.CNAME);
        return !hasType && (qtype == TypeBitMaps.CNAME || !hasCname);
      }
    }
    return false;
  }

  // ---------------------------------------------------------------- zones

  /** One record for every name of the zone, each naming the next name in canonical order. */
  ghost predicate FullRing(records: seq<Record>, zone: set<Key>)
  {
    && (forall i | 0 <= i < |records| :: Ring.Follows(KeyLess, zone, KeyOf(records[i].name), KeyOf(records[i].nextDomainName)))
    && (forall k {:trigger k in Owners(records)} | k in zone :: k in Owners(records))
    && (forall i, j | 0 <= i < j < |records| :: KeyOf(records[i].name) != KeyOf(records[j].name))
  }

  function Owners(records: seq<Record>): seq<Key> { seq(|records|, i requires 0 <= i < |records| => KeyOf(records[i].name)) }
  function Nexts(records: seq<Record>): seq<Key> { seq(|records|, i requires 0 <= i < |records| => KeyOf(records[i].nextDomainName)) }

  predicate Touches(r: Record, qname: string) { r.Matches(qname) || r.Covers(qname) }

  lemma RingOfRecords(records: seq<Record>, zone: set<Key>)
    requires FullRing(records, zone)
    ensures var (owners, nexts) := (Owners(records), Nexts(records));
      && (forall k | 0 <= k < |owners| :: Ring.Follows(KeyLess, zone, owners[k], nexts[k]))
      && (forall o <- zone :: o in owners)
      && (forall j, k | 0 <= j < k < |owners| :: owners[j] != owners[k])
  {
  }

  lemma TouchesByKey(records: seq<Record>, zone: set<Key>, j: nat, qname: string)
    requires FullRing(records, zone) && |zone| >= 2 && j < |records|
    ensures records[j].Matches(qname) <==> Owners(records)[j] == KeyOf(qname)
    ensures records[j].Covers(qname) <==> Ring.Between(KeyLess, Owners(records)[j], Nexts(records)[j], KeyOf(qname))
  {
    NextDiffers(records, zone);
  }

  /** In a zone of two names or more, every name is matched by exactly one record or covered by
    * exactly one, and matched exactly when it is in the zone. */
  lemma MatchedOrCoveredOnce(records: seq<Record>, zone: set<Key>, qname: string) returns (i: nat)
    requires FullRing(records, zone) && |zone| >= 2
    ensures i < |records| && (if KeyOf(qname) in zone then records[i].Matches(qname) else records[i].Covers(qname))
    ensures forall j | 0 <= j < |records| :: Touches(records[j], qname) ==> j == i
    ensures KeyOf(qname) in zone ==> forall j | 0 <= j < |records| :: !records[j].Covers(qname)
  {
    RingOfRecords(records, zone);
    KeyOrder();
    i := Ring.TouchedOnce(KeyLess, zone, Owners(records), Nexts(records), KeyOf(qname));
    TouchesByKey(records, zone, i, qname);
    forall j | 0 <= j < |records| ensures Touches(records[j], qname) ==> j == i {
      TouchesByKey(records, zone, j, qname);
    }
    if KeyOf(qname) in zone {
      forall j | 0 <= j < |records| ensures !records[j].Covers(qname) { TouchesByKey(records, zone, j, qname); }
    }
  }

  lemma NextDiffers(records: seq<Record>, zone: set<Key>)
    requires FullRing(records, zone) && |zone| >= 2
    ensures forall i | 0 <= i < |records| :: KeyOf(records[i].name) != KeyOf(records[i].nextDomainName)
  {
    KeyOrder();
    forall i | 0 <= i < |records| ensures KeyOf(records[i].name) != KeyOf(records[i].nextDomainName) {
      Ring.NextIsAnother(KeyLess, zone, KeyOf(records[i].name), KeyOf(records[i].nextDomainName));
    }
  }

  ghost predicate Denies(records: seq<Record>, qname: string) { exists r <- records :: r.Covers(qname) }

  lemma DeniesNext(records: seq<Record>, qname: string, i: nat)
    requires i < |records|
    ensures Denies(records[..i + 1], qname) <==> Denies(records[..i], qname) || records[i].Covers(qname)
    ensures records[i].Covers(qname) ==> Denies(records, qname)
  {
    assert records[..i + 1] == records[..i] + [records[i]];
    assert records[i] in records && records[i] in records[..i + 1];
    assert forall r <- records[..i] :: r in records[..i + 1];
  }

  lemma DeniesByIndex(records: seq<Record>, qname: string)
    ensures Denies(records, qname) <==> exists i :: 0 <= i < |records| && records[i].Covers(qname)
  {
    if i :| 0 <= i < |records| && records[i].Covers(qname) { assert records[i] in records; }
  }

  lemma SingleNameCoversNothing(records: seq<Record>, zone: set<Key>, j: nat, qname: string)
    requires FullRing(records, zone) && |zone| < 2 && j < |records|
    ensures !records[j].Covers(qname)
  {
    Ring.NextIsSelf(KeyLess, zone, KeyOf(records[j].name), KeyOf(records[j].nextDomainName));
  }

  /** A full ring denies exactly the absent names when it has two records or more; the single record
    * of a one-name zone denies nothing. */
  lemma DeniedExactlyWhenAbsent(records: seq<Record>, zone: set<Key>, qname: string)
    requires FullRing(records, zone)
    ensures Denies(records, qname) <==> KeyOf(qname) !in zone && |zone| >= 2
  {
    DeniesByIndex(records, qname);
    if |zone| >= 2 {
      var i := MatchedOrCoveredOnce(records, zone, qname);
    } else {
      forall j | 0 <= j < |records| ensures !records[j].Covers(qname) {
        SingleNameCoversNothing(records, zone, j, qname);
      }
    }
  }

  // ---------------------------------------------------------------- the order of the standard

  predicate OctetLess(a: byte, b: byte) { a < b }
  predicate WireLabelLess(a: Label, b: Label) { LexLess(OctetLess, a, b) }

  /** Canonical order: labels from the top-level one down, each by its octets. */
  predicate WireLess(m: Name, n: Name) { LexLess(WireLabelLess, Reverse(m), Reverse(n)) }

  /** What the code compares for a name. */
  function TextKey(n: Name): Key { KeyOf(Show(n)) }

  lemma TextKeyInjective(m: Name, n: Name)
    requires IsName(m) && IsName(n)
    ensures TextKey(m) == TextKey(n) <==> m == n
  {
    if TextKey(m) == TextKey(n) {
      KeyIsName(Show(m), Show(n));
      TrimmedLower(m);
      TrimmedLower(n);
      TextDeterminesName(m, n);
    }
  }

  lemma TrimmedLower(n: Name)
    ensures Clean(Show(n)) == TrimDots(Show(n))
  {
    ShowNoUpper(n);
    TrimDotsResult(Show(n));
  }

  lemma {:induction false} LabelOrderAgrees(l: Label, m: Label)
    ensures LexLess(CharLess, Chars(l), Chars(m)) <==> LexLess(OctetLess, l, m)
  {
    if l != [] && m != [] && l[0] == m[0] {
      assert Chars(l)[1..] == Chars(l[1..]) && Chars(m)[1..] == Chars(m[1..]);
      LabelOrderAgrees(l[1..], m[1..]);
    }
  }

  lemma SameText(l: Label, m: Label)
    ensures Chars(l) == Chars(m) <==> l == m
  {
    if Chars(l) == Chars(m) {
      forall i | 0 <= i < |l| ensures l[i] == m[i] { assert Chars(l)[i] == Chars(m)[i]; }
    }
  }

  lemma {:induction false} NameOrderAgrees(a: seq<Label>, b: seq<Label>)
    ensures LexLess(LabelLess, Texts(a), Texts(b)) <==> LexLess(WireLabelLess, a, b)
  {
    if a != [] && b != [] {
      SameText(a[0], b[0]);
      LabelOrderAgrees(a[0], b[0]);
      assert Texts(a)[1..] == Texts(a[1..]) && Texts(b)[1..] == Texts(b[1..]);
      NameOrderAgrees(a[1..], b[1..]);
    }
  }

  /** The key of a name without escapes; the root's text has one empty label. */
  lemma PlainKey(n: Name)
    requires IsName(n) && AllPlain(n)
    ensures TextKey(n) == if n == [] then [""] else Texts(Reverse(n))
  {
    if n == [] {
      SplitUndotted("");
      assert TextKey(n) == Reverse([""]);
    } else {
      PlainSplit(n);
      assert Reverse(Texts(n)) == Texts(Reverse(n));
    }
  }

  lemma RootKeyLeast(key: Key)
    requires key != [] && key[0] != ""
    ensures KeyLess([""], key) && !KeyLess(key, [""])
  {
    assert LabelLess("", key[0]) && !LabelLess(key[0], "");
  }

  /** On names without escapes the code's order is that of the standard. */
  lemma TextOrderIsWireOrder(m: Name, n: Name)
    requires IsName(m) && IsName(n) && AllPlain(m) && AllPlain(n)
    ensures KeyLess(TextKey(m), TextKey(n)) <==> WireLess(m, n)
  {
    PlainKey(m);
    PlainKey(n);
    if m != [] && n != [] {
      NameOrderAgrees(Reverse(m), Reverse(n));
    } else if n != [] {
      RootKeyLeast(TextKey(n));
    } else if m != [] {
      RootKeyLeast(TextKey(m));
    }
  }

  // ---------------------------------------------------------------- NODATA

  /** The types present at each name of a zone. */
  type Contents = map<Name, set<TypeBitMaps.Type>>

  /** Records of names of the zone, any of them, with the encoding of their types. */
  ghost predicate TypesFrom(records: seq<Record>, owners: seq<Name>, zone: Contents)
  {
    && |owners| == |records| && (forall n <- zone :: IsName(n))
    && (forall i | 0 <= i < |records| :: records[i].name == Show(owners[i]) && owners[i] in zone)
    && (forall i | 0 <= i < |records| :: records[i].typeBitMaps == TypeBitMaps.Encode(zone[owners[i]]))
  }

  /** The zone has the name without the type and, unless the alias type itself is asked for, without an alias. */
  predicate LacksType(zone: Contents, n: Name, qtype: TypeBitMaps.Type) {
    n in zone && TypeBitMaps.Lacks(zone[n], qtype)
  }

  lemma MatchesOwner(records: seq<Record>, owners: seq<Name>, zone: Contents, n: Name, i: nat)
    requires TypesFrom(records, owners, zone) && IsName(n) && i < |records|
    ensures records[i].Matches(Show(n)) <==> owners[i] == n
  {
    TextKeyInjective(owners[i], n);
  }

  /** Over any records of the zone, however few and in any order, a type is denied at a name exactly when one
    * of them is the name's and the zone has the name without the type: for every name, escapes or not. */
  lemma {:induction false} TypeDeniedExactlyWhenMatched(records: seq<Record>, owners: seq<Name>, zone: Contents,
        n: Name, qtype: TypeBitMaps.Type)
    requires TypesFrom(records, owners, zone) && IsName(n)
    ensures DeniesType(Show(n), qtype, records) <==> n in owners && LacksType(zone, n, qtype)
    decreases |records|
  {
    if records == [] {
      assert owners == [];
    } else {
      MatchesOwner(records, owners, zone, n, 0);
      TypeBitMaps.NoDataIsLacking(zone[owners[0]], qtype);
      TypeDeniedExactlyWhenMatched(records[1..], owners[1..], zone, n, qtype);
      assert owners == [owners[0]] + owners[1..];
    }
  }

  /** With a record for every name of the zone, exactly when the zone has the name without the type. */
  lemma TypeDeniedExactlyWhenAbsent(records: seq<Record>, owners: seq<Name>, zone: Contents, n: Name,
        qtype: TypeBitMaps.Type)
    requires TypesFrom(records, owners, zone) && (forall m <- zone :: m in owners) && IsName(n)
    ensures DeniesType(Show(n), qtype, records) <==> LacksType(zone, n, qtype)
  {
    TypeDeniedExactlyWhenMatched(records, owners, zone, n, qtype);
  }
}
