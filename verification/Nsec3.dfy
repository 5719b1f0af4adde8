/** NSEC3 denial of existence (RFC 5155; src/dns/dnssec.rs), against zones of names on the wire.
  *
  * The salted, iterated digest is a parameter: any function of the canonical wire form, salt and
  * iteration count. Collision freedom is a hypothesis of the theorems. The verifiers get the name of the
  * query as the text its parser prints.
  */
module Nsec3 {
  import opened Bytes
  import opened Text
  import opened Wrappers
  import opened WireNames
  import opened NameText
  import opened QueryWire
  import opened CanonicalName
  import Ring
  import TypeBitMaps

  type Hash = seq<byte>

  type Digest = (seq<byte>, seq<byte>, nat) -> Hash

  datatype Record = Record(
    algorithm: nat, optOut: bool, iterations: nat, salt: seq<byte>,
    ownerHash: Hash, nextHash: Hash, typeBitMaps: seq<byte>)

  predicate ByteLess(x: byte, y: byte) { x < y }

  predicate HashLess(a: Hash, b: Hash) { LexLess(ByteLess, a, b) }

  lemma HashOrder()
    ensures StrictTotal(HashLess)
  {
    forall a: Hash, b: Hash ensures (HashLess(a, b) || HashLess(b, a) || a == b) && !HashLess(a, a) {
      LexConnected(ByteLess, a, b);
    }
    forall a: Hash, b: Hash, c: Hash | HashLess(a, b) && HashLess(b, c) ensures HashLess(a, c) {
      LexTransitive(ByteLess, a, b, c);
    }
  }

  // ---------------------------------------------------------------- the code

  /** `hash_nsec3_name`: algorithm 1 only, at most 150 iterations. */
  function HashName(digest: Digest, domain: string, algorithm: nat, iterations: nat, salt: seq<byte>): Option<Hash> {
    if algorithm != 1 || iterations > 150 then None else Some(digest(Canonical(LabelsRead(domain)), salt, iterations))
  }

  method HashNsec3Name(digest: Digest, domain: string, algorithm: nat, iterations: nat, salt: seq<byte>)
    returns (r: Option<Hash>)
    ensures r == HashName(digest, domain, algorithm, iterations, salt)
  {
    if algorithm != 1 { return None; }
    if iterations > 150 { return None; }
    var wire := CanonicalWireName(domain);
    return Some(digest(wire, salt, iterations));
  }

  /** `nsec3_hash_covers` */
  predicate HashCovers(owner: Hash, next: Hash, target: Hash) {
    owner != [] && next != [] && target != [] && Ring.Between(HashLess, owner, next, target)
  }

  /** Without owner, next or target hash nothing is covered; with them, what lies strictly between on the ring, all but
    * the owner if it is its own next one. */
  lemma CoversIs(owner: Hash, next: Hash, target: Hash)
    ensures HashCovers(owner, next, target) <==>
            && owner != [] && next != [] && target != []
            && if HashLess(owner, next) then HashLess(owner, target) && HashLess(target, next)
               else HashLess(owner, target) || HashLess(target, next)
  {
  }

  predicate Covered(records: seq<Record>, h: Hash) {
    exists r <- records :: HashCovers(r.ownerHash, r.nextHash, h)
  }

  /** The cover test of the search: its opt-out alternative repeats the plain one. */
  predicate CoveredOrOptedOut(records: seq<Record>, h: Hash) {
    exists r <- records :: HashCovers(r.ownerHash, r.nextHash, h) || (r.optOut && HashCovers(r.ownerHash, r.nextHash, h))
  }

  lemma OptOutRepeats(records: seq<Record>, h: Hash)
    ensures CoveredOrOptedOut(records, h) <==> Covered(records, h)
  {
  }

  predicate Matched(records: seq<Record>, h: Hash) {
    exists r <- records :: r.ownerHash == h
  }

  /** The labels the closest-encloser search walks through. */
  function SearchLabels(qname: string): seq<string> { Split(Lower(TrimDots(qname))) }

  /** A name hashed under the parameters of the first record. */
  function FirstHash(digest: Digest, domain: string, records: seq<Record>): Option<Hash>
    requires records != []
  {
    HashName(digest, domain, records[0].algorithm, records[0].iterations, records[0].salt)
  }

  ghost predicate Denies(digest: Digest, qname: string, records: seq<Record>)
  {
    && records != [] && FirstHash(digest, qname, records).Some?
    && (Covered(records, FirstHash(digest, qname, records).value) || exists i :: EncloserAt(digest, qname, records, i))
  }

  predicate EncloserAt(digest: Digest, qname: string, records: seq<Record>, i: int)
  {
    var labels := SearchLabels(qname);
    && records != [] && 1 <= i < |labels|
    && var ce := FirstHash(digest, Join(labels[i..]), records);
    && var ncn := FirstHash(digest, Join(labels[i - 1..]), records);
    && ce.Some? && ncn.Some? && Matched(records, ce.value) && Covered(records, ncn.value)
  }

  /** `verify_nsec3_nxdomain` */
  method VerifyNxDomain(digest: Digest, qname: string, records: seq<Record>) returns (r: bool)
    ensures r <==> Denies(digest, qname, records)
  {
    if records == [] { return false; }
    var first := records[0];
    var qnameHash := HashNsec3Name(digest, qname, first.algorithm, first.iterations, first.salt);
    if qnameHash.None? { return false; }
    if Covered(records, qnameHash.value) { return true; }

    var labels := SearchLabels(qname);
    for i := 1 to |labels|
      invariant forall k :: k < i ==> !EncloserAt(digest, qname, records, k)
    {
      var ceHash := HashNsec3Name(digest, Join(labels[i..]), first.algorithm, first.iterations, first.salt);
      var ncnHash := HashNsec3Name(digest, Join(labels[i - 1..]), first.algorithm, first.iterations, first.salt);
      if ceHash.None? || ncnHash.None? { continue; }
      var ceMatched := Matched(records, ceHash.value);
      var ncnCovered := CoveredOrOptedOut(records, ncnHash.value);
      OptOutRepeats(records, ncnHash.value);
      if ceMatched && ncnCovered {
        assert EncloserAt(digest, qname, records, i);
        return true;
      }
    }
    return false;
  }

  /** Nothing is denied under parameters other than SHA-1 with at most 150 further iterations (RFC 9276). */
  lemma DenialNeedsParameters(digest: Digest, qname: string, qtype: TypeBitMaps.Type, records: seq<Record>)
    requires Denies(digest, qname, records) || DeniesType(digest, qname, qtype, records)
    ensures records != [] && records[0].algorithm == 1 && records[0].iterations <= 150
  {
  }

  // ---------------------------------------------------------------- zones

  predicate IsSuffix(s: Name, n: Name) { |s| <= |n| && n[|n| - |s|..] == s }

  /** A zone: names at or below its apex, closed under ancestors up to the apex. */
  ghost predicate IsZone(zone: set<Name>, apex: Name)
  {
    && (forall n <- zone :: IsName(n) && IsSuffix(apex, n))
    && (forall n <- zone, s: Name :: IsSuffix(s, n) && |s| >= |apex| ==> s in zone)
  }

  /** The canonical wire form of a name. */
  function Wire(n: Name): seq<byte> { Canonical(Texts(n)) }

  ghost predicate CollisionFree(h: seq<byte> -> Hash)
  {
    forall v: seq<byte>, w: seq<byte> :: h(v) != [] && (h(v) == h(w) ==> v == w)
  }

  /** The wire forms of a zone's names. */
  ghost function Wires(zone: set<Name>): set<seq<byte>> { set n <- zone :: Wire(n) }

  ghost function Hashes(h: seq<byte> -> Hash, wires: set<seq<byte>>): set<Hash> { set w <- wires :: h(w) }

  ghost function HashUnder(digest: Digest, salt: seq<byte>, iterations: nat): seq<byte> -> Hash {
    (w: seq<byte>) => digest(w, salt, iterations)
  }

  ghost function HashOf(digest: Digest, r: Record): seq<byte> -> Hash { HashUnder(digest, r.salt, r.iterations) }

  /** Records of the hash ring of some wire forms, under the parameters of the first one. */
  ghost predicate FromRing(digest: Digest, records: seq<Record>, wires: set<seq<byte>>)
  {
    && records != [] && records[0].algorithm == 1 && records[0].iterations <= 150
    && CollisionFree(HashOf(digest, records[0]))
    && forall r <- records :: Ring.Follows(HashLess, Hashes(HashOf(digest, records[0]), wires), r.ownerHash, r.nextHash)
  }

  /** Every wire form has its record. */
  ghost predicate FullRing(digest: Digest, records: seq<Record>, wires: set<seq<byte>>)
  {
    && FromRing(digest, records, wires)
    && forall w {:trigger Matched(records, HashOf(digest, records[0])(w))} | w in wires :: Matched(records, HashOf(digest, records[0])(w))
  }

  lemma InHashes(h: seq<byte> -> Hash, wires: set<seq<byte>>, w: seq<byte>)
    requires CollisionFree(h)
    ensures h(w) in Hashes(h, wires) <==> w in wires
  {
  }

  lemma MatchedInZone(digest: Digest, records: seq<Record>, wires: set<seq<byte>>, w: seq<byte>)
    requires FromRing(digest, records, wires) && Matched(records, HashOf(digest, records[0])(w))
    ensures w in wires
  {
    InHashes(HashOf(digest, records[0]), wires, w);
  }

  lemma CoveredOutsideZone(digest: Digest, records: seq<Record>, wires: set<seq<byte>>, w: seq<byte>)
    requires FromRing(digest, records, wires) && Covered(records, HashOf(digest, records[0])(w))
    ensures w !in wires
  {
    InHashes(HashOf(digest, records[0]), wires, w);
  }

  function Owners(records: seq<Record>): seq<Hash> {
    seq(|records|, i requires 0 <= i < |records| => records[i].ownerHash)
  }

  function Nexts(records: seq<Record>): seq<Hash> {
    seq(|records|, i requires 0 <= i < |records| => records[i].nextHash)
  }

  lemma MatchedIsOwner(records: seq<Record>, o: Hash)
    ensures Matched(records, o) <==> o in Owners(records)
  {
    var owners := Owners(records);
    if Matched(records, o) {
      var k :| 0 <= k < |records| && records[k].ownerHash == o;
      assert owners[k] in owners;
    }
    if o in owners {
      var k :| 0 <= k < |owners| && owners[k] == o;
      assert records[k] in records;
    }
  }

  /** An element outside the ring is covered by the record of the owner before it. */
  lemma OutsideRingCovered(records: seq<Record>, ring: set<Hash>, x: Hash)
    requires ring != {} && x !in ring && x != [] && [] !in ring
    requires forall r <- records :: Ring.Follows(HashLess, ring, r.ownerHash, r.nextHash)
    requires forall o <- ring :: Matched(records, o)
    ensures Covered(records, x)
  {
    var owners, nexts := Owners(records), Nexts(records);
    forall o <- ring ensures o in owners { MatchedIsOwner(records, o); }
    forall k | 0 <= k < |owners| ensures Ring.Follows(HashLess, ring, owners[k], nexts[k]) {
      assert records[k] in records;
    }
    HashOrder();
    var i := Ring.SomeRecordCovers(HashLess, ring, owners, nexts, x);
    assert records[i] in records;
  }

  lemma AbsentCovered(digest: Digest, records: seq<Record>, wires: set<seq<byte>>, w: seq<byte>)
    requires FullRing(digest, records, wires) && w !in wires
    ensures Covered(records, HashOf(digest, records[0])(w))
  {
    var h := HashOf(digest, records[0]);
    InHashes(h, wires, w);
    assert records[0] in records;
    OutsideRingCovered(records, Hashes(h, wires), h(w));
  }

  /** With the full ring each wire form is matched by a record or covered by one, never both. */
  lemma MatchOrCover(digest: Digest, records: seq<Record>, wires: set<seq<byte>>, w: seq<byte>)
    requires FullRing(digest, records, wires)
    ensures w in wires <==> Matched(records, HashOf(digest, records[0])(w))
    ensures w !in wires <==> Covered(records, HashOf(digest, records[0])(w))
  {
    if Matched(records, HashOf(digest, records[0])(w)) { MatchedInZone(digest, records, wires, w); }
    if Covered(records, HashOf(digest, records[0])(w)) { CoveredOutsideZone(digest, records, wires, w); }
    if w !in wires { AbsentCovered(digest, records, wires, w); }
  }

  /** The wire form decides membership. */
  lemma WireInZone(zone: set<Name>, apex: Name, n: Name)
    requires IsZone(zone, apex) && IsName(n)
    ensures Wire(n) in Wires(zone) <==> n in zone
  {
    if Wire(n) in Wires(zone) {
      var m :| m in zone && Wire(m) == Wire(n);
      CanonicalInjective(Texts(n), m);
      TextsInjective(m, n);
    }
  }

  lemma WireOfMember(zone: set<Name>, n: Name)
    requires n in zone
    ensures Wire(n) in Wires(zone)
  {
  }

  lemma WiresOfOne(n: Name)
    ensures Wires({n}) == {Wire(n)}
  {
  }

  // ---------------------------------------------------------------- what the search reads

  /** A lower-case text that ends in neither a dot nor white space. */
  ghost predicate PlainText(c: string) { c != "" && c[|c| - 1] != '.' && SpaceBefore(c) == 0 && Lower(c) == c }

  lemma CleanText(c: string)
    requires PlainText(c)
    ensures TrimDots(Trim(c)) == TrimStart(c) != "" && Lower(TrimStart(c)) == TrimStart(c)
  {
    var p := TrimStartDrops(c);
    SpaceBeforeSuffix(c, p);
    TrimStartLower(c);
    NothingAtEnd(c[p..], c);
  }

  lemma NothingAtEnd(t: string, c: string)
    requires t != "" && c != "" && EndsWith(c, t) && c[|c| - 1] != '.' && SpaceBefore(t) == 0
    ensures TrimDots(TrimEnd(t)) == t
  {
    assert t[|t| - 1] == c[|c| - 1];
  }

  /** What trimming leaves of the first label and nothing else. */
  lemma ReadOfText(c: string)
    requires PlainText(c)
    ensures LabelsRead(c) == [TrimStart(Split(c)[0])] + Split(c)[1..]
  {
    CleanText(c);
    TrimStartOfFirstLabel(c);
  }

  /** White space holds no dot, so trimming stays inside the first label. */
  lemma {:induction false} TrimStartOfFirstLabel(c: string)
    requires c != "" && SpaceBefore(c) == 0
    ensures Split(TrimStart(c)) == [TrimStart(Split(c)[0])] + Split(c)[1..]
    decreases |c|
  {
    var k, n := FirstDot(c), SpaceAt(c);
    assert Split(c)[0] == c[..k];
    assert SpaceAt(c[..k]) == n;
    if n > 0 {
      assert c != c[..n] || SpaceBefore(c) != 0;
      SpaceBeforeSuffix(c, n);
      TrimStartOfFirstLabel(c[n..]);
      SplitAfter(c, n);
    } else {
      assert Split(c) == [c[..k]] + Split(c)[1..];
    }
  }

  /** Dropping the beginning of the first label, when others follow. */
  lemma SplitAfterDotted(c: string, l: string, rest: string, n: nat)
    requires c == l + "." + rest && n <= |l| && DotFree(l)
    ensures Split(c[n..]) == [Split(c)[0][n..]] + Split(c)[1..]
  {
    assert c[n..] == l[n..] + "." + rest;
    SplitDotted(c, l, rest);
    SplitDotted(c[n..], l[n..], rest);
    assert ([l] + Split(rest))[1..] == Split(rest);
  }

  /** Dropping the beginning of the first label. */
  lemma SplitAfter(c: string, n: nat)
    requires n <= FirstDot(c)
    ensures Split(c[n..]) == [Split(c)[0][n..]] + Split(c)[1..]
  {
    var k := FirstDot(c);
    if k == |c| {
      SplitUndotted(c);
      SplitUndotted(c[n..]);
    } else {
      CutAtDot(c, k);
      SplitAfterDotted(c, c[..k], c[k + 1..], n);
    }
  }

  lemma PlainSuffix(c: string, t: string)
    requires PlainText(c) && EndsWith(c, t) && t != ""
    ensures PlainText(t)
  {
    var p := |c| - |t|;
    assert t == c[p..];
    SpaceBeforeSuffix(c, p);
    assert t[|t| - 1] == c[|c| - 1];
    assert Lower(t) == t;
  }

  lemma SearchText(c: string, labels: seq<string>, i: nat)
    requires PlainText(c) && i < |labels| && c == Join(labels) && forall j | 0 <= j < |labels| :: DotFree(labels[j])
    ensures LabelsRead(Join(labels[i..])) == [TrimStart(labels[i])] + labels[i + 1..]
  {
    var t := Join(labels[i..]);
    JoinEnd(c, labels, i);
    PlainSuffix(c, t);
    ReadOfText(t);
    assert labels[i..][0] == labels[i] && labels[i..][1..] == labels[i + 1..];
  }

  /** What the search reads for the labels of `n` from the i-th on: white space that begins them is lost. */
  function SuffixRead(n: Name, i: nat): seq<string>
    requires i < |n|
  {
    [TrimStart(Chars(n[i]))] + Texts(n)[i + 1..]
  }

  lemma PlainSplits(c: string, labels: seq<string>)
    requires PlainText(c) && labels != [] && c == Join(labels) && forall j | 0 <= j < |labels| :: DotFree(labels[j])
    ensures SearchLabels(c) == labels
  {
    SplitJoin(labels);
  }

  lemma SearchSplits(n: Name)
    requires IsName(n) && ReadsRight(n) && n != []
    ensures PlainText(Show(n)) && Show(n) == Join(Texts(n)) && SearchLabels(Show(n)) == Texts(n)
    ensures forall j | 0 <= j < |n| :: DotFree(Texts(n)[j])
  {
    ReadsRightText(n);
    PlainSplits(Show(n), Texts(n));
  }

  lemma SearchReads(n: Name, i: nat)
    requires IsName(n) && ReadsRight(n) && i < |n|
    ensures SearchLabels(Show(n)) == Texts(n) && LabelsRead(Join(Texts(n)[i..])) == SuffixRead(n, i)
  {
    SearchSplits(n);
    SearchText(Show(n), Texts(n), i);
  }

  lemma OctalTexts(n: Name)
    ensures forall i | 0 <= i < |n| :: Octal(Texts(n)[i])
  {
  }

  lemma SuffixReadOctal(n: Name, i: nat)
    requires i < |n|
    ensures forall j | 0 <= j < |SuffixRead(n, i)| :: Octal(SuffixRead(n, i)[j])
  {
    OctalTrimStart(Chars(n[i]));
    OctalTexts(n);
  }

  /** Without white space to lose it is the ancestor of `n` with the labels from the i-th on. */
  lemma SuffixReadRight(n: Name, i: nat)
    requires i < |n| && !BeginsBlank(n[i])
    ensures SuffixRead(n, i) == Texts(n[i..])
  {
  }

  lemma {:induction false} NameSuffix(n: Name, i: nat)
    requires IsName(n) && i <= |n|
    ensures IsName(n[i..])
  {
    WireLengthSuffix(n, i);
  }

  lemma {:induction false} WireLengthSuffix(n: Name, i: nat)
    requires i <= |n|
    ensures WireLength(n[i..]) <= WireLength(n)
  {
    if i > 0 {
      WireLengthSuffix(n[1..], i - 1);
      assert n[1..][i - 1..] == n[i..];
    } else {
      assert n[0..] == n;
    }
  }

  lemma EncloserByHash(digest: Digest, qname: string, labels: seq<string>, records: seq<Record>, i: nat, ce: Hash,
        ncn: Hash)
    requires SearchLabels(qname) == labels && 1 <= i < |labels| && records != []
    requires FirstHash(digest, Join(labels[i..]), records) == Some(ce) &&
             FirstHash(digest, Join(labels[i - 1..]), records) == Some(ncn)
    ensures EncloserAt(digest, qname, records, i) <==> Matched(records, ce) && Covered(records, ncn)
  {
  }

  /** What the search hashes for the ancestor that begins with the i-th label. */
  lemma SuffixHash(digest: Digest, n: Name, records: seq<Record>, i: nat)
    returns (labels: seq<string>, h: Hash)
    requires IsName(n) && ReadsRight(n) && i < |n|
    requires records != [] && records[0].algorithm == 1 && records[0].iterations <= 150
    ensures SearchLabels(Show(n)) == labels && |labels| == |n|
    ensures FirstHash(digest, Join(labels[i..]), records) == Some(h)
    ensures h == HashOf(digest, records[0])(Canonical(SuffixRead(n, i)))
  {
    SearchReads(n, i);
    labels := Texts(n);
    h := HashOf(digest, records[0])(Canonical(SuffixRead(n, i)));
  }

  /** What the i-th step hashes. */
  lemma StepHashes(digest: Digest, n: Name, records: seq<Record>, i: nat)
    returns (labels: seq<string>, ce: Hash, ncn: Hash)
    requires IsName(n) && ReadsRight(n) && 1 <= i < |n|
    requires records != [] && records[0].algorithm == 1 && records[0].iterations <= 150
    ensures SearchLabels(Show(n)) == labels && |labels| == |n|
    ensures FirstHash(digest, Join(labels[i..]), records) == Some(ce)
    ensures FirstHash(digest, Join(labels[i - 1..]), records) == Some(ncn)
    ensures ce == HashOf(digest, records[0])(Canonical(SuffixRead(n, i)))
    ensures ncn == HashOf(digest, records[0])(Canonical(SuffixRead(n, i - 1)))
  {
    labels, ce := SuffixHash(digest, n, records, i);
    var below: nat := i - 1;
    var same, h := SuffixHash(digest, n, records, below);
    ncn := h;
  }

  /** The i-th step of the search succeeds exactly if it matches one reading and covers the next. */
  lemma EncloserIsRead(digest: Digest, n: Name, records: seq<Record>, i: nat)
    requires IsName(n) && ReadsRight(n) && 1 <= i < |n|
    requires records != [] && records[0].algorithm == 1 && records[0].iterations <= 150
    ensures var h := HashOf(digest, records[0]);
      var (ce, ncn) := (h(Canonical(SuffixRead(n, i))), h(Canonical(SuffixRead(n, i - 1))));
      EncloserAt(digest, Show(n), records, i) <==> Matched(records, ce) && Covered(records, ncn)
  {
    var labels, ce, ncn := StepHashes(digest, n, records, i);
    EncloserByHash(digest, Show(n), labels, records, i, ce, ncn);
  }

  /** The search takes no step for the root. */
  lemma RootNotSearched(digest: Digest, records: seq<Record>, i: int)
    ensures !EncloserAt(digest, Show([]), records, i)
  {
    SplitUndotted("");
  }

  // ---------------------------------------------------------------- when the answer is right

  /** No label between the first and the last begins with white space. */
  predicate InnerUnblank(n: Name) { forall k | 1 <= k < |n| - 1 :: !BeginsBlank(n[k]) }

  /** The octets of a name the verifier judges rightly: none needs an escape, the name neither begins nor
    * ends with white space, and no label between the first and the last begins with it. */
  predicate Trustworthy(n: Name) { ReadsRight(n) && InnerUnblank(n) }

  lemma DirectHash(digest: Digest, n: Name, records: seq<Record>)
    requires IsName(n) && ReadsRight(n)
    requires records != [] && records[0].algorithm == 1 && records[0].iterations <= 150
    ensures FirstHash(digest, Show(n), records) == Some(HashOf(digest, records[0])(Wire(n)))
  {
    ReadExactlyWhenRight(n);
    CanonicalIsWireName(n);
  }

  /** Completeness: with the full ring an absent name that is read right is denied. */
  lemma AbsentIsDenied(digest: Digest, n: Name, records: seq<Record>, zone: set<Name>, apex: Name)
    requires IsZone(zone, apex) && FullRing(digest, records, Wires(zone)) && IsName(n) && ReadsRight(n) && n !in zone
    ensures Denies(digest, Show(n), records)
  {
    WireInZone(zone, apex, n);
    AbsentCovered(digest, records, Wires(zone), Wire(n));
    DirectHash(digest, n, records);
  }

  /** The labels read for an ancestor are those of a name of the zone only if there are as many. */
  lemma ReadInZone(n: Name, i: nat, zone: set<Name>, apex: Name)
    requires IsZone(zone, apex) && i < |n| && Canonical(SuffixRead(n, i)) in Wires(zone)
    ensures |apex| <= |n| - i
  {
    var m :| m in zone && Wire(m) == Canonical(SuffixRead(n, i));
    SuffixReadOctal(n, i);
    CanonicalInjective(SuffixRead(n, i), m);
    assert IsSuffix(apex, m);
  }

  lemma EncloserInZone(digest: Digest, n: Name, records: seq<Record>, wires: set<seq<byte>>, i: nat)
    requires FromRing(digest, records, wires) && IsName(n) && ReadsRight(n) && 1 <= i < |n| &&
             EncloserAt(digest, Show(n), records, i)
    ensures Canonical(SuffixRead(n, i)) in wires && Canonical(SuffixRead(n, i - 1)) !in wires
  {
    EncloserIsRead(digest, n, records, i);
    MatchedInZone(digest, records, wires, Canonical(SuffixRead(n, i)));
    CoveredOutsideZone(digest, records, wires, Canonical(SuffixRead(n, i - 1)));
  }

  /** Where an ancestor of a name of the zone is found, its child towards the name is there, too. */
  lemma ChildInZone(n: Name, i: nat, zone: set<Name>, apex: Name)
    requires IsZone(zone, apex) && n in zone && 1 <= i < |n| && !BeginsBlank(n[i - 1])
    requires Canonical(SuffixRead(n, i)) in Wires(zone)
    ensures Canonical(SuffixRead(n, i - 1)) in Wires(zone)
  {
    ReadInZone(n, i, zone, apex);
    AncestorInZone(n, i - 1, zone, apex);
    WireOfMember(zone, n[i - 1..]);
    SuffixReadRight(n, i - 1);
  }

  lemma AncestorInZone(n: Name, i: nat, zone: set<Name>, apex: Name)
    requires IsZone(zone, apex) && n in zone && i <= |n| && |apex| <= |n| - i
    ensures n[i..] in zone
  {
    assert IsSuffix(n[i..], n);
  }

  lemma DenialFound(digest: Digest, n: Name, records: seq<Record>, wires: set<seq<byte>>) returns (i: nat)
    requires FromRing(digest, records, wires) && Denies(digest, Show(n), records) && IsName(n) && ReadsRight(n)
    ensures i == 0 ==> Wire(n) !in wires
    ensures i > 0 ==> i < |n| && Canonical(SuffixRead(n, i)) in wires && Canonical(SuffixRead(n, i - 1)) !in wires
  {
    DirectHash(digest, n, records);
    if Covered(records, FirstHash(digest, Show(n), records).value) {
      CoveredOutsideZone(digest, records, wires, Wire(n));
      i := 0;
    } else {
      i :| EncloserAt(digest, Show(n), records, i);
      if n == [] { RootNotSearched(digest, records, i); }
      SearchReads(n, 0);
      EncloserInZone(digest, n, records, wires, i);
    }
  }

  lemma UnblankBelowLast(n: Name, i: nat)
    requires Trustworthy(n) && i + 1 < |n|
    ensures !BeginsBlank(n[i])
  {
  }

  /** Neither the name nor an ancestor of it that is missing below an existing one is in the zone. */
  lemma AbsentBelow(n: Name, i: nat, zone: set<Name>, apex: Name)
    requires IsZone(zone, apex) && Trustworthy(n) && i < |n| + 1
    requires i == 0 ==> Wire(n) !in Wires(zone)
    requires i > 0 ==> i < |n| && Canonical(SuffixRead(n, i)) in Wires(zone) && Canonical(SuffixRead(n, i - 1)) !in Wires(zone)
    ensures n !in zone
  {
    if i == 0 {
      if n in zone { WireOfMember(zone, n); }
    } else {
      AbsentBelowChild(n, i, zone, apex);
    }
  }

  lemma AbsentBelowChild(n: Name, i: nat, zone: set<Name>, apex: Name)
    requires IsZone(zone, apex) && Trustworthy(n) && 1 <= i < |n|
    requires Canonical(SuffixRead(n, i)) in Wires(zone) && Canonical(SuffixRead(n, i - 1)) !in Wires(zone)
    ensures n !in zone
  {
    if n in zone {
      UnblankBelowLast(n, i - 1);
      ChildInZone(n, i, zone, apex);
    }
  }

  /** Soundness: records of the zone's ring never deny a name of the zone that is trustworthy. */
  lemma DeniedIsAbsent(digest: Digest, n: Name, records: seq<Record>, zone: set<Name>, apex: Name)
    requires IsZone(zone, apex) && FromRing(digest, records, Wires(zone)) && Denies(digest, Show(n), records)
    requires IsName(n) && Trustworthy(n)
    ensures n !in zone
  {
    var i := DenialFound(digest, n, records, Wires(zone));
    AbsentBelow(n, i, zone, apex);
  }

  /** With the full ring, denial and presence are opposites for trustworthy names. */
  lemma DeniedExactlyWhenAbsent(digest: Digest, n: Name, records: seq<Record>, zone: set<Name>, apex: Name)
    requires IsZone(zone, apex) && FullRing(digest, records, Wires(zone)) && IsName(n) && Trustworthy(n)
    ensures Denies(digest, Show(n), records) <==> n !in zone
  {
    if Denies(digest, Show(n), records) {
      DeniedIsAbsent(digest, n, records, zone, apex);
    } else if n !in zone {
      AbsentIsDenied(digest, n, records, zone, apex);
    }
  }

  // ---------------------------------------------------------------- when it is not

  lemma SingletonZone(n: Name)
    requires IsName(n)
    ensures IsZone({n}, n)
  {
    forall m <- {n}, s: Name | IsSuffix(s, m) && |s| >= |n| ensures s in {n} {
      assert n[0..] == n;
    }
  }

  /** A name that is read as something else is denied by the full ring of the zone that holds only it. */
  lemma MisreadIsDenied(digest: Digest, n: Name, records: seq<Record>)
    requires IsName(n) && !ReadsRight(n) && FullRing(digest, records, Wires({n}))
    ensures Denies(digest, Show(n), records)
  {
    ReadExactlyWhenRight(n);
    CanonicalIsWireName(n);
    AbsentCovered(digest, records, Wires({n}), Canonical(LabelsRead(Show(n))));
  }

  /** The last inner label that begins with white space. */
  lemma {:induction false} LastInnerBlank(n: Name, end: nat) returns (k: nat)
    requires end < |n| && exists j :: 1 <= j < end && BeginsBlank(n[j])
    ensures 1 <= k < end && BeginsBlank(n[k]) && forall j | k < j < end :: !BeginsBlank(n[j])
  {
    if BeginsBlank(n[end - 1]) { k := end - 1; } else { k := LastInnerBlank(n, end - 1); }
  }

  lemma LastRead(l: Label) returns (m: Label)
    requires IsName([l]) && !EndsBlank(l)
    ensures IsName([m]) && Chars(m) == TrimStart(Chars(l))
  {
    assert [l][0] == l;
    var p := TrimStartDrops(Chars(l));
    m := l[p..];
    assert Chars(m) == Chars(l)[p..];
    TrimmedLabel(l, p);
  }

  /** What is read for the labels after the last inner one that begins with white space is a name. */
  lemma EncloserRead(n: Name, i: nat) returns (ce: Name)
    requires IsName(n) && ReadsRight(n) && 0 < i < |n| && (i < |n| - 1 ==> !BeginsBlank(n[i]))
    ensures IsName(ce) && |ce| == |n| - i && Texts(ce) == SuffixRead(n, i)
  {
    NameSuffix(n, i);
    if !BeginsBlank(n[i]) {
      ce := n[i..];
      SuffixReadRight(n, i);
    } else {
      assert n[i..] == [n[i]];
      var m := LastRead(n[i]);
      ce := [m];
    }
  }

  lemma TrimmedLabel(l: Label, p: nat)
    requires IsName([l]) && p < |l|
    ensures IsName([l[p..]])
  {
    assert [l][0] == l && forall i | 0 <= i < |l[p..]| :: l[p..][i] == l[p + i];
    WireLengthOne(l);
    WireLengthOne(l[p..]);
  }

  /** The zone of all ancestors of two names. */
  ghost function Ancestors(m: Name, n: Name): set<Name> {
    (set k | 0 <= k <= |m| :: m[k..]) + (set k | 0 <= k <= |n| :: n[k..])
  }

  lemma InAncestors(m: Name, n: Name, s: Name)
    ensures s in Ancestors(m, n) <==> IsSuffix(s, m) || IsSuffix(s, n)
  {
    if IsSuffix(s, m) { assert s == m[|m| - |s|..]; }
    if IsSuffix(s, n) { assert s == n[|n| - |s|..]; }
  }

  lemma SuffixTransitive(s: Name, x: Name, n: Name)
    requires IsSuffix(s, x) && IsSuffix(x, n)
    ensures IsSuffix(s, n)
  {
    assert n[|n| - |s|..] == n[|n| - |x|..][|x| - |s|..];
  }

  lemma AncestorsZone(m: Name, n: Name)
    requires IsName(m) && IsName(n)
    ensures IsZone(Ancestors(m, n), []) && m in Ancestors(m, n) && n in Ancestors(m, n)
  {
    forall x <- Ancestors(m, n) ensures IsName(x) && IsSuffix([], x) {
      InAncestors(m, n, x);
      if IsSuffix(x, m) { NameSuffix(m, |m| - |x|); } else { NameSuffix(n, |n| - |x|); }
    }
    forall x <- Ancestors(m, n), s: Name | IsSuffix(s, x) ensures s in Ancestors(m, n) {
      InAncestors(m, n, x);
      InAncestors(m, n, s);
      if IsSuffix(x, m) { SuffixTransitive(s, x, m); } else { SuffixTransitive(s, x, n); }
    }
    assert m[0..] == m && n[0..] == n;
    InAncestors(m, n, m);
    InAncestors(m, n, n);
  }

  /** The trimmed inner label names no ancestor of the query, nor of what is read below it. */
  lemma TrimmedIsForeign(n: Name, k: nat, ce: Name, m: Name)
    requires k < |n| && BeginsBlank(n[k]) && |ce| < |n| - k && (IsSuffix(m, n) || IsSuffix(m, ce))
    ensures Texts(m) != SuffixRead(n, k)
  {
    if Texts(m) == SuffixRead(n, k) {
      assert |m| == |n| - k && m == n[k..];
      assert Chars(n[k]) == Texts(m)[0] == TrimStart(Chars(n[k]));
      TrimShorter(Chars(n[k]));
    }
  }

  lemma EncloserDenies(digest: Digest, n: Name, records: seq<Record>, wires: set<seq<byte>>, i: nat)
    requires FullRing(digest, records, wires) && IsName(n) && ReadsRight(n) && 1 <= i < |n|
    requires Canonical(SuffixRead(n, i)) in wires && Canonical(SuffixRead(n, i - 1)) !in wires
    ensures Denies(digest, Show(n), records)
  {
    MatchOrCover(digest, records, wires, Canonical(SuffixRead(n, i)));
    AbsentCovered(digest, records, wires, Canonical(SuffixRead(n, i - 1)));
    EncloserIsRead(digest, n, records, i);
    DirectHash(digest, n, records);
  }

  lemma MisleadingEncloser(n: Name) returns (k: nat, ce: Name)
    requires IsName(n) && ReadsRight(n) && !InnerUnblank(n)
    ensures k + 1 < |n| && BeginsBlank(n[k]) && IsName(ce) && |ce| == |n| - (k + 1) && Texts(ce) == SuffixRead(n, k + 1)
  {
    k := InnerBlank(n);
    ce := EncloserRead(n, k + 1);
  }

  /** The last inner label that begins with white space. */
  lemma InnerBlank(n: Name) returns (k: nat)
    requires !InnerUnblank(n)
    ensures 1 <= k < |n| - 1 && BeginsBlank(n[k]) && (k + 1 < |n| - 1 ==> !BeginsBlank(n[k + 1]))
  {
    k := LastInnerBlank(n, |n| - 1);
  }

  lemma MisleadingZone(n: Name) returns (zone: set<Name>, i: nat)
    requires IsName(n) && ReadsRight(n) && !InnerUnblank(n)
    ensures IsZone(zone, []) && n in zone && 1 <= i < |n|
    ensures Canonical(SuffixRead(n, i)) in Wires(zone) && Canonical(SuffixRead(n, i - 1)) !in Wires(zone)
  {
    var k, ce := MisleadingEncloser(n);
    zone, i := Ancestors(n, ce), k + 1;
    AncestorsZone(n, ce);
    ForeignNotInZone(n, k, ce);
    WireOfMember(zone, ce);
    assert Canonical(SuffixRead(n, i)) == Wire(ce);
    assert i - 1 == k;
  }

  /** The search hashes each ancestor as text of its own and trims it, so an inner label that begins with
    * white space turns into another label: the full ring of some zone then denies a name it holds. */
  lemma InnerBlankMisleads(n: Name) returns (zone: set<Name>)
    requires IsName(n) && ReadsRight(n) && !InnerUnblank(n)
    ensures IsZone(zone, []) && n in zone
    ensures forall digest: Digest, records :: FullRing(digest, records, Wires(zone)) ==> Denies(digest, Show(n), records)
  {
    var i;
    zone, i := MisleadingZone(n);
    forall digest: Digest, records | FullRing(digest, records, Wires(zone)) ensures Denies(digest, Show(n), records) {
      EncloserDenies(digest, n, records, Wires(zone), i);
    }
  }

  lemma ForeignNotInZone(n: Name, k: nat, ce: Name)
    requires IsName(n) && IsName(ce) && k < |n| && BeginsBlank(n[k]) && |ce| < |n| - k
    ensures Canonical(SuffixRead(n, k)) !in Wires(Ancestors(n, ce))
  {
    AncestorsZone(n, ce);
    if Canonical(SuffixRead(n, k)) in Wires(Ancestors(n, ce)) {
      var m :| m in Ancestors(n, ce) && Wire(m) == Canonical(SuffixRead(n, k));
      SuffixReadOctal(n, k);
      CanonicalInjective(SuffixRead(n, k), m);
      InAncestors(n, ce, m);
      TrimmedIsForeign(n, k, ce, m);
    }
  }

  /** Any set of wire forms has records for its full ring. */
  lemma {:induction false} RingRecords(h: seq<byte> -> Hash, salt: seq<byte>, iterations: nat, wires: set<seq<byte>>,
        bits: seq<byte>, part: set<seq<byte>>)
    returns (records: seq<Record>)
    requires part <= wires
    ensures forall r <- records :: r.algorithm == 1 && r.salt == salt && r.iterations == iterations &&
              r.typeBitMaps == bits && Ring.Follows(HashLess, Hashes(h, wires), r.ownerHash, r.nextHash)
    ensures forall w <- part :: Matched(records, h(w))
    decreases |part|
  {
    records := [];
    if w :| w in part {
      var rest := RingRecords(h, salt, iterations, wires, bits, part - {w});
      HashOrder();
      var next := Ring.NextExists(HashLess, Hashes(h, wires), h(w));
      var r := Record(1, false, iterations, salt, h(w), next, bits);
      records := [r] + rest;
      forall v <- part ensures Matched(records, h(v)) {
        if v != w { MatchedInMore(r, rest, h(v)); } else { assert records[0] in records; }
      }
    }
  }

  lemma MatchedInMore(r: Record, rest: seq<Record>, h: Hash)
    requires Matched(rest, h)
    ensures Matched([r] + rest, h)
  {
    var s :| s in rest && s.ownerHash == h;
    assert s in [r] + rest;
  }

  lemma FirstHashes(digest: Digest, records: seq<Record>, salt: seq<byte>, iterations: nat)
    requires records != [] && forall r <- records :: r.salt == salt && r.iterations == iterations
    ensures HashOf(digest, records[0]) == HashUnder(digest, salt, iterations)
  {
    assert records[0] in records;
  }

  lemma FullRingExists(digest: Digest, salt: seq<byte>, iterations: nat, wires: set<seq<byte>>, bits: seq<byte>)
    returns (records: seq<Record>)
    requires wires != {} && iterations <= 150 && CollisionFree(HashUnder(digest, salt, iterations))
    ensures FullRing(digest, records, wires) && forall r <- records :: r.typeBitMaps == bits
  {
    var h := HashUnder(digest, salt, iterations);
    records := RingRecords(h, salt, iterations, wires, bits, wires);
    var w :| w in wires;
    assert Matched(records, h(w));
    FirstHashes(digest, records, salt, iterations);
  }

  /** The verifier answers rightly about `n` over the full ring of every zone. */
  ghost predicate AlwaysRight(digest: Digest, n: Name)
  {
    forall zone: set<Name>, apex: Name, records: seq<Record> ::
      IsZone(zone, apex) && FullRing(digest, records, Wires(zone)) ==> (Denies(digest, Show(n), records) <==> n !in zone)
  }

  /** The verifier answers rightly about a name over every zone if and only if the name is trustworthy. */
  lemma RightExactlyWhenTrustworthy(digest: Digest, n: Name, salt: seq<byte>, iterations: nat)
    requires IsName(n) && iterations <= 150 && CollisionFree(HashUnder(digest, salt, iterations))
    ensures AlwaysRight(digest, n) <==> Trustworthy(n)
  {
    if Trustworthy(n) {
      forall zone: set<Name>, apex: Name, records: seq<Record> | IsZone(zone, apex) && FullRing(digest, records, Wires(zone))
        ensures Denies(digest, Show(n), records) <==> n !in zone
      {
        DeniedExactlyWhenAbsent(digest, n, records, zone, apex);
      }
    } else {
      UntrustworthyIsWrong(digest, n, salt, iterations);
    }
  }

  lemma WrongOver(digest: Digest, n: Name, zone: set<Name>, apex: Name, records: seq<Record>)
    requires IsZone(zone, apex) && FullRing(digest, records, Wires(zone)) && Denies(digest, Show(n), records) &&
             n in zone
    ensures !AlwaysRight(digest, n)
  {
  }

  lemma UntrustworthyIsWrong(digest: Digest, n: Name, salt: seq<byte>, iterations: nat)
    requires IsName(n) && iterations <= 150 && CollisionFree(HashUnder(digest, salt, iterations)) && !Trustworthy(n)
    ensures !AlwaysRight(digest, n)
  {
    if ReadsRight(n) {
      var zone := InnerBlankMisleads(n);
      WireOfMember(zone, n);
      var records := FullRingExists(digest, salt, iterations, Wires(zone), []);
      WrongOver(digest, n, zone, [], records);
    } else {
      SingletonZone(n);
      WireOfMember({n}, n);
      var records := FullRingExists(digest, salt, iterations, Wires({n}), []);
      MisreadIsDenied(digest, n, records);
      WrongOver(digest, n, {n}, n, records);
    }
  }

  // ---------------------------------------------------------------- names that are misread

  lemma EscapeStep(l: Label, k: nat, p: string)
    requires l != [] && k <= |l| && Piece(l) == (p, k)
    ensures Escape(l) == p + Escape(l[k..])
  {
  }

  lemma DottedEscape(l: Label)
    requires l == [97, 46, 98]
    ensures Escape(l) == "a\\" + "." + "b" && !Plain(l)
  {
    EscapeStep(l, 1, "a");
    EscapeStep(l[1..], 1, "\\.");
    EscapeStep(l[2..], 1, "b");
    assert l[1..][1..] == l[2..] && l[2..][1..] == [] && Escape([]) == "";
    assert Width(l[1..]) == 0;
  }

  /** The label `a.b` prints with an escaped dot and is split there. */
  lemma DottedLabelSplits(l: Label)
    requires l == [97, 46, 98]
    ensures IsName([l]) && !ReadsRight([l]) && LabelsRead(Show([l])) == ["a\\", "b"]
  {
    SmallName([l]);
    DottedEscape(l);
    var t := Escape(l);
    UntrimmedRead(t);
    SplitDotted(t, "a\\", "b");
    SplitUndotted("b");
    assert [l][0] == l;
  }

  ghost predicate Untrimmed(t: string) { t != "" && t[|t| - 1] != '.' && Lower(t) == t && SpaceAt(t) == 0 == SpaceBefore(t) }

  lemma LeadingSpace(u: string)
    requires Untrimmed(u)
    ensures LabelsRead(" " + u) == Split(u)
  {
    var t := " " + u;
    assert SpaceAt(t) == 1 && t[1..] == u;
    assert TrimStart(t) == TrimStart(u) == u && TrimEnd(u) == u;
  }

  lemma TrailingSpace(u: string)
    requires Untrimmed(u)
    ensures LabelsRead(u + " ") == Split(u)
  {
    var t := u + " ";
    SpaceAtPrefix(u);
    assert SpaceBefore(t) == 1 && t[..|t| - 1] == u;
    assert TrimStart(t) == t && TrimEnd(t) == TrimEnd(u) == u;
  }

  lemma SpaceAtPrefix(u: string)
    requires u != ""
    ensures SpaceAt(u + " ") == SpaceAt(u)
  {
    var t := u + " ";
    assert |u| == 1 ==> t[1] == ' ';
    assert |u| == 2 ==> t[2] == ' ';
  }

  lemma LeadingText(l: Label, m: Label, u: string)
    requires l == [32, 97] && m == [99] && u == "a" + "." + "c"
    ensures IsName([l, m]) && Show([l, m]) == " " + u == " a.c"
  {
    SmallName([l, m]);
    TwoLabels(l, " a", m, "c");
    assert " a" + "." + "c" == " " + u;
  }

  /** The name of the labels ` a` and `c` is read as that of `a` and `c`. */
  lemma LeadingBlankLost(l: Label, m: Label)
    requires l == [32, 97] && m == [99]
    ensures IsName([l, m]) && !ReadsRight([l, m]) && Show([l, m]) == " a.c" && LabelsRead(Show([l, m])) == ["a", "c"]
  {
    var u := "a" + "." + "c";
    LeadingText(l, m, u);
    LeadingSpace(u);
    SplitDotted(u, "a", "c");
    SplitUndotted("c");
    assert [l, m][0] == l && BeginsBlank(l);
  }

  /** The name of the labels `a` and `b ` is read as that of `a` and `b`. */
  lemma TrailingBlankLost(l: Label, m: Label)
    requires l == [97] && m == [98, 32]
    ensures IsName([l, m]) && !ReadsRight([l, m]) && LabelsRead(Show([l, m])) == ["a", "b"]
  {
    SmallName([l, m]);
    TwoLabels(l, "a", m, "b ");
    var u := "a" + "." + "b";
    assert "a" + "." + "b " == u + " ";
    TrailingSpace(u);
    SplitDotted(u, "a", "b");
    SplitUndotted("b");
    assert [l, m][1] == m && EndsBlank(m);
  }

  lemma TwoLabels(l: Label, s: string, m: Label, u: string)
    requires Plain(l) && Plain(m) && IsLower(l) && IsLower(m) && Chars(l) == s && Chars(m) == u
    ensures Show([l, m]) == s + "." + u
  {
    EscapeSlashes(l);
    EscapeSlashes(m);
    assert [l, m][1..] == [m];
  }

  /** The absent name of ` a` and `c` is not denied by the full ring of the zone that holds only `a.c`. */
  lemma AbsentBlankNotDenied(digest: Digest, records: seq<Record>, l: Label, m: Label, n: Name)
    requires l == [32, 97] && m == [99] && n == [[97], m] && FullRing(digest, records, Wires({n}))
    ensures IsZone({n}, n) && [l, m] != n && !Denies(digest, Show([l, m]), records)
  {
    SmallName(n);
    SingletonZone(n);
    LeadingBlankLost(l, m);
    assert Texts(n) == ["a", "c"] by { assert Chars([97]) == "a" && Chars(m) == "c"; }
    assert [l, m][0] != n[0];
    var q := " a" + "." + "c";
    assert Show([l, m]) == q;
    MisreadNotDenied(digest, records, q, n);
  }

  lemma MisreadNotDenied(digest: Digest, records: seq<Record>, q: string, n: Name)
    requires q == " a" + "." + "c" && IsName(n) && |n| == 2 && LabelsRead(q) == Texts(n) &&
             FullRing(digest, records, Wires({n}))
    ensures !Denies(digest, q, records)
  {
    WiresOfOne(n);
    MatchOrCover(digest, records, Wires({n}), Wire(n));
    forall i ensures !EncloserAt(digest, q, records, i) { NotFoundAbove(digest, records, q, n, i); }
  }

  lemma NotFoundAbove(digest: Digest, records: seq<Record>, q: string, n: Name, i: int)
    requires q == " a" + "." + "c" && IsName(n) && |n| == 2 && FromRing(digest, records, {Wire(n)})
    ensures !EncloserAt(digest, q, records, i)
  {
    var parent := "c";
    SplitDotted(q, " a", parent);
    SplitUndotted(parent);
    assert TrimDots(q) == q && Lower(q) == q;
    assert SearchLabels(q) == [" a", parent] && [" a", parent][1..] == [parent];
    UntrimmedRead(parent);
    if EncloserAt(digest, q, records, i) {
      var h := HashOf(digest, records[0]);
      EncloserByHash(digest, q, [" a", parent], records, 1, h(Canonical([parent])), h(Canonical(LabelsRead(Join([" a", parent])))));
      MatchedInZone(digest, records, {Wire(n)}, Canonical([parent]));
      CanonicalInjective([parent], n);
    }
  }

  // ---------------------------------------------------------------- NODATA

  /** The types present at each name of a zone. */
  type Contents = map<Name, set<TypeBitMaps.Type>>

  /** `verify_nsec3_nodata` */
  method VerifyNoData(digest: Digest, qname: string, qtype: TypeBitMaps.Type, records: seq<Record>) returns (r: bool)
    ensures r <==> DeniesType(digest, qname, qtype, records)
  {
    if records == [] { return false; }
    var qnameHash := HashNsec3Name(digest, qname, records[0].algorithm, records[0].iterations, records[0].salt);
    if qnameHash.None? { return false; }
    for i := 0 to |records|
      invariant forall k | 0 <= k < i :: !(records[k].ownerHash == qnameHash.value && TypeBitMaps.NoData(records[k].typeBitMaps, qtype))
    {
      if records[i].ownerHash == qnameHash.value {
        var hasType := TypeBitMaps.ContainsType(records[i].typeBitMaps, qtype);
        var hasCname := TypeBitMaps.ContainsType(records[i].typeBitMaps, TypeBitMaps.CNAME);
        if !hasType && (qtype == TypeBitMaps.CNAME || !hasCname) { return true; }
      }
    }
    return false;
  }

  ghost predicate DeniesType(digest: Digest, qname: string, qtype: TypeBitMaps.Type, records: seq<Record>)
  {
    records != [] && FirstHash(digest, qname, records).Some? && NoDataAt(records, FirstHash(digest, qname, records).value, qtype)
  }

  ghost predicate NoDataAt(records: seq<Record>, h: Hash, qtype: TypeBitMaps.Type)
  {
    exists r <- records :: r.ownerHash == h && TypeBitMaps.NoData(r.typeBitMaps, qtype)
  }

  /** Each record carries the encoding of the types at the name its owner hash belongs to. */
  ghost predicate CarriesTypes(digest: Digest, records: seq<Record>, zone: Contents)
    requires records != []
  {
    forall r <- records, n <- zone :: r.ownerHash == HashOf(digest, records[0])(Wire(n)) ==> r.typeBitMaps == TypeBitMaps.Encode(zone[n])
  }

  /** The zone has the name without the type and, unless the alias type itself is asked for, without an alias. */
  ghost predicate LacksType(zone: Contents, n: Name, qtype: TypeBitMaps.Type) {
    n in zone && TypeBitMaps.Lacks(zone[n], qtype)
  }

  /** Records at a name's hash decide the types denied there. */
  lemma TypeDeniedAt(digest: Digest, n: Name, qtype: TypeBitMaps.Type, records: seq<Record>, zone: Contents, apex: Name)
    requires IsZone(zone.Keys, apex) && FromRing(digest, records, Wires(zone.Keys)) &&
             CarriesTypes(digest, records, zone) && IsName(n)
    ensures var h := HashOf(digest, records[0])(Wire(n)); NoDataAt(records, h, qtype) <==> Matched(records, h) && LacksType(zone, n, qtype)
  {
    var h := HashOf(digest, records[0])(Wire(n));
    if Matched(records, h) {
      MatchedInZone(digest, records, Wires(zone.Keys), Wire(n));
      WireInZone(zone.Keys, apex, n);
      var r :| r in records && r.ownerHash == h;
      TypeBitMaps.NoDataIsLacking(zone[n], qtype);
      SameTypesAt(digest, n, qtype, records, zone);
    }
  }

  lemma SameTypesAt(digest: Digest, n: Name, qtype: TypeBitMaps.Type, records: seq<Record>, zone: Contents)
    requires records != [] && CarriesTypes(digest, records, zone) && n in zone
    ensures NoDataAt(records, HashOf(digest, records[0])(Wire(n)), qtype) ==> LacksType(zone, n, qtype)
  {
    var h := HashOf(digest, records[0])(Wire(n));
    if NoDataAt(records, h, qtype) {
      var r :| r in records && r.ownerHash == h && TypeBitMaps.NoData(r.typeBitMaps, qtype);
      TypeBitMaps.NoDataIsLacking(zone[n], qtype);
    }
  }

  /** Over any records of the zone's ring, however few, a type is denied at a name that is read right exactly
    * when one of them is the name's and the zone has the name without the type. */
  lemma TypeDeniedExactlyWhenMatched(digest: Digest, n: Name, qtype: TypeBitMaps.Type, records: seq<Record>,
        zone: Contents, apex: Name)
    requires IsZone(zone.Keys, apex) && FromRing(digest, records, Wires(zone.Keys)) &&
             CarriesTypes(digest, records, zone)
    requires IsName(n) && ReadsRight(n)
    ensures DeniesType(digest, Show(n), qtype, records) <==>
            Matched(records, HashOf(digest, records[0])(Wire(n))) && LacksType(zone, n, qtype)
  {
    TypeDeniedAt(digest, n, qtype, records, zone, apex);
    DirectHash(digest, n, records);
  }

  /** With the full ring a type is denied at a name that is read right exactly when the zone has the name
    * without the type. */
  lemma TypeDeniedExactlyWhenAbsent(digest: Digest, n: Name, qtype: TypeBitMaps.Type, records: seq<Record>,
        zone: Contents, apex: Name)
    requires IsZone(zone.Keys, apex) && FullRing(digest, records, Wires(zone.Keys)) &&
             CarriesTypes(digest, records, zone)
    requires IsName(n) && ReadsRight(n)
    ensures DeniesType(digest, Show(n), qtype, records) <==> LacksType(zone, n, qtype)
  {
    TypeDeniedExactlyWhenMatched(digest, n, qtype, records, zone, apex);
    WireInZone(zone.Keys, apex, n);
    MatchOrCover(digest, records, Wires(zone.Keys), Wire(n));
  }

  ghost predicate TypesAlwaysRight(digest: Digest, n: Name)
  {
    forall zone: Contents, apex: Name, records: seq<Record>, qtype: TypeBitMaps.Type ::
      IsZone(zone.Keys, apex) && FullRing(digest, records, Wires(zone.Keys)) && CarriesTypes(digest, records, zone) ==>
      (DeniesType(digest, Show(n), qtype, records) <==> LacksType(zone, n, qtype))
  }

  /** Types are judged rightly over every zone if and only if the name is read right. */
  lemma TypesRightExactlyWhenRead(digest: Digest, n: Name, salt: seq<byte>, iterations: nat)
    requires IsName(n) && iterations <= 150 && CollisionFree(HashUnder(digest, salt, iterations))
    ensures TypesAlwaysRight(digest, n) <==> ReadsRight(n)
  {
    if ReadsRight(n) {
      forall zone: Contents, apex: Name, records: seq<Record>, qtype: TypeBitMaps.Type
        | IsZone(zone.Keys, apex) && FullRing(digest, records, Wires(zone.Keys)) && CarriesTypes(digest, records, zone)
        ensures DeniesType(digest, Show(n), qtype, records) <==> LacksType(zone, n, qtype)
      {
        TypeDeniedExactlyWhenAbsent(digest, n, qtype, records, zone, apex);
      }
    } else {
      MisreadTypesWrong(digest, n, salt, iterations);
    }
  }

  lemma TypesWrongOver(digest: Digest, n: Name, zone: Contents, apex: Name, records: seq<Record>,
        qtype: TypeBitMaps.Type)
    requires IsZone(zone.Keys, apex) && FullRing(digest, records, Wires(zone.Keys)) &&
             CarriesTypes(digest, records, zone)
    requires !DeniesType(digest, Show(n), qtype, records) && LacksType(zone, n, qtype)
    ensures !TypesAlwaysRight(digest, n)
  {
  }

  lemma MisreadNotFound(digest: Digest, n: Name, records: seq<Record>, qtype: TypeBitMaps.Type)
    requires IsName(n) && !ReadsRight(n) && FromRing(digest, records, Wires({n}))
    ensures !DeniesType(digest, Show(n), qtype, records)
  {
    ReadExactlyWhenRight(n);
    CanonicalIsWireName(n);
    WiresOfOne(n);
    if DeniesType(digest, Show(n), qtype, records) {
      MatchedInZone(digest, records, Wires({n}), Canonical(LabelsRead(Show(n))));
    }
  }

  /** A name without any type, read as another: its record is not found. */
  lemma MisreadTypesWrong(digest: Digest, n: Name, salt: seq<byte>, iterations: nat)
    requires IsName(n) && iterations <= 150 && CollisionFree(HashUnder(digest, salt, iterations)) && !ReadsRight(n)
    ensures !TypesAlwaysRight(digest, n)
  {
    var types: set<TypeBitMaps.Type> := {};
    WireOfMember({n}, n);
    var records := FullRingExists(digest, salt, iterations, Wires({n}), TypeBitMaps.Encode(types));
    MisreadNotFound(digest, n, records, TypeBitMaps.CNAME);
    OneNameWrong(digest, n, types, records);
  }

  lemma OneNameWrong(digest: Digest, n: Name, types: set<TypeBitMaps.Type>, records: seq<Record>)
    requires IsName(n) && FullRing(digest, records, Wires({n})) && types == {}
    requires !DeniesType(digest, Show(n), TypeBitMaps.CNAME, records)
    requires forall r <- records :: r.typeBitMaps == TypeBitMaps.Encode(types)
    ensures !TypesAlwaysRight(digest, n)
  {
    var zone: Contents := map[n := types];
    assert zone.Keys == {n};
    SingletonZone(n);
    TypesWrongOver(digest, n, zone, n, records, TypeBitMaps.CNAME);
  }
}
