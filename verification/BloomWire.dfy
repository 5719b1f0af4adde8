/** Looking names up in the Bloom filter straight from the wire (src/security/bloom.rs): the streaming
  * walk agrees with parsing the name and looking the text up. */
module BloomWire {
  import opened Bytes
  import opened Text
  import opened Wrappers
  import opened WireNames
  import opened NameText
  import QueryWire
  import opened Bloom
  import Cascade

  const MAX_LABELS := 64
  const DOT: byte := 46

  // ---------------------------------------------------------------- the streaming walk

  /** The loop of `contains_wire`: the hash state after the last label, none when it gives up or the name
    * has no label. */
  function WireFeed(h: Hasher, wire: seq<byte>, offset: nat, s: State, first: bool, total: nat,
        jumps: nat): Option<State>
    requires jumps <= MAX_JUMPS
    decreases MAX_JUMPS - jumps, |wire| - offset
  {
    if offset >= |wire| || wire[offset] == 0 then if first then None else Some(s)
    else
      var len := wire[offset];
      if IsPointer(len) then
        if offset + 1 >= |wire| || jumps + 1 > MAX_JUMPS || Target(len, wire[offset + 1]) >= |wire| then None
        else WireFeed(h, wire, Target(len, wire[offset + 1]), s, first, total, jumps + 1)
      else if len > MAX_LABEL || offset + 1 + len > |wire| then None
      else
        var longer := total + (if first then 0 else 1) + len;
        if longer > 255 then None
        else WireFeed(h, wire, offset + 1 + len, FeedLabel(h, s, first, wire[offset + 1..offset + 1 + len]), false, longer, jumps)
  }

  /** A label hashed after a dot, unless it is the first. */
  function FeedLabel(h: Hasher, s: State, first: bool, l: Label): State {
    Feed(h, if first then s else Feed(h, s, [DOT]), l)
  }

  /** What `contains_wire` answers. */
  predicate WireMember(h: Hasher, hashes: nat, size: nat, bits: set<nat>, wire: seq<byte>, offset: nat)
    requires size > 0
  {
    var s := WireFeed(h, wire, offset, h.seed, true, 0, 0);
    s.Some? && Probes(h, s.value, hashes, size) <= bits
  }

  /** `contains_wire` */
  method ContainsWire(filter: BloomFilter, wire: seq<byte>, start: nat) returns (r: bool)
    requires filter.Valid()
    ensures r <==> WireMember(filter.h, filter.hashes, filter.size, filter.Bits(), wire, start)
  {
    var h := filter.h;
    ghost var answer := WireFeed(h, wire, start, h.seed, true, 0, 0);
    if start >= |wire| { return false; }
    var offset: nat, s, first, total: nat, jumps: nat := start, h.seed, true, 0, 0;
    while offset < |wire|
      invariant jumps <= MAX_JUMPS && WireFeed(h, wire, offset, s, first, total, jumps) == answer
      decreases MAX_JUMPS - jumps, |wire| - offset
    {
      var len := wire[offset];
      if len == 0 { break; }
      if IsPointer(len) {
        if offset + 1 >= |wire| { return false; }
        var ptr := Target(len, wire[offset + 1]);
        if jumps + 1 > MAX_JUMPS || ptr >= |wire| { return false; }
        offset, jumps := ptr, jumps + 1;
      } else {
        if len > MAX_LABEL || offset + 1 + len > |wire| { return false; }
        if !first {
          s := FeedAll(h, s, [DOT]);
          total := total + 1;
        }
        s := FeedAll(h, s, wire[offset + 1..offset + 1 + len]);
        first, total, offset := false, total + len, offset + 1 + len;
        if total > 255 { return false; }
      }
    }
    if first { return false; }
    r := filter.AllSet(s);
  }

  // ---------------------------------------------------------------- agreement with parsing

  function FeedLabels(h: Hasher, s: State, first: bool, labels: seq<Label>): State
    decreases |labels|
  {
    if labels == [] then s else FeedLabels(h, FeedLabel(h, s, first, labels[0]), false, labels[1..])
  }

  /** Octets of a text whose characters stand for bytes. */
  function BytesOf(s: string): (b: seq<byte>)
    ensures |b| == |s| && forall i | 0 <= i < |s| :: b[i] == QueryWire.ByteOf(s[i])
  {
    seq(|s|, i requires 0 <= i < |s| => QueryWire.ByteOf(s[i]))
  }

  /** Whenever the walk of a name succeeds, the streaming walk hashes its labels. */
  lemma WireFeedLabel(h: Hasher, wire: seq<byte>, offset: nat, s: State, first: bool, total: nat, jumps: nat)
    requires jumps <= MAX_JUMPS && offset < |wire| && 1 <= wire[offset] <= MAX_LABEL &&
             offset + 1 + wire[offset] <= |wire|
    requires total + (if first then 0 else 1) + wire[offset] <= 255
    ensures var next := offset + 1 + wire[offset];
      WireFeed(h, wire, offset, s, first, total, jumps) ==
      WireFeed(h, wire, next, FeedLabel(h, s, first, wire[offset + 1..next]), false, total + (if first then 0 else 1) + wire[offset], jumps)
  {
  }

  lemma FeedJump(h: Hasher, wire: seq<byte>, offset: nat, s: State, first: bool, total: nat, jumps: nat)
    requires jumps < MAX_JUMPS && offset + 1 < |wire| && IsPointer(wire[offset]) &&
             Target(wire[offset], wire[offset + 1]) < |wire|
    ensures WireFeed(h, wire, offset, s, first, total, jumps) ==
            WireFeed(h, wire, Target(wire[offset], wire[offset + 1]), s, first, total, jumps + 1)
  {
  }

  lemma {:induction false} FeedIsWalk(h: Hasher, wire: seq<byte>, offset: nat, s: State, total: nat, jumps: nat,
        steps: nat)
    requires jumps <= MAX_JUMPS && WalkFrom(wire, offset, jumps, steps, total).Some?
    ensures var labels := WalkFrom(wire, offset, jumps, steps, total).value.labels;
      WireFeed(h, wire, offset, s, total == 0, if total == 0 then 0 else total - 1, jumps) ==
      if total == 0 && labels == [] then None else Some(FeedLabels(h, s, total == 0, labels))
    decreases MAX_STEPS - steps
  {
    if offset < |wire| && wire[offset] != 0 {
      var len := wire[offset];
      if IsPointer(len) {
        FeedIsWalk(h, wire, Target(len, wire[offset + 1]), s, total, jumps + 1, steps + 1);
        FeedJump(h, wire, offset, s, total == 0, if total == 0 then 0 else total - 1, jumps);
        assert WalkFrom(wire, offset, jumps, steps, total).value.labels ==
               WalkFrom(wire, Target(len, wire[offset + 1]), jumps + 1, steps + 1, total).value.labels;
      } else {
        var next := offset + 1 + len;
        var l := wire[offset + 1..next];
        FeedIsWalk(h, wire, next, FeedLabel(h, s, total == 0, l), total + 1 + len, jumps, steps + 1);
        WalkLabel(wire, offset, jumps, steps, total);
        var rest := WalkFrom(wire, next, jumps, steps + 1, total + 1 + len).value.labels;
        FeedFirst(h, s, total == 0, l, rest);
        WireFeedLabel(h, wire, offset, s, total == 0, if total == 0 then 0 else total - 1, jumps);
        assert WalkFrom(wire, offset, jumps, steps, total).value.labels == [l] + rest;
      }
    }
  }

  lemma FeedFirst(h: Hasher, s: State, first: bool, l: Label, rest: seq<Label>)
    ensures FeedLabels(h, s, first, [l] + rest) == FeedLabels(h, FeedLabel(h, s, first, l), false, rest)
  {
    assert ([l] + rest)[1..] == rest;
  }

  predicate IsHost(l: Label) { forall i | 0 <= i < |l| :: IsHostByte(l[i]) }

  lemma HostPiece(l: Label)
    requires IsHost(l) && l != []
    ensures Escape(l) == [LowerByte(l[0]) as char] + Escape(l[1..]) &&
            LowerBytes(l) == [LowerByte(l[0])] + LowerBytes(l[1..])
  {
    assert Piece(l) == ([LowerByte(l[0]) as char], 1);
  }

  /** A label of host octets prints as itself in lower case. */
  lemma {:induction false} HostEscape(l: Label)
    requires IsHost(l)
    ensures |Escape(l)| == |l| && BytesOf(Escape(l)) == LowerBytes(l)
    decreases |l|
  {
    if l == [] {
    } else {
      HostPiece(l);
      HostEscape(l[1..]);
      BytesConcat([LowerByte(l[0]) as char], Escape(l[1..]));
      assert BytesOf([LowerByte(l[0]) as char]) == [LowerByte(l[0])];
    }
  }

  lemma HostFirst(labels: seq<Label>)
    requires HostLabels(labels) && labels != []
    ensures IsHost(labels[0]) && HostLabels(labels[1..])
  {
    assert labels[0] in labels;
    assert forall l <- labels[1..] :: l in labels;
    assert forall i | 0 <= i < |labels[0]| :: labels[0][i] in labels[0];
  }

  lemma FeedHost(h: Hasher, s: State, l: Label)
    requires IsHost(l)
    ensures Feed(h, s, BytesOf(Escape(l))) == Feed(h, s, l)
  {
    HostEscape(l);
    assert LowerBytes(LowerBytes(l)) == LowerBytes(l);
    FeedLower(h, s, LowerBytes(l), l);
  }

  lemma BytesConcat(a: string, b: string)
    ensures BytesOf(a + b) == BytesOf(a) + BytesOf(b)
  {
  }

  /** Hashing the labels after the first is hashing what follows the first in the text. */
  lemma {:induction false} FeedRest(h: Hasher, s: State, labels: seq<Label>)
    requires HostLabels(labels)
    ensures FeedLabels(h, s, false, labels) == Feed(h, s, BytesOf(QueryWire.Rest(labels)))
    decreases |labels|
  {
    if labels == [] {
    } else {
      var l, rest := labels[0], labels[1..];
      var tail := QueryWire.Rest(rest);
      HostFirst(labels);
      FeedHost(h, Feed(h, s, [DOT]), l);
      FeedRest(h, FeedLabel(h, s, false, l), rest);
      RestBytes(l, rest);
      assert labels == [l] + rest;
      FeedConcat(h, s, [DOT], BytesOf(Escape(l)) + BytesOf(tail));
      FeedConcat(h, Feed(h, s, [DOT]), BytesOf(Escape(l)), BytesOf(tail));
    }
  }

  lemma ShowBytes(l: Label, rest: seq<Label>)
    ensures BytesOf(Show([l] + rest)) == BytesOf(Escape(l)) + BytesOf(QueryWire.Rest(rest))
  {
    QueryWire.ShowFirst(l, rest);
    BytesConcat(Escape(l), QueryWire.Rest(rest));
  }

  lemma RestBytes(l: Label, rest: seq<Label>)
    ensures BytesOf(Show([l] + rest)) == BytesOf(Escape(l)) + BytesOf(QueryWire.Rest(rest))
    ensures BytesOf(QueryWire.Rest([l] + rest)) == [DOT] + (BytesOf(Escape(l)) + BytesOf(QueryWire.Rest(rest)))
  {
    ShowBytes(l, rest);
    BytesConcat(".", Show([l] + rest));
    assert BytesOf(".") == [DOT];
  }

  /** Hashing the labels, dots between, is hashing the text. */
  lemma FeedLabelsIsText(h: Hasher, s: State, labels: seq<Label>)
    requires HostLabels(labels)
    ensures FeedLabels(h, s, true, labels) == Feed(h, s, BytesOf(Show(labels)))
  {
    if labels != [] {
      var l, rest := labels[0], labels[1..];
      HostFirst(labels);
      FeedHost(h, s, l);
      FeedRest(h, FeedLabel(h, s, true, l), rest);
      RestBytes(l, rest);
      assert labels == [l] + rest;
      FeedConcat(h, s, BytesOf(Escape(l)), BytesOf(QueryWire.Rest(rest)));
    }
  }

  /** Text that neither begins nor ends with a blank or a dot is not trimmed. */
  lemma CleanKeeps(key: seq<byte>)
    requires HostEnds(key)
    ensures Clean(key) == key
  {
  }

  predicate HostEnds(b: seq<byte>) { b != [] && IsHostByte(b[0]) && IsHostByte(b[|b| - 1]) }

  lemma EndsConcat(a: seq<byte>, b: seq<byte>)
    requires HostEnds(a) && HostEnds(b)
    ensures HostEnds(a + ([DOT] + b))
  {
    var c := a + ([DOT] + b);
    assert c[|c| - 1] == b[|b| - 1];
  }

  lemma LabelEnds(l: Label)
    requires IsHost(l) && l != []
    ensures HostEnds(BytesOf(Escape(l)))
  {
    HostEscape(l);
    var b := LowerBytes(l);
    assert b[0] == LowerByte(l[0]) && b[|b| - 1] == LowerByte(l[|l| - 1]);
  }

  lemma {:induction false} ShowEnds(labels: seq<Label>)
    requires HostLabels(labels) && ValidLabels(labels) && labels != []
    ensures HostEnds(BytesOf(Show(labels)))
    decreases |labels|
  {
    var l, rest := labels[0], labels[1..];
    HostFirst(labels);
    assert l in labels && labels == [l] + rest;
    LabelEnds(l);
    RestBytes(l, rest);
    if rest == [] {
      assert BytesOf(Escape(l)) + [] == BytesOf(Escape(l));
    } else {
      assert forall k <- rest :: k in labels;
      ShowEnds(rest);
      RestEnds(rest);
      EndsConcat(BytesOf(Escape(l)), BytesOf(Show(rest)));
    }
  }

  lemma RestEnds(rest: seq<Label>)
    requires rest != []
    ensures BytesOf(QueryWire.Rest(rest)) == [DOT] + BytesOf(Show(rest))
  {
    BytesConcat(".", Show(rest));
    assert BytesOf(".") == [DOT];
  }

  /** Whenever strict parsing yields a name, through compression pointers or not, `contains_wire` is
    * `contains` of that name. */
  lemma WireAgreesWithText(h: Hasher, hashes: nat, size: nat, bits: set<nat>, wire: seq<byte>, offset: nat)
    requires size > 0 && ParseName(wire, offset, false).Some?
    ensures WireMember(h, hashes, size, bits, wire, offset) <==>
            Member(h, hashes, size, bits, BytesOf(ParseName(wire, offset, false).value.name))
  {
    var labels := WalkName(wire, offset).value.labels;
    FeedIsWalk(h, wire, offset, h.seed, 0, 0, 0);
    FeedLabelsIsText(h, h.seed, labels);
    if labels != [] {
      WalkLimits(wire, offset, 0, 0, 0);
      ShowEnds(labels);
      CleanKeeps(BytesOf(Show(labels)));
    }
  }

  // ---------------------------------------------------------------- parents

  /** The first loop of `contains_wire_with_subdomains`: where labels begin. */
  function OffsetsFrom(wire: seq<byte>, scan: nat, count: nat, jumps: nat): Option<seq<nat>>
    requires jumps <= MAX_JUMPS
    decreases MAX_JUMPS - jumps, |wire| - scan
  {
    if scan >= |wire| || count >= MAX_LABELS || wire[scan] == 0 then Some([])
    else
      var len := wire[scan];
      if IsPointer(len) then
        if scan + 1 >= |wire| || jumps + 1 > MAX_JUMPS || Target(len, wire[scan + 1]) >= |wire| then None
        else OffsetsFrom(wire, Target(len, wire[scan + 1]), count, jumps + 1)
      else if len > MAX_LABEL || scan + 1 + len > |wire| then None
      else Before(scan, OffsetsFrom(wire, scan + 1 + len, count + 1, jumps))
  }

  function Before(offset: nat, rest: Option<seq<nat>>): Option<seq<nat>> {
    if rest.None? then None else Some([offset] + rest.value)
  }

  /** Offsets already found in front of those to come. */
  function Joined(found: seq<nat>, rest: Option<seq<nat>>): Option<seq<nat>> {
    if rest.None? then None else Some(found + rest.value)
  }

  lemma JoinedNext(found: seq<nat>, offset: nat, rest: Option<seq<nat>>)
    ensures Joined(found, Before(offset, rest)) == Joined(found + [offset], rest)
    ensures Joined([], rest) == rest && Joined(found, Some([])) == Some(found)
  {
    assert found + [] == found;
    if rest.Some? { assert found + ([offset] + rest.value) == found + [offset] + rest.value && [] + rest.value == rest.value; }
  }

  /** All labels but the last are looked up, a single one too. */
  function CheckCount(n: nat): nat { if n <= 1 then n else n - 1 }

  /** What `contains_wire_with_subdomains` answers. */
  predicate WireMemberOrParent(h: Hasher, hashes: nat, size: nat, bits: set<nat>, wire: seq<byte>, offset: nat)
    requires size > 0
  {
    var offsets := OffsetsFrom(wire, offset, 0, 0);
    offsets.Some? && exists k | 0 <= k < CheckCount(|offsets.value|) :: WireMember(h, hashes, size, bits, wire, offsets.value[k])
  }

  /** What is found are whole labels. */
  lemma {:induction false} OffsetsAreWhole(wire: seq<byte>, scan: nat, count: nat, jumps: nat)
    requires jumps <= MAX_JUMPS && OffsetsFrom(wire, scan, count, jumps).Some?
    ensures forall o <- OffsetsFrom(wire, scan, count, jumps).value :: o < |wire| && 1 <= wire[o] <= 63 && o + 1 + wire[o] <= |wire|
    decreases MAX_JUMPS - jumps, |wire| - scan
  {
    if scan >= |wire| || count >= MAX_LABELS || wire[scan] == 0 {
    } else if IsPointer(wire[scan]) {
      OffsetsAreWhole(wire, Target(wire[scan], wire[scan + 1]), count, jumps + 1);
    } else {
      OffsetsAreWhole(wire, scan + 1 + wire[scan], count + 1, jumps);
    }
  }

  /** A hit reads a whole label of 1 to 63 octets where the name begins, or where its first pointers lead. */
  lemma HitReadsWholeLabels(h: Hasher, hashes: nat, size: nat, bits: set<nat>, wire: seq<byte>, offset: nat)
    returns (o: nat)
    requires size > 0 && WireMemberOrParent(h, hashes, size, bits, wire, offset)
    ensures o < |wire| && 1 <= wire[o] <= 63 && o + 1 + wire[o] <= |wire| && WireMember(h, hashes, size, bits, wire, o)
  {
    var offsets := OffsetsFrom(wire, offset, 0, 0).value;
    var k :| 0 <= k < CheckCount(|offsets|) && WireMember(h, hashes, size, bits, wire, offsets[k]);
    OffsetsAreWhole(wire, offset, 0, 0);
    o := offsets[k];
    assert o in offsets;
  }

  method LabelOffsets(wire: seq<byte>, start: nat) returns (r: Option<seq<nat>>)
    ensures r == OffsetsFrom(wire, start, 0, 0)
  {
    ghost var answer := OffsetsFrom(wire, start, 0, 0);
    var offsets: seq<nat>, scan: nat, jumps: nat := [], start, 0;
    JoinedNext([], 0, answer);
    while scan < |wire| && |offsets| < MAX_LABELS
      invariant jumps <= MAX_JUMPS
      invariant Joined(offsets, OffsetsFrom(wire, scan, |offsets|, jumps)) == answer
      decreases MAX_JUMPS - jumps, |wire| - scan
    {
      var len := wire[scan];
      if len == 0 { break; }
      if IsPointer(len) {
        if scan + 1 >= |wire| { return None; }
        var ptr := Target(len, wire[scan + 1]);
        if jumps + 1 > MAX_JUMPS || ptr >= |wire| { return None; }
        scan, jumps := ptr, jumps + 1;
      } else {
        if len > MAX_LABEL || scan + 1 + len > |wire| { return None; }
        JoinedNext(offsets, scan, OffsetsFrom(wire, scan + 1 + len, |offsets| + 1, jumps));
        offsets, scan := offsets + [scan], scan + 1 + len;
      }
    }
    JoinedNext(offsets, 0, None);
    return Some(offsets);
  }

  /** `contains_wire_with_subdomains` */
  method ContainsWireWithSubdomains(filter: BloomFilter, wire: seq<byte>, offset: nat) returns (r: bool)
    requires filter.Valid()
    ensures r <==> WireMemberOrParent(filter.h, filter.hashes, filter.size, filter.Bits(), wire, offset)
  {
    if offset >= |wire| { return false; }
    var offsets := LabelOffsets(wire, offset);
    if offsets.None? || |offsets.value| == 0 { return false; }
    var count := CheckCount(|offsets.value|);
    for k := 0 to count
      invariant forall j | 0 <= j < k :: !WireMember(filter.h, filter.hashes, filter.size, filter.Bits(), wire, offsets.value[j])
    {
      var found := ContainsWire(filter, wire, offsets.value[k]);
      if found { return true; }
    }
    return false;
  }

  /** The name with exactly these labels begins at `offset`. */
  predicate NameAt(wire: seq<byte>, offset: nat, labels: seq<Label>) {
    WalkName(wire, offset).Some? && WalkName(wire, offset).value.labels == labels
  }

  /** The offsets are those of the first labels, 64 at most, and at each begins the rest of the name. */
  lemma {:induction false} OffsetsAreLabels(wire: seq<byte>, scan: nat, count: nat, jumps: nat, steps: nat, total: nat)
    requires jumps <= MAX_JUMPS && count <= MAX_LABELS && WalkFrom(wire, scan, jumps, steps, total).Some?
    ensures var labels := WalkFrom(wire, scan, jumps, steps, total).value.labels;
      var offsets := OffsetsFrom(wire, scan, count, jumps);
      && offsets.Some? && |offsets.value| == (if |labels| <= MAX_LABELS - count then |labels| else MAX_LABELS - count)
      && forall k | 0 <= k < |offsets.value| :: NameAt(wire, offsets.value[k], labels[k..])
    decreases MAX_STEPS - steps
  {
    if scan < |wire| && wire[scan] != 0 && count < MAX_LABELS {
      var len := wire[scan];
      if IsPointer(len) {
        OffsetsAreLabels(wire, Target(len, wire[scan + 1]), count, jumps + 1, steps + 1, total);
      } else {
        var next := scan + 1 + len;
        OffsetsAreLabels(wire, next, count + 1, jumps, steps + 1, total + 1 + len);
        FewerCounted(wire, scan, jumps, steps, total, 0, 0, 0);
        WalkLabel(wire, scan, jumps, steps, total);
        OffsetsFirst(wire, scan, WalkFrom(wire, next, jumps, steps + 1, total + 1 + len).value.labels, wire[scan + 1..next],
                     OffsetsFrom(wire, next, count + 1, jumps).value);
      }
    }
  }

  lemma OffsetsFirst(wire: seq<byte>, scan: nat, rest: seq<Label>, l: Label, offsets: seq<nat>)
    requires NameAt(wire, scan, [l] + rest) && |offsets| <= |rest|
    requires forall k | 0 <= k < |offsets| :: NameAt(wire, offsets[k], rest[k..])
    ensures forall k | 0 <= k < |offsets| + 1 :: NameAt(wire, ([scan] + offsets)[k], ([l] + rest)[k..])
  {
    forall k | 0 <= k < |offsets| + 1
      ensures NameAt(wire, ([scan] + offsets)[k], ([l] + rest)[k..])
    {
      if k == 0 { assert ([l] + rest)[0..] == [l] + rest; } else { assert ([l] + rest)[k..] == rest[k - 1..]; }
    }
  }

  function Capped(n: nat): nat { if n <= MAX_LABELS then n else MAX_LABELS }

  predicate SuffixMember(h: Hasher, hashes: nat, size: nat, bits: set<nat>, labels: seq<Label>, k: nat)
    requires size > 0 && k <= |labels|
  {
    Member(h, hashes, size, bits, BytesOf(Show(labels[k..])))
  }

  lemma SuffixAgrees(h: Hasher, hashes: nat, size: nat, bits: set<nat>, wire: seq<byte>, offset: nat,
        labels: seq<Label>, k: nat)
    requires size > 0 && k <= |labels| && HostLabels(labels) && NameAt(wire, offset, labels[k..])
    ensures WireMember(h, hashes, size, bits, wire, offset) <==> SuffixMember(h, hashes, size, bits, labels, k)
  {
    assert forall l <- labels[k..] :: l in labels;
    WireAgreesWithText(h, hashes, size, bits, wire, offset);
  }

  /** Whenever strict parsing yields a name, `contains_wire_with_subdomains` looks up the name and its
    * suffixes of two labels or more (the name alone when it has one label): all of them for names of up
    * to 64 labels, the first 63 for longer ones. */
  lemma SubdomainsAgree(h: Hasher, hashes: nat, size: nat, bits: set<nat>, wire: seq<byte>, offset: nat)
    requires size > 0 && ParseName(wire, offset, false).Some?
    ensures var labels := WalkName(wire, offset).value.labels;
      WireMemberOrParent(h, hashes, size, bits, wire, offset) <==>
      exists k | 0 <= k < |labels| && (k == 0 || k + 2 <= |labels|) && k < 63 :: SuffixMember(h, hashes, size, bits, labels, k)
  {
    var labels := WalkName(wire, offset).value.labels;
    OffsetsAreLabels(wire, offset, 0, 0, 0, 0);
    var offsets := OffsetsFrom(wire, offset, 0, 0).value;
    forall k | 0 <= k < |offsets|
      ensures WireMember(h, hashes, size, bits, wire, offsets[k]) <==> SuffixMember(h, hashes, size, bits, labels, k)
    {
      SuffixAgrees(h, hashes, size, bits, wire, offsets[k], labels, k);
    }
  }

  /** What `is_threat_bloom` answers on the same filter. */
  ghost predicate ThreatBloom(h: Hasher, hashes: nat, size: nat, bits: set<nat>, domain: string)
    requires size > 0
  {
    || Member(h, hashes, size, bits, BytesOf(domain))
    || exists s: string :: Cascade.BroadParent(s, domain)
        && (Member(h, hashes, size, bits, BytesOf(s)) || Member(h, hashes, size, bits, BytesOf("*." + s)))
  }

  lemma {:induction false} SuffixIsParent(labels: seq<Label>, k: nat)
    requires 0 < k < |labels|
    ensures IsParent(Show(labels[k..]), Show(labels))
    decreases k
  {
    var name, e := Show(labels), Escape(labels[0]);
    var rest := Show(labels[1..]);
    assert name == e + "." + rest && name[|e|] == '.' && name[|e| + 1..] == rest;
    if k > 1 {
      SuffixIsParent(labels[1..], k - 1);
      assert labels[1..][k - 1..] == labels[k..];
      var i :| 0 <= i < |rest| && rest[i] == '.' && Show(labels[k..]) == rest[i + 1..];
      assert name[|e| + 1 + i] == '.' && name[|e| + 1 + i + 1..] == rest[i + 1..];
    }
  }

  lemma SuffixIsBroadParent(labels: seq<Label>, k: nat)
    requires 0 < k && k + 2 <= |labels|
    ensures Cascade.BroadParent(Show(labels[k..]), Show(labels))
  {
    var s := Show(labels[k..]);
    SuffixIsParent(labels, k);
    assert s == Escape(labels[k..][0]) + "." + Show(labels[k..][1..]);
    assert s[|Escape(labels[k..][0])|] == '.';
  }

  lemma SuffixIsThreat(h: Hasher, hashes: nat, size: nat, bits: set<nat>, labels: seq<Label>, k: nat)
    requires size > 0 && k < |labels| && (k == 0 || k + 2 <= |labels|) && SuffixMember(h, hashes, size, bits, labels, k)
    ensures ThreatBloom(h, hashes, size, bits, Show(labels))
  {
    if k == 0 { assert labels[0..] == labels; } else { SuffixIsBroadParent(labels, k); }
  }

  /** A hit from the wire is a hit of `is_threat_bloom` on the parsed name. */
  lemma WireHitIsThreat(h: Hasher, hashes: nat, size: nat, bits: set<nat>, wire: seq<byte>, offset: nat)
    requires size > 0 && ParseName(wire, offset, false).Some? && WireMemberOrParent(h, hashes, size, bits, wire, offset)
    ensures ThreatBloom(h, hashes, size, bits, ParseName(wire, offset, false).value.name)
  {
    var labels := WalkName(wire, offset).value.labels;
    SubdomainsAgree(h, hashes, size, bits, wire, offset);
    var k :| 0 <= k < |labels| && (k == 0 || k + 2 <= |labels|) && k < 63 && SuffixMember(h, hashes, size, bits, labels, k);
    SuffixIsThreat(h, hashes, size, bits, labels, k);
  }
}
