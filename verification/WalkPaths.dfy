/** Which names a walk accepts (sections 3.1 and 4.1.4 of RFC 1035; src/dns/parser.rs): those that labels and
  * pointers spell within the limits. */
module WalkPaths {
  import opened Bytes
  import opened Wrappers
  import opened WireNames

  /** What stands at a place of a name: a label, or a pointer to the rest of it. */
  datatype Part = Plain(octets: Label) | Jump(target: nat)

  /** From `pos` on the octets spell these parts and then the root. */
  predicate Spells(buf: seq<byte>, pos: nat, parts: seq<Part>)
    decreases |parts|
  {
    if parts == [] then pos < |buf| && buf[pos] == 0
    else match parts[0]
      case Plain(l) =>
        && 1 <= |l| <= 63 && pos + 1 + |l| <= |buf| && buf[pos] == |l| && buf[pos + 1..pos + 1 + |l|] == l
        && Spells(buf, pos + 1 + |l|, parts[1..])
      case Jump(target) =>
        && pos + 2 <= |buf| && buf[pos] >= 0xC0 && target < |buf|
        && target == (buf[pos] as int - 0xC0) * 256 + buf[pos + 1] as int
        && Spells(buf, target, parts[1..])
  }

  function LabelsOf(parts: seq<Part>): seq<Label> {
    if parts == [] then []
    else (match parts[0] case Plain(l) => [l] case Jump(_) => []) + LabelsOf(parts[1..])
  }

  function Jumps(parts: seq<Part>): nat {
    if parts == [] then 0 else (if parts[0].Jump? then 1 else 0) + Jumps(parts[1..])
  }

  /** Where the name ends in the stream: after its root octet or its first pointer. */
  function EndOf(pos: nat, parts: seq<Part>): nat
    decreases |parts|
  {
    if parts == [] then pos + 1
    else match parts[0]
      case Plain(l) => EndOf(pos + 1 + |l|, parts[1..])
      case Jump(_) => pos + 2
  }

  /** Parts within the limits: 128 places read, 16 pointers, and 255 octets in all. */
  predicate WithinLimits(parts: seq<Part>) {
    |parts| + 1 <= 128 && Jumps(parts) <= 16 && WireLength(LabelsOf(parts)) <= 255
  }

  lemma WireLengthFirst(l: Label, rest: seq<Label>)
    ensures WireLength([l] + rest) == 1 + |l| + WireLength(rest) && WireLength(rest) >= 1
  {
    assert ([l] + rest)[1..] == rest;
  }

  lemma PlainStep(buf: seq<byte>, pos: nat, l: Label, jumps: nat, steps: nat, total: nat)
    requires 1 <= |l| <= 63 && pos + 1 + |l| <= |buf| && buf[pos] == |l| && buf[pos + 1..pos + 1 + |l|] == l
    requires steps + 1 <= 128 && jumps <= 16 && total + 1 + |l| <= 255
    ensures WalkFrom(buf, pos, jumps, steps, total) == Prepend(l, WalkFrom(buf, pos + 1 + |l|, jumps, steps + 1, total + 1 + |l|))
  {
  }

  lemma JumpStep(buf: seq<byte>, pos: nat, target: nat, jumps: nat, steps: nat, total: nat)
    requires pos + 2 <= |buf| && buf[pos] >= 0xC0 && target < |buf|
    requires target == (buf[pos] as int - 0xC0) * 256 + buf[pos + 1] as int && steps + 1 <= 128 && jumps <= 16
    ensures WalkFrom(buf, pos, jumps, steps, total) == EndingAt(WalkFrom(buf, target, jumps + 1, steps + 1, total), pos + 2)
  {
  }

  lemma {:induction false} SpelledIsWalked(buf: seq<byte>, pos: nat, parts: seq<Part>, jumps: nat, steps: nat,
        total: nat)
    requires Spells(buf, pos, parts) && steps + |parts| + 1 <= 128 && jumps + Jumps(parts) <= 16
    requires total + WireLength(LabelsOf(parts)) <= 255
    ensures WalkFrom(buf, pos, jumps, steps, total) == Some(Walk(LabelsOf(parts), EndOf(pos, parts), true))
    decreases |parts|
  {
    if parts == [] {
    } else {
      var rest := parts[1..];
      match parts[0] {
        case Plain(l) =>
          WireLengthFirst(l, LabelsOf(rest));
          PlainStep(buf, pos, l, jumps, steps, total);
          SpelledIsWalked(buf, pos + 1 + |l|, rest, jumps, steps + 1, total + 1 + |l|);
        case Jump(target) =>
          assert [] + LabelsOf(rest) == LabelsOf(rest);
          JumpStep(buf, pos, target, jumps, steps, total);
          SpelledIsWalked(buf, target, rest, jumps + 1, steps + 1, total);
      }
    }
  }

  lemma PlainFirst(l: Label, rest: seq<Part>)
    ensures LabelsOf([Plain(l)] + rest) == [l] + LabelsOf(rest) && Jumps([Plain(l)] + rest) == Jumps(rest)
  {
    assert ([Plain(l)] + rest)[1..] == rest;
  }

  lemma JumpFirst(target: nat, rest: seq<Part>)
    ensures LabelsOf([Jump(target)] + rest) == LabelsOf(rest) && Jumps([Jump(target)] + rest) == Jumps(rest) + 1
  {
    assert ([Jump(target)] + rest)[1..] == rest && [] + LabelsOf(rest) == LabelsOf(rest);
  }

  lemma {:induction false} WalkedIsSpelled(buf: seq<byte>, pos: nat, jumps: nat, steps: nat, total: nat)
    returns (parts: seq<Part>)
    requires WalkFrom(buf, pos, jumps, steps, total).Some? && WalkFrom(buf, pos, jumps, steps, total).value.rooted
    ensures Spells(buf, pos, parts) && steps + |parts| + 1 <= 128 && jumps + Jumps(parts) <= 16
    ensures total + WireLength(LabelsOf(parts)) <= 255
    decreases MAX_STEPS - steps
  {
    var len := buf[pos];
    if len == 0 {
      parts := [];
    } else if IsPointer(len) {
      var target := Target(len, buf[pos + 1]);
      var rest := WalkedIsSpelled(buf, target, jumps + 1, steps + 1, total);
      JumpFirst(target, rest);
      parts := [Jump(target)] + rest;
      assert parts[1..] == rest;
    } else {
      var l := buf[pos + 1..pos + 1 + len];
      var rest := WalkedIsSpelled(buf, pos + 1 + len, jumps, steps + 1, total + 1 + len);
      PlainFirst(l, rest);
      WireLengthFirst(l, LabelsOf(rest));
      parts := [Plain(l)] + rest;
      assert parts[1..] == rest;
    }
  }

  /** A name parses to its root octet exactly if labels of 1 to 63 octets and pointers spell it from there within
    * the limits, wherever the pointers lead. */
  lemma WalksExactlyWhatIsSpelled(buf: seq<byte>, pos: nat)
    ensures (WalkName(buf, pos).Some? && WalkName(buf, pos).value.rooted) <==>
            exists parts :: Spells(buf, pos, parts) && WithinLimits(parts)
  {
    if WalkName(buf, pos).Some? && WalkName(buf, pos).value.rooted {
      var parts := WalkedIsSpelled(buf, pos, 0, 0, 0);
      assert Spells(buf, pos, parts) && WithinLimits(parts);
    }
    if parts :| Spells(buf, pos, parts) && WithinLimits(parts) { SpelledIsWalked(buf, pos, parts, 0, 0, 0); }
  }

  /** And it parses to the labels spelled, and ends after its root octet or its first pointer. */
  lemma WalksToWhatIsSpelled(buf: seq<byte>, pos: nat, parts: seq<Part>)
    requires Spells(buf, pos, parts) && WithinLimits(parts)
    ensures WalkName(buf, pos) == Some(Walk(LabelsOf(parts), EndOf(pos, parts), true))
  {
    SpelledIsWalked(buf, pos, parts, 0, 0, 0);
  }
}
