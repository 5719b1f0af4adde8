/** Names on the wire (sections 3.1 and 4.1.4 of RFC 1035; src/dns/parser.rs): label walking with
  * compression pointers, and skipping. */
module WireNames {
  import opened Bytes
  import opened Wrappers

  type Label = seq<byte>

  const MAX_STEPS := 128
  const MAX_JUMPS := 16
  const MAX_WIRE := 255
  const MAX_LABEL := 63

  /** `len & 0xc0 == 0xc0` */
  predicate IsPointer(len: byte) { len >= 192 }

  /** `((len & 0x3f) << 8) | low` */
  function Target(len: byte, low: byte): nat requires IsPointer(len) { (len - 192) * 256 + low }

  /** A walk: the labels read, the offset after the name in the stream, and whether a root byte ended
    * it (otherwise it ran off the buffer). */
  datatype Walk = Walk(labels: seq<Label>, end: nat, rooted: bool)

  /** The loop of `parse_name_with_offset_opts` without the text it builds. */
  function WalkFrom(buf: seq<byte>, pos: nat, jumps: nat, steps: nat, total: nat): Option<Walk>
    decreases MAX_STEPS - steps, buf
  {
    if pos >= |buf| then Some(Walk([], pos, false))
    else if steps + 1 > MAX_STEPS || jumps > MAX_JUMPS then None
    else
      var len := buf[pos];
      if len == 0 then
        if total + 1 > MAX_WIRE then None else Some(Walk([], pos + 1, true))
      else if IsPointer(len) then
        if pos + 1 >= |buf| || Target(len, buf[pos + 1]) >= |buf| then None
        else EndingAt(WalkFrom(buf, Target(len, buf[pos + 1]), jumps + 1, steps + 1, total), pos + 2)
      else if len > MAX_LABEL || pos + 1 + len > |buf| || total + 1 + len > MAX_WIRE then None
      else Prepend(buf[pos + 1..pos + 1 + len], WalkFrom(buf, pos + 1 + len, jumps, steps + 1, total + 1 + len))
  }

  function EndingAt(walk: Option<Walk>, end: nat): Option<Walk> {
    if walk.None? then None else Some(walk.value.(end := end))
  }

  function Prepend(l: Label, walk: Option<Walk>): Option<Walk> {
    if walk.None? then None else Some(walk.value.(labels := [l] + walk.value.labels))
  }

  function WalkName(buf: seq<byte>, pos: nat): Option<Walk> { WalkFrom(buf, pos, 0, 0, 0) }

  /** Octets of the name on the wire, root byte included. */
  function WireLength(labels: seq<Label>): nat {
    if labels == [] then 1 else 1 + |labels[0]| + WireLength(labels[1..])
  }

  predicate ValidLabels(labels: seq<Label>) { forall i | 0 <= i < |labels| :: 1 <= |labels[i]| <= MAX_LABEL }

  lemma {:induction false} PrependLimits(l: Label, labels: seq<Label>)
    requires 1 <= |l| <= MAX_LABEL && ValidLabels(labels)
    ensures ValidLabels([l] + labels) && WireLength([l] + labels) == 1 + |l| + WireLength(labels)
  {
    assert ([l] + labels)[1..] == labels;
  }

  /** What the limits leave: labels of 1 to 63 octets, and at most 255 octets, of which a walk that ran
    * off the buffer has not counted the root byte. */
  lemma {:induction false} WalkLimits(buf: seq<byte>, pos: nat, jumps: nat, steps: nat, total: nat)
    requires WalkFrom(buf, pos, jumps, steps, total).Some? && total <= MAX_WIRE
    ensures var w := WalkFrom(buf, pos, jumps, steps, total).value;
      && ValidLabels(w.labels) && total + WireLength(w.labels) <= MAX_WIRE + if w.rooted then 0 else 1
    decreases MAX_STEPS - steps
  {
    if pos < |buf| && buf[pos] != 0 {
      var len := buf[pos];
      if IsPointer(len) {
        WalkLimits(buf, Target(len, buf[pos + 1]), jumps + 1, steps + 1, total);
      } else {
        WalkLimits(buf, pos + 1 + len, jumps, steps + 1, total + 1 + len);
        PrependLimits(buf[pos + 1..pos + 1 + len],
                      WalkFrom(buf, pos + 1 + len, jumps, steps + 1, total + 1 + len).value.labels);
      }
    }
  }

  /** A walk that succeeds also succeeds with less behind it, and reads the same. */
  lemma {:induction false} FewerCounted(buf: seq<byte>, pos: nat, jumps: nat, steps: nat, total: nat, j: nat, s: nat,
        t: nat)
    requires WalkFrom(buf, pos, jumps, steps, total).Some? && j <= jumps && s <= steps && t <= total
    ensures WalkFrom(buf, pos, j, s, t) == WalkFrom(buf, pos, jumps, steps, total)
    decreases MAX_STEPS - steps
  {
    if pos < |buf| && buf[pos] != 0 {
      var len := buf[pos];
      if IsPointer(len) {
        FewerCounted(buf, Target(len, buf[pos + 1]), jumps + 1, steps + 1, total, j + 1, s + 1, t);
      } else {
        FewerCounted(buf, pos + 1 + len, jumps, steps + 1, total + 1 + len, j, s + 1, t + 1 + len);
      }
    }
  }

  // ---------------------------------------------------------------- pointer cycles

  /** The position read after `pos`, none at a root byte, off the buffer or at a malformed length. */
  function Next(buf: seq<byte>, pos: nat): Option<nat> {
    if pos >= |buf| || buf[pos] == 0 then None
    else if IsPointer(buf[pos]) then
      if pos + 1 < |buf| && Target(buf[pos], buf[pos + 1]) < |buf| then Some(Target(buf[pos], buf[pos + 1])) else None
    else if buf[pos] <= MAX_LABEL && pos + 1 + buf[pos] <= |buf| then Some(pos + 1 + buf[pos])
    else None
  }

  ghost predicate Reaches(buf: seq<byte>, p: nat, q: nat, k: nat)
    decreases k
  {
    if k == 0 then p == q else Next(buf, p).Some? && Reaches(buf, Next(buf, p).value, q, k - 1)
  }

  lemma {:induction false} ReachesTransitive(buf: seq<byte>, p: nat, q: nat, r: nat, j: nat, k: nat)
    requires Reaches(buf, p, q, j) && Reaches(buf, q, r, k)
    ensures Reaches(buf, p, r, j + k)
    decreases j
  {
    if j == 0 {
    } else {
      ReachesTransitive(buf, Next(buf, p).value, q, r, j - 1, k);
    }
  }

  /** A walk that succeeds takes no more steps than it counts. */
  lemma {:induction false} StepsBounded(buf: seq<byte>, p: nat, q: nat, k: nat, jumps: nat, steps: nat, total: nat)
    requires WalkFrom(buf, p, jumps, steps, total).Some? && Reaches(buf, p, q, k) && steps <= MAX_STEPS
    ensures steps + k <= MAX_STEPS
    decreases k
  {
    if k == 0 {
    } else {
      var next := Next(buf, p).value;
      if IsPointer(buf[p]) {
        StepsBounded(buf, next, q, k - 1, jumps + 1, steps + 1, total);
      } else {
        StepsBounded(buf, next, q, k - 1, jumps, steps + 1, total + 1 + buf[p]);
      }
    }
  }

  /** Going round a cycle makes arbitrarily long walks. */
  lemma {:induction false} GoAround(buf: seq<byte>, p: nat, k: nat, rounds: nat) returns (n: nat)
    requires Reaches(buf, p, p, k) && k > 0
    ensures n >= rounds && Reaches(buf, p, p, n)
  {
    n := 0;
    if rounds == 0 {
    } else {
      var m := GoAround(buf, p, k, rounds - 1);
      ReachesTransitive(buf, p, p, p, k, m);
      n := k + m;
    }
  }

  /** A walk that comes round to a position again is rejected, wherever the cycle is entered. */
  lemma CycleRejected(buf: seq<byte>, pos: nat, p: nat, i: nat, k: nat)
    requires Reaches(buf, pos, p, i) && Reaches(buf, p, p, k) && k > 0
    ensures WalkName(buf, pos).None?
  {
    var n := GoAround(buf, p, k, MAX_STEPS + 1);
    ReachesTransitive(buf, pos, p, p, i, n);
    if WalkName(buf, pos).Some? { StepsBounded(buf, pos, p, i + n, 0, 0, 0); }
  }

  // ---------------------------------------------------------------- skipping

  /** The loop of `skip_dns_name`. */
  function SkipFrom(buf: seq<byte>, pos: nat, count: nat): Option<nat>
    decreases MAX_STEPS - count, buf
  {
    if pos >= |buf| || count >= MAX_STEPS then None
    else
      var len := buf[pos];
      if len == 0 then Some(pos + 1)
      else if IsPointer(len) then if pos + 2 > |buf| then None else Some(pos + 2)
      else if len > MAX_LABEL || pos + 1 + len > |buf| then None
      else SkipFrom(buf, pos + 1 + len, count + 1)
  }

  function SkipName(buf: seq<byte>, pos: nat): Option<nat> { SkipFrom(buf, pos, 0) }

  method SkipDnsName(buf: seq<byte>, start: nat) returns (r: Option<nat>)
    ensures r == SkipName(buf, start)
  {
    var pos: nat, count: nat := start, 0;
    while pos < |buf| && count < MAX_STEPS
      invariant SkipFrom(buf, pos, count) == SkipName(buf, start)
      decreases MAX_STEPS - count
    {
      count := count + 1;
      var len := buf[pos];
      if len == 0 { return Some(pos + 1); }
      if IsPointer(len) {
        if pos + 2 > |buf| { return None; }
        return Some(pos + 2);
      }
      if len > MAX_LABEL || pos + 1 + len > |buf| { return None; }
      pos := pos + 1 + len;
    }
    return None;
  }

  /** When the walk succeeds, skipping finds the same end, or fails because the name ran off the
    * buffer before any root byte or pointer; the walk then ends at or past the buffer's end. */
  lemma {:induction false} SkipAgreesFrom(buf: seq<byte>, pos: nat, steps: nat, total: nat)
    requires WalkFrom(buf, pos, 0, steps, total).Some? && steps <= MAX_STEPS
    ensures var end := WalkFrom(buf, pos, 0, steps, total).value.end;
      && SkipFrom(buf, pos, steps) == (if RunsOff(buf, pos) then None else Some(end))
      && if RunsOff(buf, pos) then end >= |buf| else end <= |buf|
    decreases MAX_STEPS - steps
  {
    if pos < |buf| && buf[pos] != 0 && !IsPointer(buf[pos]) {
      SkipAgreesFrom(buf, pos + 1 + buf[pos], steps + 1, total + 1 + buf[pos]);
    }
  }

  /** The labels in the stream reach the buffer's end with no root byte and no pointer. */
  predicate RunsOff(buf: seq<byte>, pos: nat)
    decreases |buf| - pos
  {
    pos >= |buf| || (1 <= buf[pos] <= MAX_LABEL && RunsOff(buf, pos + 1 + buf[pos]))
  }

  lemma SkipAgrees(buf: seq<byte>, pos: nat)
    requires WalkName(buf, pos).Some?
    ensures SkipName(buf, pos) == if RunsOff(buf, pos) then None else Some(WalkName(buf, pos).value.end)
    ensures RunsOff(buf, pos) ==> WalkName(buf, pos).value.end >= |buf|
  {
    SkipAgreesFrom(buf, pos, 0, 0);
  }
}
