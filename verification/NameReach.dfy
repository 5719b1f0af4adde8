/** Walks of names (section 4.1.4 of RFC 1035) through a message in which some octets are rewritten and
  * the octets from an insertion on move: how far a walk gets, and what it then still reads. */
module NameReach {
  import opened Bytes
  import opened Wrappers
  import opened WireNames
  import opened Messages
  import opened Edns

  // ---------------------------------------------------------------- the expansion of a name

  /** The labels of a walk that ended in a root byte. */
  function Rooted(walk: Option<Walk>): Option<seq<Label>> {
    if walk.Some? && walk.value.rooted then Some(walk.value.labels) else None
  }

  function Joined(labels: seq<Label>, rest: Option<seq<Label>>): Option<seq<Label>> {
    if rest.None? then None else Some(labels + rest.value)
  }

  /** What is left to read at `pos` after the steps counted. */
  function Rest(buf: seq<byte>, pos: nat, jumps: nat, steps: nat, total: nat): Option<seq<Label>> {
    Rooted(WalkFrom(buf, pos, jumps, steps, total))
  }

  /** The labels the name at `pos` expands to. */
  function Expands(buf: seq<byte>, pos: nat): Option<seq<Label>> { Rooted(WalkName(buf, pos)) }

  /** A name up to its root byte or its first pointer, with the counters of the walk there. */
  datatype Own = Ends(labels: seq<Label>) | Jumps(labels: seq<Label>, target: nat, steps: nat, total: nat) | Broken

  function OwnPart(buf: seq<byte>, pos: nat, steps: nat, total: nat): Own
    decreases MAX_STEPS - steps, buf
  {
    if pos >= |buf| || steps + 1 > MAX_STEPS then Broken
    else
      var len := buf[pos];
      if len == 0 then if total + 1 > MAX_WIRE then Broken else Ends([])
      else if IsPointer(len) then
        if pos + 1 >= |buf| then Broken else Jumps([], Target(len, buf[pos + 1]), steps + 1, total)
      else if len > MAX_LABEL || pos + 1 + len > |buf| || total + 1 + len > MAX_WIRE then Broken
      else PrependOwn(buf[pos + 1..pos + 1 + len], OwnPart(buf, pos + 1 + len, steps + 1, total + 1 + len))
  }

  function PrependOwn(l: Label, own: Own): Own {
    match own
    case Broken => Broken
    case Ends(labels) => Ends([l] + labels)
    case Jumps(labels, target, steps, total) => Jumps([l] + labels, target, steps, total)
  }

  /** What a name's own octets expand to in `buf`. */
  function Finish(buf: seq<byte>, own: Own): Option<seq<Label>> {
    match own
    case Broken => None
    case Ends(labels) => Some(labels)
    case Jumps(labels, target, steps, total) =>
      if target >= |buf| then None else Joined(labels, Rest(buf, target, 1, steps, total))
  }

  lemma {:induction false} WalkFinishes(buf: seq<byte>, pos: nat, steps: nat, total: nat)
    ensures Rooted(WalkFrom(buf, pos, 0, steps, total)) == Finish(buf, OwnPart(buf, pos, steps, total))
    decreases MAX_STEPS - steps
  {
    if pos < |buf| && steps + 1 <= MAX_STEPS && buf[pos] != 0 {
      if IsPointer(buf[pos]) {
        PointerFinishes(buf, pos, steps, total);
      } else if buf[pos] <= MAX_LABEL && pos + 1 + buf[pos] <= |buf| && total + 1 + buf[pos] <= MAX_WIRE {
        WalkFinishes(buf, pos + 1 + buf[pos], steps + 1, total + 1 + buf[pos]);
        LabelFinishes(buf, pos, steps, total);
      }
    }
  }

  lemma PointerFinishes(buf: seq<byte>, pos: nat, steps: nat, total: nat)
    requires pos < |buf| && steps < MAX_STEPS && IsPointer(buf[pos])
    ensures Rooted(WalkFrom(buf, pos, 0, steps, total)) == Finish(buf, OwnPart(buf, pos, steps, total))
  {
    if pos + 1 < |buf| && Target(buf[pos], buf[pos + 1]) < |buf| {
      JoinedNone(Rest(buf, Target(buf[pos], buf[pos + 1]), 1, steps + 1, total));
    }
  }

  lemma LabelFinishes(buf: seq<byte>, pos: nat, steps: nat, total: nat)
    requires pos < |buf| && steps < MAX_STEPS && 1 <= buf[pos] <= MAX_LABEL
    requires pos + 1 + buf[pos] <= |buf| && total + 1 + buf[pos] <= MAX_WIRE
    requires Rooted(WalkFrom(buf, pos + 1 + buf[pos], 0, steps + 1, total + 1 + buf[pos])) ==
             Finish(buf, OwnPart(buf, pos + 1 + buf[pos], steps + 1, total + 1 + buf[pos]))
    ensures Rooted(WalkFrom(buf, pos, 0, steps, total)) == Finish(buf, OwnPart(buf, pos, steps, total))
  {
    var next := pos + 1 + buf[pos];
    FinishAfter(buf, buf[pos + 1..next], OwnPart(buf, next, steps + 1, total + 1 + buf[pos]));
  }

  lemma JoinedNone(rest: Option<seq<Label>>)
    ensures Joined([], rest) == rest
  {
    if rest.Some? { assert [] + rest.value == rest.value; }
  }

  lemma FinishAfter(buf: seq<byte>, l: Label, own: Own)
    ensures Finish(buf, PrependOwn(l, own)) == Joined([l], Finish(buf, own))
  {
    if own.Jumps? && own.target < |buf| {
      var rest := Rooted(WalkFrom(buf, own.target, 1, own.steps, own.total));
      if rest.Some? { assert [l] + own.labels + rest.value == [l] + (own.labels + rest.value); }
    }
  }

  /** The own part of a name is the same wherever the name stands. */
  lemma {:induction false} OwnAt(buf: seq<byte>, s: nat, n: seq<byte>, i: nat, steps: nat, total: nat)
    requires At(buf, s, n) && SkipFrom(n, i, steps) == Some(|n|)
    ensures OwnPart(buf, s + i, steps, total) == OwnPart(n, i, steps, total)
    decreases MAX_STEPS - steps
  {
    OctetAt(buf, s, n, i);
    var len := n[i];
    if len != 0 {
      if IsPointer(len) {
        OctetAt(buf, s, n, i + 1);
      } else {
        SkipAdvances(n, i, steps);
        SkipAdvances(n, i + 1 + len, steps + 1);
        LabelAt(buf, s, n, i + 1, len);
        OwnAt(buf, s, n, i + 1 + len, steps + 1, total + 1 + len);
      }
    }
  }

  lemma OctetAt(buf: seq<byte>, s: nat, n: seq<byte>, i: nat)
    requires At(buf, s, n) && i < |n|
    ensures buf[s + i] == n[i]
  {
    assert buf[s..s + |n|][i] == n[i];
  }

  lemma LabelAt(buf: seq<byte>, s: nat, n: seq<byte>, i: nat, len: nat)
    requires At(buf, s, n) && i + len <= |n|
    ensures buf[s + i..s + i + len] == n[i..i + len]
  {
    SliceOfSlice(buf, s, s + |n|, i, i + len);
  }

  lemma SliceOfSlice<T>(x: seq<T>, lo: nat, hi: nat, i: nat, j: nat)
    requires lo <= hi <= |x| && i <= j <= hi - lo
    ensures x[lo..hi][i..j] == x[lo + i..lo + j]
  {
    var y := x[lo..hi];
    assert forall k | i <= k < j :: y[k] == x[lo + k];
  }

  /** The labels that the name `n` of the message `buf` expands to. */
  function Meaning(buf: seq<byte>, n: seq<byte>): Option<seq<Label>> { Finish(buf, OwnPart(n, 0, 0, 0)) }

  /** Wherever a name stands in a message, parsing it gives its meaning. */
  lemma MeaningIsExpansion(buf: seq<byte>, s: nat, n: seq<byte>)
    requires IsName(n) && At(buf, s, n)
    ensures Expands(buf, s) == Meaning(buf, n)
  {
    OwnAt(buf, s, n, 0, 0, 0);
    WalkFinishes(buf, s, 0, 0);
  }

  // ---------------------------------------------------------------- how far a walk gets

  /** The octets of `lo..hi` are rewritten, and those from `ins` on move. */
  datatype Edit = Edit(lo: nat, hi: nat, ins: nat)

  /** Before it ends a walk reads nothing that changes, or reads a rewritten octet (or half a pointer on
    * either side of the insertion), or gets to an octet at or past the insertion. */
  datatype Reach = Clear | Torn | Past(at: nat)

  /** The octets of `i..j` include a rewritten one. */
  predicate Meets(e: Edit, i: nat, j: nat) { i < e.hi && e.lo < j }

  /** The walk of `WalkFrom` after its first jump. */
  function ReachFrom(buf: seq<byte>, e: Edit, pos: nat, steps: nat): Reach
    decreases MAX_STEPS - steps, buf
  {
    if pos >= e.ins then Past(pos)
    else if pos >= |buf| || steps + 1 > MAX_STEPS then Clear
    else if Meets(e, pos, pos + 1) then Torn
    else
      var len := buf[pos];
      if len == 0 then Clear
      else if IsPointer(len) then
        if pos + 1 >= e.ins || pos + 1 >= |buf| || Meets(e, pos, pos + 2) then Torn
        else ReachFrom(buf, e, Target(len, buf[pos + 1]), steps + 1)
      else if len > MAX_LABEL then Clear
      else if Meets(e, pos, pos + 1 + len) then Torn
      else ReachFrom(buf, e, pos + 1 + len, steps + 1)
  }

  /** How far the name `n` gets once it leaves its own octets. */
  function ReachOf(buf: seq<byte>, e: Edit, n: seq<byte>): Reach {
    match OwnPart(n, 0, 0, 0)
    case Jumps(_, target, steps, _) => ReachFrom(buf, e, target, steps)
    case _ => Clear
  }

  /** `b` has the octets of `a` before the insertion, but for the rewritten ones. */
  ghost predicate Edited(a: seq<byte>, b: seq<byte>, e: Edit) {
    && e.lo <= e.hi <= e.ins <= |a|
    && (forall i | 0 <= i < e.lo :: i < |b| && b[i] == a[i])
    && (forall i | e.hi <= i < e.ins :: i < |b| && b[i] == a[i])
  }

  lemma SameOctet(a: seq<byte>, b: seq<byte>, e: Edit, i: nat)
    requires Edited(a, b, e) && i < e.ins && !Meets(e, i, i + 1)
    ensures i < |b| && b[i] == a[i]
  {
    var x := a[i];
    if i >= e.lo { assert e.hi <= i < e.ins; }
    assert i < |b| && b[i] == x;
  }

  /** The octets of one step that reads nothing that changes. */
  lemma SameStep(a: seq<byte>, b: seq<byte>, e: Edit, pos: nat)
    requires Edited(a, b, e) && pos < e.ins && !Meets(e, pos, pos + 1)
    ensures pos < |b| && b[pos] == a[pos]
    ensures IsPointer(a[pos]) && pos + 1 < e.ins && !Meets(e, pos, pos + 2) ==> pos + 1 < |b| && b[pos + 1] == a[pos + 1]
    ensures var next := pos + 1 + a[pos]; next <= e.ins && !Meets(e, pos, next) ==>
      next <= |b| && b[pos + 1..next] == a[pos + 1..next]
  {
    SameOctet(a, b, e, pos);
    if pos + 1 < e.ins && !Meets(e, pos, pos + 2) { SameOctet(a, b, e, pos + 1); }
    var next := pos + 1 + a[pos];
    if next <= e.ins && !Meets(e, pos, next) {
      SameOctet(a, b, e, next - 1);
      forall i | pos < i < next ensures b[i] == a[i] { SameOctet(a, b, e, i); }
    }
  }

  /** Where a step leads, and the counters after it. */
  function Onto(buf: seq<byte>, pos: nat): nat
    requires pos < |buf| && (IsPointer(buf[pos]) ==> pos + 1 < |buf|)
  {
    if IsPointer(buf[pos]) then Target(buf[pos], buf[pos + 1]) else pos + 1 + buf[pos]
  }

  function Jumped(len: byte, jumps: nat): nat { if IsPointer(len) then jumps + 1 else jumps }

  function Counted(len: byte, total: nat): nat { if IsPointer(len) then total else total + 1 + len }

  /** A walk that ends in a root byte, one step further. */
  lemma RestStep(a: seq<byte>, pos: nat, jumps: nat, steps: nat, total: nat)
    requires Rest(a, pos, jumps, steps, total).Some?
    ensures pos < |a| && steps < MAX_STEPS
    ensures a[pos] == 0 ==> Rest(a, pos, jumps, steps, total) == Some([])
    ensures IsPointer(a[pos]) ==> pos + 1 < |a|
    ensures a[pos] != 0 ==>
      && (IsPointer(a[pos]) || (a[pos] <= MAX_LABEL && pos + 1 + a[pos] <= |a| && total + 1 + a[pos] <= MAX_WIRE))
      && Rest(a, Onto(a, pos), Jumped(a[pos], jumps), steps + 1, Counted(a[pos], total)).Some?
  {
  }

  /** A step over the same octets leaves the same question. */
  lemma StepSame(a: seq<byte>, b: seq<byte>, pos: nat, jumps: nat, steps: nat, total: nat)
    requires Rest(a, pos, jumps, steps, total).Some? && pos < |a| && a[pos] != 0 && pos < |b| && b[pos] == a[pos]
    requires IsPointer(a[pos]) ==> pos + 1 < |a| && pos + 1 < |b| && b[pos + 1] == a[pos + 1]
    requires !IsPointer(a[pos]) ==> var next := pos + 1 + a[pos];
      next <= |a| && next <= |b| && b[pos + 1..next] == a[pos + 1..next]
    requires Onto(a, pos) < |b|
    ensures Rest(b, pos, jumps, steps, total) == Rest(a, pos, jumps, steps, total) <==>
            Rest(b, Onto(a, pos), Jumped(a[pos], jumps), steps + 1, Counted(a[pos], total)) ==
            Rest(a, Onto(a, pos), Jumped(a[pos], jumps), steps + 1, Counted(a[pos], total))
  {
    var len := a[pos];
    if !IsPointer(len) {
      PrependSame(a[pos + 1..pos + 1 + len], WalkFrom(a, pos + 1 + len, jumps, steps + 1, total + 1 + len),
                  WalkFrom(b, pos + 1 + len, jumps, steps + 1, total + 1 + len));
    }
  }

  lemma PrependSame(l: Label, x: Option<Walk>, y: Option<Walk>)
    ensures Rooted(Prepend(l, x)) == Rooted(Prepend(l, y)) <==> Rooted(x) == Rooted(y)
  {
    if Rooted(x).Some? && Rooted(y).Some? {
      var u, v := [l] + x.value.labels, [l] + y.value.labels;
      assert u[1..] == x.value.labels && v[1..] == y.value.labels;
    }
  }

  /** A walk that reads nothing that changes goes the same way. */
  lemma {:induction false} ClearSame(a: seq<byte>, b: seq<byte>, e: Edit, pos: nat, jumps: nat, steps: nat, total: nat)
    requires Edited(a, b, e) && ReachFrom(a, e, pos, steps).Clear? && Rest(a, pos, jumps, steps, total).Some?
    ensures pos < |b| && Rest(b, pos, jumps, steps, total) == Rest(a, pos, jumps, steps, total)
    decreases MAX_STEPS - steps
  {
    RestStep(a, pos, jumps, steps, total);
    SameStep(a, b, e, pos);
    if a[pos] != 0 {
      var next := Onto(a, pos);
      assert ReachFrom(a, e, next, steps + 1).Clear?;
      ClearSame(a, b, e, next, Jumped(a[pos], jumps), steps + 1, Counted(a[pos], total));
      StepSame(a, b, pos, jumps, steps, total);
    }
  }

  /** What `e` leaves alone before its insertion, the later edit `e'` leaves alone as well. */
  predicate Later(e: Edit, e': Edit) {
    && e.ins < e'.ins && (e'.lo > e.ins || (e'.lo == e.lo && e'.hi == e.hi <= e.ins))
  }

  /** Such a walk, and one that finds a root at the insertion, reads nothing that a later edit changes. */
  lemma {:induction false} ClearStays(a: seq<byte>, b: seq<byte>, e: Edit, e': Edit, pos: nat, steps: nat)
    requires Edited(a, b, e) && Later(e, e') && e.ins < |b| && b[e.ins] == 0
    requires ReachFrom(a, e, pos, steps) == Clear || ReachFrom(a, e, pos, steps) == Past(e.ins)
    ensures ReachFrom(b, e', pos, steps).Clear?
    decreases MAX_STEPS - steps
  {
    if pos < e.ins && steps + 1 <= MAX_STEPS {
      SameStep(a, b, e, pos);
      var len := a[pos];
      if len != 0 {
        if IsPointer(len) {
          ClearStays(a, b, e, e', Target(len, a[pos + 1]), steps + 1);
        } else if len <= MAX_LABEL {
          ClearStays(a, b, e, e', pos + 1 + len, steps + 1);
        }
      }
    }
  }

  // ---------------------------------------------------------------- walks that get past the insertion

  /** The walk gets to the insertion exactly, where nothing but a root stands. */
  predicate AtRoot(buf: seq<byte>, e: Edit, reach: Reach) {
    reach.Past? && reach.at == e.ins && Expands(buf, e.ins) == Some([])
  }

  lemma RestAtRoot(buf: seq<byte>, e: Edit, jumps: nat, steps: nat, total: nat)
    requires Rest(buf, e.ins, jumps, steps, total).Some?
    ensures AtRoot(buf, e, Past(e.ins)) <==> Rest(buf, e.ins, jumps, steps, total) == Some([])
  {
    FewerCounted(buf, e.ins, jumps, steps, total, 0, 0, 0);
  }

  lemma {:induction false} RestLimits(buf: seq<byte>, pos: nat, jumps: nat, steps: nat, total: nat)
    requires Rest(buf, pos, jumps, steps, total).Some?
    ensures steps < MAX_STEPS && jumps <= MAX_JUMPS && total < MAX_WIRE
    decreases MAX_STEPS - steps
  {
    RestStep(buf, pos, jumps, steps, total);
    if buf[pos] != 0 {
      RestLimits(buf, Onto(buf, pos), Jumped(buf[pos], jumps), steps + 1, Counted(buf[pos], total));
    }
  }

  /** A zero at the insertion ends the name there. */
  lemma ZeroEnds(b: seq<byte>, pos: nat, jumps: nat, steps: nat, total: nat)
    requires pos < |b| && b[pos] == 0 && steps < MAX_STEPS && jumps <= MAX_JUMPS && total < MAX_WIRE
    ensures Rest(b, pos, jumps, steps, total) == Some([])
  {
  }

  /** Where a root stood and a zero is inserted, the name is as before. */
  lemma {:induction false} RootStays(a: seq<byte>, b: seq<byte>, e: Edit, pos: nat, jumps: nat, steps: nat, total: nat)
    requires Edited(a, b, e) && e.ins < |b| && b[e.ins] == 0 && AtRoot(a, e, ReachFrom(a, e, pos, steps))
    requires Rest(a, pos, jumps, steps, total).Some?
    ensures pos < |b| && Rest(b, pos, jumps, steps, total) == Rest(a, pos, jumps, steps, total)
    decreases MAX_STEPS - steps
  {
    RestStep(a, pos, jumps, steps, total);
    if pos >= e.ins {
      RestAtRoot(a, e, jumps, steps, total);
      RestLimits(a, pos, jumps, steps, total);
      ZeroEnds(b, pos, jumps, steps, total);
    } else {
      SameStep(a, b, e, pos);
      var next := Onto(a, pos);
      assert ReachFrom(a, e, next, steps + 1) == Past(e.ins);
      assert IsPointer(a[pos]) || next <= e.ins;
      RootStays(a, b, e, next, Jumped(a[pos], jumps), steps + 1, Counted(a[pos], total));
      StepSame(a, b, pos, jumps, steps, total);
    }
  }

  /** The option of a long cookie of octets 64, which are neither label lengths nor pointers. */
  predicate Misleading(option: seq<byte>) {
    && |option| > 0x5000 && option[0] == 0 && option[1] == COOKIE
    && forall i | 2 <= i < |option| :: 64 <= option[i] < 192
  }

  /** Inside the misleading option no name is read. */
  lemma NothingInside(b: seq<byte>, ins: nat, option: seq<byte>, pos: nat, jumps: nat, steps: nat, total: nat)
    requires At(b, ins, option) && Misleading(option) && ins < pos <= ins + 0x4100
    ensures WalkFrom(b, pos, jumps, steps, total).None?
  {
    OctetAt(b, ins, option, pos - ins);
    if pos == ins + 1 { OctetAt(b, ins, option, 12); }
  }

  /** A label that runs into the misleading option is not followed by another, nor by a root. */
  lemma LabelRunsIn(b: seq<byte>, ins: nat, option: seq<byte>, pos: nat, jumps: nat, steps: nat, total: nat)
    requires At(b, ins, option) && Misleading(option) && pos < ins < pos + 1 + b[pos] && 1 <= b[pos] <= MAX_LABEL
    ensures Rest(b, pos, jumps, steps, total).None?
  {
    NothingInside(b, ins, option, pos + 1 + b[pos], jumps, steps + 1, total + 1 + b[pos]);
  }

  /** A walk that gets past the insertion is led astray by the misleading option, unless nothing but a
    * root stood at the insertion. */
  lemma {:induction false} LedAstray(a: seq<byte>, b: seq<byte>, e: Edit, option: seq<byte>, pos: nat, jumps: nat,
        steps: nat, total: nat)
    requires Edited(a, b, e) && At(b, e.ins, option) && Misleading(option)
    requires Rest(a, pos, jumps, steps, total).Some?
    requires ReachFrom(a, e, pos, steps).Past? && !AtRoot(a, e, ReachFrom(a, e, pos, steps))
    requires pos <= e.ins + 0x4000
    ensures Rest(b, pos, jumps, steps, total) != Rest(a, pos, jumps, steps, total)
    decreases MAX_STEPS - steps
  {
    RestStep(a, pos, jumps, steps, total);
    if pos > e.ins {
      NothingInside(b, e.ins, option, pos, jumps, steps, total);
    } else if pos == e.ins {
      RestAtRoot(a, e, jumps, steps, total);
      RestLimits(a, pos, jumps, steps, total);
      OctetAt(b, e.ins, option, 0);
      ZeroEnds(b, pos, jumps, steps, total);
    } else {
      SameStep(a, b, e, pos);
      var next := Onto(a, pos);
      if IsPointer(a[pos]) || next <= e.ins {
        assert ReachFrom(a, e, next, steps + 1) == ReachFrom(a, e, pos, steps);
        LedAstray(a, b, e, option, next, Jumped(a[pos], jumps), steps + 1, Counted(a[pos], total));
        StepSame(a, b, pos, jumps, steps, total);
      } else {
        LabelRunsIn(b, e.ins, option, pos, jumps, steps, total);
      }
    }
  }
}
