/** Ageing cached responses (section 3.2.1 of RFC 1035, section 8 of RFC 2181): `decrement_response_ttl`
  * of src/dns/cache.rs and `extract_min_ttl` of src/dns/parser.rs. */
module Ttl {
  import opened Bytes
  import opened Wrappers
  import opened WireNames
  import opened Messages

  /** What is left of a TTL: at least 1. */
  function Left(ttl: nat, elapsed: nat): nat { if ttl > elapsed + 1 then ttl - elapsed else 1 }

  /** The name loop of `decrement_response_ttl`: it never fails. */
  function SkipAny(buf: seq<byte>, pos: nat): (p: nat)
    ensures p >= pos
    decreases |buf| - pos
  {
    if pos >= |buf| then pos
    else if buf[pos] == 0 then pos + 1
    else if IsPointer(buf[pos]) then pos + 2
    else SkipAny(buf, pos + 1 + buf[pos])
  }

  function QuestionsEnd(buf: seq<byte>, pos: nat, n: nat): Option<nat>
    decreases n
  {
    if n == 0 then Some(pos)
    else if SkipAny(buf, pos) + 4 > |buf| then None
    else QuestionsEnd(buf, SkipAny(buf, pos) + 4, n - 1)
  }

  /** Where the record loop writes: the TTL fields of the records that are not OPT. */
  function Sites(buf: seq<byte>, pos: nat, n: nat): seq<nat>
    decreases n, 1
  {
    if n == 0 || pos >= |buf| then [] else SitesAfterName(buf, SkipAny(buf, pos), n)
  }

  function SitesAfterName(buf: seq<byte>, p: nat, n: nat): seq<nat>
    requires n > 0
    decreases n, 0
  {
    if p + 10 > |buf| then []
    else (if ReadU16(buf, p) == OPT then [] else [p + 4]) + Sites(buf, p + 10 + ReadU16(buf, p + 8), n - 1)
  }

  /** The four octets at `s` aged. */
  function AgeAt(buf: seq<byte>, s: nat, elapsed: nat): (r: seq<byte>)
    ensures |r| == |buf|
  {
    if s + 4 > |buf| then buf else buf[..s] + U32(Left(ReadU32(buf, s), elapsed)) + buf[s + 4..]
  }

  /** The record whose fixed part is at `p` aged, unless it is OPT. */
  function AgeOne(buf: seq<byte>, p: nat, elapsed: nat): (r: seq<byte>)
    requires p + 10 <= |buf|
    ensures |r| == |buf|
  {
    if ReadU16(buf, p) == OPT then buf else AgeAt(buf, p + 4, elapsed)
  }

  /** The record loop of `decrement_response_ttl`. */
  function AgeFrom(buf: seq<byte>, pos: nat, n: nat, elapsed: nat): (r: seq<byte>)
    ensures |r| == |buf|
    decreases n, 1
  {
    if n == 0 || pos >= |buf| then buf else AgeAfterName(buf, SkipAny(buf, pos), n, elapsed)
  }

  function AgeAfterName(buf: seq<byte>, p: nat, n: nat, elapsed: nat): (r: seq<byte>)
    requires n > 0
    ensures |r| == |buf|
    decreases n, 0
  {
    if p + 10 > |buf| then buf
    else AgeFrom(AgeOne(buf, p, elapsed), p + 10 + ReadU16(buf, p + 8), n - 1, elapsed)
  }

  /** Every one of `sites` aged. */
  function AgeAll(buf: seq<byte>, sites: seq<nat>, elapsed: nat): (r: seq<byte>)
    ensures |r| == |buf|
    decreases |sites|
  {
    if sites == [] then buf else AgeAll(AgeAt(buf, sites[0], elapsed), sites[1..], elapsed)
  }

  function TotalRecords(buf: seq<byte>): nat
    requires |buf| >= HEADER
  {
    ReadU16(buf, 6) + ReadU16(buf, 8) + ReadU16(buf, 10)
  }

  /** What `decrement_response_ttl` leaves. */
  function Age(buf: seq<byte>, elapsed: nat): seq<byte> {
    if |buf| < HEADER || elapsed == 0 then buf
    else match QuestionsEnd(buf, HEADER, ReadU16(buf, 4))
      case None => buf
      case Some(q) =>
        AgeFrom(buf, q, TotalRecords(buf), elapsed)
  }

  /** Every site is a whole field after `pos`. */
  lemma {:induction false} SitesInBounds(buf: seq<byte>, pos: nat, n: nat)
    ensures forall s <- Sites(buf, pos, n) :: pos + 4 <= s && s + 4 <= |buf|
    decreases n
  {
    if n > 0 && pos < |buf| {
      var p := SkipAny(buf, pos);
      assert Sites(buf, pos, n) == SitesAfterName(buf, p, n);
      if p + 10 <= |buf| {
        var next := p + 10 + ReadU16(buf, p + 8);
        SitesInBounds(buf, next, n - 1);
        assert forall s <- SitesAfterName(buf, p, n) :: s in [p + 4] || s in Sites(buf, next, n - 1);
      }
    }
  }

  // ---------------------------------------------------------------- the walk reads nothing it writes

  /** The same octets from `pos` on give the same sites. */
  lemma {:induction false} SitesSuffix(a: seq<byte>, b: seq<byte>, pos: nat, n: nat)
    requires |a| == |b| && pos <= |a| && a[pos..] == b[pos..]
    ensures Sites(a, pos, n) == Sites(b, pos, n)
    decreases n
  {
    if n > 0 && pos < |a| {
      SkipAnySuffix(a, b, pos);
      var p := SkipAny(a, pos);
      assert Sites(a, pos, n) == SitesAfterName(a, p, n) && Sites(b, pos, n) == SitesAfterName(b, p, n);
      if p + 10 <= |a| {
        SameU16(a, b, pos, p);
        SameU16(a, b, pos, p + 8);
        var next := p + 10 + ReadU16(a, p + 8);
        if next <= |a| {
          assert a[next..] == a[pos..][next - pos..] && b[next..] == b[pos..][next - pos..];
          SitesSuffix(a, b, next, n - 1);
        } else {
          assert Sites(a, next, n - 1) == [] == Sites(b, next, n - 1);
        }
      }
    }
  }

  lemma {:induction false} SkipAnySuffix(a: seq<byte>, b: seq<byte>, pos: nat)
    requires |a| == |b| && pos <= |a| && a[pos..] == b[pos..]
    ensures SkipAny(a, pos) == SkipAny(b, pos)
    decreases |a| - pos
  {
    if pos < |a| {
      assert a[pos] == a[pos..][0] && b[pos] == b[pos..][0];
      var next := pos + 1 + a[pos];
      if a[pos] != 0 && !IsPointer(a[pos]) && next <= |a| {
        assert a[next..] == a[pos..][next - pos..] && b[next..] == b[pos..][next - pos..];
        SkipAnySuffix(a, b, next);
      }
    }
  }

  lemma SameU16(a: seq<byte>, b: seq<byte>, pos: nat, i: nat)
    requires |a| == |b| && pos <= i && i + 2 <= |a| && a[pos..] == b[pos..]
    ensures ReadU16(a, i) == ReadU16(b, i)
  {
    ReadU16Suffix(a, pos, i - pos);
    ReadU16Suffix(b, pos, i - pos);
  }

  // ---------------------------------------------------------------- the method

  method SkipNameLoosely(wire: array<byte>, start: nat) returns (pos: nat)
    ensures pos == SkipAny(wire[..], start)
  {
    pos := start;
    while pos < wire.Length
      invariant SkipAny(wire[..], pos) == SkipAny(wire[..], start)
    {
      var len := wire[pos];
      if len == 0 { return pos + 1; }
      if IsPointer(len) { return pos + 2; }
      pos := pos + 1 + len;
    }
  }

  method SkipQuestionsLoosely(wire: array<byte>, count: nat) returns (r: Option<nat>)
    ensures r == QuestionsEnd(wire[..], HEADER, count)
  {
    var pos: nat := HEADER;
    for i := 0 to count
      invariant QuestionsEnd(wire[..], pos, count - i) == QuestionsEnd(wire[..], HEADER, count)
    {
      pos := SkipNameLoosely(wire, pos);
      pos := pos + 4;
      if pos > wire.Length { return None; }
    }
    return Some(pos);
  }

  /** One TTL field overwritten. */
  method WriteTtl(wire: array<byte>, s: nat, elapsed: nat)
    requires s + 4 <= wire.Length
    modifies wire
    ensures wire[..] == AgeAt(old(wire[..]), s, elapsed)
  {
    ghost var before := wire[..];
    var remaining := U32(Left(ReadU32(wire[..], s), elapsed));
    wire[s], wire[s + 1], wire[s + 2], wire[s + 3] := remaining[0], remaining[1], remaining[2], remaining[3];
    assert wire[..s] == before[..s] && wire[s..s + 4] == remaining && wire[s + 4..] == before[s + 4..];
    assert wire[..] == wire[..s] + wire[s..s + 4] + wire[s + 4..];
  }

  /** Sites stay where they are when one of them, before `pos`, is written. */
  lemma SitesAfterWrite(buf: seq<byte>, s: nat, elapsed: nat, pos: nat, n: nat)
    requires s + 4 <= pos && s + 4 <= |buf|
    ensures Sites(AgeAt(buf, s, elapsed), pos, n) == Sites(buf, pos, n)
  {
    if pos <= |buf| {
      var b := AgeAt(buf, s, elapsed);
      assert b[pos..] == buf[pos..];
      SitesSuffix(buf, b, pos, n);
    }
  }

  lemma SitesStep(buf: seq<byte>, pos: nat, n: nat, p: nat, next: nat)
    requires n > 0 && pos < |buf| && p == SkipAny(buf, pos) && p + 10 <= |buf| && next == p + 10 + ReadU16(buf, p + 8)
    ensures var rest := Sites(buf, next, n - 1);
      Sites(buf, pos, n) == if ReadU16(buf, p) == OPT then rest else [p + 4] + rest
  {
    assert Sites(buf, pos, n) == SitesAfterName(buf, p, n);
    if ReadU16(buf, p) == OPT { assert [] + Sites(buf, next, n - 1) == Sites(buf, next, n - 1); }
  }

  lemma AgeFirst(buf: seq<byte>, s: nat, rest: seq<nat>, elapsed: nat)
    ensures AgeAll(buf, [s] + rest, elapsed) == AgeAll(AgeAt(buf, s, elapsed), rest, elapsed)
  {
    assert ([s] + rest)[1..] == rest;
  }

  lemma SitesAfterOne(buf: seq<byte>, p: nat, elapsed: nat, pos: nat, n: nat)
    requires p + 10 <= |buf| && p + 10 <= pos
    ensures Sites(AgeOne(buf, p, elapsed), pos, n) == Sites(buf, pos, n)
  {
    SitesAfterWrite(buf, p + 4, elapsed, pos, n);
  }

  lemma AgeStep(buf: seq<byte>, pos: nat, n: nat, elapsed: nat, p: nat, next: nat)
    requires n > 0 && pos < |buf| && p == SkipAny(buf, pos) && p + 10 <= |buf| && next == p + 10 + ReadU16(buf, p + 8)
    ensures AgeFrom(buf, pos, n, elapsed) == AgeFrom(AgeOne(buf, p, elapsed), next, n - 1, elapsed)
  {
    assert AgeFrom(buf, pos, n, elapsed) == AgeAfterName(buf, p, n, elapsed);
    assert AgeAfterName(buf, p, n, elapsed) == AgeFrom(AgeOne(buf, p, elapsed), next, n - 1, elapsed);
  }

  lemma AgeStops(buf: seq<byte>, pos: nat, n: nat, elapsed: nat)
    requires n > 0 && SkipAny(buf, pos) + 10 > |buf|
    ensures AgeFrom(buf, pos, n, elapsed) == buf
  {
    if pos < |buf| { assert AgeFrom(buf, pos, n, elapsed) == AgeAfterName(buf, SkipAny(buf, pos), n, elapsed); }
  }

  lemma SitesStop(buf: seq<byte>, pos: nat, n: nat, p: nat)
    requires n > 0 && pos < |buf| && p == SkipAny(buf, pos) && p + 10 > |buf|
    ensures Sites(buf, pos, n) == []
  {
    assert Sites(buf, pos, n) == SitesAfterName(buf, p, n);
  }

  /** One record is aged, then its rest. */
  lemma AgesFirst(buf: seq<byte>, pos: nat, n: nat, elapsed: nat, p: nat, next: nat)
    requires n > 0 && pos < |buf| && p == SkipAny(buf, pos) && p + 10 <= |buf| && next == p + 10 + ReadU16(buf, p + 8)
    requires var once := AgeOne(buf, p, elapsed);
      AgeFrom(once, next, n - 1, elapsed) == AgeAll(once, Sites(once, next, n - 1), elapsed)
    ensures AgeFrom(buf, pos, n, elapsed) == AgeAll(buf, Sites(buf, pos, n), elapsed)
  {
    AgeStep(buf, pos, n, elapsed, p, next);
    SitesStep(buf, pos, n, p, next);
    SitesAfterOne(buf, p, elapsed, next, n - 1);
    AgeSites(buf, p, Sites(buf, pos, n), Sites(AgeOne(buf, p, elapsed), next, n - 1), elapsed);
  }

  /** The record loop ages exactly its sites. */
  lemma {:induction false} AgeIsSites(buf: seq<byte>, pos: nat, n: nat, elapsed: nat)
    ensures AgeFrom(buf, pos, n, elapsed) == AgeAll(buf, Sites(buf, pos, n), elapsed)
    decreases n
  {
    if n > 0 && pos < |buf| {
      var p := SkipAny(buf, pos);
      if p + 10 <= |buf| {
        var next := p + 10 + ReadU16(buf, p + 8);
        AgeIsSites(AgeOne(buf, p, elapsed), next, n - 1, elapsed);
        AgesFirst(buf, pos, n, elapsed, p, next);
      } else {
        AgeStops(buf, pos, n, elapsed);
        SitesStop(buf, pos, n, p);
      }
    }
  }

  lemma AgeSites(buf: seq<byte>, p: nat, sites: seq<nat>, rest: seq<nat>, elapsed: nat)
    requires p + 10 <= |buf| && sites == if ReadU16(buf, p) == OPT then rest else [p + 4] + rest
    ensures AgeAll(buf, sites, elapsed) == AgeAll(AgeOne(buf, p, elapsed), rest, elapsed)
  {
    if ReadU16(buf, p) != OPT { AgeFirst(buf, p + 4, rest, elapsed); }
  }

  /** `decrement_response_ttl` */
  method DecrementResponseTtl(wire: array<byte>, elapsed: nat)
    modifies wire
    ensures wire[..] == Age(old(wire[..]), elapsed)
  {
    if wire.Length < HEADER || elapsed == 0 { return; }
    ghost var before := wire[..];
    var q := SkipQuestionsLoosely(wire, ReadU16(wire[..], 4));
    if q.None? { return; }
    AgeRecords(wire, q.value, TotalRecords(wire[..]), elapsed);
  }

  method AgeInPlace(wire: array<byte>, p: nat, elapsed: nat)
    requires p + 10 <= wire.Length
    modifies wire
    ensures wire[..] == AgeOne(old(wire[..]), p, elapsed)
  {
    if ReadU16(wire[..], p) != OPT { WriteTtl(wire, p + 4, elapsed); }
  }

  /** One turn of the record loop, with `n` records to go. */
  method AgeRecord(wire: array<byte>, pos: nat, elapsed: nat, ghost n: nat) returns (next: Option<nat>)
    requires pos < wire.Length && n > 0
    modifies wire
    ensures next.None? ==> wire[..] == AgeFrom(old(wire[..]), pos, n, elapsed)
    ensures next.Some? ==> AgeFrom(wire[..], next.value, n - 1, elapsed) == AgeFrom(old(wire[..]), pos, n, elapsed)
  {
    var p := SkipNameLoosely(wire, pos);
    if p + 10 > wire.Length {
      AgeStops(wire[..], pos, n, elapsed);
      return None;
    }
    var rdlen := ReadU16(wire[..], p + 8);
    AgeStep(wire[..], pos, n, elapsed, p, p + 10 + rdlen);
    AgeInPlace(wire, p, elapsed);
    return Some(p + 10 + rdlen);
  }

  method AgeRecords(wire: array<byte>, start: nat, count: nat, elapsed: nat)
    modifies wire
    ensures wire[..] == AgeFrom(old(wire[..]), start, count, elapsed)
  {
    ghost var all := AgeFrom(wire[..], start, count, elapsed);
    var pos: nat, i: nat := start, 0;
    while i < count
      invariant i <= count
      invariant AgeFrom(wire[..], pos, count - i, elapsed) == all
    {
      if pos >= wire.Length { return; }
      var next := AgeRecord(wire, pos, elapsed, count - i);
      if next.None? { return; }
      pos, i := next.value, i + 1;
    }
  }

  // ---------------------------------------------------------------- ageing is additive

  lemma LeftTwice(ttl: nat, a: nat, b: nat)
    requires a > 0 && b > 0
    ensures Left(Left(ttl, a), b) == Left(ttl, a + b)
  {
  }

  lemma ReadAged(buf: seq<byte>, s: nat, elapsed: nat)
    requires s + 4 <= |buf|
    ensures ReadU32(AgeAt(buf, s, elapsed), s) == Left(ReadU32(buf, s), elapsed)
  {
    var r := AgeAt(buf, s, elapsed);
    assert r[s..s + 4] == U32(Left(ReadU32(buf, s), elapsed));
    ReadU32At(r, s, Left(ReadU32(buf, s), elapsed));
  }

  /** One field aged twice. */
  lemma AgeAtTwice(buf: seq<byte>, s: nat, a: nat, b: nat)
    requires a > 0 && b > 0
    ensures AgeAt(AgeAt(buf, s, a), s, b) == AgeAt(buf, s, a + b)
  {
    if s + 4 <= |buf| {
      var r := AgeAt(buf, s, a);
      ReadAged(buf, s, a);
      LeftTwice(ReadU32(buf, s), a, b);
      assert r[..s] == buf[..s] && r[s + 4..] == buf[s + 4..];
    }
  }

  predicate Apart(s: nat, t: nat) { s + 4 <= t || t + 4 <= s }

  lemma SameU32(a: seq<byte>, b: seq<byte>, i: nat)
    requires i + 4 <= |a| && i + 4 <= |b| && a[i..i + 4] == b[i..i + 4]
    ensures ReadU32(a, i) == ReadU32(b, i)
  {
    assert forall k | i <= k < i + 4 :: a[k] == a[i..i + 4][k - i] == b[i..i + 4][k - i] == b[k];
    SameBig(a, b, i, 4);
  }

  lemma {:induction false} SameBig(a: seq<byte>, b: seq<byte>, i: nat, k: nat)
    requires i + k <= |a| && i + k <= |b| && forall j | i <= j < i + k :: a[j] == b[j]
    ensures ReadBig(a, i, k) == ReadBig(b, i, k)
    decreases k
  {
    if k == 0 {
    } else {
      SameBig(a, b, i, k - 1);
    }
  }

  /** Fields that do not overlap can be aged in either order. */
  lemma AgeAtCommutes(buf: seq<byte>, s: nat, t: nat, a: nat, b: nat)
    requires Apart(s, t)
    ensures AgeAt(AgeAt(buf, s, a), t, b) == AgeAt(AgeAt(buf, t, b), s, a)
  {
    if s + 4 <= |buf| && t + 4 <= |buf| {
      var x, y := AgeAt(buf, s, a), AgeAt(buf, t, b);
      assert x[t..t + 4] == buf[t..t + 4] && y[s..s + 4] == buf[s..s + 4];
      SameU32(x, buf, t);
      SameU32(y, buf, s);
      var u, v := U32(Left(ReadU32(buf, s), a)), U32(Left(ReadU32(buf, t), b));
      if s < t { Overwrite(buf, s, t, u, v); } else { Overwrite(buf, t, s, v, u); }
    }
  }

  lemma Overwrite(buf: seq<byte>, s: nat, t: nat, u: seq<byte>, v: seq<byte>)
    requires s + 4 <= t && t + 4 <= |buf| && |u| == |v| == 4
    ensures var x := buf[..s] + u + buf[s + 4..]; var y := buf[..t] + v + buf[t + 4..];
      x[..t] + v + x[t + 4..] == y[..s] + u + y[s + 4..]
  {
    var x, y := buf[..s] + u + buf[s + 4..], buf[..t] + v + buf[t + 4..];
    var z := buf[..s] + u + buf[s + 4..t] + v + buf[t + 4..];
    assert x[..t] == buf[..s] + u + buf[s + 4..t] && x[t + 4..] == buf[t + 4..];
    assert y[..s] == buf[..s] && y[s + 4..] == buf[s + 4..t] + v + buf[t + 4..];
    assert y[..s] + u + y[s + 4..] == z;
  }

  lemma {:induction false} AgeAllCommutes(buf: seq<byte>, s: nat, sites: seq<nat>, a: nat, b: nat)
    requires forall t <- sites :: Apart(s, t)
    ensures AgeAll(AgeAt(buf, s, a), sites, b) == AgeAt(AgeAll(buf, sites, b), s, a)
    decreases |sites|
  {
    if sites == [] {
    } else {
      assert sites[0] in sites;
      AgeAtCommutes(buf, s, sites[0], a, b);
      AgeAllCommutes(AgeAt(buf, sites[0], b), s, sites[1..], a, b);
    }
  }

  predicate AllApart(sites: seq<nat>) { forall i, j | 0 <= i < j < |sites| :: Apart(sites[i], sites[j]) }

  lemma {:induction false} AgeAllTwice(buf: seq<byte>, sites: seq<nat>, a: nat, b: nat)
    requires AllApart(sites) && a > 0 && b > 0
    ensures AgeAll(AgeAll(buf, sites, a), sites, b) == AgeAll(buf, sites, a + b)
    decreases |sites|
  {
    if sites == [] {
    } else {
      var s, rest := sites[0], sites[1..];
      assert forall t <- rest :: Apart(s, t);
      var once := AgeAt(buf, s, a);
      AgeAllCommutes(once, s, rest, b, a);
      AgeAtTwice(buf, s, a, b);
      AgeAllTwice(AgeAt(once, s, b), rest, a, b);
    }
  }

  lemma ApartFirst(s: nat, rest: seq<nat>)
    requires AllApart(rest) && forall t <- rest :: Apart(s, t)
    ensures AllApart([s] + rest)
  {
    assert forall j | 0 <= j < |rest| :: rest[j] in rest;
  }

  /** A record's own field is apart from those behind the record. */
  lemma SitesBehindApart(buf: seq<byte>, p: nat, next: nat, n: nat)
    requires p + 10 <= next && AllApart(Sites(buf, next, n))
    ensures AllApart([p + 4] + Sites(buf, next, n))
  {
    SitesInBounds(buf, next, n);
    ApartFirst(p + 4, Sites(buf, next, n));
  }

  lemma {:induction false} SitesApart(buf: seq<byte>, pos: nat, n: nat)
    ensures AllApart(Sites(buf, pos, n))
    decreases n
  {
    if n > 0 && pos < |buf| {
      var p := SkipAny(buf, pos);
      if p + 10 <= |buf| {
        var next := p + 10 + ReadU16(buf, p + 8);
        SitesStep(buf, pos, n, p, next);
        SitesApart(buf, next, n - 1);
        SitesBehindApart(buf, p, next, n - 1);
      } else {
        assert Sites(buf, pos, n) == SitesAfterName(buf, p, n);
      }
    }
  }

  // ---------------------------------------------------------------- ageing does not change the walk

  /** Ageing sites from `e` on keeps the octets before `e`. */
  lemma {:induction false} AgeKeepsFront(buf: seq<byte>, sites: seq<nat>, elapsed: nat, e: nat)
    requires e <= |buf| && forall s <- sites :: e <= s
    ensures AgeAll(buf, sites, elapsed)[..e] == buf[..e]
    decreases |sites|
  {
    if sites == [] {
    } else {
      assert sites[0] in sites;
      assert AgeAt(buf, sites[0], elapsed)[..e] == buf[..e];
      assert forall s <- sites[1..] :: s in sites;
      AgeKeepsFront(AgeAt(buf, sites[0], elapsed), sites[1..], elapsed, e);
    }
  }

  lemma {:induction false} SkipAnyFront(a: seq<byte>, b: seq<byte>, pos: nat, e: nat)
    requires |a| == |b| && e <= |a| && a[..e] == b[..e] && SkipAny(a, pos) <= e
    ensures SkipAny(b, pos) == SkipAny(a, pos)
    decreases |a| - pos
  {
    if pos < |a| {
      assert SkipAny(a, pos) > pos;
      assert a[pos] == a[..e][pos] && b[pos] == b[..e][pos];
      if a[pos] != 0 && !IsPointer(a[pos]) { SkipAnyFront(a, b, pos + 1 + a[pos], e); }
    }
  }

  lemma {:induction false} QuestionsEndFront(a: seq<byte>, b: seq<byte>, pos: nat, n: nat, e: nat)
    requires |a| == |b| && e <= |a| && a[..e] == b[..e] && QuestionsEnd(a, pos, n).Some? &&
             QuestionsEnd(a, pos, n).value <= e
    ensures QuestionsEnd(b, pos, n) == QuestionsEnd(a, pos, n)
    decreases n
  {
    if n == 0 {
    } else {
      QuestionsEndMoves(a, SkipAny(a, pos) + 4, n - 1);
      SkipAnyFront(a, b, pos, e);
      QuestionsEndFront(a, b, SkipAny(a, pos) + 4, n - 1, e);
    }
  }

  lemma {:induction false} QuestionsEndMoves(buf: seq<byte>, pos: nat, n: nat)
    ensures QuestionsEnd(buf, pos, n).Some? ==>
      QuestionsEnd(buf, pos, n).value >= pos && (pos <= |buf| ==> QuestionsEnd(buf, pos, n).value <= |buf|)
    decreases n
  {
    if n > 0 && SkipAny(buf, pos) + 4 <= |buf| { QuestionsEndMoves(buf, SkipAny(buf, pos) + 4, n - 1); }
  }

  /** The record walk reads no octet it writes: it visits the same sites afterwards. */
  lemma {:induction false} SitesAfterAge(buf: seq<byte>, pos: nat, n: nat, elapsed: nat)
    requires pos <= |buf|
    ensures Sites(AgeFrom(buf, pos, n, elapsed), pos, n) == Sites(buf, pos, n)
    decreases n, 1
  {
    if n > 0 && pos < |buf| {
      var p := SkipAny(buf, pos);
      if p + 10 <= |buf| {
        var next := p + 10 + ReadU16(buf, p + 8);
        AgeStep(buf, pos, n, elapsed, p, next);
        SitesOfRest(buf, p, next, n - 1, elapsed, AgeFrom(buf, pos, n, elapsed));
        SitesOfAged(buf, pos, n, elapsed, p, next, AgeFrom(buf, pos, n, elapsed));
      } else {
        assert AgeFrom(buf, pos, n, elapsed) == AgeAfterName(buf, p, n, elapsed);
      }
    }
  }

  lemma {:induction false} SitesOfRest(buf: seq<byte>, p: nat, next: nat, n: nat, elapsed: nat, aged: seq<byte>)
    requires p + 10 <= |buf| && p + 10 <= next && aged == AgeFrom(AgeOne(buf, p, elapsed), next, n, elapsed)
    ensures next <= |buf| ==> Sites(aged, next, n) == Sites(buf, next, n)
    decreases n + 1, 0
  {
    SitesAfterOne(buf, p, elapsed, next, n);
    if next <= |buf| { SitesAfterAge(AgeOne(buf, p, elapsed), next, n, elapsed); }
  }

  lemma SitesOfAged(buf: seq<byte>, pos: nat, n: nat, elapsed: nat, p: nat, next: nat, aged: seq<byte>)
    requires n > 0 && pos < |buf| && p == SkipAny(buf, pos) && p + 10 <= |buf| && next == p + 10 + ReadU16(buf, p + 8)
    requires aged == AgeFrom(AgeOne(buf, p, elapsed), next, n - 1, elapsed)
    requires next <= |buf| ==> Sites(aged, next, n - 1) == Sites(buf, next, n - 1)
    ensures Sites(aged, pos, n) == Sites(buf, pos, n)
  {
    AgeLater(AgeOne(buf, p, elapsed), next, n - 1, elapsed, p + 10, aged);
    SameRecord(buf, elapsed, aged, pos, p);
    SitesSame(buf, aged, pos, n, p, next);
  }

  lemma AgeLater(buf: seq<byte>, pos: nat, n: nat, elapsed: nat, e: nat, aged: seq<byte>)
    requires e <= pos && e <= |buf| && aged == AgeFrom(buf, pos, n, elapsed)
    ensures aged[..e] == buf[..e]
  {
    SitesInBounds(buf, pos, n);
    AgeIsSites(buf, pos, n, elapsed);
    AgeKeepsFront(buf, Sites(buf, pos, n), elapsed, e);
  }

  lemma SitesSame(buf: seq<byte>, aged: seq<byte>, pos: nat, n: nat, p: nat, next: nat)
    requires n > 0 && |aged| == |buf| && pos < |buf| && p == SkipAny(buf, pos) == SkipAny(aged, pos) && p + 10 <= |buf|
    requires ReadU16(aged, p) == ReadU16(buf, p) && ReadU16(aged, p + 8) == ReadU16(buf, p + 8)
    requires next == p + 10 + ReadU16(buf, p + 8) &&
             (next <= |buf| ==> Sites(aged, next, n - 1) == Sites(buf, next, n - 1))
    ensures Sites(aged, pos, n) == Sites(buf, pos, n)
  {
    SitesStep(buf, pos, n, p, next);
    SitesStep(aged, pos, n, p, next);
    if next > |buf| { assert Sites(aged, next, n - 1) == [] == Sites(buf, next, n - 1); }
  }

  /** The walk reads the same of a record once its TTL and later fields are aged. */
  lemma SameRecord(buf: seq<byte>, elapsed: nat, aged: seq<byte>, pos: nat, p: nat)
    requires p == SkipAny(buf, pos) && p + 10 <= |buf| == |aged| && aged[..p + 10] == AgeOne(buf, p, elapsed)[..p + 10]
    ensures SkipAny(aged, pos) == p && ReadU16(aged, p) == ReadU16(buf, p) &&
            ReadU16(aged, p + 8) == ReadU16(buf, p + 8)
  {
    var first := AgeOne(buf, p, elapsed);
    assert first[..p + 4] == buf[..p + 4] && first[p + 8..] == buf[p + 8..];
    assert aged[..p + 4] == aged[..p + 10][..p + 4] == first[..p + 10][..p + 4] == buf[..p + 4];
    SkipAnyFront(buf, aged, pos, p + 4);
    AgreeAt(buf, aged, p + 4, p);
    AgreeAt(first, aged, p + 10, p + 8);
    SameU16(first, buf, p + 8, p + 8);
  }

  /** Ageing by `a` and then by `b` is ageing by `a + b`, on any bytes at all. */
  lemma AgeIsAdditive(buf: seq<byte>, a: nat, b: nat)
    ensures Age(Age(buf, a), b) == Age(buf, a + b)
  {
    if |buf| >= HEADER && a > 0 && b > 0 && QuestionsEnd(buf, HEADER, ReadU16(buf, 4)).Some? {
      var q := QuestionsEnd(buf, HEADER, ReadU16(buf, 4)).value;
      var n := TotalRecords(buf);
      QuestionsEndMoves(buf, HEADER, ReadU16(buf, 4));
      SameStart(buf, q, n, a);
      RecordsTwice(buf, q, n, a, b);
      AgeIs(buf, q, a);
      AgeIs(AgeFrom(buf, q, n, a), q, b);
      AgeIs(buf, q, a + b);
    }
  }

  lemma RecordsTwice(buf: seq<byte>, q: nat, n: nat, a: nat, b: nat)
    requires a > 0 && b > 0 && q <= |buf|
    ensures AgeFrom(AgeFrom(buf, q, n, a), q, n, b) == AgeFrom(buf, q, n, a + b)
  {
    SitesAfterAge(buf, q, n, a);
    SitesApart(buf, q, n);
    AgeAllTwice(buf, Sites(buf, q, n), a, b);
    AgeIsSites(buf, q, n, a);
    AgeIsSites(AgeFrom(buf, q, n, a), q, n, b);
    AgeIsSites(buf, q, n, a + b);
  }

  lemma AgeIs(buf: seq<byte>, q: nat, elapsed: nat)
    requires |buf| >= HEADER && elapsed > 0 && QuestionsEnd(buf, HEADER, ReadU16(buf, 4)) == Some(q)
    ensures Age(buf, elapsed) == AgeFrom(buf, q, TotalRecords(buf), elapsed)
  {
  }

  lemma SameStart(buf: seq<byte>, q: nat, n: nat, elapsed: nat)
    requires |buf| >= HEADER && QuestionsEnd(buf, HEADER, ReadU16(buf, 4)) == Some(q) && HEADER <= q <= |buf| &&
             n == TotalRecords(buf)
    ensures var r := AgeFrom(buf, q, n, elapsed);
      QuestionsEnd(r, HEADER, ReadU16(r, 4)) == Some(q) && TotalRecords(r) == n
  {
    var r := AgeFrom(buf, q, n, elapsed);
    SitesInBounds(buf, q, n);
    AgeIsSites(buf, q, n, elapsed);
    AgeKeepsFront(buf, Sites(buf, q, n), elapsed, q);
    AgreeAt(buf, r, q, 4);
    AgreeAt(buf, r, q, 6);
    AgreeAt(buf, r, q, 8);
    AgreeAt(buf, r, q, 10);
    QuestionsEndFront(buf, r, HEADER, ReadU16(buf, 4), q);
  }

  /** Ageing writes nothing but the TTL fields of records that are not OPT. */
  lemma AgeWritesOnlyTtls(buf: seq<byte>, elapsed: nat, i: nat)
    requires i < |buf| && |buf| >= HEADER && QuestionsEnd(buf, HEADER, ReadU16(buf, 4)).Some?
    requires var q := QuestionsEnd(buf, HEADER, ReadU16(buf, 4)).value;
      forall s <- Sites(buf, q, TotalRecords(buf)) :: !(s <= i < s + 4)
    ensures Age(buf, elapsed)[i] == buf[i]
  {
    var q := QuestionsEnd(buf, HEADER, ReadU16(buf, 4)).value;
    AgeIsSites(buf, q, TotalRecords(buf), elapsed);
    AgeAllKeeps(buf, Sites(buf, q, TotalRecords(buf)), elapsed, i);
  }

  lemma {:induction false} AgeAllKeeps(buf: seq<byte>, sites: seq<nat>, elapsed: nat, i: nat)
    requires i < |buf| && forall s <- sites :: !(s <= i < s + 4)
    ensures AgeAll(buf, sites, elapsed)[i] == buf[i]
    decreases |sites|
  {
    if sites == [] {
    } else {
      assert sites[0] in sites;
      assert forall s <- sites[1..] :: s in sites;
      AgeAllKeeps(AgeAt(buf, sites[0], elapsed), sites[1..], elapsed, i);
    }
  }

  // ---------------------------------------------------------------- ageing a message

  /** Seconds pass, but one is always left. */
  function Passed(ttl: nat, elapsed: nat): nat { if ttl > elapsed then ttl - elapsed else 1 }

  /** A record with its TTL aged, unless it is OPT. */
  function AgedRecord(r: Record, elapsed: nat): Record {
    if r.rtype == OPT then r else r.(ttl := Passed(r.ttl, elapsed))
  }

  function AgedRecords(rs: seq<Record>, elapsed: nat): seq<Record> {
    if rs == [] then [] else [AgedRecord(rs[0], elapsed)] + AgedRecords(rs[1..], elapsed)
  }

  function AgedMessage(m: Message, elapsed: nat): Message {
    if elapsed == 0 then m
    else Message(m.id, m.flags, m.questions, AgedRecords(m.answers, elapsed), AgedRecords(m.authority, elapsed),
                 AgedRecords(m.additional, elapsed))
  }

  /** Where strict skipping finds an end, loose skipping finds the same. */
  lemma {:induction false} StrictIsLoose(buf: seq<byte>, pos: nat, count: nat)
    requires SkipFrom(buf, pos, count).Some?
    ensures SkipAny(buf, pos) == SkipFrom(buf, pos, count).value
    decreases MAX_STEPS - count
  {
    if buf[pos] != 0 && !IsPointer(buf[pos]) { StrictIsLoose(buf, pos + 1 + buf[pos], count + 1); }
  }

  lemma {:induction false} QuestionsEndFound(buf: seq<byte>, pos: nat, qs: seq<Question>, n: nat)
    requires QuestionsFound(buf, pos, qs) && n == |qs|
    ensures QuestionsEnd(buf, pos, n) == Some(pos + QuestionsLength(qs))
    decreases |qs|
  {
    if qs == [] {
    } else {
      StrictIsLoose(buf, pos, 0);
      QuestionsEndFound(buf, pos + QuestionLength(qs[0]), qs[1..], n - 1);
    }
  }

  lemma LooseRecord(buf: seq<byte>, pos: nat, r: Record)
    requires RecordFound(buf, pos, r)
    ensures var p := pos + |r.name|;
      && pos < |buf| && p + 10 <= |buf| && SkipAny(buf, pos) == p && p + 10 + ReadU16(buf, p + 8) == pos + RecordLength(r)
  {
    StrictIsLoose(buf, pos, 0);
  }

  /** One record of an encoded sequence aged in place. */
  lemma AgeRecordAt(buf: seq<byte>, a: seq<byte>, r: Record, b: seq<byte>, p: nat, elapsed: nat)
    requires buf == a + (RecordBytes(r) + b) && p == |a| + |r.name| && p + 10 <= |buf|
    requires ReadU16(buf, p) == r.rtype && ReadU32(buf, p + 4) == r.ttl
    ensures AgeOne(buf, p, elapsed) == a + RecordBytes(AgedRecord(r, elapsed)) + b
    ensures |RecordBytes(AgedRecord(r, elapsed))| == RecordLength(r)
  {
    Reassociate(a, RecordBytes(AgedRecord(r, elapsed)), b);
    if r.rtype != OPT {
      RecordAroundTtl(a, r, b, r.ttl);
      RecordAroundTtl(a, r, b, Left(r.ttl, elapsed));
      AgeMiddle(buf, a + r.name + (U16(r.rtype) + U16(r.class_)), U32(r.ttl), U16(|r.rdata|) + r.rdata + b, p + 4, r.ttl, elapsed);
    }
  }

  lemma AgeMiddle(buf: seq<byte>, u: seq<byte>, t: seq<byte>, z: seq<byte>, s: nat, ttl: nat, elapsed: nat)
    requires buf == u + t + z && |u| == s && |t| == 4 && ReadU32(buf, s) == ttl
    ensures AgeAt(buf, s, elapsed) == u + U32(Left(ttl, elapsed)) + z
  {
    assert buf[..s] == u && buf[s + 4..] == z;
  }

  lemma {:induction false} AgeEncoded(buf: seq<byte>, a: seq<byte>, pos: nat, rs: seq<Record>, n: nat, elapsed: nat)
    requires ValidRecords(rs) && n == |rs| && buf == a + RecordsBytes(rs) && pos == |a|
    ensures AgeFrom(buf, pos, n, elapsed) == a + RecordsBytes(AgedRecords(rs, elapsed))
    decreases |rs|
  {
    if rs == [] {
    } else {
      var r, b := rs[0], RecordsBytes(rs[1..]);
      var a', p, next := a + RecordBytes(AgedRecord(r, elapsed)), pos + |r.name|, pos + RecordLength(r);
      assert r in rs;
      RecordAround(a, r, b);
      LooseRecord(buf, pos, r);
      AgeRecordAt(buf, a, r, b, p, elapsed);
      AgeStep(buf, pos, n, elapsed, p, next);
      AgeEncoded(AgeOne(buf, p, elapsed), a', next, rs[1..], n - 1, elapsed);
      AgedFirst(a, AgedRecord(r, elapsed), rs[1..], elapsed);
    }
  }

  lemma AgedFirst(a: seq<byte>, r: Record, rest: seq<Record>, elapsed: nat)
    ensures a + RecordBytes(r) + RecordsBytes(AgedRecords(rest, elapsed)) == a + RecordsBytes([r] + AgedRecords(rest, elapsed))
  {
    assert ([r] + AgedRecords(rest, elapsed))[1..] == AgedRecords(rest, elapsed);
  }

  lemma {:induction false} AgedConcat(a: seq<Record>, b: seq<Record>, elapsed: nat)
    ensures AgedRecords(a + b, elapsed) == AgedRecords(a, elapsed) + AgedRecords(b, elapsed)
    ensures |AgedRecords(a, elapsed)| == |a|
    decreases |a|
  {
    if a == [] {
      assert [] + b == b;
    } else {
      assert (a + b)[1..] == a[1..] + b;
      AgedConcat(a[1..], b, elapsed);
    }
  }

  /** All three record sections of an encoded message in one piece. */
  lemma EncodeInOne(m: Message)
    ensures Encode(m) == Header(m) + QuestionsBytes(m.questions) + RecordsBytes(m.answers + m.authority + m.additional)
  {
    RecordsBytesConcat(m.answers, m.authority);
    RecordsBytesConcat(m.answers + m.authority, m.additional);
    InOne(Header(m), QuestionsBytes(m.questions), RecordsBytes(m.answers), RecordsBytes(m.authority), RecordsBytes(m.additional));
  }

  lemma InOne<T>(h: seq<T>, q: seq<T>, a: seq<T>, b: seq<T>, c: seq<T>)
    ensures h + (q + (a + b) + c) == h + q + (a + b + c)
  {
  }

  /** On a valid message ageing takes `elapsed` from every TTL but those of OPT records, down to 1. */
  lemma AgeRefines(m: Message, elapsed: nat)
    requires ValidMessage(m)
    ensures Age(Encode(m), elapsed) == Encode(AgedMessage(m, elapsed))
  {
    if elapsed > 0 {
      var rs := m.answers + m.authority + m.additional;
      var front := Header(m) + QuestionsBytes(m.questions);
      QuestionsBytesLength(m.questions);
      AgeStart(m, elapsed, |front|, |rs|);
      EncodeInOne(m);
      EncodeInOne(AgedMessage(m, elapsed));
      AgeEncoded(Encode(m), front, |front|, rs, |rs|, elapsed);
      AgedAll(m, elapsed);
    }
  }

  lemma AgeStart(m: Message, elapsed: nat, start: nat, n: nat)
    requires ValidMessage(m) && elapsed > 0 && start == AnswersAt(m) && n == |m.answers + m.authority + m.additional|
    ensures Age(Encode(m), elapsed) == AgeFrom(Encode(m), start, n, elapsed)
  {
    Layout(Encode(m), m);
    StartFound(Encode(m), m, start, n);
    AgeIs(Encode(m), start, elapsed);
  }

  lemma StartFound(buf: seq<byte>, m: Message, start: nat, n: nat)
    requires HeaderFound(buf, m) && QuestionsFound(buf, HEADER, m.questions)
    requires start == AnswersAt(m) && n == |m.answers + m.authority + m.additional|
    ensures QuestionsEnd(buf, HEADER, ReadU16(buf, 4)) == Some(start) && TotalRecords(buf) == n
  {
    QuestionsEndFound(buf, HEADER, m.questions, ReadU16(buf, 4));
  }

  lemma AgedAll(m: Message, elapsed: nat)
    requires elapsed > 0
    ensures var m' := AgedMessage(m, elapsed);
      && Header(m') == Header(m)
      && m'.answers + m'.authority + m'.additional == AgedRecords(m.answers + m.authority + m.additional, elapsed)
  {
    AgedConcat(m.answers, m.authority, elapsed);
    AgedConcat(m.authority, [], elapsed);
    AgedConcat(m.additional, [], elapsed);
    AgedConcat(m.answers + m.authority, m.additional, elapsed);
  }

  // ---------------------------------------------------------------- the smallest TTL of the answers

  function Smaller(min: Option<nat>, ttl: nat): Option<nat> {
    if min.Some? && min.value < ttl then min else Some(ttl)
  }

  /** The answer loop of `extract_min_ttl`. */
  function MinFrom(buf: seq<byte>, pos: nat, n: nat, min: Option<nat>): Option<nat>
    decreases n, 1
  {
    if n == 0 || pos >= |buf| || SkipName(buf, pos).None? then min
    else MinAfterName(buf, SkipName(buf, pos).value, n, min)
  }

  function MinAfterName(buf: seq<byte>, p: nat, n: nat, min: Option<nat>): Option<nat>
    requires n > 0
    decreases n, 0
  {
    if p + 10 > |buf| then min
    else MinFrom(buf, p + 10 + ReadU16(buf, p + 8), n - 1, Smaller(min, ReadU32(buf, p + 4)))
  }

  /** What `extract_min_ttl` returns. */
  function MinTtl(buf: seq<byte>): Option<nat> {
    if |buf| < HEADER || ReadU16(buf, 6) == 0 then None
    else match SkipQuestions(buf, HEADER, ReadU16(buf, 4))
      case None => None
      case Some(q) => MinFrom(buf, q, ReadU16(buf, 6), None)
  }

  /** `extract_min_ttl` */
  method ExtractMinTtl(buf: seq<byte>) returns (min: Option<nat>)
    ensures min == MinTtl(buf)
  {
    if |buf| < HEADER { return None; }
    var ancount := ReadU16(buf, 6);
    if ancount == 0 { return None; }
    var q := SkipQuestionSection(buf);
    if q.None? { return None; }
    var pos: nat := q.value;
    min := None;
    for i := 0 to ancount
      invariant MinFrom(buf, pos, ancount - i, min) == MinTtl(buf)
    {
      if pos >= |buf| { return; }
      var p := SkipDnsName(buf, pos);
      if p.None? { return; }
      assert MinFrom(buf, pos, ancount - i, min) == MinAfterName(buf, p.value, ancount - i, min);
      if p.value + 10 > |buf| { return; }
      min := Smaller(min, ReadU32(buf, p.value + 4));
      pos := p.value + 10 + ReadU16(buf, p.value + 8);
    }
  }

  /** The smallest TTL of `rs`, and of `min`. */
  function MinOf(rs: seq<Record>, min: Option<nat>): Option<nat> {
    if rs == [] then min else MinOf(rs[1..], Smaller(min, rs[0].ttl))
  }

  lemma {:induction false} MinFound(buf: seq<byte>, pos: nat, rs: seq<Record>, n: nat, min: Option<nat>)
    requires RecordsFound(buf, pos, rs) && n == |rs|
    ensures MinFrom(buf, pos, n, min) == MinOf(rs, min)
    decreases |rs|
  {
    if rs == [] {
    } else {
      var r := rs[0];
      MinStep(buf, pos, r, n, min);
      MinFound(buf, pos + RecordLength(r), rs[1..], n - 1, Smaller(min, r.ttl));
    }
  }

  lemma MinStep(buf: seq<byte>, pos: nat, r: Record, n: nat, min: Option<nat>)
    requires RecordFound(buf, pos, r) && n > 0
    ensures MinFrom(buf, pos, n, min) == MinFrom(buf, pos + RecordLength(r), n - 1, Smaller(min, r.ttl))
  {
    assert MinFrom(buf, pos, n, min) == MinAfterName(buf, pos + |r.name|, n, min);
  }

  lemma MinIsMin(m: Message)
    requires ValidMessage(m)
    ensures MinTtl(Encode(m)) == MinOf(m.answers, None)
  {
    Layout(Encode(m), m);
    MinWhere(Encode(m), m);
  }

  lemma MinWhere(buf: seq<byte>, m: Message)
    requires HeaderFound(buf, m) && QuestionsFound(buf, HEADER, m.questions) &&
             RecordsFound(buf, AnswersAt(m), m.answers)
    ensures MinTtl(buf) == MinOf(m.answers, None)
  {
    SkipQuestionsFound(buf, HEADER, m.questions);
    MinFound(buf, AnswersAt(m), m.answers, ReadU16(buf, 6), None);
  }

  /** `MinOf` is a TTL of one of the answers and no larger than any. */
  lemma {:induction false} MinIsLeast(rs: seq<Record>, min: Option<nat>)
    requires rs != [] || min.Some?
    ensures MinOf(rs, min).Some? && (min.Some? ==> MinOf(rs, min).value <= min.value)
    ensures forall r <- rs :: MinOf(rs, min).value <= r.ttl
    ensures MinOf(rs, min) == min || exists r <- rs :: MinOf(rs, min) == Some(r.ttl)
    decreases |rs|
  {
    if rs == [] {
    } else {
      var next := Smaller(min, rs[0].ttl);
      MinIsLeast(rs[1..], next);
      assert forall r <- rs :: r == rs[0] || r in rs[1..];
      if MinOf(rs, min) != min { assert MinOf(rs, min) == Some(rs[0].ttl) || exists r <- rs[1..] :: MinOf(rs, min) == Some(r.ttl); }
    }
  }

  function LeftOf(min: Option<nat>, elapsed: nat): Option<nat> {
    if min.None? then None else Some(Passed(min.value, elapsed))
  }

  lemma {:induction false} MinAged(rs: seq<Record>, elapsed: nat, min: Option<nat>)
    requires elapsed > 0 && forall r <- rs :: r.rtype != OPT
    ensures MinOf(AgedRecords(rs, elapsed), LeftOf(min, elapsed)) == LeftOf(MinOf(rs, min), elapsed)
    decreases |rs|
  {
    if rs == [] {
    } else {
      var aged := AgedRecords(rs, elapsed);
      assert rs[0].rtype != OPT && aged[1..] == AgedRecords(rs[1..], elapsed);
      assert Smaller(LeftOf(min, elapsed), Passed(rs[0].ttl, elapsed)) == LeftOf(Smaller(min, rs[0].ttl), elapsed);
      MinAged(rs[1..], elapsed, Smaller(min, rs[0].ttl));
    }
  }

  lemma AgedValid(m: Message, elapsed: nat)
    requires ValidMessage(m)
    ensures ValidMessage(AgedMessage(m, elapsed))
  {
    AgedRecordsValid(m.answers, elapsed);
    AgedRecordsValid(m.authority, elapsed);
    AgedRecordsValid(m.additional, elapsed);
  }

  lemma {:induction false} AgedRecordsValid(rs: seq<Record>, elapsed: nat)
    requires ValidRecords(rs)
    ensures ValidRecords(AgedRecords(rs, elapsed)) && |AgedRecords(rs, elapsed)| == |rs|
    decreases |rs|
  {
    if rs == [] {
    } else {
      AgedRecordsValid(rs[1..], elapsed);
      assert rs[0] in rs && (AgedRecord(rs[0], elapsed).ttl < 0x1_0000_0000);
    }
  }

  /** After ageing, the smallest answer TTL is that of the aged answers. */
  lemma MinTtlOfAged(m: Message, elapsed: nat)
    requires ValidMessage(m) && elapsed > 0
    ensures MinTtl(Age(Encode(m), elapsed)) == MinOf(AgedRecords(m.answers, elapsed), None)
  {
    AgeRefines(m, elapsed);
    AgedValid(m, elapsed);
    MinIsMin(AgedMessage(m, elapsed));
  }

  /** Without OPT among the answers it is what is left of the old one, at least 1. */
  lemma MinTtlAfterAgeing(m: Message, elapsed: nat)
    requires ValidMessage(m) && elapsed > 0 && forall r <- m.answers :: r.rtype != OPT
    ensures MinTtl(Age(Encode(m), elapsed)) == LeftOf(MinTtl(Encode(m)), elapsed)
  {
    MinTtlOfAged(m, elapsed);
    MinIsMin(m);
    MinAged(m.answers, elapsed, None);
  }
}
