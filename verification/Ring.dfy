/** Rings of denial records (RFC 4034 and RFC 5155): each record names its owner and the next owner
  * in a cyclic order, and covers what lies strictly between. */
module Ring {
  import opened Bytes

  /** The interval test of the source, wrap-around included. */
  predicate Between<T(!new)>(less: (T, T) -> bool, owner: T, next: T, x: T)
  {
    if less(owner, next) then less(owner, x) && less(x, next) else less(owner, x) || less(x, next)
  }

  /** `next` follows `owner` in the cyclic order of `ring`: nothing of the ring lies between. */
  ghost predicate Follows<T(!new)>(less: (T, T) -> bool, ring: set<T>, owner: T, next: T)
  {
    owner in ring && next in ring && forall x <- ring :: !Between(less, owner, next, x)
  }

  lemma {:induction false} Least<T(!new)>(less: (T, T) -> bool, s: set<T>) returns (m: T)
    requires StrictTotal(less) && s != {}
    ensures m in s && forall x <- s :: x == m || less(m, x)
    decreases |s|
  {
    m :| m in s;
    if s != {m} {
      var m' := Least(less, s - {m});
      if less(m', m) { m := m'; }
    }
  }

  lemma {:induction false} Greatest<T(!new)>(less: (T, T) -> bool, s: set<T>) returns (m: T)
    requires StrictTotal(less) && s != {}
    ensures m in s && forall x <- s :: x == m || less(x, m)
    decreases |s|
  {
    m :| m in s;
    if s != {m} {
      var m' := Greatest(less, s - {m});
      if less(m, m') { m := m'; }
    }
  }

  /** Every owner has exactly one next owner. */
  lemma NextExists<T(!new)>(less: (T, T) -> bool, ring: set<T>, owner: T) returns (next: T)
    requires StrictTotal(less) && owner in ring
    ensures Follows(less, ring, owner, next)
    ensures forall n :: Follows(less, ring, owner, n) ==> n == next
  {
    var above := set x <- ring | less(owner, x);
    if above != {} {
      next := Least(less, above);
    } else {
      next := Least(less, ring);
    }
    forall x <- ring ensures !Between(less, owner, next, x) {
      if less(owner, x) { assert x in above; }
    }
  }

  /** The ring partitions everything outside it: exactly one owner's interval holds each element. */
  lemma CoveredOnce<T(!new)>(less: (T, T) -> bool, ring: set<T>, x: T) returns (owner: T, next: T)
    requires StrictTotal(less) && ring != {} && x !in ring
    ensures Follows(less, ring, owner, next) && Between(less, owner, next, x)
    ensures forall o, n :: Follows(less, ring, o, n) && Between(less, o, n, x) ==> o == owner && n == next
  {
    var below := set y <- ring | less(y, x);
    if below != {} {
      owner := Greatest(less, below);
    } else {
      owner := Greatest(less, ring);
    }
    next := NextExists(less, ring, owner);
    assert less(next, x) ==> next in below;
    assert less(owner, x) ==> owner in below;
  }

  /** Records of the ring, one at least for each owner, leave nothing outside the ring uncovered. */
  lemma SomeRecordCovers<T(!new)>(less: (T, T) -> bool, ring: set<T>, owners: seq<T>, nexts: seq<T>, x: T)
    returns (i: nat)
    requires StrictTotal(less) && ring != {} && x !in ring && |owners| == |nexts|
    requires forall k | 0 <= k < |owners| :: Follows(less, ring, owners[k], nexts[k])
    requires forall o <- ring :: o in owners
    ensures i < |owners| && Between(less, owners[i], nexts[i], x)
  {
    var owner, next := CoveredOnce(less, ring, x);
    i :| i < |owners| && owners[i] == owner;
    var next' := NextExists(less, ring, owner);
    assert Follows(less, ring, owners[i], nexts[i]);
  }

  /** With one record for every owner of a ring of two or more, each element has exactly one record
    * that it owns or that covers it. */
  lemma TouchedOnce<T(!new)>(less: (T, T) -> bool, ring: set<T>, owners: seq<T>, nexts: seq<T>, x: T) returns (i: nat)
    requires StrictTotal(less) && ring != {} && |owners| == |nexts|
    requires forall k | 0 <= k < |owners| :: Follows(less, ring, owners[k], nexts[k])
    requires forall o <- ring :: o in owners
    requires forall j, k | 0 <= j < k < |owners| :: owners[j] != owners[k]
    ensures i < |owners| && if x in ring then owners[i] == x else Between(less, owners[i], nexts[i], x)
    ensures forall j | 0 <= j < |owners| :: owners[j] == x || Between(less, owners[j], nexts[j], x) ==> j == i
    ensures x in ring ==> forall j | 0 <= j < |owners| :: !Between(less, owners[j], nexts[j], x)
  {
    if x in ring {
      i :| i < |owners| && owners[i] == x;
      forall j | 0 <= j < |owners| ensures !Between(less, owners[j], nexts[j], x) {
        assert Follows(less, ring, owners[j], nexts[j]);
      }
    } else {
      i := SomeRecordCovers(less, ring, owners, nexts, x);
      var owner, next := CoveredOnce(less, ring, x);
      forall j | 0 <= j < |owners| && (owners[j] == x || Between(less, owners[j], nexts[j], x)) ensures j == i {
        assert Follows(less, ring, owners[j], nexts[j]) && Follows(less, ring, owners[i], nexts[i]);
        assert owners[j] == owner == owners[i];
      }
    }
  }

  /** In a ring of two or more nobody follows itself. */
  lemma NextIsAnother<T(!new)>(less: (T, T) -> bool, ring: set<T>, owner: T, next: T)
    requires StrictTotal(less) && |ring| >= 2 && Follows(less, ring, owner, next)
    ensures next != owner
  {
    assert |ring - {owner}| >= 1;
    var other :| other in ring - {owner};
  }

  /** In a ring of one the owner follows itself. */
  lemma NextIsSelf<T(!new)>(less: (T, T) -> bool, ring: set<T>, owner: T, next: T)
    requires |ring| < 2 && Follows(less, ring, owner, next)
    ensures next == owner
  {
    assert ring == {owner} + (ring - {owner});
  }

  /** A strict total order of the elements of `ring`. */
  ghost predicate Orders<T(!new)>(less: (T, T) -> bool, ring: set<T>)
  {
    && (forall x <- ring :: !less(x, x))
    && (forall x <- ring, y <- ring :: x != y ==> less(x, y) || less(y, x))
    && (forall x <- ring, y <- ring, z <- ring :: less(x, y) && less(y, z) ==> less(x, z))
  }

  ghost predicate IsLeast<T(!new)>(less: (T, T) -> bool, ring: set<T>, least: T)
  {
    least in ring && forall x <- ring :: x == least || less(least, x)
  }

  /** With `next` following `m`, what comes after `m` is `next` and what comes after that; nothing, if `next`
    * is the least. */
  ghost predicate Step<T(!new)>(less: (T, T) -> bool, least: T, m: T, next: T, x: T)
  {
    if next == least then !less(m, x) else less(m, next) && !less(next, next) && (less(m, x) <==> x == next || less(next, x))
  }

  lemma NextAbove<T(!new)>(less: (T, T) -> bool, ring: set<T>, least: T, m: T, next: T, x: T)
    requires Orders(less, ring) && IsLeast(less, ring, least) && Follows(less, ring, m, next) && x in ring
    ensures Step(less, least, m, next, x)
  {
    assert !Between(less, m, next, x) && !Between(less, m, next, least);
  }

  ghost predicate Steps<T(!new)>(less: (T, T) -> bool, ring: set<T>, nexts: map<T, T>, least: T)
  {
    && (forall m <- ring :: m in nexts && nexts[m] in ring)
    && forall m, x {:trigger Step(less, least, m, nexts[m], x)} | m in ring && x in ring :: Step(less, least, m, nexts[m], x)
  }

  /** Orders with the same least element that agree on what follows agree altogether: walking up from `m`
    * meets the same elements, to the last one, which the least follows. */
  lemma {:induction false} SameAbove<T(!new)>(a: (T, T) -> bool, b: (T, T) -> bool, ring: set<T>, nexts: map<T, T>,
        least: T, m: T, x: T)
    requires Steps(a, ring, nexts, least) && Steps(b, ring, nexts, least) && m in ring && x in ring
    ensures a(m, x) <==> b(m, x)
    decreases |Above(a, ring, m)|
  {
    assert Step(a, least, m, nexts[m], x) && Step(b, least, m, nexts[m], x);
    if nexts[m] != least {
      Shrinks(a, ring, nexts, least, m);
      SameAbove(a, b, ring, nexts, least, nexts[m], x);
    }
  }

  ghost function Above<T(!new)>(less: (T, T) -> bool, ring: set<T>, m: T): set<T> { set x <- ring | less(m, x) }

  lemma Shrinks<T(!new)>(less: (T, T) -> bool, ring: set<T>, nexts: map<T, T>, least: T, m: T)
    requires Steps(less, ring, nexts, least) && m in ring && nexts[m] != least
    ensures |Above(less, ring, nexts[m])| < |Above(less, ring, m)|
  {
    var next := nexts[m];
    forall x <- Above(less, ring, next) ensures x in Above(less, ring, m) - {next} {
      assert Step(less, least, m, nexts[m], x);
    }
    assert Step(less, least, m, nexts[m], next);
    Fewer(Above(less, ring, next), Above(less, ring, m) - {next});
  }

  lemma {:induction false} Fewer<T>(a: set<T>, b: set<T>)
    requires a <= b
    ensures |a| <= |b|
  {
    assert b == a + (b - a);
  }
}
