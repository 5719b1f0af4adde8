/** The two-level token-bucket rate limiter (src/security/rate_limit.rs), over real time and real tokens. */
module RateLimit {
  import opened Text
  import opened Wrappers

  // ---------------------------------------------------------------- addresses and identities

  /** Four octets, or eight groups of 16 bits. */
  datatype Ip = V4(octets: seq<nat>) | V6(groups: seq<nat>)

  predicate ValidIp(ip: Ip) {
    match ip
    case V4(o) => |o| == 4
    case V6(g) => |g| == 8
  }

  /** `to_canonical`: an IPv4-mapped address stands for the IPv4 address. */
  function Canonical(ip: Ip): Ip
    requires ValidIp(ip)
  {
    match ip
    case V4(_) => ip
    case V6(g) =>
      if g[..5] == [0, 0, 0, 0, 0] && g[5] == 0xFFFF then V4([g[6] / 256, g[6] % 256, g[7] / 256, g[7] % 256]) else ip
  }

  /** `is_exempt`: loopback, private and link-local addresses are never limited. */
  predicate IsExempt(ip: Ip)
    requires ValidIp(ip)
  {
    match Canonical(ip)
    case V4(o) =>
      || o[0] == 127 || o[0] == 10 || (o[0] == 172 && 16 <= o[1] <= 31) || (o[0] == 192 && o[1] == 168) || (o[0] == 169 && o[1] == 254)
    case V6(g) => g == [0, 0, 0, 0, 0, 0, 0, 1] || 0xFC00 <= g[0] <= 0xFDFF || 0xFE80 <= g[0] <= 0xFEBF
  }

  datatype Identity = Identity(ip: Ip, device: Option<string>)

  /** `IdentityKey::new`: the device name trimmed and cut to 64 octets. */
  function IdentityOf(ip: Ip, device: Option<string>): Identity
    requires ValidIp(ip)
  {
    Identity(Canonical(ip), match device
                            case None => None
                            case Some(d) => var t := Trim(d); Some(if |t| > 64 then t[..64] else t))
  }

  // ---------------------------------------------------------------- buckets as values

  /** Burst size and refill per second of one level. */
  datatype Level = Level(capacity: real, refill: real)

  datatype Bucket = Bucket(tokens: real, last: real)

  function Min(a: real, b: real): real { if a < b then a else b }

  /** `duration_since`, which saturates at zero. */
  function Since(now: real, last: real): real { if now > last then now - last else 0.0 }

  function Refilled(l: Level, b: Bucket, now: real): real { Min(b.tokens + Since(now, b.last) * l.refill, l.capacity) }

  /** `try_consume`: the bucket afterwards, and whether a token was there. */
  function Consume(l: Level, b: Bucket, now: real): (Bucket, bool) {
    var t := Refilled(l, b, now);
    if t >= 1.0 then (Bucket(t - 1.0, now), true) else (Bucket(t, now), false)
  }

  /** A bucket not in the map is created full. */
  function BucketOf<K(==)>(l: Level, m: map<K, Bucket>, k: K, now: real): Bucket {
    if k in m then m[k] else Bucket(l.capacity, now)
  }

  function Take<K(==)>(l: Level, m: map<K, Bucket>, k: K, now: real): (map<K, Bucket>, bool) {
    var (b, ok) := Consume(l, BucketOf(l, m, k, now), now);
    (m[k := b], ok)
  }

  const IDLE_SECONDS := 60.0

  /** Entries idle for 60 seconds or more are dropped. */
  function Retained<K>(m: map<K, Bucket>, now: real): map<K, Bucket> {
    map k | k in m && Since(now, m[k].last) < IDLE_SECONDS :: m[k]
  }

  // ---------------------------------------------------------------- the limiter as a value

  datatype Config = Config(identity: Level, ceiling: Level)

  datatype Limiter = Limiter(identities: map<Identity, Bucket>, ceilings: map<Ip, Bucket>, blocked: nat, softHits: nat)

  const EMPTY := Limiter(map[], map[], 0, 0)

  /** A request of an identity that is not exempt. */
  function Check(cfg: Config, st: Limiter, who: Identity, now: real): (Limiter, bool) {
    var (ids, own) := Take(cfg.identity, st.identities, who, now);
    var (ceilings, all) := if own then Take(cfg.ceiling, st.ceilings, who.ip, now) else (st.ceilings, false);
    (Limiter(ids, ceilings, if own && all then st.blocked else st.blocked + 1, if own then st.softHits else st.softHits + 1), own && all)
  }

  lemma CheckIs(cfg: Config, st: Limiter, who: Identity, now: real,
                ids: map<Identity, Bucket>, own: bool, ceilings: map<Ip, Bucket>, all: bool)
    requires Take(cfg.identity, st.identities, who, now) == (ids, own)
    requires if own then Take(cfg.ceiling, st.ceilings, who.ip, now) == (ceilings, all) else ceilings == st.ceilings && !all
    ensures Check(cfg, st, who, now) ==
            (Limiter(ids, ceilings, if own && all then st.blocked else st.blocked + 1, if own then st.softHits else st.softHits + 1), own && all)
  {
  }

  function Pruned(st: Limiter, now: real): Limiter {
    st.(identities := Retained(st.identities, now), ceilings := Retained(st.ceilings, now))
  }

  function Cleared(st: Limiter): Limiter { st.(identities := map[], ceilings := map[]) }

  // ---------------------------------------------------------------- the source's objects

  class TokenBucket {
    var tokens: real
    var lastRefill: real
    const level: Level

    constructor (level: Level, now: real)
      ensures this.level == level && View() == Bucket(level.capacity, now)
    {
      this.level, tokens, lastRefill := level, level.capacity, now;
    }

    function View(): Bucket reads this { Bucket(tokens, lastRefill) }

    /** `try_consume` */
    method TryConsume(now: real) returns (ok: bool)
      modifies this
      ensures View() == Consume(level, old(View()), now).0 && ok == Consume(level, old(View()), now).1
    {
      ghost var before := View();
      tokens := Min(tokens + Since(now, lastRefill) * level.refill, level.capacity);
      assert tokens == Refilled(level, before, now);
      lastRefill := now;
      ok := tokens >= 1.0;
      if ok { tokens := tokens - 1.0; }
    }
  }

  /** The values of a map of buckets. */
  ghost function Views<K>(m: map<K, TokenBucket>): map<K, Bucket>
    reads m.Values
  {
    map k | k in m :: m[k].View()
  }

  /** Every key has a bucket of its own, of the given level. */
  ghost predicate OwnBuckets<K(!new)>(m: map<K, TokenBucket>, level: Level) {
    (forall k <- m :: m[k].level == level) && forall j, k | j in m && k in m && j != k :: m[j] != m[k]
  }

  /** `retain` of the buckets not idle. */
  function Kept<K>(m: map<K, TokenBucket>, now: real): map<K, TokenBucket>
    reads m.Values
  {
    map k | k in m && Since(now, m[k].lastRefill) < IDLE_SECONDS :: m[k]
  }

  lemma KeptViews<K(!new)>(m: map<K, TokenBucket>, level: Level, now: real)
    requires OwnBuckets(m, level)
    ensures OwnBuckets(Kept(m, now), level) && Kept(m, now).Values <= m.Values &&
            Views(Kept(m, now)) == Retained(Views(m), now)
  {
  }

  class RateLimiter {
    const cfg: Config
    var identities: map<Identity, TokenBucket>
    var ceilings: map<Ip, TokenBucket>
    var blocked: nat
    var softHits: nat

    ghost predicate Valid()
      reads this
    {
      && OwnBuckets(identities, cfg.identity) && OwnBuckets(ceilings, cfg.ceiling)
      && identities.Values !! ceilings.Values
    }

    ghost function View(): Limiter
      reads this, identities.Values, ceilings.Values
    {
      Limiter(Views(identities), Views(ceilings), blocked, softHits)
    }

    constructor (cfg: Config)
      ensures this.cfg == cfg && Valid() && View() == EMPTY
    {
      this.cfg := cfg;
      identities, ceilings, blocked, softHits := map[], map[], 0, 0;
    }

    /** `check_with_identity` */
    method CheckWithIdentity(ip: Ip, device: Option<string>, now: real) returns (allowed: bool)
      requires Valid() && ValidIp(ip)
      modifies this, identities.Values, ceilings.Values
      ensures Valid()
      ensures IsExempt(ip) ==> allowed && View() == old(View())
      ensures !IsExempt(ip) ==> var after := Check(cfg, old(View()), IdentityOf(ip, device), now);
        View() == after.0 && allowed == after.1
    {
      if IsExempt(ip) { return true; }
      allowed := Limit(IdentityOf(ip, device), now);
    }

    /** The part for addresses that are not exempt. */
    method Limit(who: Identity, now: real) returns (allowed: bool)
      requires Valid()
      modifies this, identities.Values, ceilings.Values
      ensures Valid()
      ensures var after := Check(cfg, old(View()), who, now); View() == after.0 && allowed == after.1
    {
      ghost var before := View();
      var own, all := TakeBoth(who, now);
      CheckIs(cfg, before, who, now, Views(identities), own, Views(ceilings), all);
      Count(own, own && all);
      allowed := own && all;
    }

    /** The two counters. */
    method Count(own: bool, allowed: bool)
      requires Valid()
      modifies this`blocked, this`softHits
      ensures Valid()
      ensures View() == Limiter(old(Views(identities)), old(Views(ceilings)),
                                if allowed then old(blocked) else old(blocked) + 1, if own then old(softHits) else old(softHits) + 1)
    {
      if !own { softHits := softHits + 1; }
      if !allowed { blocked := blocked + 1; }
    }

    /** The identity's bucket and, if it had a token, the address's. */
    method TakeBoth(who: Identity, now: real) returns (own: bool, all: bool)
      requires Valid()
      modifies this`identities, this`ceilings, identities.Values, ceilings.Values
      ensures Valid()
      ensures var after := Take(cfg.identity, old(Views(identities)), who, now); Views(identities) == after.0 && own == after.1
      ensures own ==> var after := Take(cfg.ceiling, old(Views(ceilings)), who.ip, now); Views(ceilings) == after.0 && all == after.1
      ensures !own ==> Views(ceilings) == old(Views(ceilings)) && !all
    {
      own := TakeIdentity(who, now);
      all := false;
      if own { all := TakeCeiling(who.ip, now); }
    }

    /** The identity's bucket, created if missing, asked for a token. */
    method TakeIdentity(who: Identity, now: real) returns (ok: bool)
      requires Valid()
      modifies this`identities, identities.Values
      ensures Valid() && fresh(identities.Values - old(identities.Values))
      ensures Views(ceilings) == old(Views(ceilings))
      ensures var after := Take(cfg.identity, old(Views(identities)), who, now); Views(identities) == after.0 && ok == after.1
    {
      if who !in identities {
        var created := new TokenBucket(cfg.identity, now);
        identities := identities[who := created];
      }
      assert identities[who] in identities.Values;
      ghost var before := BucketOf(cfg.identity, old(Views(identities)), who, now);
      assert identities[who].View() == before;
      ok := identities[who].TryConsume(now);
      assert Views(identities) == old(Views(identities))[who := Consume(cfg.identity, before, now).0];
    }

    method TakeCeiling(ip: Ip, now: real) returns (ok: bool)
      requires Valid()
      modifies this`ceilings, ceilings.Values
      ensures Valid() && fresh(ceilings.Values - old(ceilings.Values))
      ensures Views(identities) == old(Views(identities))
      ensures var after := Take(cfg.ceiling, old(Views(ceilings)), ip, now); Views(ceilings) == after.0 && ok == after.1
    {
      if ip !in ceilings {
        var created := new TokenBucket(cfg.ceiling, now);
        ceilings := ceilings[ip := created];
      }
      assert ceilings[ip] in ceilings.Values;
      ghost var before := BucketOf(cfg.ceiling, old(Views(ceilings)), ip, now);
      assert ceilings[ip].View() == before;
      ok := ceilings[ip].TryConsume(now);
      assert Views(ceilings) == old(Views(ceilings))[ip := Consume(cfg.ceiling, before, now).0];
    }

    /** `prune_idle` */
    method PruneIdle(now: real)
      requires Valid()
      modifies this`identities, this`ceilings
      ensures Valid() && View() == Pruned(old(View()), now)
    {
      KeptViews(identities, cfg.identity, now);
      KeptViews(ceilings, cfg.ceiling, now);
      identities, ceilings := Kept(identities, now), Kept(ceilings, now);
    }

    /** `clear` */
    method Clear()
      requires Valid()
      modifies this`identities, this`ceilings
      ensures Valid() && View() == Cleared(old(View()))
    {
      identities, ceilings := map[], map[];
    }
  }

  // ---------------------------------------------------------------- what is available

  predicate ValidLevel(l: Level) { l.capacity >= 0.0 && l.refill >= 0.0 }

  predicate ValidConfig(cfg: Config) { ValidLevel(cfg.identity) && ValidLevel(cfg.ceiling) }

  /** An idle bucket is full again by the time it may be pruned. */
  predicate Covers(cfg: Config) {
    cfg.identity.refill * IDLE_SECONDS >= cfg.identity.capacity && cfg.ceiling.refill * IDLE_SECONDS >= cfg.ceiling.capacity
  }

  /** Tokens a request at `now` would find. */
  function Available<K(==)>(l: Level, m: map<K, Bucket>, k: K, now: real): real { Refilled(l, BucketOf(l, m, k, now), now) }

  predicate Good<K>(l: Level, m: map<K, Bucket>, now: real) {
    forall k <- m :: 0.0 <= m[k].tokens <= l.capacity && m[k].last <= now
  }

  lemma Distribute(x: real, y: real, r: real)
    ensures (x + y) * r == x * r + y * r
  {
  }

  lemma Product(x: real, r: real)
    requires x >= 0.0 && r >= 0.0
    ensures x * r >= 0.0
  {
  }

  /** Time only adds the refill, up to the capacity. */
  lemma AvailableLater<K>(l: Level, m: map<K, Bucket>, k: K, now: real, t: real)
    requires ValidLevel(l) && Good(l, m, now) && now <= t
    ensures Available(l, m, k, t) == Min(Available(l, m, k, now) + (t - now) * l.refill, l.capacity)
    ensures 0.0 <= Available(l, m, k, now) <= l.capacity
  {
    Product(t - now, l.refill);
    if k in m {
      Distribute(now - m[k].last, t - now, l.refill);
      Product(now - m[k].last, l.refill);
      assert now - m[k].last + (t - now) == t - m[k].last;
    }
  }

  /** Taking a token at `now` takes it from what is available, and touches no other key. */
  lemma TakeAvailable<K>(l: Level, m: map<K, Bucket>, k: K, j: K, now: real)
    requires ValidLevel(l) && Good(l, m, now)
    ensures var (m', ok) := Take(l, m, k, now);
      && Good(l, m', now) && (ok <==> Available(l, m, k, now) >= 1.0)
      && Available(l, m', j, now) == Available(l, m, j, now) - (if j == k && ok then 1.0 else 0.0)
  {
    AvailableLater(l, m, k, now, now);
    AvailableLater(l, m, j, now, now);
  }

  /** A request is allowed exactly if the identity and its address both have a token. The identity's token is
    * taken even if the address has none, the address's only if the request is allowed; no other identity or
    * address loses anything. */
  lemma CheckTakes(cfg: Config, st: Limiter, who: Identity, now: real, id: Identity, ip: Ip)
    requires ValidConfig(cfg) && Good(cfg.identity, st.identities, now) && Good(cfg.ceiling, st.ceilings, now)
    ensures var (st', ok) := Check(cfg, st, who, now);
      var (own, all) := (Available(cfg.identity, st.identities, who, now), Available(cfg.ceiling, st.ceilings, who.ip, now));
      && (ok <==> own >= 1.0 && all >= 1.0)
      && Available(cfg.identity, st'.identities, id, now) ==
         Available(cfg.identity, st.identities, id, now) - (if id == who && own >= 1.0 then 1.0 else 0.0)
      && Available(cfg.ceiling, st'.ceilings, ip, now) ==
         Available(cfg.ceiling, st.ceilings, ip, now) - (if ip == who.ip && ok then 1.0 else 0.0)
      && st'.blocked == st.blocked + (if ok then 0 else 1) && st'.softHits == st.softHits + (if own >= 1.0 then 0 else 1)
  {
    TakeAvailable(cfg.identity, st.identities, who, id, now);
    TakeAvailable(cfg.ceiling, st.ceilings, who.ip, ip, now);
  }

  /** Pruning hides nothing when idle buckets are full again. */
  lemma PruneKeepsAvailable<K>(l: Level, m: map<K, Bucket>, k: K, now: real)
    requires ValidLevel(l) && Good(l, m, now) && l.refill * IDLE_SECONDS >= l.capacity
    ensures Good(l, Retained(m, now), now) && Available(l, Retained(m, now), k, now) == Available(l, m, k, now)
  {
    if k in m && k !in Retained(m, now) {
      var idle := now - m[k].last;
      assert idle >= IDLE_SECONDS;
      Distribute(IDLE_SECONDS, idle - IDLE_SECONDS, l.refill);
      Product(idle - IDLE_SECONDS, l.refill);
      assert idle * l.refill >= l.capacity;
    }
  }

  // ---------------------------------------------------------------- runs

  datatype Event = Request(ip: Ip, device: Option<string>, at: real) | Prune(at: real) | Clear(at: real)

  predicate ValidEvents(es: seq<Event>) { forall e <- es :: e.Request? ==> ValidIp(e.ip) }

  /** Times do not go back, from `now` on. */
  predicate Timely(es: seq<Event>, now: real) {
    es == [] || (now <= es[0].at && Timely(es[1..], es[0].at))
  }

  /** One event: the limiter afterwards and the answer, none for a prune or a clear. */
  function Step(cfg: Config, st: Limiter, e: Event): (Limiter, Option<bool>)
    requires e.Request? ==> ValidIp(e.ip)
  {
    match e
    case Prune(at) => (Pruned(st, at), None)
    case Clear(_) => (Cleared(st), None)
    case Request(ip, device, at) =>
      if IsExempt(ip) then (st, Some(true))
      else var (st', ok) := Check(cfg, st, IdentityOf(ip, device), at); (st', Some(ok))
  }

  function Run(cfg: Config, st: Limiter, es: seq<Event>): (Limiter, seq<Option<bool>>)
    requires ValidEvents(es)
    decreases |es|
  {
    if es == [] then (st, [])
    else
      var (next, answer) := Step(cfg, st, es[0]);
      var (last, answers) := Run(cfg, next, es[1..]);
      (last, [answer] + answers)
  }

  // ---------------------------------------------------------------- pruning cannot be observed

  function WithoutPrunes(es: seq<Event>): (r: seq<Event>)
    ensures ValidEvents(es) ==> ValidEvents(r)
  {
    if es == [] then [] else (if es[0].Prune? then [] else [es[0]]) + WithoutPrunes(es[1..])
  }

  /** The answers to requests. */
  function Answers(answers: seq<Option<bool>>): seq<bool> {
    if answers == [] then [] else (if answers[0].None? then [] else [answers[0].value]) + Answers(answers[1..])
  }

  ghost predicate SameLevel<K(!new)>(l: Level, a: map<K, Bucket>, b: map<K, Bucket>, now: real) {
    Good(l, a, now) && Good(l, b, now) && forall k: K :: Available(l, a, k, now) == Available(l, b, k, now)
  }

  /** The two limiters answer alike from `now` on. */
  ghost predicate Same(cfg: Config, a: Limiter, b: Limiter, now: real) {
    && SameLevel(cfg.identity, a.identities, b.identities, now) && SameLevel(cfg.ceiling, a.ceilings, b.ceilings, now)
    && a.blocked == b.blocked && a.softHits == b.softHits
  }

  lemma SameLater<K(!new)>(l: Level, a: map<K, Bucket>, b: map<K, Bucket>, now: real, t: real)
    requires ValidLevel(l) && SameLevel(l, a, b, now) && now <= t
    ensures SameLevel(l, a, b, t)
  {
    forall k: K
      ensures Available(l, a, k, t) == Available(l, b, k, t)
    {
      AvailableLater(l, a, k, now, t);
      AvailableLater(l, b, k, now, t);
    }
  }

  lemma SameTake<K(!new)>(l: Level, a: map<K, Bucket>, b: map<K, Bucket>, k: K, now: real)
    requires ValidLevel(l) && SameLevel(l, a, b, now)
    ensures Take(l, a, k, now).1 == Take(l, b, k, now).1
    ensures SameLevel(l, Take(l, a, k, now).0, Take(l, b, k, now).0, now)
  {
    TakeAvailable(l, a, k, k, now);
    TakeAvailable(l, b, k, k, now);
    forall j: K
      ensures Available(l, Take(l, a, k, now).0, j, now) == Available(l, Take(l, b, k, now).0, j, now)
    {
      TakeAvailable(l, a, k, j, now);
      TakeAvailable(l, b, k, j, now);
    }
  }

  lemma SameCheck(cfg: Config, a: Limiter, b: Limiter, who: Identity, now: real)
    requires ValidConfig(cfg) && Same(cfg, a, b, now)
    ensures Check(cfg, a, who, now).1 == Check(cfg, b, who, now).1
    ensures Same(cfg, Check(cfg, a, who, now).0, Check(cfg, b, who, now).0, now)
  {
    SameTake(cfg.identity, a.identities, b.identities, who, now);
    SameTake(cfg.ceiling, a.ceilings, b.ceilings, who.ip, now);
  }

  lemma SamePruned<K(!new)>(l: Level, a: map<K, Bucket>, b: map<K, Bucket>, now: real)
    requires ValidLevel(l) && SameLevel(l, a, b, now) && l.refill * IDLE_SECONDS >= l.capacity
    ensures SameLevel(l, Retained(a, now), b, now)
  {
    forall k: K
      ensures Good(l, Retained(a, now), now) && Available(l, Retained(a, now), k, now) == Available(l, b, k, now)
    {
      PruneKeepsAvailable(l, a, k, now);
    }
    assert Good(l, Retained(a, now), now);
  }

  lemma {:induction false} PruneInvisibleFrom(cfg: Config, a: Limiter, b: Limiter, now: real, es: seq<Event>)
    requires ValidConfig(cfg) && Covers(cfg) && Same(cfg, a, b, now) && ValidEvents(es) && Timely(es, now)
    ensures Answers(Run(cfg, a, es).1) == Answers(Run(cfg, b, WithoutPrunes(es)).1)
    ensures var x, y := Run(cfg, a, es).0, Run(cfg, b, WithoutPrunes(es)).0; x.blocked == y.blocked && x.softHits == y.softHits
    decreases |es|
  {
    if es == [] {
    } else {
      var e, rest := es[0], WithoutPrunes(es[1..]);
      assert e in es && forall x <- es[1..] :: x in es;
      var next := Step(cfg, a, e).0;
      SameLater(cfg.identity, a.identities, b.identities, now, e.at);
      SameLater(cfg.ceiling, a.ceilings, b.ceilings, now, e.at);
      RunFirst(cfg, a, e, es[1..]);
      assert es == [e] + es[1..];
      if e.Prune? {
        SamePruned(cfg.identity, a.identities, b.identities, e.at);
        SamePruned(cfg.ceiling, a.ceilings, b.ceilings, e.at);
        assert WithoutPrunes(es) == [] + rest == rest;
        PruneInvisibleFrom(cfg, next, b, e.at, es[1..]);
      } else {
        assert WithoutPrunes(es) == [e] + rest;
        RunFirst(cfg, b, e, rest);
        if e.Request? && !IsExempt(e.ip) { SameCheck(cfg, a, b, IdentityOf(e.ip, e.device), e.at); }
        PruneInvisibleFrom(cfg, next, Step(cfg, b, e).0, e.at, es[1..]);
      }
    }
  }

  lemma RunFirst(cfg: Config, st: Limiter, e: Event, rest: seq<Event>)
    requires ValidEvents([e] + rest) && ValidEvents(rest) && (e.Request? ==> ValidIp(e.ip))
    ensures var (next, answer) := Step(cfg, st, e);
      && Run(cfg, st, [e] + rest).0 == Run(cfg, next, rest).0
      && Answers(Run(cfg, st, [e] + rest).1) == (if answer.None? then [] else [answer.value]) + Answers(Run(cfg, next, rest).1)
  {
    assert ([e] + rest)[1..] == rest;
    var (next, answer) := Step(cfg, st, e);
    var answers := Run(cfg, next, rest).1;
    assert ([answer] + answers)[1..] == answers;
  }

  lemma NothingYet(cfg: Config, now: real)
    ensures Same(cfg, EMPTY, EMPTY, now)
  {
  }

  /** When idle buckets are full again by the time they may be pruned, prunes interleaved in any way
    * change no answer and no count. */
  lemma PruneInvisible(cfg: Config, now: real, es: seq<Event>)
    requires ValidConfig(cfg) && Covers(cfg) && ValidEvents(es) && Timely(es, now)
    ensures Answers(Run(cfg, EMPTY, es).1) == Answers(Run(cfg, EMPTY, WithoutPrunes(es)).1)
    ensures var x, y := Run(cfg, EMPTY, es).0, Run(cfg, EMPTY, WithoutPrunes(es)).0; x.blocked == y.blocked && x.softHits == y.softHits
  {
    NothingYet(cfg, now);
    PruneInvisibleFrom(cfg, EMPTY, EMPTY, now, es);
  }

  /** The limits the server configures meet the condition; so do the defaults. */
  lemma ConfiguredCovers()
    ensures Covers(Config(Level(100.0, 50.0), Level(500.0, 200.0))) &&
            Covers(Config(Level(60.0, 20.0), Level(500.0, 200.0)))
  {
  }

  // ---------------------------------------------------------------- the bound over every window

  /** Requests of `who` allowed in a run; of every identity of an address in `AllowedIp`. */
  function Allowed(cfg: Config, st: Limiter, es: seq<Event>, who: Identity): nat
    requires ValidEvents(es)
    decreases |es|
  {
    if es == [] then 0
    else (if Counts(cfg, st, es[0]) && IdentityOf(es[0].ip, es[0].device) == who then 1 else 0)
         + Allowed(cfg, Step(cfg, st, es[0]).0, es[1..], who)
  }

  function AllowedIp(cfg: Config, st: Limiter, es: seq<Event>, ip: Ip): nat
    requires ValidEvents(es)
    decreases |es|
  {
    if es == [] then 0
    else (if Counts(cfg, st, es[0]) && Canonical(es[0].ip) == ip then 1 else 0)
         + AllowedIp(cfg, Step(cfg, st, es[0]).0, es[1..], ip)
  }

  /** An allowed request that is not exempt. */
  predicate Counts(cfg: Config, st: Limiter, e: Event)
    requires e.Request? ==> ValidIp(e.ip)
  {
    e.Request? && !IsExempt(e.ip) && Step(cfg, st, e).1 == Some(true)
  }

  predicate GoodLimiter(cfg: Config, st: Limiter, now: real) {
    Good(cfg.identity, st.identities, now) && Good(cfg.ceiling, st.ceilings, now)
  }

  function Own(cfg: Config, st: Limiter, who: Identity, now: real): real { Available(cfg.identity, st.identities, who, now) }

  function Shared(cfg: Config, st: Limiter, ip: Ip, now: real): real { Available(cfg.ceiling, st.ceilings, ip, now) }

  /** One event at its time: tokens are paid for what is allowed, and prunes make none. */
  lemma StepPays(cfg: Config, st: Limiter, e: Event, who: Identity, ip: Ip)
    requires ValidConfig(cfg) && GoodLimiter(cfg, st, e.at) && (e.Request? ==> ValidIp(e.ip)) && !e.Clear? &&
             (e.Prune? ==> Covers(cfg))
    ensures var next := Step(cfg, st, e).0;
      && GoodLimiter(cfg, next, e.at)
      && (if Counts(cfg, st, e) && IdentityOf(e.ip, e.device) == who then 1.0 else 0.0) <= Own(cfg, st, who, e.at) - Own(cfg, next, who, e.at)
      && (if Counts(cfg, st, e) && Canonical(e.ip) == ip then 1.0 else 0.0) <= Shared(cfg, st, ip, e.at) - Shared(cfg, next, ip, e.at)
  {
    match e
    case Prune(at) =>
      PruneKeepsAvailable(cfg.identity, st.identities, who, at);
      PruneKeepsAvailable(cfg.ceiling, st.ceilings, ip, at);
    case Request(from, device, at) =>
      var key := IdentityOf(from, device);
      TakeAvailable(cfg.identity, st.identities, key, who, at);
      TakeAvailable(cfg.identity, st.identities, key, key, at);
      TakeAvailable(cfg.ceiling, st.ceilings, key.ip, ip, at);
  }

  /** Nothing hands out tokens: no clear, and prunes only where idle buckets are full again. */
  predicate NoFreeTokens(cfg: Config, es: seq<Event>) { forall e <- es :: !e.Clear? && (e.Prune? ==> Covers(cfg)) }

  /** Refill over a time. */
  function Gain(l: Level, time: real): real { time * l.refill }

  lemma GainAdds(l: Level, a: real, b: real)
    ensures Gain(l, a) + Gain(l, b) == Gain(l, a + b)
  {
    Distribute(a, b, l.refill);
  }

  /** What is available later is no more than now plus the gain. */
  lemma GainCovers<K>(l: Level, m: map<K, Bucket>, k: K, now: real, t: real)
    requires ValidLevel(l) && Good(l, m, now) && now <= t
    ensures Available(l, m, k, t) <= Available(l, m, k, now) + Gain(l, t - now) && Good(l, m, t) &&
            Gain(l, t - now) >= 0.0
    ensures 0.0 <= Available(l, m, k, now) <= l.capacity
  {
    AvailableLater(l, m, k, now, t);
    Product(t - now, l.refill);
  }

  lemma GoodLater(cfg: Config, st: Limiter, now: real, t: real)
    requires GoodLimiter(cfg, st, now) && now <= t
    ensures GoodLimiter(cfg, st, t)
  {
  }

  /** A run begins with an event that may happen and goes on with a run. */
  lemma FirstOfRun(cfg: Config, es: seq<Event>, now: real, end: real)
    requires es != [] && ValidEvents(es) && Timely(es, now) && NoFreeTokens(cfg, es) && es[|es| - 1].at <= end
    ensures var e, rest := es[0], es[1..];
      && (e.Request? ==> ValidIp(e.ip)) && !e.Clear? && (e.Prune? ==> Covers(cfg)) && now <= e.at <= end
      && ValidEvents(rest) && Timely(rest, e.at) && NoFreeTokens(cfg, rest) && (rest != [] ==> rest[|rest| - 1].at <= end)
  {
    assert es[0] in es && forall x <- es[1..] :: x in es;
    LastLater(es, now);
  }

  /** A run from `now` to `end` allows an identity no more than its tokens and the refill. */
  lemma {:induction false} IdentityPays(cfg: Config, st: Limiter, now: real, es: seq<Event>, end: real, who: Identity)
    requires ValidConfig(cfg) && GoodLimiter(cfg, st, now) && ValidEvents(es) && Timely(es, now) &&
             NoFreeTokens(cfg, es)
    requires now <= end && (es != [] ==> es[|es| - 1].at <= end)
    ensures Allowed(cfg, st, es, who) as real <= Own(cfg, st, who, now) + Gain(cfg.identity, end - now)
    decreases |es|
  {
    if es == [] {
      GainCovers(cfg.identity, st.identities, who, now, end);
    } else {
      var e, rest := es[0], es[1..];
      FirstOfRun(cfg, es, now, end);
      GoodLater(cfg, st, now, e.at);
      GainCovers(cfg.identity, st.identities, who, now, e.at);
      StepPays(cfg, st, e, who, who.ip);
      IdentityPays(cfg, Step(cfg, st, e).0, e.at, rest, end, who);
      GainAdds(cfg.identity, e.at - now, end - e.at);
      assert (e.at - now) + (end - e.at) == end - now;
    }
  }

  /** It allows an address, across all its identities, no more than its tokens and the refill. */
  lemma {:induction false} AddressPays(cfg: Config, st: Limiter, now: real, es: seq<Event>, end: real, ip: Ip)
    requires ValidConfig(cfg) && GoodLimiter(cfg, st, now) && ValidEvents(es) && Timely(es, now) &&
             NoFreeTokens(cfg, es)
    requires now <= end && (es != [] ==> es[|es| - 1].at <= end)
    ensures AllowedIp(cfg, st, es, ip) as real <= Shared(cfg, st, ip, now) + Gain(cfg.ceiling, end - now)
    decreases |es|
  {
    if es == [] {
      GainCovers(cfg.ceiling, st.ceilings, ip, now, end);
    } else {
      var e, rest := es[0], es[1..];
      FirstOfRun(cfg, es, now, end);
      GoodLater(cfg, st, now, e.at);
      GainCovers(cfg.ceiling, st.ceilings, ip, now, e.at);
      StepPays(cfg, st, e, Identity(ip, None), ip);
      AddressPays(cfg, Step(cfg, st, e).0, e.at, rest, end, ip);
      GainAdds(cfg.ceiling, e.at - now, end - e.at);
      assert (e.at - now) + (end - e.at) == end - now;
    }
  }

  /** The last event is no earlier than the first. */
  lemma {:induction false} LastLater(es: seq<Event>, now: real)
    requires es != [] && Timely(es, now)
    ensures es[0].at <= es[|es| - 1].at
    decreases |es|
  {
    if |es| > 1 { LastLater(es[1..], es[0].at); }
  }

  lemma {:induction false} GoodAfter(cfg: Config, st: Limiter, now: real, es: seq<Event>, end: real)
    requires ValidConfig(cfg) && GoodLimiter(cfg, st, now) && ValidEvents(es) && Timely(es, now)
    requires now <= end && (es != [] ==> es[|es| - 1].at <= end)
    ensures GoodLimiter(cfg, Run(cfg, st, es).0, end)
    decreases |es|
  {
    if es == [] {
    } else {
      var e := es[0];
      assert e in es && forall x <- es[1..] :: x in es;
      LastLater(es, now);
      if e.Request? && !IsExempt(e.ip) {
        var key := IdentityOf(e.ip, e.device);
        TakeAvailable(cfg.identity, st.identities, key, key, e.at);
        TakeAvailable(cfg.ceiling, st.ceilings, key.ip, key.ip, e.at);
      }
      GoodAfter(cfg, Step(cfg, st, e).0, e.at, es[1..], end);
    }
  }

  /** In every window of length `length` of every run, at most capacity plus refill times length requests
    * are allowed: of one identity, and of one address across all its identities. */
  lemma WindowBound(cfg: Config, before: seq<Event>, window: seq<Event>, origin: real, start: real, length: real,
        who: Identity, ip: Ip)
    requires ValidConfig(cfg) && ValidEvents(before) && ValidEvents(window) && NoFreeTokens(cfg, window)
    requires Timely(before, origin) && origin <= start && (before != [] ==> before[|before| - 1].at <= start)
    requires Timely(window, start) && length >= 0.0 && (window != [] ==> window[|window| - 1].at <= start + length)
    ensures var st := Run(cfg, EMPTY, before).0;
      && Allowed(cfg, st, window, who) as real <= cfg.identity.capacity + Gain(cfg.identity, length)
      && AllowedIp(cfg, st, window, ip) as real <= cfg.ceiling.capacity + Gain(cfg.ceiling, length)
  {
    var st := Run(cfg, EMPTY, before).0;
    GoodAfter(cfg, EMPTY, origin, before, start);
    GainCovers(cfg.identity, st.identities, who, start, start);
    GainCovers(cfg.ceiling, st.ceilings, ip, start, start);
    IdentityPays(cfg, st, start, window, start + length, who);
    AddressPays(cfg, st, start, window, start + length, ip);
    assert start + length - start == length;
  }

  // ---------------------------------------------------------------- counting

  function CountAllowed(cfg: Config, st: Limiter, es: seq<Event>): nat
    requires ValidEvents(es)
    decreases |es|
  {
    if es == [] then 0 else (if Counts(cfg, st, es[0]) then 1 else 0) + CountAllowed(cfg, Step(cfg, st, es[0]).0, es[1..])
  }

  function CountLimited(es: seq<Event>): nat
    requires ValidEvents(es)
    decreases |es|
  {
    if es == [] then 0 else (if es[0].Request? && !IsExempt(es[0].ip) then 1 else 0) + CountLimited(es[1..])
  }

  /** Every request that is not exempt is either allowed or counted as blocked. */
  lemma {:induction false} AllowedOrBlocked(cfg: Config, st: Limiter, es: seq<Event>)
    requires ValidEvents(es)
    ensures CountAllowed(cfg, st, es) + (Run(cfg, st, es).0.blocked - st.blocked) == CountLimited(es)
    decreases |es|
  {
    if es == [] {
    } else {
      assert es[0] in es && forall x <- es[1..] :: x in es;
      AllowedOrBlocked(cfg, Step(cfg, st, es[0]).0, es[1..]);
    }
  }
}
