/** When a prune of the rate limiter can be noticed (src/security/rate_limit.rs): exactly when both levels
  * hold a token and a bucket of one of them is not full again after 60 idle seconds. */
module Pruning {
  import opened Text
  import opened Wrappers
  import opened RateLimit

  // ---------------------------------------------------------------- telling two limiters apart

  /** Requests that the two limiters answer differently. */
  ghost predicate Telling(cfg: Config, a: Limiter, b: Limiter, es: seq<Event>, now: real) {
    && ValidEvents(es) && Timely(es, now) && (forall e <- es :: e.Request?)
    && Answers(Run(cfg, a, es).1) != Answers(Run(cfg, b, es).1)
  }

  ghost predicate CanTell(cfg: Config, a: Limiter, b: Limiter, now: real) { exists es :: Telling(cfg, a, b, es, now) }

  /** Events that the limiter answers differently without the prunes among them. */
  ghost predicate Showing(cfg: Config, st: Limiter, es: seq<Event>, now: real) {
    && ValidEvents(es) && Timely(es, now)
    && Answers(Run(cfg, st, es).1) != Answers(Run(cfg, st, WithoutPrunes(es)).1)
  }

  ghost predicate Shows(cfg: Config, st: Limiter, now: real) { exists es :: Showing(cfg, st, es, now) }

  /** Some run of the limiter is answered differently without its prunes. */
  ghost predicate PruneShows(cfg: Config) { exists now :: Shows(cfg, EMPTY, now) }

  lemma ValidAfter(e: Event, rest: seq<Event>)
    requires ValidEvents(rest) && (e.Request? ==> ValidIp(e.ip))
    ensures ValidEvents([e] + rest)
  {
  }

  lemma AnswersDiffer(x: bool, xs: seq<bool>, y: bool, ys: seq<bool>)
    requires x != y || xs != ys
    ensures [x] + xs != [y] + ys
  {
    assert ([x] + xs)[0] == x && ([y] + ys)[0] == y && ([x] + xs)[1..] == xs && ([y] + ys)[1..] == ys;
  }

  lemma SomeAnswer(cfg: Config, st: Limiter, e: Event)
    requires e.Request? && ValidIp(e.ip)
    ensures Step(cfg, st, e).1.Some?
  {
  }

  /** A request tells two limiters apart, or leaves them such that later ones do. */
  lemma TellFirst(cfg: Config, a: Limiter, b: Limiter, now: real, e: Event)
    requires e.Request? && ValidIp(e.ip) && now <= e.at
    requires Step(cfg, a, e).1 != Step(cfg, b, e).1 || CanTell(cfg, Step(cfg, a, e).0, Step(cfg, b, e).0, e.at)
    ensures CanTell(cfg, a, b, now)
  {
    var rest: seq<Event> := [];
    if Step(cfg, a, e).1 == Step(cfg, b, e).1 {
      rest :| Telling(cfg, Step(cfg, a, e).0, Step(cfg, b, e).0, rest, e.at);
    }
    ValidAfter(e, rest);
    RunFirst(cfg, a, e, rest);
    RunFirst(cfg, b, e, rest);
    SomeAnswer(cfg, a, e);
    SomeAnswer(cfg, b, e);
    AnswersDiffer(Step(cfg, a, e).1.value, Answers(Run(cfg, Step(cfg, a, e).0, rest).1),
                  Step(cfg, b, e).1.value, Answers(Run(cfg, Step(cfg, b, e).0, rest).1));
    assert ([e] + rest)[1..] == rest;
    assert Telling(cfg, a, b, [e] + rest, now);
  }

  lemma ShowsAfter(cfg: Config, st: Limiter, now: real, e: Event)
    requires e.Request? && ValidIp(e.ip) && now <= e.at && Shows(cfg, Step(cfg, st, e).0, e.at)
    ensures Shows(cfg, st, now)
  {
    var rest :| Showing(cfg, Step(cfg, st, e).0, rest, e.at);
    ValidAfter(e, rest);
    RunFirst(cfg, st, e, rest);
    RunFirst(cfg, st, e, WithoutPrunes(rest));
    SomeAnswer(cfg, st, e);
    var next, x := Step(cfg, st, e).0, Step(cfg, st, e).1.value;
    AnswersDiffer(x, Answers(Run(cfg, next, rest).1), x, Answers(Run(cfg, next, WithoutPrunes(rest)).1));
    assert ([e] + rest)[1..] == rest;
    assert WithoutPrunes([e] + rest) == [e] + WithoutPrunes(rest);
    assert Showing(cfg, st, [e] + rest, now);
  }

  lemma {:induction false} OnlyRequests(es: seq<Event>)
    requires forall e <- es :: e.Request?
    ensures WithoutPrunes(es) == es
  {
    if es == [] {
    } else {
      assert es[0] in es && forall e <- es[1..] :: e in es;
      OnlyRequests(es[1..]);
      assert es == [es[0]] + es[1..];
    }
  }

  /** A prune that leaves a limiter that can be told from the unpruned one shows. */
  lemma ShowsByPrune(cfg: Config, st: Limiter, now: real, t: real)
    requires now <= t && CanTell(cfg, Pruned(st, t), st, t)
    ensures Shows(cfg, st, now)
  {
    var rest :| Telling(cfg, Pruned(st, t), st, rest, t);
    OnlyRequests(rest);
    ValidAfter(Prune(t), rest);
    RunFirst(cfg, st, Prune(t), rest);
    assert ([Prune(t)] + rest)[1..] == rest;
    assert WithoutPrunes([Prune(t)] + rest) == [] + rest == rest;
    assert Showing(cfg, st, [Prune(t)] + rest, now);
  }

  // ---------------------------------------------------------------- requests from one address

  const ADDRESS := V4([8, 8, 8, 8])

  function Ask(name: string, at: real): Event { Request(ADDRESS, Some(name), at) }

  function Who(name: string): Identity { IdentityOf(ADDRESS, Some(name)) }

  lemma OneAddress()
    ensures ValidIp(ADDRESS) && !IsExempt(ADDRESS) && Canonical(ADDRESS) == ADDRESS
  {
  }

  /** What a request takes, if both its buckets have a token. */
  lemma AskTakes(cfg: Config, st: Limiter, name: string, at: real, who: Identity)
    requires ValidConfig(cfg) && GoodLimiter(cfg, st, at)
    ensures var (next, answer) := Step(cfg, st, Ask(name, at));
      var own, all := Own(cfg, st, Who(name), at) >= 1.0, Shared(cfg, st, ADDRESS, at) >= 1.0;
      && answer == Some(own && all) && GoodLimiter(cfg, next, at)
      && Own(cfg, next, who, at) == Own(cfg, st, who, at) - (if who == Who(name) && own then 1.0 else 0.0)
      && Shared(cfg, next, ADDRESS, at) == Shared(cfg, st, ADDRESS, at) - (if own && all then 1.0 else 0.0)
  {
    OneAddress();
    TakeAvailable(cfg.identity, st.identities, Who(name), Who(name), at);
    TakeAvailable(cfg.identity, st.identities, Who(name), who, at);
    TakeAvailable(cfg.ceiling, st.ceilings, ADDRESS, ADDRESS, at);
  }

  lemma LaterBy<K>(l: Level, m: map<K, Bucket>, k: K, now: real, t: real, d: real)
    requires ValidLevel(l) && Good(l, m, now) && d >= 0.0 && t - now == d
    ensures Good(l, m, t) && Available(l, m, k, t) == Min(Available(l, m, k, now) + d * l.refill, l.capacity)
    ensures 0.0 <= Available(l, m, k, now) <= l.capacity
  {
    AvailableLater(l, m, k, now, t);
    assert (t - now) * l.refill == d * l.refill;
  }

  /** After a while without requests. */
  lemma Later(cfg: Config, st: Limiter, who: Identity, now: real, t: real, d: real)
    requires ValidConfig(cfg) && GoodLimiter(cfg, st, now) && d >= 0.0 && t == now + d
    ensures GoodLimiter(cfg, st, t)
    ensures Own(cfg, st, who, t) == Min(Own(cfg, st, who, now) + d * cfg.identity.refill, cfg.identity.capacity)
    ensures Shared(cfg, st, ADDRESS, t) == Min(Shared(cfg, st, ADDRESS, now) + d * cfg.ceiling.refill, cfg.ceiling.capacity)
    ensures 0.0 <= Own(cfg, st, who, now) <= cfg.identity.capacity &&
            0.0 <= Shared(cfg, st, ADDRESS, now) <= cfg.ceiling.capacity
  {
    LaterBy(cfg.identity, st.identities, who, now, t, d);
    LaterBy(cfg.ceiling, st.ceilings, ADDRESS, now, t, d);
  }

  lemma Quotient(x: real, r: real)
    requires r > 0.0 && x >= 0.0
    ensures x / r * r == x && x / r >= 0.0
  {
  }

  lemma Monotone(x: real, y: real, r: real)
    requires r > 0.0
    ensures x < y <==> x * r < y * r
  {
  }

  // ---------------------------------------------------------------- the tokens one identity sees

  /** What is left for an identity and for its address. */
  datatype Tokens = Tokens(own: real, all: real)

  predicate ValidTokens(cfg: Config, s: Tokens) { 0.0 <= s.own <= cfg.identity.capacity && 0.0 <= s.all <= cfg.ceiling.capacity }

  /** A time without requests, and what it refills of the two levels. */
  datatype Wait = Wait(time: real, own: real, all: real)

  function WaitOf(cfg: Config, d: real): Wait { Wait(d, d * cfg.identity.refill, d * cfg.ceiling.refill) }

  predicate ValidWait(cfg: Config, d: Wait) { d.time >= 0.0 && d == WaitOf(cfg, d.time) }

  const NOW := Wait(0.0, 0.0, 0.0)

  function After(cfg: Config, s: Tokens, d: Wait): Tokens {
    Tokens(Min(s.own + d.own, cfg.identity.capacity), Min(s.all + d.all, cfg.ceiling.capacity))
  }

  /** After a request: the identity's token is taken first, even if the address has none. */
  function Asked(s: Tokens): Tokens {
    if s.own >= 1.0 then Tokens(s.own - 1.0, if s.all >= 1.0 then s.all - 1.0 else s.all) else s
  }

  predicate Granted(s: Tokens) { s.own >= 1.0 && s.all >= 1.0 }

  predicate Delays(cfg: Config, ds: seq<Wait>)
    decreases |ds|
  {
    ds == [] || (ValidWait(cfg, ds[0]) && Delays(cfg, ds[1..]))
  }

  lemma DelaysFirst(cfg: Config, d: Wait, ds: seq<Wait>)
    requires ValidWait(cfg, d) && Delays(cfg, ds)
    ensures Delays(cfg, [d] + ds)
  {
    assert ([d] + ds)[1..] == ds;
  }

  /** The answers to requests after the given delays, and the tokens they leave. */
  function Play(cfg: Config, s: Tokens, ds: seq<Wait>): seq<bool>
    decreases |ds|
  {
    if ds == [] then [] else [Granted(After(cfg, s, ds[0]))] + Play(cfg, Asked(After(cfg, s, ds[0])), ds[1..])
  }

  function Left(cfg: Config, s: Tokens, ds: seq<Wait>): Tokens
    decreases |ds|
  {
    if ds == [] then s else Left(cfg, Asked(After(cfg, s, ds[0])), ds[1..])
  }

  function TokensOf(cfg: Config, st: Limiter, name: string, t: real): Tokens { Tokens(Own(cfg, st, Who(name), t), Shared(cfg, st, ADDRESS, t)) }

  lemma TokensLater(cfg: Config, st: Limiter, name: string, now: real, t: real, d: Wait)
    requires ValidConfig(cfg) && GoodLimiter(cfg, st, now) && ValidWait(cfg, d) && t == now + d.time
    ensures GoodLimiter(cfg, st, t) && TokensOf(cfg, st, name, t) == After(cfg, TokensOf(cfg, st, name, now), d)
  {
    Later(cfg, st, Who(name), now, t, d.time);
    var s := TokensOf(cfg, st, name, now);
    assert After(cfg, s, d) == Tokens(Own(cfg, st, Who(name), t), Shared(cfg, st, ADDRESS, t));
  }

  lemma TokensAsked(cfg: Config, st: Limiter, name: string, t: real)
    requires ValidConfig(cfg) && GoodLimiter(cfg, st, t)
    ensures var (next, answer) := Step(cfg, st, Ask(name, t)); var s := TokensOf(cfg, st, name, t);
      GoodLimiter(cfg, next, t) && answer == Some(Granted(s)) && TokensOf(cfg, next, name, t) == Asked(s)
  {
    AskTakes(cfg, st, name, t, Who(name));
  }

  /** One request after a delay does to the limiter what it does to the tokens. */
  lemma AskPlays(cfg: Config, st: Limiter, name: string, now: real, t: real, d: Wait, s: Tokens)
    requires ValidConfig(cfg) && GoodLimiter(cfg, st, now) && ValidWait(cfg, d) && t == now + d.time &&
             s == After(cfg, TokensOf(cfg, st, name, now), d)
    ensures var (next, answer) := Step(cfg, st, Ask(name, t));
      GoodLimiter(cfg, next, t) && answer == Some(Granted(s)) && TokensOf(cfg, next, name, t) == Asked(s)
  {
    TokensLater(cfg, st, name, now, t, d);
    TokensAsked(cfg, st, name, t);
  }

  /** A limiter in which the identity and its address have the given tokens left. */
  ghost predicate Holds(cfg: Config, st: Limiter, name: string, t: real, s: Tokens) {
    GoodLimiter(cfg, st, t) && TokensOf(cfg, st, name, t) == s
  }

  lemma TellAfterAsking(cfg: Config, a: Limiter, b: Limiter, name: string, now: real, t: real, a': Limiter,
        b': Limiter, x: bool, y: bool)
    requires now <= t && Step(cfg, a, Ask(name, t)) == (a', Some(x)) && Step(cfg, b, Ask(name, t)) == (b', Some(y))
    requires x != y || CanTell(cfg, a', b', t)
    ensures CanTell(cfg, a, b, now)
  {
    OneAddress();
    TellFirst(cfg, a, b, now, Ask(name, t));
  }

  lemma AskHolds(cfg: Config, st: Limiter, name: string, now: real, at: real, d: Wait, s: Tokens, later: Tokens)
    returns (next: Limiter)
    requires ValidConfig(cfg) && Holds(cfg, st, name, now, s) && ValidWait(cfg, d) && at == now + d.time &&
             later == After(cfg, s, d)
    ensures Step(cfg, st, Ask(name, at)) == (next, Some(Granted(later))) && Holds(cfg, next, name, at, Asked(later))
  {
    AskPlays(cfg, st, name, now, at, d, later);
    next := Step(cfg, st, Ask(name, at)).0;
  }

  lemma SomeAnswerDiffers(cfg: Config, x: Tokens, y: Tokens, ds: seq<Wait>)
    requires Play(cfg, x, ds) != Play(cfg, y, ds)
    ensures ds != []
    ensures var x', y' := After(cfg, x, ds[0]), After(cfg, y, ds[0]);
      Granted(x') != Granted(y') || Play(cfg, Asked(x'), ds[1..]) != Play(cfg, Asked(y'), ds[1..])
  {
  }

  /** A request to both limiters: it tells them apart, or they are told apart later. */
  lemma AskPair(cfg: Config, a: Limiter, b: Limiter, name: string, now: real, at: real, d: Wait, x: Tokens,
        x': Tokens, y: Tokens, y': Tokens)
    returns (a': Limiter, b': Limiter)
    requires ValidConfig(cfg) && ValidWait(cfg, d) && at == now + d.time
    requires Holds(cfg, a, name, now, x) && x' == After(cfg, x, d) && Holds(cfg, b, name, now, y) &&
             y' == After(cfg, y, d)
    ensures Holds(cfg, a', name, at, Asked(x')) && Holds(cfg, b', name, at, Asked(y'))
    ensures Granted(x') != Granted(y') || CanTell(cfg, a', b', at) ==> CanTell(cfg, a, b, now)
  {
    a' := AskHolds(cfg, a, name, now, at, d, x, x');
    b' := AskHolds(cfg, b, name, now, at, d, y, y');
    if Granted(x') != Granted(y') || CanTell(cfg, a', b', at) {
      TellAfterAsking(cfg, a, b, name, now, at, a', b', Granted(x'), Granted(y'));
    }
  }

  /** Limiters whose tokens are told apart are told apart. */
  lemma {:induction false} TellTokens(cfg: Config, a: Limiter, b: Limiter, name: string, t: real, ds: seq<Wait>,
        x: Tokens, y: Tokens)
    requires ValidConfig(cfg) && Holds(cfg, a, name, t, x) && Holds(cfg, b, name, t, y) && Delays(cfg, ds)
    requires Play(cfg, x, ds) != Play(cfg, y, ds)
    ensures CanTell(cfg, a, b, t)
    decreases |ds|
  {
    SomeAnswerDiffers(cfg, x, y, ds);
    var at, x', y' := t + ds[0].time, After(cfg, x, ds[0]), After(cfg, y, ds[0]);
    var a', b' := AskPair(cfg, a, b, name, t, at, ds[0], x, x', y, y');
    if Granted(x') == Granted(y') { TellTokens(cfg, a', b', name, at, ds[1..], Asked(x'), Asked(y')); }
  }

  // ---------------------------------------------------------------- requests that tell tokens apart

  lemma PlayDiffers(cfg: Config, x: Tokens, y: Tokens, d: Wait, ds: seq<Wait>)
    requires var a, b := After(cfg, x, d), After(cfg, y, d);
      Granted(a) != Granted(b) || Play(cfg, Asked(a), ds) != Play(cfg, Asked(b), ds)
    ensures Play(cfg, x, [d] + ds) != Play(cfg, y, [d] + ds)
  {
    assert ([d] + ds)[1..] == ds;
    var a, b := After(cfg, x, d), After(cfg, y, d);
    AnswersDiffer(Granted(a), Play(cfg, Asked(a), ds), Granted(b), Play(cfg, Asked(b), ds));
  }

  lemma WaitForOne(l: Level, own: real, wait: real) returns (d: real)
    requires l.refill > 0.0 && wait >= 0.0 && own + wait * l.refill < 1.0
    ensures d > wait && d * l.refill == 1.0 - own
  {
    Product(wait, l.refill);
    d := (1.0 - own) / l.refill;
    Quotient(1.0 - own, l.refill);
    Monotone(wait, d, l.refill);
  }

  lemma MoreLater(r: real, wait: real, d: real)
    requires r >= 0.0 && wait <= d
    ensures wait * r <= d * r
  {
    Product(d - wait, r);
    Distribute(d - wait, wait, r);
  }

  /** Once the address has a token and the emptier identity bucket none: wait until the fuller one does. */
  lemma TellOnce(cfg: Config, x: Tokens, y: Tokens, wait: Wait) returns (d: Wait)
    requires ValidConfig(cfg) && cfg.identity.capacity >= 1.0 && ValidWait(cfg, wait)
    requires y.own < x.own && y.own + wait.own < 1.0 && After(cfg, x, wait).all >= 1.0
    requires cfg.identity.refill > 0.0 || x.own + wait.own >= 1.0
    ensures ValidWait(cfg, d) && Granted(After(cfg, x, d)) && !Granted(After(cfg, y, d))
  {
    d := wait;
    if x.own + wait.own < 1.0 {
      var time := WaitForOne(cfg.identity, x.own, wait.time);
      d := WaitOf(cfg, time);
      MoreLater(cfg.ceiling.refill, wait.time, time);
    }
  }

  function AsReal(k: int): real { k as real }

  ghost predicate Whole(x: real) { exists k :: AsReal(k) == x }

  /** The identity has more left on one side; both have the same left for the address, which after `wait`
    * has its next whole token; the emptier side does not get a whole token at that very time. */
  ghost predicate Ahead(cfg: Config, x: Tokens, y: Tokens, rest: real, whole: nat, wait: real) {
    && ValidConfig(cfg) && cfg.identity.refill > 0.0 && cfg.ceiling.refill > 0.0 && cfg.ceiling.capacity >= 1.0
    && 0.0 <= y.own < x.own && 1.0 + (x.own - y.own) <= cfg.identity.capacity && x.own <= cfg.identity.capacity
    && x.all == y.all == rest + whole as real <= cfg.ceiling.capacity && 0.0 <= rest < 1.0
    && wait > 0.0 && wait * cfg.ceiling.refill == 1.0 - rest
    && !Whole(y.own + wait * cfg.identity.refill)
  }

  lemma {:induction false} TellByOwn(cfg: Config, x: Tokens, y: Tokens, rest: real, whole: nat, wait: real, reach: real)
    returns (ds: seq<Wait>)
    requires Ahead(cfg, x, y, rest, whole, wait) && reach == y.own + wait * cfg.identity.refill
    ensures Delays(cfg, ds) && Play(cfg, x, ds) != Play(cfg, y, ds)
    decreases reach.Floor
  {
    var d;
    var more := [];
    if y.own < 1.0 && (whole > 0 || reach < 1.0) {
      AtOnce(cfg, x);
      d := TellOnce(cfg, x, y, if whole > 0 then NOW else WaitOf(cfg, wait));
    } else {
      var x', y', rest', whole', wait';
      d, x', y', rest', whole', wait' := KeepAhead(cfg, x, y, rest, whole, wait, reach);
      more := TellByOwn(cfg, x', y', rest', whole', wait', reach - 1.0);
    }
    PlayDiffers(cfg, x, y, d, more);
    DelaysFirst(cfg, d, more);
    ds := [d] + more;
  }

  /** A request after which the identity still has more left on one side. */
  lemma KeepAhead(cfg: Config, x: Tokens, y: Tokens, rest: real, whole: nat, wait: real, reach: real)
    returns (d: Wait, x': Tokens, y': Tokens, rest': real, whole': nat, wait': real)
    requires Ahead(cfg, x, y, rest, whole, wait) && reach == y.own + wait * cfg.identity.refill
    requires y.own >= 1.0 || (whole == 0 && reach >= 1.0)
    ensures ValidWait(cfg, d) && x' == Asked(After(cfg, x, d)) && y' == Asked(After(cfg, y, d))
    ensures Ahead(cfg, x', y', rest', whole', wait') && reach - 1.0 == y'.own + wait' * cfg.identity.refill &&
            reach >= 1.0
  {
    if y.own >= 1.0 {
      d, rest', whole', wait' := NOW, rest, if whole > 0 then whole - 1 else 0, wait;
      TakeBoth(cfg, x, y, rest, whole, wait);
      x', y' := Asked(x), Asked(y);
    } else {
      var time := (1.0 - y.own) / cfg.identity.refill;
      d := WaitOf(cfg, time);
      TakeDenied(cfg, x, y, rest, wait, time, d);
      rest', whole', wait' := rest + d.all, 0, wait - time;
      x', y' := Asked(After(cfg, x, d)), Asked(After(cfg, y, d));
    }
  }

  /** A request that finds a token in both identity buckets keeps the distance. */
  lemma TakeBoth(cfg: Config, x: Tokens, y: Tokens, rest: real, whole: nat, wait: real)
    requires Ahead(cfg, x, y, rest, whole, wait) && y.own >= 1.0
    ensures ValidWait(cfg, NOW) && After(cfg, x, NOW) == x && After(cfg, y, NOW) == y &&
            wait * cfg.identity.refill > 0.0
    ensures Ahead(cfg, Asked(x), Asked(y), rest, if whole > 0 then whole - 1 else 0, wait)
    ensures Asked(y).own + wait * cfg.identity.refill == y.own + wait * cfg.identity.refill - 1.0 &&
            y.own + wait * cfg.identity.refill >= 1.0
  {
    AtOnce(cfg, x);
    AtOnce(cfg, y);
    Monotone(0.0, wait, cfg.identity.refill);
    WholeLess(y.own + wait * cfg.identity.refill);
  }

  lemma WholeLess(x: real)
    ensures Whole(x - 1.0) ==> Whole(x)
  {
    if k :| AsReal(k) == x - 1.0 { assert AsReal(k + 1) == x; }
  }

  /** Before the address has its next token the emptier identity bucket fills to exactly one: a request then
    * is denied on both sides and takes a token of the identity's only. */
  lemma TakeDenied(cfg: Config, x: Tokens, y: Tokens, rest: real, wait: real, time: real, d: Wait)
    requires Ahead(cfg, x, y, rest, 0, wait) && y.own < 1.0 <= y.own + wait * cfg.identity.refill
    requires time == (1.0 - y.own) / cfg.identity.refill && d == WaitOf(cfg, time)
    ensures time >= 0.0 && Ahead(cfg, Asked(After(cfg, x, d)), Asked(After(cfg, y, d)), rest + d.all, 0, wait - time)
    ensures Asked(After(cfg, y, d)).own == 0.0 &&
            (wait - time) * cfg.identity.refill == y.own + wait * cfg.identity.refill - 1.0
  {
    BeforeNextToken(cfg, y.own, rest, wait, time);
    assert After(cfg, x, d) == Tokens(1.0 + (x.own - y.own), rest + d.all);
    assert After(cfg, y, d) == Tokens(1.0, rest + d.all);
    WholeLess(y.own + wait * cfg.identity.refill);
  }

  lemma AtOnce(cfg: Config, s: Tokens)
    requires s.own <= cfg.identity.capacity && s.all <= cfg.ceiling.capacity
    ensures After(cfg, s, NOW) == s && ValidWait(cfg, NOW)
  {
  }

  /** The emptier identity bucket fills to exactly one before the address has its next token. */
  lemma BeforeNextToken(cfg: Config, y: real, rest: real, wait: real, d: real)
    requires cfg.identity.refill > 0.0 && cfg.ceiling.refill > 0.0 && 0.0 <= y < 1.0 && 0.0 <= rest < 1.0
    requires wait * cfg.ceiling.refill == 1.0 - rest && 1.0 <= y + wait * cfg.identity.refill &&
             !Whole(y + wait * cfg.identity.refill)
    requires d == (1.0 - y) / cfg.identity.refill
    ensures d * cfg.identity.refill == 1.0 - y && 0.0 < d < wait
    ensures 0.0 < d * cfg.ceiling.refill && rest + d * cfg.ceiling.refill < 1.0
    ensures (wait - d) * cfg.ceiling.refill == 1.0 - (rest + d * cfg.ceiling.refill)
    ensures (wait - d) * cfg.identity.refill == wait * cfg.identity.refill - (1.0 - y)
  {
    Quotient(1.0 - y, cfg.identity.refill);
    assert AsReal(1) == 1.0;
    Monotone(0.0, d, cfg.identity.refill);
    Monotone(d, wait, cfg.identity.refill);
    Monotone(0.0, d, cfg.ceiling.refill);
    Monotone(d, wait, cfg.ceiling.refill);
    Distribute(wait - d, d, cfg.ceiling.refill);
    Distribute(wait - d, d, cfg.identity.refill);
  }

  // ---------------------------------------------------------------- an identity's bucket that does not refill

  /** After 60 idle seconds a prune gives the identity a full bucket; the address has one either way. */
  lemma IdleThenPruned(cfg: Config, st: Limiter, name: string, now: real, idle: real, t: real)
    requires ValidConfig(cfg) && GoodLimiter(cfg, st, now) && idle >= IDLE_SECONDS && t == now + idle
    requires cfg.ceiling.refill * IDLE_SECONDS >= cfg.ceiling.capacity
    ensures Holds(cfg, Pruned(st, t), name, t, Tokens(cfg.identity.capacity, cfg.ceiling.capacity))
    ensures Holds(cfg, st, name, t, Tokens(Min(Own(cfg, st, Who(name), now) + idle * cfg.identity.refill, cfg.identity.capacity), cfg.ceiling.capacity))
  {
    Later(cfg, st, Who(name), now, t, idle);
    MoreLater(cfg.ceiling.refill, IDLE_SECONDS, idle);
    PruneKeepsAvailable(cfg.ceiling, st.ceilings, ADDRESS, t);
    PrunedFull(cfg.identity, st.identities, Who(name), now, t);
  }

  /** A bucket not used for 60 seconds is dropped, and the next one is full. */
  lemma PrunedFull<K>(l: Level, m: map<K, Bucket>, k: K, now: real, t: real)
    requires ValidLevel(l) && Good(l, m, now) && t - now >= IDLE_SECONDS
    ensures Good(l, Retained(m, t), t) && Available(l, Retained(m, t), k, t) == l.capacity
  {
  }

  /** Requests that use up the identity's tokens, down to none if it refills at all. */
  lemma {:induction false} SpendOwn(cfg: Config, s: Tokens) returns (ds: seq<Wait>)
    requires ValidConfig(cfg) && ValidTokens(cfg, s) && cfg.identity.capacity >= 1.0
    ensures Delays(cfg, ds) && 0.0 <= Left(cfg, s, ds).own < 1.0 &&
            (cfg.identity.refill > 0.0 ==> Left(cfg, s, ds).own == 0.0)
    decreases s.own.Floor
  {
    if s.own >= 1.0 {
      AtOnce(cfg, s);
      var more := SpendOwn(cfg, Asked(s));
      DelaysFirst(cfg, NOW, more);
      ds := [NOW] + more;
      LeftFirst(cfg, s, NOW, more);
    } else if cfg.identity.refill > 0.0 {
      var d := WaitForOne(cfg.identity, s.own, 0.0);
      DelaysFirst(cfg, WaitOf(cfg, d), []);
      ds := [WaitOf(cfg, d)] + [];
      LeftFirst(cfg, s, WaitOf(cfg, d), []);
    } else {
      ds := [];
    }
  }

  lemma LeftFirst(cfg: Config, s: Tokens, d: Wait, ds: seq<Wait>)
    ensures Left(cfg, s, [d] + ds) == Left(cfg, Asked(After(cfg, s, d)), ds)
  {
    assert ([d] + ds)[1..] == ds;
  }

  lemma NotBothWhole(x: real, e: real)
    requires Whole(x) && 0.0 < e < 1.0
    ensures !Whole(x + e)
  {
    var k :| AsReal(k) == x;
    forall j ensures AsReal(j) != x + e { NoneBetween(j, k, e); }
  }

  lemma NoneBetween(j: int, k: int, e: real)
    requires 0.0 < e < 1.0
    ensures AsReal(j) != AsReal(k) + e
  {
    if j <= k {
      assert j as real <= k as real;
    } else {
      assert j as real >= (k + 1) as real == k as real + 1.0;
    }
  }

  /** A little longer than 60 seconds, for an extra part of a token. */
  lemma LittleLonger(l: Level, extra: real) returns (idle: real)
    requires l.refill > 0.0 && extra >= 0.0
    ensures idle >= IDLE_SECONDS && idle * l.refill == IDLE_SECONDS * l.refill + extra
  {
    var e := extra / l.refill;
    Quotient(extra, l.refill);
    Distribute(IDLE_SECONDS, e, l.refill);
    idle := IDLE_SECONDS + e;
  }

  /** An idle time of at least 60 seconds that does not fill the bucket, nor ends in step with the address's. */
  lemma ChooseIdle(l: Level, gained: real) returns (idle: real)
    requires l.refill > 0.0 && l.refill * IDLE_SECONDS < l.capacity
    ensures idle >= IDLE_SECONDS && idle * l.refill < l.capacity && !Whole(idle * l.refill + gained)
  {
    var base := IDLE_SECONDS * l.refill;
    if Whole(base + gained) {
      var extra := Min(0.5, (l.capacity - base) / 2.0);
      NotBothWhole(base + gained, extra);
      idle := LittleLonger(l, extra);
      assert base + gained + extra == base + extra + gained;
    } else {
      idle := IDLE_SECONDS;
    }
  }

  /** The time the address takes from its last part of a token to a whole one. */
  lemma NextToken(l: Level, rest: real) returns (wait: real)
    requires l.refill > 0.0 && rest < 1.0
    ensures wait > 0.0 && wait * l.refill == 1.0 - rest
  {
    wait := (1.0 - rest) / l.refill;
    Quotient(1.0 - rest, l.refill);
    Monotone(0.0, wait, l.refill);
  }

  /** A full identity bucket is told from one that has refilled for `idle` seconds only. */
  lemma TellFromFull(cfg: Config, left: real) returns (ds: seq<Wait>)
    requires ValidConfig(cfg) && cfg.identity.capacity >= 1.0 && cfg.ceiling.capacity >= 1.0 && 0.0 <= left < 1.0
    ensures Delays(cfg, ds) &&
            Play(cfg, Tokens(cfg.identity.capacity, cfg.ceiling.capacity), ds) != Play(cfg, Tokens(left, cfg.ceiling.capacity), ds)
  {
    var x, y := Tokens(cfg.identity.capacity, cfg.ceiling.capacity), Tokens(left, cfg.ceiling.capacity);
    AtOnce(cfg, x);
    AtOnce(cfg, y);
    PlayDiffers(cfg, x, y, NOW, []);
    DelaysFirst(cfg, NOW, []);
    ds := [NOW] + [];
  }

  /** The identity's bucket shows a prune. */
  lemma IdentityShows(cfg: Config, name: string)
    requires ValidConfig(cfg) && cfg.identity.capacity >= 1.0 && cfg.ceiling.capacity >= 1.0
    requires cfg.identity.refill * IDLE_SECONDS < cfg.identity.capacity &&
             cfg.ceiling.refill * IDLE_SECONDS >= cfg.ceiling.capacity
    ensures PruneShows(cfg)
  {
    var start := Tokens(cfg.identity.capacity, cfg.ceiling.capacity);
    var ds := SpendOwn(cfg, start);
    assert Holds(cfg, EMPTY, name, 0.0, start);
    SpendingShows(cfg, EMPTY, name, 0.0, ds, start, Left(cfg, start, ds).own);
  }

  lemma ShowsAfterAsking(cfg: Config, st: Limiter, name: string, now: real, t: real, next: Limiter, answer: bool)
    requires now <= t && Step(cfg, st, Ask(name, t)) == (next, Some(answer)) && Shows(cfg, next, t)
    ensures Shows(cfg, st, now)
  {
    OneAddress();
    ShowsAfter(cfg, st, now, Ask(name, t));
  }

  lemma AskShows(cfg: Config, st: Limiter, name: string, now: real, at: real, d: Wait, s: Tokens, later: Tokens)
    returns (next: Limiter)
    requires ValidConfig(cfg) && Holds(cfg, st, name, now, s) && ValidWait(cfg, d) && at == now + d.time &&
             later == After(cfg, s, d)
    ensures Holds(cfg, next, name, at, Asked(later)) && (Shows(cfg, next, at) ==> Shows(cfg, st, now))
  {
    next := AskHolds(cfg, st, name, now, at, d, s, later);
    if Shows(cfg, next, at) { ShowsAfterAsking(cfg, st, name, now, at, next, Granted(later)); }
  }

  lemma {:induction false} SpendingShows(cfg: Config, st: Limiter, name: string, now: real, ds: seq<Wait>, s: Tokens,
        own: real)
    requires ValidConfig(cfg) && cfg.identity.capacity >= 1.0 && cfg.ceiling.capacity >= 1.0 &&
             Holds(cfg, st, name, now, s) && Delays(cfg, ds)
    requires cfg.identity.refill * IDLE_SECONDS < cfg.identity.capacity &&
             cfg.ceiling.refill * IDLE_SECONDS >= cfg.ceiling.capacity
    requires own == Left(cfg, s, ds).own && 0.0 <= own < 1.0 && (cfg.identity.refill > 0.0 ==> own == 0.0)
    ensures Shows(cfg, st, now)
    decreases |ds|
  {
    if ds == [] {
      SpentShows(cfg, st, name, now, s);
    } else {
      var at, later := now + ds[0].time, After(cfg, s, ds[0]);
      var next := AskShows(cfg, st, name, now, at, ds[0], s, later);
      SpendingShows(cfg, next, name, at, ds[1..], Asked(later), own);
    }
  }

  lemma SpentShows(cfg: Config, st: Limiter, name: string, now: real, s: Tokens)
    requires ValidConfig(cfg) && cfg.identity.capacity >= 1.0 && cfg.ceiling.capacity >= 1.0 &&
             Holds(cfg, st, name, now, s)
    requires cfg.identity.refill * IDLE_SECONDS < cfg.identity.capacity &&
             cfg.ceiling.refill * IDLE_SECONDS >= cfg.ceiling.capacity
    requires 0.0 <= s.own < 1.0 && (cfg.identity.refill > 0.0 ==> s.own == 0.0)
    ensures Shows(cfg, st, now)
  {
    var idle, left, ds := TellSpent(cfg, s.own);
    var t := now + idle;
    IdleThenPruned(cfg, st, name, now, idle, t);
    TellTokens(cfg, Pruned(st, t), st, name, t, ds, Tokens(cfg.identity.capacity, cfg.ceiling.capacity), Tokens(left, cfg.ceiling.capacity));
    ShowsByPrune(cfg, st, now, t);
  }

  lemma TellSpent(cfg: Config, own: real) returns (idle: real, y: real, ds: seq<Wait>)
    requires ValidConfig(cfg) && cfg.identity.capacity >= 1.0 && cfg.ceiling.capacity >= 1.0
    requires cfg.identity.refill * IDLE_SECONDS < cfg.identity.capacity &&
             cfg.ceiling.refill * IDLE_SECONDS >= cfg.ceiling.capacity
    requires 0.0 <= own < 1.0 && (cfg.identity.refill > 0.0 ==> own == 0.0)
    ensures idle >= IDLE_SECONDS && Delays(cfg, ds) && y == Min(own + idle * cfg.identity.refill, cfg.identity.capacity)
    ensures Play(cfg, Tokens(cfg.identity.capacity, cfg.ceiling.capacity), ds) != Play(cfg, Tokens(y, cfg.ceiling.capacity), ds)
  {
    if cfg.identity.refill == 0.0 {
      idle, y := IDLE_SECONDS, own;
      ds := TellFromFull(cfg, own);
    } else {
      idle, y, ds := TellIdle(cfg);
    }
  }

  lemma TellIdle(cfg: Config) returns (idle: real, y: real, ds: seq<Wait>)
    requires ValidConfig(cfg) && cfg.identity.capacity >= 1.0 && cfg.ceiling.capacity >= 1.0 &&
             cfg.identity.refill > 0.0
    requires cfg.identity.refill * IDLE_SECONDS < cfg.identity.capacity &&
             cfg.ceiling.refill * IDLE_SECONDS >= cfg.ceiling.capacity
    ensures idle >= IDLE_SECONDS && y == idle * cfg.identity.refill && 0.0 <= y < cfg.identity.capacity &&
            Delays(cfg, ds)
    ensures Play(cfg, Tokens(cfg.identity.capacity, cfg.ceiling.capacity), ds) != Play(cfg, Tokens(y, cfg.ceiling.capacity), ds)
  {
    var whole := cfg.ceiling.capacity.Floor;
    var rest := cfg.ceiling.capacity - whole as real;
    var wait := NextToken(cfg.ceiling, rest);
    var gained := wait * cfg.identity.refill;
    idle := ChooseIdle(cfg.identity, gained);
    y := idle * cfg.identity.refill;
    Product(idle, cfg.identity.refill);
    ds := TellRefilled(cfg, y, rest, whole, wait, gained);
  }

  lemma TellRefilled(cfg: Config, y: real, rest: real, whole: nat, wait: real, gained: real) returns (ds: seq<Wait>)
    requires ValidConfig(cfg) && cfg.identity.refill > 0.0 && cfg.ceiling.refill > 0.0 &&
             cfg.identity.capacity >= 1.0 &&
             cfg.ceiling.capacity >= 1.0
    requires 0.0 <= y < cfg.identity.capacity && cfg.ceiling.capacity == rest + whole as real && 0.0 <= rest < 1.0
    requires wait > 0.0 && wait * cfg.ceiling.refill == 1.0 - rest && gained == wait * cfg.identity.refill &&
             !Whole(y + gained)
    ensures Delays(cfg, ds)
    ensures Play(cfg, Tokens(cfg.identity.capacity, cfg.ceiling.capacity), ds) != Play(cfg, Tokens(y, cfg.ceiling.capacity), ds)
  {
    if y < 1.0 {
      ds := TellFromFull(cfg, y);
    } else {
      ds := TellByOwn(cfg, Tokens(cfg.identity.capacity, cfg.ceiling.capacity), Tokens(y, cfg.ceiling.capacity), rest, whole, wait, y + gained);
    }
  }

  // ---------------------------------------------------------------- many identities of one address

  /** Names of `k` letters. */
  function Names(k: nat): nat { if k == 0 then 1 else 26 * Names(k - 1) }

  function Name(i: nat, k: nat): string
    decreases k
  {
    if k == 0 then "" else Name(i / 26, k - 1) + [(97 + i % 26) as char]
  }

  lemma {:induction false} NameLetters(i: nat, k: nat)
    ensures |Name(i, k)| == k && forall j | 0 <= j < k :: 'a' <= Name(i, k)[j] <= 'z'
    decreases k
  {
    if k == 0 {
    } else {
      NameLetters(i / 26, k - 1);
    }
  }

  lemma {:induction false} NameInjective(i: nat, j: nat, k: nat)
    requires i < Names(k) && j < Names(k) && Name(i, k) == Name(j, k)
    ensures i == j
    decreases k
  {
    if k == 0 {
    } else {
      var a, b := Name(i / 26, k - 1), Name(j / 26, k - 1);
      NameLetters(i / 26, k - 1);
      NameLetters(j / 26, k - 1);
      assert a == Name(i, k)[..k - 1] && b == Name(j, k)[..k - 1];
      assert Name(i, k)[k - 1] == (97 + i % 26) as char && Name(j, k)[k - 1] == (97 + j % 26) as char;
      NameInjective(i / 26, j / 26, k - 1);
    }
  }

  lemma OwnIdentity(i: nat, j: nat, k: nat)
    requires i < Names(k) && j < Names(k) && 1 <= k <= 64 && Who(Name(i, k)) == Who(Name(j, k))
    ensures i == j
  {
    NameTaken(i, k);
    NameTaken(j, k);
    NameInjective(i, j, k);
  }

  /** Such a name is neither trimmed nor cut. */
  lemma NameTaken(i: nat, k: nat)
    requires 1 <= k <= 64
    ensures Who(Name(i, k)) == Identity(ADDRESS, Some(Name(i, k)))
  {
    OneAddress();
    NameLetters(i, k);
    var s := Name(i, k);
    assert SpaceAt(s) == 0 && SpaceBefore(s) == 0;
  }

  /** Names that stand for identities of their own. */
  ghost predicate Distinct(names: seq<string>) { forall i, j | 0 <= i < j < |names| :: Who(names[i]) != Who(names[j]) }

  /** Of 26 letters, up to 64 in a name. */
  lemma DistinctNames(k: nat) returns (names: seq<string>)
    requires 1 <= k <= 64
    ensures Distinct(names) && |names| == Names(k)
  {
    names := seq(Names(k), i requires 0 <= i < Names(k) => Name(i, k));
    forall i, j | 0 <= i < j < |names| ensures Who(names[i]) != Who(names[j]) {
      if Who(names[i]) == Who(names[j]) { OwnIdentity(i, j, k); }
    }
  }

  /** The address has the given tokens, and its identities from the i-th on have full buckets. */
  ghost predicate Spare(cfg: Config, st: Limiter, i: nat, names: seq<string>, t: real, all: real)
    decreases |names| - i
  {
    if i >= |names| then GoodLimiter(cfg, st, t) && Shared(cfg, st, ADDRESS, t) == all
    else Own(cfg, st, Who(names[i]), t) == cfg.identity.capacity && Spare(cfg, st, i + 1, names, t, all)
  }

  lemma {:induction false} SpareMeans(cfg: Config, st: Limiter, i: nat, names: seq<string>, t: real, all: real)
    requires Spare(cfg, st, i, names, t, all)
    ensures GoodLimiter(cfg, st, t) && Shared(cfg, st, ADDRESS, t) == all
    decreases |names| - i
  {
    if i < |names| { SpareMeans(cfg, st, i + 1, names, t, all); }
  }

  lemma FullLater(cfg: Config, st: Limiter, who: Identity, now: real, t: real, d: Wait)
    requires ValidConfig(cfg) && GoodLimiter(cfg, st, now) && ValidWait(cfg, d) && t == now + d.time
    requires Own(cfg, st, who, now) == cfg.identity.capacity
    ensures Own(cfg, st, who, t) == cfg.identity.capacity
  {
    Product(d.time, cfg.identity.refill);
    Later(cfg, st, who, now, t, d.time);
  }

  lemma SharedLater(cfg: Config, st: Limiter, now: real, t: real, d: Wait)
    requires ValidConfig(cfg) && GoodLimiter(cfg, st, now) && ValidWait(cfg, d) && t == now + d.time
    ensures GoodLimiter(cfg, st, t) &&
            Shared(cfg, st, ADDRESS, t) == Refill(cfg.ceiling, Shared(cfg, st, ADDRESS, now), d)
  {
    Later(cfg, st, Who(""), now, t, d.time);
  }

  lemma {:induction false} SpareLater(cfg: Config, st: Limiter, i: nat, names: seq<string>, now: real, t: real,
        d: Wait, all: real)
    requires ValidConfig(cfg) && Spare(cfg, st, i, names, now, all) && ValidWait(cfg, d) && t == now + d.time
    ensures Spare(cfg, st, i, names, t, Refill(cfg.ceiling, all, d))
    decreases |names| - i
  {
    SpareMeans(cfg, st, i, names, now, all);
    if i < |names| {
      FullLater(cfg, st, Who(names[i]), now, t, d);
      SpareLater(cfg, st, i + 1, names, now, t, d, all);
    } else {
      SharedLater(cfg, st, now, t, d);
    }
  }

  lemma {:induction false} SpareKept(cfg: Config, st: Limiter, next: Limiter, i: nat, j: nat, names: seq<string>,
        t: real, all: real)
    requires ValidConfig(cfg) && cfg.identity.capacity >= 1.0 && i < j && i < |names| && Distinct(names)
    requires Own(cfg, st, Who(names[i]), t) == cfg.identity.capacity && Spare(cfg, st, j, names, t, all) &&
             next == Step(cfg, st, Ask(names[i], t)).0
    ensures Spare(cfg, next, j, names, t, Taken(all))
    decreases |names| - j
  {
    SpareMeans(cfg, st, j, names, t, all);
    if j < |names| {
      assert Who(names[i]) != Who(names[j]);
      AskTakes(cfg, st, names[i], t, Who(names[j]));
      SpareKept(cfg, st, next, i, j + 1, names, t, all);
    } else {
      AskTakes(cfg, st, names[i], t, Who(names[i]));
    }
  }

  lemma SpareAsked(cfg: Config, st: Limiter, i: nat, names: seq<string>, t: real, all: real) returns (next: Limiter)
    requires ValidConfig(cfg) && cfg.identity.capacity >= 1.0 && Spare(cfg, st, i, names, t, all) && i < |names| &&
             Distinct(names)
    ensures Step(cfg, st, Ask(names[i], t)) == (next, Some(all >= 1.0))
    ensures Spare(cfg, next, i + 1, names, t, Taken(all))
  {
    SpareMeans(cfg, st, i, names, t, all);
    next := Step(cfg, st, Ask(names[i], t)).0;
    AskTakes(cfg, st, names[i], t, Who(names[i]));
    SpareKept(cfg, st, next, i, i + 1, names, t, all);
  }

  function Refill(l: Level, tokens: real, d: Wait): real { Min(tokens + d.all, l.capacity) }

  function Taken(tokens: real): real { if tokens >= 1.0 then tokens - 1.0 else tokens }

  /** The answers to requests after the given delays, each of another identity, and the tokens they leave. */
  function PlayAll(l: Level, tokens: real, ds: seq<Wait>): seq<bool>
    decreases |ds|
  {
    if ds == [] then [] else [Refill(l, tokens, ds[0]) >= 1.0] + PlayAll(l, Taken(Refill(l, tokens, ds[0])), ds[1..])
  }

  function LeftAll(l: Level, tokens: real, ds: seq<Wait>): real
    decreases |ds|
  {
    if ds == [] then tokens else LeftAll(l, Taken(Refill(l, tokens, ds[0])), ds[1..])
  }

  lemma SpareStep(cfg: Config, st: Limiter, i: nat, names: seq<string>, now: real, at: real, d: Wait, all: real,
        later: real)
    returns (next: Limiter)
    requires ValidConfig(cfg) && cfg.identity.capacity >= 1.0 && Spare(cfg, st, i, names, now, all) && i < |names| &&
             Distinct(names)
    requires ValidWait(cfg, d) && at == now + d.time && later == Refill(cfg.ceiling, all, d)
    ensures Step(cfg, st, Ask(names[i], at)) == (next, Some(later >= 1.0)) &&
            Spare(cfg, next, i + 1, names, at, Taken(later))
  {
    SpareLater(cfg, st, i, names, now, at, d, all);
    next := SpareAsked(cfg, st, i, names, at, later);
  }

  /** A request of the next identity to both limiters: it tells them apart, or they are told apart later. */
  lemma SparePair(cfg: Config, a: Limiter, b: Limiter, i: nat, names: seq<string>, now: real, at: real, d: Wait,
        x: real, x': real, y: real, y': real)
    returns (a': Limiter, b': Limiter)
    requires ValidConfig(cfg) && cfg.identity.capacity >= 1.0 && i < |names| && Distinct(names) && ValidWait(cfg, d) &&
             at == now + d.time
    requires Spare(cfg, a, i, names, now, x) && x' == Refill(cfg.ceiling, x, d)
    requires Spare(cfg, b, i, names, now, y) && y' == Refill(cfg.ceiling, y, d)
    ensures Spare(cfg, a', i + 1, names, at, Taken(x')) && Spare(cfg, b', i + 1, names, at, Taken(y'))
    ensures (x' >= 1.0) != (y' >= 1.0) || CanTell(cfg, a', b', at) ==> CanTell(cfg, a, b, now)
  {
    a' := SpareStep(cfg, a, i, names, now, at, d, x, x');
    b' := SpareStep(cfg, b, i, names, now, at, d, y, y');
    if (x' >= 1.0) != (y' >= 1.0) || CanTell(cfg, a', b', at) {
      TellAfterAsking(cfg, a, b, names[i], now, at, a', b', x' >= 1.0, y' >= 1.0);
    }
  }

  lemma SomeTurnDiffers(l: Level, x: real, y: real, ds: seq<Wait>)
    requires PlayAll(l, x, ds) != PlayAll(l, y, ds)
    ensures ds != []
    ensures var x', y' := Refill(l, x, ds[0]), Refill(l, y, ds[0]);
      (x' >= 1.0) != (y' >= 1.0) || PlayAll(l, Taken(x'), ds[1..]) != PlayAll(l, Taken(y'), ds[1..])
  {
  }

  /** Limiters whose tokens for the address are told apart are told apart. */
  lemma {:induction false} TellMany(cfg: Config, a: Limiter, b: Limiter, i: nat, names: seq<string>, t: real,
        ds: seq<Wait>, x: real, y: real)
    requires ValidConfig(cfg) && cfg.identity.capacity >= 1.0 && Spare(cfg, a, i, names, t, x) &&
             Spare(cfg, b, i, names, t, y)
    requires Delays(cfg, ds) && i + |ds| <= |names| && Distinct(names) &&
             PlayAll(cfg.ceiling, x, ds) != PlayAll(cfg.ceiling, y, ds)
    ensures CanTell(cfg, a, b, t)
    decreases |ds|
  {
    SomeTurnDiffers(cfg.ceiling, x, y, ds);
    var at, x', y' := t + ds[0].time, Refill(cfg.ceiling, x, ds[0]), Refill(cfg.ceiling, y, ds[0]);
    var a', b' := SparePair(cfg, a, b, i, names, t, at, ds[0], x, x', y, y');
    if (x' >= 1.0) == (y' >= 1.0) { TellMany(cfg, a', b', i + 1, names, at, ds[1..], Taken(x'), Taken(y')); }
  }

  // ---------------------------------------------------------------- an address's bucket that does not refill

  lemma RefillNow(l: Level, tokens: real)
    requires tokens <= l.capacity
    ensures Refill(l, tokens, NOW) == tokens
  {
  }

  lemma AllFirst(l: Level, tokens: real, d: Wait, ds: seq<Wait>)
    ensures LeftAll(l, tokens, [d] + ds) == LeftAll(l, Taken(Refill(l, tokens, d)), ds)
    ensures PlayAll(l, tokens, [d] + ds) == [Refill(l, tokens, d) >= 1.0] + PlayAll(l, Taken(Refill(l, tokens, d)), ds)
  {
    assert ([d] + ds)[1..] == ds;
  }

  /** Requests that use up the tokens, down to none if they refill at all. */
  lemma {:induction false} SpendAll(cfg: Config, tokens: real) returns (ds: seq<Wait>)
    requires ValidConfig(cfg) && cfg.ceiling.capacity >= 1.0 && 0.0 <= tokens <= cfg.ceiling.capacity
    ensures Delays(cfg, ds) && |ds| <= tokens.Floor + 1
    ensures 0.0 <= LeftAll(cfg.ceiling, tokens, ds) < 1.0 &&
            (cfg.ceiling.refill > 0.0 ==> LeftAll(cfg.ceiling, tokens, ds) == 0.0)
    decreases tokens.Floor
  {
    var l := cfg.ceiling;
    if tokens >= 1.0 {
      RefillNow(l, tokens);
      var more := SpendAll(cfg, tokens - 1.0);
      AllFirst(l, tokens, NOW, more);
      DelaysFirst(cfg, NOW, more);
      ds := [NOW] + more;
    } else if l.refill > 0.0 {
      var d := WaitForOne(l, tokens, 0.0);
      AllFirst(l, tokens, WaitOf(cfg, d), []);
      DelaysFirst(cfg, WaitOf(cfg, d), []);
      ds := [WaitOf(cfg, d)] + [];
    } else {
      ds := [];
    }
  }

  /** Two fills told apart by the first answer or by the later ones. */
  lemma TellAllFirst(cfg: Config, x: real, y: real, d: Wait, more: seq<Wait>)
    requires ValidWait(cfg, d) && Delays(cfg, more)
    requires var l := cfg.ceiling; var (x', y') := (Refill(l, x, d), Refill(l, y, d));
      (x' >= 1.0) != (y' >= 1.0) || PlayAll(l, Taken(x'), more) != PlayAll(l, Taken(y'), more)
    ensures Delays(cfg, [d] + more) && PlayAll(cfg.ceiling, x, [d] + more) != PlayAll(cfg.ceiling, y, [d] + more)
  {
    var l := cfg.ceiling;
    DelaysFirst(cfg, d, more);
    AllFirst(l, x, d, more);
    AllFirst(l, y, d, more);
    AnswersDiffer(Refill(l, x, d) >= 1.0, PlayAll(l, Taken(Refill(l, x, d)), more),
                  Refill(l, y, d) >= 1.0, PlayAll(l, Taken(Refill(l, y, d)), more));
  }

  /** Requests that tell a fuller bucket from an emptier one. */
  lemma {:induction false} TellAll(cfg: Config, x: real, y: real) returns (ds: seq<Wait>)
    requires ValidConfig(cfg) && cfg.ceiling.capacity >= 1.0 && 0.0 <= y < x <= cfg.ceiling.capacity
    requires cfg.ceiling.refill > 0.0 || y < 1.0 <= x
    ensures Delays(cfg, ds) && |ds| <= y.Floor + 1 && PlayAll(cfg.ceiling, x, ds) != PlayAll(cfg.ceiling, y, ds)
    decreases y.Floor
  {
    var l, d, more := cfg.ceiling, NOW, [];
    RefillNow(l, x);
    RefillNow(l, y);
    if y >= 1.0 {
      more := TellAll(cfg, x - 1.0, y - 1.0);
    } else if x < 1.0 {
      var time := WaitForOne(l, x, 0.0);
      d := WaitOf(cfg, time);
    }
    TellAllFirst(cfg, x, y, d, more);
    ds := [d] + more;
  }

  /** After 60 idle seconds a prune gives the address a full bucket, and every identity. */
  lemma {:induction false} SparePruned(cfg: Config, st: Limiter, i: nat, names: seq<string>, now: real, t: real)
    requires ValidConfig(cfg) && GoodLimiter(cfg, st, now) && t == now + IDLE_SECONDS
    ensures Spare(cfg, Pruned(st, t), i, names, t, cfg.ceiling.capacity)
    decreases |names| - i
  {
    if i < |names| {
      PrunedFull(cfg.identity, st.identities, Who(names[i]), now, t);
      SparePruned(cfg, st, i + 1, names, now, t);
    } else {
      PrunedFull(cfg.identity, st.identities, Who(""), now, t);
      PrunedFull(cfg.ceiling, st.ceilings, ADDRESS, now, t);
    }
  }

  lemma {:induction false} SpareAtFirst(cfg: Config, i: nat, names: seq<string>)
    requires ValidConfig(cfg)
    ensures Spare(cfg, EMPTY, i, names, 0.0, cfg.ceiling.capacity)
    decreases |names| - i
  {
    if i < |names| { SpareAtFirst(cfg, i + 1, names); }
  }

  /** The address's bucket shows a prune, if it has identities enough. */
  lemma CeilingShows(cfg: Config, names: seq<string>)
    requires ValidConfig(cfg) && cfg.identity.capacity >= 1.0 && cfg.ceiling.capacity >= 1.0
    requires cfg.ceiling.refill * IDLE_SECONDS < cfg.ceiling.capacity
    requires Distinct(names) && 2.0 * cfg.ceiling.capacity + 2.0 <= |names| as real
    ensures PruneShows(cfg)
  {
    var full := cfg.ceiling.capacity;
    var ds := SpendAll(cfg, full);
    SpareAtFirst(cfg, 0, names);
    SpendingCeilingShows(cfg, EMPTY, 0, names, 0.0, ds, full, LeftAll(cfg.ceiling, full, ds));
  }

  lemma {:induction false} SpendingCeilingShows(cfg: Config, st: Limiter, i: nat, names: seq<string>, now: real,
        ds: seq<Wait>, tokens: real, left: real)
    requires ValidConfig(cfg) && cfg.identity.capacity >= 1.0 && cfg.ceiling.capacity >= 1.0 &&
             Spare(cfg, st, i, names, now, tokens)
    requires cfg.ceiling.refill * IDLE_SECONDS < cfg.ceiling.capacity && Delays(cfg, ds)
    requires left == LeftAll(cfg.ceiling, tokens, ds) && 0.0 <= left < 1.0 && (cfg.ceiling.refill > 0.0 ==> left == 0.0)
    requires Distinct(names) && i + |ds| <= cfg.ceiling.capacity.Floor + 1 &&
             2 * cfg.ceiling.capacity.Floor + 2 <= |names|
    ensures Shows(cfg, st, now)
    decreases |ds|
  {
    if ds == [] {
      SpentCeilingShows(cfg, st, i, names, now, tokens);
    } else {
      var at, later := now + ds[0].time, Refill(cfg.ceiling, tokens, ds[0]);
      var next := SpareShows(cfg, st, i, names, now, at, ds[0], tokens, later);
      SpendingCeilingShows(cfg, next, i + 1, names, at, ds[1..], Taken(later), left);
    }
  }

  lemma SpareShows(cfg: Config, st: Limiter, i: nat, names: seq<string>, now: real, at: real, d: Wait, all: real,
        later: real)
    returns (next: Limiter)
    requires ValidConfig(cfg) && cfg.identity.capacity >= 1.0 && Spare(cfg, st, i, names, now, all) && i < |names| &&
             Distinct(names)
    requires ValidWait(cfg, d) && at == now + d.time && later == Refill(cfg.ceiling, all, d)
    ensures Spare(cfg, next, i + 1, names, at, Taken(later)) && (Shows(cfg, next, at) ==> Shows(cfg, st, now))
  {
    next := SpareStep(cfg, st, i, names, now, at, d, all, later);
    if Shows(cfg, next, at) { ShowsAfterAsking(cfg, st, names[i], now, at, next, later >= 1.0); }
  }

  lemma SpentCeilingShows(cfg: Config, st: Limiter, i: nat, names: seq<string>, now: real, left: real)
    requires ValidConfig(cfg) && cfg.identity.capacity >= 1.0 && cfg.ceiling.capacity >= 1.0 &&
             Spare(cfg, st, i, names, now, left)
    requires cfg.ceiling.refill * IDLE_SECONDS < cfg.ceiling.capacity && 0.0 <= left < 1.0 &&
             (cfg.ceiling.refill > 0.0 ==> left == 0.0)
    requires Distinct(names) && i <= cfg.ceiling.capacity.Floor + 1 && 2 * cfg.ceiling.capacity.Floor + 2 <= |names|
    ensures Shows(cfg, st, now)
  {
    var x, y := cfg.ceiling.capacity, Min(left + IDLE_SECONDS * cfg.ceiling.refill, cfg.ceiling.capacity);
    Product(IDLE_SECONDS, cfg.ceiling.refill);
    var ds := TellAll(cfg, x, y);
    var t := now + IDLE_SECONDS;
    SpareMeans(cfg, st, i, names, now, left);
    SparePruned(cfg, st, i, names, now, t);
    SpareLater(cfg, st, i, names, now, t, WaitOf(cfg, IDLE_SECONDS), left);
    TellMany(cfg, Pruned(st, t), st, i, names, t, ds, x, y);
    ShowsByPrune(cfg, st, now, t);
  }

  // ---------------------------------------------------------------- exactly when

  /** Answers of a limiter that never has a token: only exempt addresses pass. */
  function Refusals(es: seq<Event>): seq<bool>
    requires ValidEvents(es)
  {
    if es == [] then [] else (if es[0].Request? then [IsExempt(es[0].ip)] else []) + Refusals(es[1..])
  }

  lemma {:induction false} NeverGranted(cfg: Config, st: Limiter, now: real, es: seq<Event>)
    requires ValidConfig(cfg) && (cfg.identity.capacity < 1.0 || cfg.ceiling.capacity < 1.0)
    requires GoodLimiter(cfg, st, now) && ValidEvents(es) && Timely(es, now)
    ensures Answers(Run(cfg, st, es).1) == Refusals(es)
    decreases |es|
  {
    if es == [] {
    } else {
      var e, rest := es[0], es[1..];
      assert e in es && forall x <- rest :: x in es;
      assert es == [e] + rest;
      GoodLater(cfg, st, now, e.at);
      if e.Request? && !IsExempt(e.ip) { AskRefused(cfg, st, e); }
      NeverGranted(cfg, Step(cfg, st, e).0, e.at, rest);
      RunFirst(cfg, st, e, rest);
    }
  }

  lemma AskRefused(cfg: Config, st: Limiter, e: Event)
    requires ValidConfig(cfg) && (cfg.identity.capacity < 1.0 || cfg.ceiling.capacity < 1.0)
    requires e.Request? && ValidIp(e.ip) && !IsExempt(e.ip) && GoodLimiter(cfg, st, e.at)
    ensures Step(cfg, st, e).1 == Some(false) && GoodLimiter(cfg, Step(cfg, st, e).0, e.at)
  {
    var who := IdentityOf(e.ip, e.device);
    TakeAvailable(cfg.identity, st.identities, who, who, e.at);
    TakeAvailable(cfg.ceiling, st.ceilings, who.ip, who.ip, e.at);
    AvailableLater(cfg.identity, st.identities, who, e.at, e.at);
    AvailableLater(cfg.ceiling, st.ceilings, who.ip, e.at, e.at);
  }

  lemma {:induction false} RefusalsWithoutPrunes(es: seq<Event>)
    requires ValidEvents(es)
    ensures Refusals(WithoutPrunes(es)) == Refusals(es)
  {
    if es == [] {
    } else {
      assert es[0] in es && forall x <- es[1..] :: x in es;
      RefusalsWithoutPrunes(es[1..]);
      var rest := WithoutPrunes(es[1..]);
      assert ([es[0]] + rest)[1..] == rest && [] + rest == rest;
    }
  }

  lemma {:induction false} StillTimely(es: seq<Event>, now: real)
    requires Timely(es, now)
    ensures Timely(WithoutPrunes(es), now)
    decreases |es|
  {
    if es == [] {
    } else {
      StillTimely(es[1..], es[0].at);
      var rest := WithoutPrunes(es[1..]);
      assert ([es[0]] + rest)[1..] == rest && [] + rest == rest;
    }
  }

  /** A prune can be noticed if and only if both levels hold a token and a bucket of one of them is not full
    * again after 60 idle seconds. For the address's level it takes as many identities of one address as the
    * level holds tokens, twice: names of at most 64 letters suffice up to 26 to the power of 64. */
  lemma PruneShowsExactly(cfg: Config, k: nat)
    requires ValidConfig(cfg) && 1 <= k <= 64 && 2.0 * cfg.ceiling.capacity + 2.0 <= Names(k) as real
    ensures PruneShows(cfg) <==> cfg.identity.capacity >= 1.0 && cfg.ceiling.capacity >= 1.0 && !Covers(cfg)
  {
    if cfg.identity.capacity < 1.0 || cfg.ceiling.capacity < 1.0 {
      forall now, es ensures !Showing(cfg, EMPTY, es, now) {
        if ValidEvents(es) && Timely(es, now) {
          NeverGranted(cfg, EMPTY, now, es);
          StillTimely(es, now);
          NeverGranted(cfg, EMPTY, now, WithoutPrunes(es));
          RefusalsWithoutPrunes(es);
        }
      }
    } else if Covers(cfg) {
      forall now, es ensures !Showing(cfg, EMPTY, es, now) {
        if ValidEvents(es) && Timely(es, now) { PruneInvisible(cfg, now, es); }
      }
    } else if cfg.ceiling.refill * IDLE_SECONDS < cfg.ceiling.capacity {
      var names := DistinctNames(k);
      CeilingShows(cfg, names);
    } else {
      IdentityShows(cfg, "");
    }
  }
}
