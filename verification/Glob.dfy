/** `wildcard_match` (src/state.rs): an iterative glob matcher that backtracks to the last star only.
  * Patterns and texts are strings of bytes. */
module Glob {
  import opened Wrappers

  /** What a glob means: `*` stands for any run of bytes, `?` for one byte. */
  predicate Matches(p: string, t: string)
    decreases |p| + |t|
  {
    if p == "" then t == ""
    else if p[0] == '*' then Matches(p[1..], t) || (t != "" && Matches(p, t[1..]))
    else t != "" && (p[0] == '?' || p[0] == t[0]) && Matches(p[1..], t[1..])
  }

  predicate OnlyStars(p: string) { forall i | 0 <= i < |p| :: p[i] == '*' }

  /** The loop as a function of its four variables. */
  function Scan(p: string, t: string, pi: nat, ti: nat, star: Option<nat>, mi: nat): bool
    requires LoopBounds(p, t, pi, ti, star, mi)
    decreases |t| - mi, |p| - pi
  {
    if ti == |t| then OnlyStars(p[pi..])
    else if pi < |p| && (p[pi] == '?' || p[pi] == t[ti]) then Scan(p, t, pi + 1, ti + 1, star, mi)
    else if pi < |p| && p[pi] == '*' then Scan(p, t, pi + 1, ti, Some(pi), ti)
    else if star.Some? then Scan(p, t, star.value + 1, mi + 1, star, mi + 1)
    else false
  }

  predicate LoopBounds(p: string, t: string, pi: nat, ti: nat, star: Option<nat>, mi: nat) {
    pi <= |p| && mi <= ti <= |t| && (star.Some? ==> star.value < pi && p[star.value] == '*')
  }

  method WildcardMatch(p: string, t: string) returns (r: bool)
    ensures r == Scan(p, t, 0, 0, None, 0)
  {
    var pi: nat, ti: nat, star: Option<nat>, mi: nat := 0, 0, None, 0;
    while ti < |t|
      invariant LoopBounds(p, t, pi, ti, star, mi)
      invariant Scan(p, t, pi, ti, star, mi) == Scan(p, t, 0, 0, None, 0)
      decreases |t| - mi, |p| - pi
    {
      if pi < |p| && (p[pi] == '?' || p[pi] == t[ti]) {
        pi, ti := pi + 1, ti + 1;
      } else if pi < |p| && p[pi] == '*' {
        star, mi, pi := Some(pi), ti, pi + 1;
      } else if star.Some? {
        pi, mi := star.value + 1, mi + 1;
        ti := mi;
      } else {
        return false;
      }
    }
    ghost var start := pi;
    while pi < |p| && p[pi] == '*'
      invariant start <= pi <= |p|
      invariant forall i | start <= i < pi :: p[i] == '*'
    {
      pi := pi + 1;
    }
    return pi == |p|;
  }

  // ---------------------------------------------------------------- facts about globs

  lemma {:induction false} MatchesEmpty(p: string)
    ensures Matches(p, "") <==> OnlyStars(p)
  {
    if p == "" {
    } else {
      MatchesEmpty(p[1..]);
    }
  }

  /** A star absorbs any prefix. */
  lemma {:induction false} StarAbsorbs(p: string, t: string, k: nat)
    requires k <= |t| && p != "" && p[0] == '*' && Matches(p, t[k..])
    ensures Matches(p, t)
    decreases k
  {
    if k == 0 {
    } else {
      StarAbsorbs(p, t[1..], k - 1);
      assert t[1..][k - 1..] == t[k..];
    }
  }

  /** `w` matches the beginning of `t` byte for byte, with no star involved. */
  predicate Aligned(w: string, t: string) {
    |w| <= |t| && forall i | 0 <= i < |w| :: w[i] != '*' && (w[i] == '?' || w[i] == t[i])
  }

  lemma {:induction false} AlignedPrefix(w: string, rest: string, t: string)
    requires Aligned(w, t)
    ensures Matches(w + rest, t) <==> Matches(rest, t[|w|..])
  {
    if w == "" {
      assert w + rest == rest;
    } else {
      AlignedPrefix(w[1..], rest, t[1..]);
      assert (w + rest)[1..] == w[1..] + rest;
      assert t[1..][|w[1..]|..] == t[|w|..];
    }
  }

  /** A pattern that starts star-free can only match if those bytes align. */
  lemma {:induction false} StarFreePrefix(w: string, rest: string, t: string)
    requires '*' !in w && Matches(w + rest, t)
    ensures Aligned(w, t)
  {
    if w == "" {
    } else {
      assert (w + rest)[1..] == w[1..] + rest;
      StarFreePrefix(w[1..], rest, t[1..]);
    }
  }

  /** Once the first bytes after a star have aligned and a new star is met, the older star is not
    * needed again: whatever a later alignment would match, the new star absorbs. */
  lemma {:induction false} NewStarSupersedes(w: string, rest: string, t: string)
    requires Aligned(w, t) && rest != "" && rest[0] == '*'
    ensures Matches("*" + w + rest, t) <==> Matches(rest, t[|w|..])
  {
    assert ("*" + w + rest)[1..] == w + rest;
    AlignedPrefix(w, rest, t);
    if Matches("*" + w + rest, t) {
      assert "*" + (w + rest) == "*" + w + rest;
      var k := StarSplit(w + rest, t);
      StarFreePrefix(w, rest, t[k..]);
      AlignedPrefix(w, rest, t[k..]);
      assert t[k..][|w|..] == t[|w|..][k..];
      StarAbsorbs(rest, t[|w|..], k);
    }
  }

  /** A leading star takes some number of bytes. */
  lemma {:induction false} StarSplit(q: string, t: string) returns (k: nat)
    requires Matches("*" + q, t)
    ensures k <= |t| && Matches(q, t[k..])
    decreases |t|
  {
    assert ("*" + q)[1..] == q;
    if Matches(q, t) {
      k := 0;
    } else {
      k := StarSplit(q, t[1..]);
      k := k + 1;
      assert t[1..][k - 1..] == t[k..];
    }
  }

  // ---------------------------------------------------------------- the loop against the meaning

  /** Between the last star and the cursor the pattern has aligned with the text after `mi`. */
  ghost predicate SinceStar(p: string, t: string, pi: nat, ti: nat, star: Option<nat>, mi: nat)
  {
    && LoopBounds(p, t, pi, ti, star, mi)
    && (star.Some? ==> ti - mi == pi - star.value - 1 && Aligned(p[star.value + 1..pi], t[mi..]))
  }

  /** What the loop decides from a state: the rest from the last star on, or from the cursor. */
  ghost predicate Meaning(p: string, t: string, pi: nat, ti: nat, star: Option<nat>, mi: nat)
    requires LoopBounds(p, t, pi, ti, star, mi)
  {
    if star.Some? then Matches(p[star.value..], t[mi..]) else Matches(p[pi..], t[ti..])
  }

  /** With a star behind, the meaning is an alignment that works out now or one further right. */
  lemma BacktrackMeaning(p: string, t: string, pi: nat, ti: nat, st: nat, mi: nat)
    requires SinceStar(p, t, pi, ti, Some(st), mi)
    ensures Meaning(p, t, pi, ti, Some(st), mi) <==>
            Matches(p[pi..], t[ti..]) || (mi < |t| && Matches(p[st..], t[mi + 1..]))
  {
    var w, rest := p[st + 1..pi], p[pi..];
    assert p[st..][1..] == w + rest;
    AlignedPrefix(w, rest, t[mi..]);
    assert t[mi..][|w|..] == t[ti..];
    assert mi < |t| ==> t[mi..][1..] == t[mi + 1..];
  }

  /** A byte that agrees lengthens the alignment and leaves the meaning alone. */
  lemma OneMoreAligned(p: string, t: string, pi: nat, ti: nat, star: Option<nat>, mi: nat)
    requires '*' !in t && SinceStar(p, t, pi, ti, star, mi) && ti < |t| && pi < |p| && (p[pi] == '?' || p[pi] == t[ti])
    ensures SinceStar(p, t, pi + 1, ti + 1, star, mi)
    ensures Meaning(p, t, pi + 1, ti + 1, star, mi) <==> Meaning(p, t, pi, ti, star, mi)
  {
    assert t[ti] in t;
    assert p[pi..][1..] == p[pi + 1..] && t[ti..][1..] == t[ti + 1..];
    if star.Some? {
      var w, w' := p[star.value + 1..pi], p[star.value + 1..pi + 1];
      assert w' == w + [p[pi]] && t[mi..][|w|] == t[ti];
    }
  }

  /** A new star takes the place of the old one. */
  lemma StarReplaces(p: string, t: string, pi: nat, ti: nat, star: Option<nat>, mi: nat)
    requires SinceStar(p, t, pi, ti, star, mi) && ti < |t| && pi < |p| && p[pi] == '*'
    ensures SinceStar(p, t, pi + 1, ti, Some(pi), ti)
    ensures Meaning(p, t, pi + 1, ti, Some(pi), ti) <==> Meaning(p, t, pi, ti, star, mi)
  {
    if star.Some? {
      var w := p[star.value + 1..pi];
      NewStarSupersedes(w, p[pi..], t[mi..]);
      assert p[star.value..] == "*" + w + p[pi..];
      assert t[mi..][|w|..] == t[ti..];
    }
  }

  lemma {:induction false} ScanIsMeaning(p: string, t: string, pi: nat, ti: nat, star: Option<nat>, mi: nat)
    requires '*' !in t && SinceStar(p, t, pi, ti, star, mi)
    ensures Scan(p, t, pi, ti, star, mi) <==> Meaning(p, t, pi, ti, star, mi)
    decreases |t| - mi, |p| - pi
  {
    if star.Some? { BacktrackMeaning(p, t, pi, ti, star.value, mi); }
    if ti == |t| {
      MatchesEmpty(p[pi..]);
      if star.Some? && mi < |t| { TooShort(p, t, pi, ti, star.value, mi); }
    } else if pi < |p| && (p[pi] == '?' || p[pi] == t[ti]) {
      OneMoreAligned(p, t, pi, ti, star, mi);
      ScanIsMeaning(p, t, pi + 1, ti + 1, star, mi);
    } else if pi < |p| && p[pi] == '*' {
      StarReplaces(p, t, pi, ti, star, mi);
      ScanIsMeaning(p, t, pi + 1, ti, Some(pi), ti);
    } else if star.Some? {
      ScanIsMeaning(p, t, star.value + 1, mi + 1, star, mi + 1);
    }
  }

  /** When the text ends while the pattern still aligns, moving the alignment right cannot help. */
  lemma TooShort(p: string, t: string, pi: nat, ti: nat, st: nat, mi: nat)
    requires SinceStar(p, t, pi, ti, Some(st), mi) && ti == |t| && mi < |t|
    ensures !Matches(p[st..], t[mi + 1..])
  {
    var w, rest := p[st + 1..pi], p[pi..];
    assert p[st..] == "*" + (w + rest);
    if Matches(p[st..], t[mi + 1..]) {
      var k := StarSplit(w + rest, t[mi + 1..]);
      StarFreePrefix(w, rest, t[mi + 1..][k..]);
    }
  }

  /** On a text without `*` the matcher decides exactly the glob, whatever the pattern. */
  lemma MatcherIsGlob(p: string, t: string)
    requires '*' !in t
    ensures Scan(p, t, 0, 0, None, 0) <==> Matches(p, t)
  {
    ScanIsMeaning(p, t, 0, 0, None, 0);
    assert p[0..] == p && t[0..] == t;
  }

  /** On any text at all, a match reported is a match. */
  lemma MatcherIsSound(p: string, t: string)
    requires Scan(p, t, 0, 0, None, 0)
    ensures Matches(p, t)
  {
    ScanSound(p, t, 0, 0, None, 0);
    assert p[0..] == p && t[0..] == t;
  }

  lemma {:induction false} ScanSound(p: string, t: string, pi: nat, ti: nat, star: Option<nat>, mi: nat)
    requires LoopBounds(p, t, pi, ti, star, mi) && Scan(p, t, pi, ti, star, mi)
    ensures Matches(p[pi..], t[ti..]) || (star.Some? && mi < |t| && Matches(p[star.value..], t[mi + 1..]))
    decreases |t| - mi, |p| - pi
  {
    if ti == |t| {
      MatchesEmpty(p[pi..]);
    } else if pi < |p| && (p[pi] == '?' || p[pi] == t[ti]) {
      assert p[pi..][1..] == p[pi + 1..] && t[ti..][1..] == t[ti + 1..];
      ScanSound(p, t, pi + 1, ti + 1, star, mi);
      if p[pi] == '*' && Matches(p[pi + 1..], t[ti + 1..]) { StarTakesOne(p[pi..], t[ti..]); }
    } else if pi < |p| && p[pi] == '*' {
      assert p[pi..][1..] == p[pi + 1..] && t[ti..][1..] == t[ti + 1..];
      ScanSound(p, t, pi + 1, ti, Some(pi), ti);
    } else {
      var st := star.value;
      ScanSound(p, t, st + 1, mi + 1, star, mi + 1);
      assert p[st..][1..] == p[st + 1..];
      assert mi + 1 < |t| ==> t[mi + 1..][1..] == t[mi + 2..];
    }
  }

  lemma StarTakesOne(p: string, t: string)
    requires p != "" && p[0] == '*' && t != "" && Matches(p[1..], t[1..])
    ensures Matches(p, t)
  {
  }

  // ---------------------------------------------------------------- exactly when the matcher is complete

  function Repeat(n: nat): string { if n == 0 then "" else "?" + Repeat(n - 1) }

  lemma {:induction false} RepeatMatches(n: nat, t: string)
    requires |t| == n
    ensures Matches(Repeat(n), t) && |Repeat(n)| == n && forall i | 0 <= i < n :: Repeat(n)[i] == '?'
  {
    if n == 0 {
    } else {
      RepeatMatches(n - 1, t[1..]);
    }
  }

  /** A pattern that is a byte too long is rejected when each of its bytes passes for a literal. */
  lemma {:induction false} LiteralRunFails(p: string, t: string, i: nat)
    requires i <= |t| < |p| && p[|t|] != '*'
    requires forall j | i <= j < |t| :: p[j] == '?' || p[j] == t[j]
    ensures !Scan(p, t, i, i, None, 0)
    decreases |t| - i
  {
    if i == |t| { assert p[i..][0] == p[|t|]; } else { LiteralRunFails(p, t, i + 1); }
  }

  /** A text with a `*` has a pattern the matcher gets wrong: `*` in the pattern is then taken for a
    * literal, and the loop has no star to come back to. */
  lemma StarInTextMisleads(t: string) returns (p: string)
    requires '*' in t
    ensures Matches(p, t) && !Scan(p, t, 0, 0, None, 0)
  {
    var k := FirstStar(t);
    var n := |t| - k;
    var q := "*" + Repeat(n);
    RepeatMatches(n, t[k..]);
    assert q[1..] == Repeat(n);
    p := t[..k] + q;
    assert Matches(p, t) by { AlignedPrefix(t[..k], q, t); }
    assert |p| == |t| + 1 && p[k] == '*';
    forall j | k < j <= |t| ensures p[j] == '?' {
      assert p[j] == Repeat(n)[j - k - 1];
    }
    LiteralRunFails(p, t, 0);
  }

  lemma FirstStar(t: string) returns (k: nat)
    requires '*' in t
    ensures k < |t| && t[k] == '*' && '*' !in t[..k]
  {
    k := 0;
    while t[k] != '*'
      invariant k < |t| && '*' in t[k..] && '*' !in t[..k]
      decreases |t| - k
    {
      assert t[k..] == [t[k]] + t[k + 1..];
      k := k + 1;
    }
  }

  /** The matcher agrees with the glob on every pattern exactly for the texts without `*`. */
  lemma CompleteExactlyWithoutStar(t: string)
    ensures (forall p :: Scan(p, t, 0, 0, None, 0) <==> Matches(p, t)) <==> '*' !in t
  {
    if '*' in t {
      var p := StarInTextMisleads(t);
      assert Scan(p, t, 0, 0, None, 0) != Matches(p, t);
    } else {
      forall p ensures Scan(p, t, 0, 0, None, 0) <==> Matches(p, t) { MatcherIsGlob(p, t); }
    }
  }
}
