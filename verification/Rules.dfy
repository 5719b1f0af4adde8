/** Bypass and instant-block rules (src/state.rs): hash-set look-ups of a name and its parents
  * stand in for a scan of every rule. */
module Rules {
  import opened Text
  import opened Wrappers
  import Glob

  function Clean(domain: string): string { Lower(TrimDots(domain)) }

  /** `domain_matches_pattern`: an exact name, an apex rule, a subdomain rule or a glob. */
  predicate DomainMatchesPattern(pattern: string, domain: string)
  {
    var pat := Clean(Trim(pattern));
    var dom := Clean(Trim(domain));
    if pat == dom then true
    else if "*." <= pat then EndsWith(dom, "." + pat[2..])
    else if '*' !in pat then EndsWith(dom, "." + pat)
    else Glob.Scan(pat, dom, 0, 0, None, 0)
  }

  lemma CleanIdempotent(domain: string)
    ensures Clean(Clean(domain)) == Clean(domain)
  {
    TrimDotsResult(domain);
    var clean := Clean(domain);
    assert clean != "" ==> clean[|clean| - 1] == LowerChar(TrimDots(domain)[|clean| - 1]);
    assert TrimDots(clean) == clean;
    assert Lower(clean) == clean;
  }

  // ---------------------------------------------------------------- what a rule means

  /** What a rule means for a name: a subdomain rule covers the names under its apex and not the apex, a plain
    * rule a name and the names under it, any other pattern is a glob. */
  ghost predicate Covers(rule: string, name: string) {
    if "*." <= rule then name == rule || IsParent(rule[2..], name)
    else if '*' !in rule then name == rule || IsParent(rule, name)
    else Glob.Matches(rule, name)
  }

  /** To end in a dot and a text is to have the text as a parent. */
  lemma EndsInParent(name: string, s: string)
    ensures EndsWith(name, "." + s) <==> IsParent(s, name)
  {
    if EndsWith(name, "." + s) {
      var i := |name| - |s| - 1;
      assert name[i..] == "." + s && name[i] == ("." + s)[0] && name[i + 1..] == ("." + s)[1..];
    }
    if i :| 0 <= i < |name| && name[i] == '.' && name[i + 1..] == s { ParentEndsName(name, i); }
  }

  lemma ParentEndsName(clean: string, i: nat)
    requires i < |clean| && clean[i] == '.'
    ensures EndsWith(clean, "." + clean[i + 1..])
  {
    assert "." + clean[i + 1..] == clean[i..];
  }

  /** On every name without `*`, and with every rule that is no glob on any name at all, a rule matches
    * exactly the names it covers. */
  lemma MatchesWhatItCovers(pattern: string, domain: string)
    requires var (rule, name) := (Clean(Trim(pattern)), Clean(Trim(domain))); '*' !in name || "*." <= rule || '*' !in rule
    ensures DomainMatchesPattern(pattern, domain) <==> Covers(Clean(Trim(pattern)), Clean(Trim(domain)))
  {
    var rule, name := Clean(Trim(pattern)), Clean(Trim(domain));
    if "*." <= rule {
      EndsInParent(name, rule[2..]);
    } else if '*' !in rule {
      EndsInParent(name, rule);
    } else {
      Glob.MatcherIsGlob(rule, name);
      assert rule != name;
    }
  }

  /** The linear scan the indexes stand in for. */
  ghost predicate SomeRuleMatches(rules: set<string>, domain: string)
  {
    exists rule <- rules :: DomainMatchesPattern(rule, domain)
  }

  /** Some parent of `clean`, or its subdomain rule when `starred`, is in the set. */
  ghost predicate ParentListed(rules: set<string>, clean: string, starred: bool)
  {
    exists i :: ListedAt(rules, clean, starred, i)
  }

  predicate ListedAt(rules: set<string>, clean: string, starred: bool, i: int)
  {
    0 <= i < |clean| && clean[i] == '.' && (clean[i + 1..] in rules || (starred && "*." + clean[i + 1..] in rules))
  }

  /** The cursor loop over the parents of a name. */
  method FindParent(rules: set<string>, clean: string, starred: bool) returns (r: bool)
    ensures r <==> ParentListed(rules, clean, starred)
  {
    var cursor := 0;
    var dot := FindDot(clean, cursor);
    while dot < |clean|
      invariant cursor <= dot <= |clean|
      invariant dot < |clean| ==> clean[dot] == '.'
      invariant forall i | 0 <= i < dot :: !ListedAt(rules, clean, starred, i)
      decreases |clean| - dot
    {
      cursor := dot + 1;
      if clean[cursor..] in rules || (starred && "*." + clean[cursor..] in rules) {
        assert ListedAt(rules, clean, starred, dot);
        return true;
      }
      dot := FindDot(clean, cursor);
    }
    return false;
  }

  /** `str::find('.')` from a position on; the length when there is none. */
  method FindDot(s: string, from: nat) returns (i: nat)
    requires from <= |s|
    ensures from <= i <= |s| && (forall k | from <= k < i :: s[k] != '.') && (i < |s| ==> s[i] == '.')
  {
    i := from;
    while i < |s| && s[i] != '.'
      invariant from <= i <= |s| && forall k | from <= k < i :: s[k] != '.'
    {
      i := i + 1;
    }
  }

  // ---------------------------------------------------------------- the bypass list

  ghost predicate Bypassed(rules: set<string>, domain: string)
  {
    var clean := Clean(domain);
    || clean in rules || "*." + clean in rules
    || ParentListed(rules, clean, true)
    || SomeRuleMatches(rules, clean)
  }

  /** `is_bypassed` */
  method IsBypassed(rules: set<string>, domain: string) returns (r: bool)
    ensures r <==> Bypassed(rules, domain)
  {
    var clean := Clean(domain);
    if rules == {} { return false; }
    if clean in rules || "*." + clean in rules { return true; }
    var parent := FindParent(rules, clean, true);
    if parent { return true; }
    var rest := rules;
    while rest != {}
      invariant rest <= rules
      invariant forall rule <- rules - rest :: !DomainMatchesPattern(rule, clean)
    {
      var rule :| rule in rest;
      if DomainMatchesPattern(rule, clean) { return true; }
      rest := rest - {rule};
    }
    return false;
  }

  /** A cleaned name without white space. */
  ghost predicate Tidy(clean: string)
  {
    NoSpace(clean) && Lower(clean) == clean && (clean != "" ==> clean[|clean| - 1] != '.')
  }

  lemma CleanIsTidy(domain: string)
    requires NoSpace(Clean(domain))
    ensures Tidy(Clean(domain))
  {
    TrimDotsResult(domain);
    LowerIdempotent(TrimDots(domain));
  }

  /** Cleaning again changes neither a tidy name nor its parents. */
  lemma TidySuffix(clean: string, i: nat)
    requires Tidy(clean) && i <= |clean|
    ensures Clean(Trim(clean[i..])) == clean[i..] && Clean(clean[i..]) == clean[i..]
  {
    var s := clean[i..];
    NoSpaceSuffix(clean, i);
    assert s != "" ==> s[|s| - 1] == clean[|clean| - 1];
    assert Lower(s) == s;
  }

  lemma TidyStarred(clean: string, i: nat)
    requires Tidy(clean) && i < |clean|
    ensures Clean(Trim("*." + clean[i..])) == "*." + clean[i..]
  {
    var s := clean[i..];
    var rule := "*." + s;
    assert SpaceBefore(clean) == 0 by { assert clean[..|clean|] == clean; }
    assert SpaceBefore(rule) == 0 by { NoSpaceBefore(clean, i, rule); }
    assert Lower(rule) == rule;
    assert rule[|rule| - 1] == clean[|clean| - 1];
    assert SpaceAt(rule) == 0 && Trim(rule) == rule;
    assert TrimDots(rule) == rule;
  }

  lemma NoSpaceBefore(clean: string, i: nat, rule: string)
    requires i < |clean| && rule == "*." + clean[i..] && SpaceBefore(clean) == 0
    ensures SpaceBefore(rule) == 0
  {
    var k, n := |rule|, |clean|;
    assert rule[k - 1] == clean[n - 1];
    assert n - i >= 2 ==> rule[k - 2] == clean[n - 2];
    assert n - i >= 3 ==> rule[k - 3] == clean[n - 3];
    assert n - i == 1 ==> rule[k - 2] == '.';
    assert n - i == 2 ==> rule[k - 3] == '.';
  }

  /** A parent listed by name or by subdomain rule matches as a rule. */
  lemma ListedParentMatches(rules: set<string>, clean: string, i: int)
    requires Tidy(clean) && '*' !in clean && ListedAt(rules, clean, true, i)
    ensures SomeRuleMatches(rules, clean)
  {
    var s := clean[i + 1..];
    if s in rules { ParentMatches(clean, i, s); } else { StarredParentMatches(clean, i, s, "*." + s); }
  }

  lemma ParentMatches(clean: string, i: nat, s: string)
    requires Tidy(clean) && '*' !in clean && i < |clean| && clean[i] == '.' && s == clean[i + 1..]
    ensures DomainMatchesPattern(s, clean)
  {
    assert clean[0..] == clean;
    TidySuffix(clean, 0);
    TidySuffix(clean, i + 1);
    ParentEndsName(clean, i);
    assert forall c <- s :: c in clean;
    assert s != "" ==> s[0] in s;
  }

  lemma StarredParentMatches(clean: string, i: nat, s: string, rule: string)
    requires Tidy(clean) && '*' !in clean && i < |clean| && clean[i] == '.' && s == clean[i + 1..] && rule == "*." + s
    ensures DomainMatchesPattern(rule, clean)
  {
    assert clean[0..] == clean;
    TidySuffix(clean, 0);
    TidyStarred(clean, i + 1);
    ParentEndsName(clean, i);
    assert rule[2..] == s;
  }

  /** Some rule covers the name. */
  ghost predicate SomeRuleCovers(rules: set<string>, name: string) {
    exists rule <- rules :: Covers(Clean(Trim(rule)), name)
  }

  lemma MatchIsCover(rules: set<string>, clean: string)
    requires Tidy(clean) && '*' !in clean
    ensures SomeRuleMatches(rules, clean) <==> SomeRuleCovers(rules, clean)
  {
    assert clean[0..] == clean;
    TidySuffix(clean, 0);
    forall rule <- rules ensures DomainMatchesPattern(rule, clean) <==> Covers(Clean(Trim(rule)), clean) {
      MatchesWhatItCovers(rule, clean);
    }
  }

  /** For names without `*` or white space: bypassed exactly when some rule covers the name, or the
    * subdomain rule of the name itself is listed (which by `domain_matches_pattern` alone would
    * not cover the apex). */
  lemma BypassIsLinearScan(rules: set<string>, domain: string)
    requires NoSpace(Clean(domain)) && '*' !in Clean(domain)
    ensures Bypassed(rules, domain) <==> SomeRuleCovers(rules, Clean(domain)) || "*." + Clean(domain) in rules
  {
    var clean := Clean(domain);
    CleanIsTidy(domain);
    MatchIsCover(rules, clean);
    if clean in rules { assert DomainMatchesPattern(clean, clean); }
    if ParentListed(rules, clean, true) {
      var i :| ListedAt(rules, clean, true, i);
      ListedParentMatches(rules, clean, i);
    }
  }

  // ---------------------------------------------------------------- the instant block list

  /** How `compile_instant_blocklist` splits its rules. */
  method SplitRules(rules: seq<string>) returns (exact: set<string>, wildcards: seq<string>)
    ensures exact == Exact(rules) && wildcards == Wildcards(rules)
  {
    exact, wildcards := {}, [];
    for i := 0 to |rules|
      invariant exact == Exact(rules[..i]) && wildcards == Wildcards(rules[..i])
    {
      assert rules[..i + 1][..i] == rules[..i];
      if '*' in rules[i] {
        wildcards := wildcards + [rules[i]];
      } else {
        exact := exact + {rules[i]};
      }
    }
    assert rules[..|rules|] == rules;
  }

  function Exact(rules: seq<string>): set<string> {
    if rules == [] then {}
    else Exact(rules[..|rules| - 1]) + if '*' in rules[|rules| - 1] then {} else {rules[|rules| - 1]}
  }

  function Wildcards(rules: seq<string>): seq<string> {
    if rules == [] then []
    else Wildcards(rules[..|rules| - 1]) + if '*' in rules[|rules| - 1] then [rules[|rules| - 1]] else []
  }

  lemma {:induction false} SplitKeepsRules(rules: seq<string>)
    ensures forall r: string :: r in rules <==> r in Exact(rules) || r in Wildcards(rules)
    ensures forall r <- Exact(rules) :: '*' !in r
    ensures forall r <- Wildcards(rules) :: '*' in r
  {
    if rules == [] {
    } else {
      SplitKeepsRules(rules[..|rules| - 1]);
      assert rules == rules[..|rules| - 1] + [rules[|rules| - 1]];
    }
  }

  /** `is_instant_blocked` on the compiled lists */
  method IsInstantBlocked(enabled: bool, bypass: set<string>, exact: set<string>, wildcards: seq<string>,
        domain: string)
    returns (r: bool)
    ensures r <==> enabled && !Bypassed(bypass, Clean(domain)) && InstantListed(exact, wildcards, domain)
  {
    if !enabled { return false; }
    var clean := Clean(domain);
    var bypassed := IsBypassed(bypass, clean);
    if bypassed { return false; }
    if clean in exact { return true; }
    var parent := FindParent(exact, clean, false);
    if parent { return true; }
    for i := 0 to |wildcards|
      invariant forall k | 0 <= k < i :: !DomainMatchesPattern(wildcards[k], clean)
    {
      if DomainMatchesPattern(wildcards[i], clean) { return true; }
    }
    return false;
  }

  ghost predicate InstantListed(exact: set<string>, wildcards: seq<string>, domain: string)
  {
    var clean := Clean(domain);
    clean in exact || ParentListed(exact, clean, false) || exists rule <- wildcards :: DomainMatchesPattern(rule, clean)
  }

  /** What the line normaliser leaves of a rule. */
  ghost predicate Normal(rule: string) { Clean(rule) == rule && Trim(rule) == rule }

  /** A star-free rule matches exactly the names the two look-ups find. */
  lemma ExactRuleMatches(rule: string, clean: string)
    requires Tidy(clean) && Normal(rule) && '*' !in rule
    ensures DomainMatchesPattern(rule, clean) <==> rule == clean || ParentListed({rule}, clean, false)
  {
    assert clean[0..] == clean;
    TidySuffix(clean, 0);
    assert rule != "" ==> rule[0] in rule;
    assert DomainMatchesPattern(rule, clean) <==> rule == clean || EndsWith(clean, "." + rule);
    if EndsWith(clean, "." + rule) {
      var i := |clean| - |rule| - 1;
      assert clean[i] == ("." + rule)[0] && clean[i + 1..] == ("." + rule)[1..] == rule;
      assert ListedAt({rule}, clean, false, i);
    }
    if i :| ListedAt({rule}, clean, false, i) { ParentEndsName(clean, i); }
  }

  /** A rule as the normaliser leaves it covers what it matches. */
  lemma NormalCovers(rule: string, clean: string)
    requires Tidy(clean) && Normal(rule) && '*' !in clean
    ensures DomainMatchesPattern(rule, clean) <==> Covers(rule, clean)
  {
    assert clean[0..] == clean;
    TidySuffix(clean, 0);
    MatchesWhatItCovers(rule, clean);
  }

  /** The compiled indexes decide exactly whether a rule they were compiled from covers the name, if it has
    * no `*`, and whether one matches it in any case. */
  lemma InstantIsLinearScan(rules: seq<string>, domain: string)
    requires NoSpace(Clean(domain)) && forall r <- rules :: Normal(r)
    ensures InstantListed(Exact(rules), Wildcards(rules), domain) <==>
            exists r <- rules :: DomainMatchesPattern(r, Clean(domain))
    ensures '*' !in Clean(domain) ==>
              (InstantListed(Exact(rules), Wildcards(rules), domain) <==> exists r <- rules :: Covers(r, Clean(domain)))
  {
    InstantIsScan(rules, domain);
    var clean := Clean(domain);
    CleanIsTidy(domain);
    if '*' !in clean {
      forall r <- rules ensures DomainMatchesPattern(r, clean) <==> Covers(r, clean) { NormalCovers(r, clean); }
    }
  }

  lemma InstantIsScan(rules: seq<string>, domain: string)
    requires NoSpace(Clean(domain)) && forall r <- rules :: Normal(r)
    ensures InstantListed(Exact(rules), Wildcards(rules), domain) <==>
            exists r <- rules :: DomainMatchesPattern(r, Clean(domain))
  {
    var clean := Clean(domain);
    var exact, wildcards := Exact(rules), Wildcards(rules);
    SplitKeepsRules(rules);
    CleanIsTidy(domain);
    forall r <- exact
      ensures DomainMatchesPattern(r, clean) <==> r == clean || ParentListed({r}, clean, false)
    {
      ExactRuleMatches(r, clean);
    }
    if ParentListed(exact, clean, false) {
      var i :| ListedAt(exact, clean, false, i);
      var r := clean[i + 1..];
      assert ListedAt({r}, clean, false, i);
      assert DomainMatchesPattern(r, clean);
    }
    if r :| r in rules && DomainMatchesPattern(r, clean) && '*' !in r && r != clean {
      var i :| ListedAt({r}, clean, false, i);
      assert ListedAt(exact, clean, false, i);
    }
  }
}
