/** `check_domain` (src/state.rs): a cascade of lists and detectors that learns its own verdicts and
  * keeps a fast negative filter in front of the expensive steps.
  *
  * Heuristics, schedule and Bloom filters are fixed predicates; the neural verdict is an input of
  * every check, because training changes it as checks run.
  */
module Cascade {
  import opened Text
  import opened Wrappers
  import Rules

  const LEARN_CAP := 2000       // block list size at which learning evicts
  const HARD_CAP := 2500        // size at which nothing can be evicted and learning stops
  const WHITELIST_CAP := 500

  datatype Entry = Entry(domain: string, manual: bool, createdAt: nat)

  /** What rule edits change and checks do not. */
  datatype Config = Config(
    blockingEnabled: bool,
    bypass: set<string>,
    instantEnabled: bool, instantExact: set<string>, instantWildcards: seq<string>,
    whitelistExact: set<string>, whitelistWildcards: set<string>,
    scheduled: string -> bool,
    threatBloom: string -> bool, whitelistBloom: string -> bool,
    lookalike: string -> bool, dga: string -> bool, miner: string -> bool)

  /** What checks learn. `filter` maps a name to its NXDOMAIN flag. */
  datatype Learned = Learned(blocks: map<string, Entry>, whites: set<string>, filter: map<string, bool>)

  /** The step of the cascade that answers. */
  datatype Stage =
    | Disabled | BypassListed | InstantShield | ExactWhite | FilterHit(isNx: bool) | Scheduled | ExactBlock
    | WildcardWhite | WildcardBlock | ThreatFeed | Lookalike | Dga | Miner | Neural | Passed
  {
    predicate Blocks() { !(Disabled? || BypassListed? || ExactWhite? || WildcardWhite? || Passed?) }

    /** The pair (is_blocked, is_nxdomain). */
    function Verdict(): (bool, bool) {
      (Blocks(), if FilterHit? then isNx else Blocks() && !Scheduled?)
    }

    /** Steps that put the name into the fast negative filter. */
    predicate FeedsFilter() { Blocks() && !InstantShield? && !FilterHit? }

    /** Steps that record the name in the block list. */
    predicate RecordsBlock() { Blocks() && !FilterHit? && !Scheduled? }

    predicate RecordsWhite() { ExactWhite? || WildcardWhite? }
  }

  // ---------------------------------------------------------------- the list look-ups

  /** Parents of two labels or more: the top-level domain is never looked up. */
  ghost predicate BroadParent(s: string, d: string) { IsParent(s, d) && '.' in s }

  ghost predicate StarRuleMatches(rules: set<string>, d: string) {
    exists key <- rules :: '*' in key && Rules.DomainMatchesPattern(key, d)
  }

  ghost predicate BroadParentListed(rules: set<string>, d: string) {
    exists s: string :: BroadParent(s, d) && (s in rules || "*." + s in rules)
  }

  ghost predicate IsExactWhitelisted(cfg: Config, st: Learned, d: string) {
    d in cfg.whitelistExact || (d in st.whites && '*' !in d)
  }

  ghost predicate IsExactBlocked(cfg: Config, st: Learned, d: string) {
    || (d in st.blocks && '*' !in st.blocks[d].domain)
    || (d !in cfg.whitelistWildcards && cfg.threatBloom(d))
  }

  ghost predicate IsWildcardWhitelisted(cfg: Config, st: Learned, d: string) {
    || d in cfg.whitelistWildcards || "*." + d in cfg.whitelistWildcards
    || BroadParentListed(cfg.whitelistWildcards, d) || StarRuleMatches(cfg.whitelistWildcards, d)
    || "*." + d in st.whites || BroadParentListed(st.whites, d) || StarRuleMatches(st.whites, d)
    || cfg.whitelistBloom(d) || cfg.whitelistBloom("*." + d)
    || exists s: string :: BroadParent(s, d) && (cfg.whitelistBloom(s) || cfg.whitelistBloom("*." + s))
  }

  ghost predicate IsWildcardBlocked(st: Learned, d: string) {
    BroadParentListed(st.blocks.Keys, d) || StarRuleMatches(st.blocks.Keys, d)
  }

  ghost predicate IsThreat(cfg: Config, d: string) {
    || cfg.threatBloom(d)
    || exists s: string :: BroadParent(s, d) && (cfg.threatBloom(s) || cfg.threatBloom("*." + s))
  }

  // ---------------------------------------------------------------- the cascade

  ghost function Decide(cfg: Config, st: Learned, d: string, neural: bool, useFilter: bool): Stage
  {
    if !cfg.blockingEnabled then Disabled
    else if Rules.Bypassed(cfg.bypass, d) then BypassListed
    else if cfg.instantEnabled && Rules.InstantListed(cfg.instantExact, cfg.instantWildcards, d) then InstantShield
    else if IsExactWhitelisted(cfg, st, d) then ExactWhite
    else if useFilter && d in st.filter then FilterHit(st.filter[d])
    else if cfg.scheduled(d) then Scheduled
    else Inspected(cfg, st, d, neural)
  }

  ghost function Inspected(cfg: Config, st: Learned, d: string, neural: bool): Stage
  {
    if IsExactBlocked(cfg, st, d) then ExactBlock
    else if IsWildcardWhitelisted(cfg, st, d) then WildcardWhite
    else if IsWildcardBlocked(st, d) then WildcardBlock
    else if IsThreat(cfg, d) then ThreatFeed
    else if cfg.lookalike(d) then Lookalike
    else if cfg.dga(d) then Dga
    else if cfg.miner(d) then Miner
    else if neural && TrimDots(Trim(d)) != "" then Neural   // a blank name scores 0
    else Passed
  }

  /** One check: the cleaned name, the neural verdict, the clock, whether the reason recorded is a manual
    * one, and the entry evicted when the block list is full. */
  datatype Check = Check(name: string, neural: bool, now: nat, manual: bool, victim: string)

  /** When the list is full and something was learned, the victim is an oldest learned entry. */
  ghost predicate VictimChosen(blocks: map<string, Entry>, victim: string) {
    (exists k <- blocks :: !blocks[k].manual) ==> IsOldestLearned(blocks, victim)
  }

  predicate IsOldestLearned(blocks: map<string, Entry>, victim: string) {
    && victim in blocks && !blocks[victim].manual
    && forall k <- blocks :: !blocks[k].manual ==> blocks[victim].createdAt <= blocks[k].createdAt
  }

  /** `record_detected_block` */
  function RecordBlock(blocks: map<string, Entry>, c: Check): map<string, Entry> {
    if c.name == "" then blocks
    else
      var full := |blocks| >= LEARN_CAP && c.name !in blocks;
      var room := if full && IsOldestLearned(blocks, c.victim) then blocks - {c.victim} else blocks;
      if full && room == blocks && |blocks| >= HARD_CAP then blocks
      else if c.name in room then room
      else room[c.name := Entry(c.name, c.manual, c.now)]
  }

  /** `record_detected_whitelist` */
  function RecordWhite(whites: set<string>, d: string): set<string> {
    if d != "" && |whites| < WHITELIST_CAP then whites + {d} else whites
  }

  function Learn(st: Learned, c: Check, stage: Stage): Learned {
    Learned(
      if stage.RecordsBlock() then RecordBlock(st.blocks, c) else st.blocks,
      if stage.RecordsWhite() then RecordWhite(st.whites, c.name) else st.whites,
      if stage.FeedsFilter() then st.filter[c.name := !stage.Scheduled?] else st.filter)
  }

  // ---------------------------------------------------------------- runs

  /** A check, or the filter losing entries (expiry, eviction, flush). */
  datatype Event = Query(c: Check) | Forget(names: set<string>)

  ghost function Next(cfg: Config, st: Learned, e: Event, useFilter: bool): Learned {
    match e
    case Query(c) => Learn(st, c, Decide(cfg, st, c.name, c.neural, useFilter))
    case Forget(names) => st.(filter := st.filter - names)
  }

  ghost function Run(cfg: Config, st: Learned, events: seq<Event>, useFilter: bool): Learned
  {
    if events == [] then st
    else
      var before := Run(cfg, st, events[..|events| - 1], useFilter);
      Next(cfg, before, events[|events| - 1], useFilter)
  }

  /** What every check of a run answers. */
  ghost function Answers(cfg: Config, st: Learned, events: seq<Event>, useFilter: bool): seq<(bool, bool)>
  {
    if events == [] then []
    else
      var (rest, e) := (events[..|events| - 1], events[|events| - 1]);
      Answers(cfg, st, rest, useFilter) +
      if e.Query? then [Decide(cfg, Run(cfg, st, rest, useFilter), e.c.name, e.c.neural, useFilter).Verdict()] else []
  }

  /** Checked names carry no `*`, and the block list stays under the size at which it evicts. */
  ghost predicate Calm(cfg: Config, st: Learned, events: seq<Event>, useFilter: bool)
  {
    && (forall e <- events :: e.Query? ==> '*' !in e.c.name)
    && (forall i | 0 <= i <= |events| :: |Run(cfg, st, events[..i], useFilter).blocks| < LEARN_CAP)
  }

  /** Lists as rule edits leave them: an entry is stored under its own name; the filter is empty. */
  ghost predicate FreshLists(st: Learned)
  {
    st.filter == map[] && forall k <- st.blocks :: st.blocks[k].domain == k
  }

  // ---------------------------------------------------------------- the invariant

  /** Whatever is in the filter would be answered the same way without it. */
  ghost predicate FilterInv(cfg: Config, st: Learned)
  {
    && (forall k <- st.blocks :: st.blocks[k].domain == k)
    && (forall d <- st.filter :: '*' !in d && FilterEntryJustified(cfg, st, d, st.filter[d]))
  }

  ghost predicate FilterEntryJustified(cfg: Config, st: Learned, d: string, isNx: bool)
  {
    if !isNx then cfg.scheduled(d)
    else !cfg.scheduled(d) && if d == "" then BlankBlocked(cfg, st) else d in st.blocks
  }

  /** The blank name is never learned; the fixed part of the cascade blocks it. */
  ghost predicate BlankBlocked(cfg: Config, st: Learned)
  {
    || IsExactBlocked(cfg, st, "")
    || (!IsWildcardWhitelisted(cfg, st, "") &&
        (IsWildcardBlocked(st, "") || IsThreat(cfg, "") || cfg.lookalike("") || cfg.dga("") || cfg.miner("")))
  }

  /** In any state satisfying the invariant the filter step changes no answer. */
  lemma FilterStepTransparent(cfg: Config, st: Learned, d: string, neural: bool)
    requires FilterInv(cfg, st)
    ensures Decide(cfg, st, d, neural, true).Verdict() == Decide(cfg, st, d, neural, false).Verdict()
  {
  }

  /** What a check adds to the lists it adds under the checked name, and removes nothing. */
  lemma LearnUnderCap(st: Learned, c: Check, stage: Stage)
    requires |st.blocks| < LEARN_CAP && forall k <- st.blocks :: st.blocks[k].domain == k
    ensures var st' := Learn(st, c, stage);
      && (forall k <- st.blocks :: k in st'.blocks && st'.blocks[k] == st.blocks[k])
      && (forall k <- st'.blocks :: st'.blocks[k].domain == k && (k in st.blocks || (k == c.name && k != "")))
      && (stage.RecordsBlock() && c.name != "" ==> c.name in st'.blocks)
      && st.whites <= st'.whites && (forall k <- st'.whites :: k in st.whites || (k == c.name && k != ""))
  {
  }

  /** Learning names without `*` never changes how the blank name fares. */
  lemma BlankUnaffected(cfg: Config, st: Learned, st': Learned)
    requires forall k <- st.blocks :: k in st'.blocks && st'.blocks[k] == st.blocks[k]
    requires forall k <- st'.blocks :: k in st.blocks || (k != "" && '*' !in k)
    requires st.whites <= st'.whites && forall k <- st'.whites :: k in st.whites || (k != "" && '*' !in k)
    ensures BlankBlocked(cfg, st) <==> BlankBlocked(cfg, st')
  {
    assert '*' in "*." + "" by { assert ("*." + "")[0] == '*'; }
    assert forall s: string :: !BroadParent(s, "");
    assert StarRuleMatches(st.whites, "") <==> StarRuleMatches(st'.whites, "");
    assert StarRuleMatches(st.blocks.Keys, "") <==> StarRuleMatches(st'.blocks.Keys, "");
    assert IsWildcardBlocked(st, "") <==> IsWildcardBlocked(st', "");
    assert IsWildcardWhitelisted(cfg, st, "") <==> IsWildcardWhitelisted(cfg, st', "");
  }

  lemma QueryKeepsFilterInv(cfg: Config, st: Learned, c: Check, useFilter: bool)
    requires FilterInv(cfg, st) && '*' !in c.name && |st.blocks| < LEARN_CAP
    ensures FilterInv(cfg, Next(cfg, st, Query(c), useFilter))
  {
    var stage := Decide(cfg, st, c.name, c.neural, useFilter);
    var st' := Learn(st, c, stage);
    LearnUnderCap(st, c, stage);
    BlankUnaffected(cfg, st, st');
    forall d <- st'.filter ensures '*' !in d && FilterEntryJustified(cfg, st', d, st'.filter[d]) {
      if d == c.name && stage.FeedsFilter() {
        if d == "" && !stage.Scheduled? { BlankStage(cfg, st, c.neural, useFilter); }
      } else {
        assert d in st.filter && st'.filter[d] == st.filter[d];
      }
    }
  }

  lemma BlankStage(cfg: Config, st: Learned, neural: bool, useFilter: bool)
    requires var stage := Decide(cfg, st, "", neural, useFilter); stage.FeedsFilter() && !stage.Scheduled?
    ensures BlankBlocked(cfg, st) && !cfg.scheduled("")
  {
  }

  // ---------------------------------------------------------------- main results

  lemma {:induction false} RunKeepsFilterInv(cfg: Config, st: Learned, events: seq<Event>, useFilter: bool)
    requires FreshLists(st) && Calm(cfg, st, events, useFilter)
    ensures FilterInv(cfg, Run(cfg, st, events, useFilter))
  {
    if events == [] {
    } else {
      var n := |events| - 1;
      var rest := events[..n];
      assert forall i | 0 <= i <= n :: rest[..i] == events[..i];
      RunKeepsFilterInv(cfg, st, rest, useFilter);
      if events[n].Query? {
        assert events[n] in events;
        QueryKeepsFilterInv(cfg, Run(cfg, st, rest, useFilter), events[n].c, useFilter);
      }
    }
  }

  /** In every state a run reaches, `check_domain` answers any name as the cascade without the
    * filter step would, whatever the neural verdict is by then. */
  lemma FilterTransparent(cfg: Config, st: Learned, events: seq<Event>, d: string, neural: bool)
    requires FreshLists(st) && Calm(cfg, st, events, true)
    ensures var now := Run(cfg, st, events, true);
      Decide(cfg, now, d, neural, true).Verdict() == Decide(cfg, now, d, neural, false).Verdict()
  {
    RunKeepsFilterInv(cfg, st, events, true);
    FilterStepTransparent(cfg, Run(cfg, st, events, true), d, neural);
  }

  /** A system without the filter, fed the same checks and neural verdicts, answers every one of
    * them the same and learns the same lists. */
  lemma {:induction false} FilterFreeRunAgrees(cfg: Config, st: Learned, events: seq<Event>)
    requires FreshLists(st) && Calm(cfg, st, events, true)
    ensures Answers(cfg, st, events, true) == Answers(cfg, st, events, false)
    ensures Run(cfg, st, events, true).blocks == Run(cfg, st, events, false).blocks
    ensures Run(cfg, st, events, true).whites == Run(cfg, st, events, false).whites
  {
    if events == [] {
    } else {
      var n := |events| - 1;
      var rest := events[..n];
      assert forall i | 0 <= i <= n :: rest[..i] == events[..i];
      FilterFreeRunAgrees(cfg, st, rest);
      RunKeepsFilterInv(cfg, st, rest, true);
      if events[n].Query? {
        assert rest == events[..n] && events[n] in events;
        SameLearning(cfg, Run(cfg, st, rest, true), Run(cfg, st, rest, false), events[n].c);
      }
    }
  }

  /** Without the filter step the lists alone decide. */
  lemma SameStage(cfg: Config, a: Learned, b: Learned, d: string, neural: bool)
    requires a.blocks == b.blocks && a.whites == b.whites
    ensures Decide(cfg, a, d, neural, false) == Decide(cfg, b, d, neural, false)
  {
    assert IsExactWhitelisted(cfg, a, d) == IsExactWhitelisted(cfg, b, d);
    assert Inspected(cfg, a, d, neural) == Inspected(cfg, b, d, neural);
  }

  /** A check learns what it would learn without the filter step. */
  lemma FilterStepLearnsTheSame(cfg: Config, st: Learned, c: Check)
    requires FilterInv(cfg, st) && |st.blocks| < LEARN_CAP
    ensures Next(cfg, st, Query(c), true).blocks == Next(cfg, st, Query(c), false).blocks
    ensures Next(cfg, st, Query(c), true).whites == Next(cfg, st, Query(c), false).whites
  {
    var with := Decide(cfg, st, c.name, c.neural, true);
    var without := Decide(cfg, st, c.name, c.neural, false);
    if with != without && c.name != "" && with.isNx {
      assert c.name in st.blocks && without.ExactBlock?;
    }
  }

  /** One check from two states that differ in their filters only, the first using its filter. */
  lemma SameLearning(cfg: Config, a: Learned, b: Learned, c: Check)
    requires FilterInv(cfg, a) && a.blocks == b.blocks && a.whites == b.whites
    requires |a.blocks| < LEARN_CAP
    ensures Decide(cfg, a, c.name, c.neural, true).Verdict() == Decide(cfg, b, c.name, c.neural, false).Verdict()
    ensures Next(cfg, a, Query(c), true).blocks == Next(cfg, b, Query(c), false).blocks
    ensures Next(cfg, a, Query(c), true).whites == Next(cfg, b, Query(c), false).whites
  {
    FilterStepTransparent(cfg, a, c.name, c.neural);
    FilterStepLearnsTheSame(cfg, a, c);
    SameStage(cfg, a, b, c.name, c.neural);
  }

  // ---------------------------------------------------------------- the lists are scans of their rules

  /** A glob or subdomain rule of a list that covers the name. */
  ghost predicate StarCovers(rule: string, d: string) { '*' in rule && Rules.Covers(Rules.Clean(Trim(rule)), d) }

  /** A name of the list above the queried one, the top-level domain aside, or a rule with `*` that covers it. */
  ghost predicate HoldsAbove(rules: set<string>, d: string) {
    exists rule <- rules :: (IsParent(rule, d) && '.' in rule) || StarCovers(rule, d)
  }

  /** A Bloom filter answers for a name above the queried one, or for its subdomain rule. */
  ghost predicate BloomAbove(bloom: string -> bool, d: string) {
    exists key: string :: bloom(key) && exists s: string :: IsParent(s, d) && '.' in s && (key == s || key == "*." + s)
  }

  lemma StarRuleCovers(rules: set<string>, d: string)
    requires Rules.Tidy(d) && '*' !in d
    ensures StarRuleMatches(rules, d) <==> exists rule <- rules :: StarCovers(rule, d)
  {
    assert d[0..] == d;
    Rules.TidySuffix(d, 0);
    forall rule <- rules ensures Rules.DomainMatchesPattern(rule, d) <==> Rules.Covers(Rules.Clean(Trim(rule)), d) {
      Rules.MatchesWhatItCovers(rule, d);
    }
  }

  /** The subdomain rule of a parent covers the name. */
  lemma ParentRuleCovers(s: string, d: string)
    requires Rules.Tidy(d) && BroadParent(s, d)
    ensures StarCovers("*." + s, d)
  {
    var i :| 0 <= i < |d| && d[i] == '.' && s == d[i + 1..];
    var rule := "*." + s;
    Rules.TidyStarred(d, i + 1);
    assert rule[0] == '*' && rule[2..] == s;
  }

  /** The look-ups of parents and the pass over rules with `*` decide the scan. */
  lemma LookUpsAreScan(rules: set<string>, d: string)
    requires Rules.Tidy(d) && '*' !in d
    ensures BroadParentListed(rules, d) || StarRuleMatches(rules, d) <==> HoldsAbove(rules, d)
  {
    StarRuleCovers(rules, d);
    if s: string :| BroadParent(s, d) && "*." + s in rules { ParentRuleCovers(s, d); }
  }

  lemma BloomIsScan(bloom: string -> bool, d: string)
    ensures (exists s: string :: BroadParent(s, d) && (bloom(s) || bloom("*." + s))) <==> BloomAbove(bloom, d)
  {
    if s: string :| BroadParent(s, d) && (bloom(s) || bloom("*." + s)) {
      var key := if bloom(s) then s else "*." + s;
      assert bloom(key) && (key == s || key == "*." + s);
    }
    if key: string, s: string :| bloom(key) && IsParent(s, d) && '.' in s && (key == s || key == "*." + s) {
      assert BroadParent(s, d) && (bloom(s) || bloom("*." + s));
    }
  }

  /** The wildcard lists, the learned ones among them, are scans of their rules. A learned name protects what
    * is under it and not itself; the block list holds names under what it holds. */
  lemma ListsAreScans(cfg: Config, st: Learned, d: string)
    requires Rules.Tidy(d) && '*' !in d && forall k <- st.blocks :: st.blocks[k].domain == k
    ensures IsExactWhitelisted(cfg, st, d) <==> d in cfg.whitelistExact + st.whites
    ensures IsExactBlocked(cfg, st, d) <==> d in st.blocks || (cfg.threatBloom(d) && d !in cfg.whitelistWildcards)
    ensures IsWildcardBlocked(st, d) <==> HoldsAbove(st.blocks.Keys, d)
    ensures IsWildcardWhitelisted(cfg, st, d) <==>
            || HoldsAbove(cfg.whitelistWildcards, d) || HoldsAbove(st.whites, d) || BloomAbove(cfg.whitelistBloom, d)
            || d in cfg.whitelistWildcards || cfg.whitelistBloom(d)
            || "*." + d in cfg.whitelistWildcards || "*." + d in st.whites || cfg.whitelistBloom("*." + d)
    ensures IsThreat(cfg, d) <==> cfg.threatBloom(d) || BloomAbove(cfg.threatBloom, d)
  {
    LookUpsAreScan(st.blocks.Keys, d);
    LookUpsAreScan(cfg.whitelistWildcards, d);
    LookUpsAreScan(st.whites, d);
    BloomIsScan(cfg.whitelistBloom, d);
    BloomIsScan(cfg.threatBloom, d);
  }

  /** What was learned says nothing about names with `*`. */
  lemma StarredNamesUnlearned(cfg: Config, st: Learned, d: string)
    requires '*' in d && forall k <- st.blocks :: st.blocks[k].domain == k
    ensures IsExactWhitelisted(cfg, st, d) <==> d in cfg.whitelistExact
    ensures IsExactBlocked(cfg, st, d) <==> cfg.threatBloom(d) && d !in cfg.whitelistWildcards
  {
  }

  /** Recording a block drops no entry but one of the oldest learned ones, and changes none. */
  lemma EvictsOldestLearned(blocks: map<string, Entry>, c: Check, k: string)
    requires k in blocks
    ensures var after := RecordBlock(blocks, c);
      if k in after then after[k] == blocks[k]
      else !blocks[k].manual && |blocks| >= 2000 && forall j <- blocks :: !blocks[j].manual ==> blocks[k].createdAt <= blocks[j].createdAt
  {
  }

  // ---------------------------------------------------------------- the answer from the lists

  /** A detector speaks up. */
  predicate Detected(cfg: Config, d: string, neural: bool) {
    cfg.lookalike(d) || cfg.dga(d) || cfg.miner(d) || (neural && TrimDots(Trim(d)) != "")
  }

  /** Blocked whatever the hour: by the exact block list, which is stronger than the wildcard white lists, or by
    * what these white lists do not protect the name from. */
  ghost predicate BlockedAlways(cfg: Config, st: Learned, d: string, neural: bool) {
    || IsExactBlocked(cfg, st, d)
    || (!IsWildcardWhitelisted(cfg, st, d) && (IsWildcardBlocked(st, d) || IsThreat(cfg, d) || Detected(cfg, d, neural)))
  }

  /** Blocking is on and the name is not bypassed. */
  ghost predicate Guarded(cfg: Config, d: string) { cfg.blockingEnabled && !Rules.Bypassed(cfg.bypass, d) }

  ghost predicate ByInstant(cfg: Config, d: string) {
    cfg.instantEnabled && Rules.InstantListed(cfg.instantExact, cfg.instantWildcards, d)
  }

  /** Which list wins: the bypass list, the instant list, the exact white list, the schedule, and then the rest. */
  ghost predicate MustBlock(cfg: Config, st: Learned, d: string, neural: bool) {
    && Guarded(cfg, d)
    && (ByInstant(cfg, d) || (!IsExactWhitelisted(cfg, st, d) && (cfg.scheduled(d) || BlockedAlways(cfg, st, d, neural))))
  }

  /** NXDOMAIN is for blocks that do not come from the schedule. */
  ghost predicate MustDeny(cfg: Config, st: Learned, d: string, neural: bool) {
    && Guarded(cfg, d)
    && (ByInstant(cfg, d) || (!IsExactWhitelisted(cfg, st, d) && !cfg.scheduled(d) && BlockedAlways(cfg, st, d, neural)))
  }

  /** In every state with the invariant the answer follows from the lists alone. */
  lemma AnswerFromLists(cfg: Config, st: Learned, d: string, neural: bool)
    requires FilterInv(cfg, st)
    ensures Decide(cfg, st, d, neural, true).Verdict() == (MustBlock(cfg, st, d, neural), MustDeny(cfg, st, d, neural))
  {
    FilterStepTransparent(cfg, st, d, neural);
  }

  /** What a check leaves, from its answer and the lists: every blocked name but those of the instant list is
    * in the filter with its NXDOMAIN flag; a denied name is in the block list, at the time of its first
    * denial, while there is room; an allowed name that a white list holds is in the learned one. */
  ghost predicate Leaves(cfg: Config, st: Learned, c: Check, st': Learned) {
    var (blocked, denied) := (MustBlock(cfg, st, c.name, c.neural), MustDeny(cfg, st, c.name, c.neural));
    var white := Guarded(cfg, c.name) && !blocked && (IsExactWhitelisted(cfg, st, c.name) || IsWildcardWhitelisted(cfg, st, c.name));
    && st'.filter == (if blocked && !ByInstant(cfg, c.name) then st.filter[c.name := denied] else st.filter)
    && st'.whites == (if white && c.name != "" && |st.whites| < 500 then st.whites + {c.name} else st.whites)
    && st'.blocks == (if denied && c.name != "" && c.name !in st.blocks then Recorded(st.blocks, c) else st.blocks)
  }

  /** A name added to the block list: from 2000 entries on the oldest learned one makes room, and from 2500 on
    * nothing is added unless one can. */
  function Recorded(blocks: map<string, Entry>, c: Check): map<string, Entry> {
    var entry := Entry(c.name, c.manual, c.now);
    if |blocks| < 2000 then blocks[c.name := entry]
    else if IsOldestLearned(blocks, c.victim) then (blocks - {c.victim})[c.name := entry]
    else if |blocks| < 2500 then blocks[c.name := entry]
    else blocks
  }

  lemma FilterFromLists(cfg: Config, st: Learned, c: Check)
    requires FilterInv(cfg, st)
    ensures Next(cfg, st, Query(c), true).filter ==
            if MustBlock(cfg, st, c.name, c.neural) && !ByInstant(cfg, c.name)
            then st.filter[c.name := MustDeny(cfg, st, c.name, c.neural)] else st.filter
  {
    AnswerFromLists(cfg, st, c.name, c.neural);
    var stage := Decide(cfg, st, c.name, c.neural, true);
    assert stage.InstantShield? ==> ByInstant(cfg, c.name);
  }

  lemma WhitesFromLists(cfg: Config, st: Learned, c: Check)
    requires FilterInv(cfg, st)
    ensures Decide(cfg, st, c.name, c.neural, true).RecordsWhite() <==>
            && Guarded(cfg, c.name) && !MustBlock(cfg, st, c.name, c.neural)
            && (IsExactWhitelisted(cfg, st, c.name) || IsWildcardWhitelisted(cfg, st, c.name))
  {
    AnswerFromLists(cfg, st, c.name, c.neural);
  }

  lemma BlocksFromLists(cfg: Config, st: Learned, c: Check)
    requires FilterInv(cfg, st)
    ensures Next(cfg, st, Query(c), true).blocks ==
            if MustDeny(cfg, st, c.name, c.neural) && c.name != "" && c.name !in st.blocks then Recorded(st.blocks, c) else st.blocks
  {
    AnswerFromLists(cfg, st, c.name, c.neural);
    var stage := Decide(cfg, st, c.name, c.neural, true);
    if stage.FilterHit? { assert stage.isNx && c.name != "" ==> c.name in st.blocks; }
    RecordIs(st.blocks, c);
  }

  lemma RecordIs(blocks: map<string, Entry>, c: Check)
    ensures RecordBlock(blocks, c) == if c.name != "" && c.name !in blocks then Recorded(blocks, c) else blocks
  {
  }

  lemma LeavesFromLists(cfg: Config, st: Learned, c: Check)
    requires FilterInv(cfg, st)
    ensures Leaves(cfg, st, c, Next(cfg, st, Query(c), true))
  {
    FilterFromLists(cfg, st, c);
    WhitesFromLists(cfg, st, c);
    BlocksFromLists(cfg, st, c);
  }

  // ---------------------------------------------------------------- the object

  /** The loop over `parts[i..]` for every parent of two labels or more. */
  method FindBroadParent(rules: set<string>, d: string) returns (r: bool)
    ensures r <==> BroadParentListed(rules, d)
  {
    for i := 0 to |d|
      invariant forall k | 0 <= k < i && d[k] == '.' && '.' in d[k + 1..] :: d[k + 1..] !in rules && "*." + d[k + 1..] !in rules
    {
      if d[i] == '.' && '.' in d[i + 1..] && (d[i + 1..] in rules || "*." + d[i + 1..] in rules) {
        assert BroadParent(d[i + 1..], d);
        return true;
      }
    }
    return false;
  }

  method FindBloomParent(bloom: string -> bool, d: string) returns (r: bool)
    ensures r <==> exists s: string :: BroadParent(s, d) && (bloom(s) || bloom("*." + s))
  {
    for i := 0 to |d|
      invariant forall k | 0 <= k < i && d[k] == '.' && '.' in d[k + 1..] :: !bloom(d[k + 1..]) && !bloom("*." + d[k + 1..])
    {
      if d[i] == '.' && '.' in d[i + 1..] && (bloom(d[i + 1..]) || bloom("*." + d[i + 1..])) {
        assert BroadParent(d[i + 1..], d);
        return true;
      }
    }
    return false;
  }

  method FindStarRule(rules: set<string>, d: string) returns (r: bool)
    ensures r <==> StarRuleMatches(rules, d)
  {
    var rest := rules;
    while rest != {}
      invariant rest <= rules && forall key <- rules - rest :: !('*' in key && Rules.DomainMatchesPattern(key, d))
    {
      var key :| key in rest;
      if '*' in key && Rules.DomainMatchesPattern(key, d) { return true; }
      rest := rest - {key};
    }
    return false;
  }

  lemma {:induction false} OldestExists(blocks: map<string, Entry>, k: string)
    requires k in blocks && !blocks[k].manual
    ensures exists victim :: IsOldestLearned(blocks, victim)
    decreases blocks[k].createdAt
  {
    if !IsOldestLearned(blocks, k) {
      var older :| older in blocks && !blocks[older].manual && blocks[older].createdAt < blocks[k].createdAt;
      OldestExists(blocks, older);
    }
  }

  /** The part of the application state that `check_domain` reads and writes. */
  class AppState {
    const cfg: Config
    var blocks: map<string, Entry>
    var whites: set<string>
    var filter: map<string, bool>

    constructor (cfg: Config, blocks: map<string, Entry>, whites: set<string>)
      ensures this.cfg == cfg && Lists() == Learned(blocks, whites, map[])
    {
      this.cfg := cfg;
      this.blocks, this.whites, this.filter := blocks, whites, map[];
    }

    function Lists(): Learned reads this { Learned(blocks, whites, filter) }

    /** The steps after the filter and the schedule. */
    method Inspect(d: string, neural: bool) returns (stage: Stage)
      ensures stage == Inspected(cfg, Lists(), d, neural)
    {
      if (d in blocks && '*' !in blocks[d].domain) || (d !in cfg.whitelistWildcards && cfg.threatBloom(d)) {
        return ExactBlock;
      }
      var w1 := FindBroadParent(cfg.whitelistWildcards, d);
      var w2 := FindStarRule(cfg.whitelistWildcards, d);
      var w3 := FindBroadParent(whites, d);
      var w4 := FindStarRule(whites, d);
      var w5 := FindBloomParent(cfg.whitelistBloom, d);
      if d in cfg.whitelistWildcards || "*." + d in cfg.whitelistWildcards || w1 || w2 || "*." + d in whites || w3 || w4
         || cfg.whitelistBloom(d) || cfg.whitelistBloom("*." + d) || w5 {
        return WildcardWhite;
      }
      var b1 := FindBroadParent(blocks.Keys, d);
      var b2 := FindStarRule(blocks.Keys, d);
      if b1 || b2 { return WildcardBlock; }
      var t := FindBloomParent(cfg.threatBloom, d);
      if cfg.threatBloom(d) || t { return ThreatFeed; }
      if cfg.lookalike(d) { return Lookalike; }
      if cfg.dga(d) { return Dga; }
      if cfg.miner(d) { return Miner; }
      if neural && TrimDots(Trim(d)) != "" { return Neural; }
      return Passed;
    }

    /** The step that answers for a cleaned name. */
    method ChooseStage(d: string, neural: bool) returns (stage: Stage)
      requires Rules.Clean(d) == d
      ensures stage == Decide(cfg, Lists(), d, neural, true)
    {
      if !cfg.blockingEnabled { return Disabled; }
      var bypassed := Rules.IsBypassed(cfg.bypass, d);
      if bypassed { return BypassListed; }
      var instant := Rules.IsInstantBlocked(cfg.instantEnabled, cfg.bypass, cfg.instantExact, cfg.instantWildcards, d);
      if instant { return InstantShield; }
      if d in cfg.whitelistExact || (d in whites && '*' !in d) { return ExactWhite; }
      if d in filter { return FilterHit(filter[d]); }
      if cfg.scheduled(d) { return Scheduled; }
      stage := Inspect(d, neural);
    }

    /** What the answering step records. */
    method Record(stage: Stage, c: Check)
      modifies this
      ensures Lists() == Learn(old(Lists()), c, stage)
    {
      if stage.FeedsFilter() { filter := filter[c.name := !stage.Scheduled?]; }
      if stage.RecordsBlock() { blocks := RecordBlock(blocks, c); }
      if stage.RecordsWhite() { whites := RecordWhite(whites, c.name); }
    }

    /** The entry that a full list would evict. */
    method ChooseVictim() returns (victim: string)
      ensures VictimChosen(blocks, victim)
    {
      victim := "";
      if v :| v in blocks && IsOldestLearned(blocks, v) {
        victim := v;
      } else if k :| k in blocks && !blocks[k].manual {
        OldestExists(blocks, k);
      }
    }

    /** `check_domain`, with the check it amounts to as a result. */
    method CheckDomain(domain: string, neural: bool, now: nat, manual: bool)
      returns (blocked: bool, isNx: bool, c: Check)
      modifies this
      ensures c.name == Rules.Clean(domain) && c.neural == neural && c.now == now && c.manual == manual
      ensures VictimChosen(old(blocks), c.victim)
      ensures (blocked, isNx) == Decide(cfg, old(Lists()), c.name, neural, true).Verdict()
      ensures Lists() == Next(cfg, old(Lists()), Query(c), true)
      ensures FilterInv(cfg, old(Lists())) ==>
                && blocked == MustBlock(cfg, old(Lists()), c.name, neural) && isNx == MustDeny(cfg, old(Lists()), c.name, neural)
                && Leaves(cfg, old(Lists()), c, Lists())
    {
      var d := Rules.Clean(domain);
      Rules.CleanIdempotent(domain);
      var victim := ChooseVictim();
      c := Check(d, neural, now, manual, victim);
      var stage := ChooseStage(d, neural);
      if FilterInv(cfg, Lists()) {
        AnswerFromLists(cfg, Lists(), d, neural);
        LeavesFromLists(cfg, Lists(), c);
      }
      Record(stage, c);
      return stage.Blocks(), stage.Verdict().1, c;
    }
  }
}
