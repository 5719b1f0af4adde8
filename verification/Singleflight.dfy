/** Request coalescing (src/dns/upstream.rs): one upstream call per key at a time.
  *
  * A call registers under the map's lock and becomes the leader of its key or a follower of
  * the leader already there. The leader awaits the upstream function and then drops its guard;
  * a cancelled future drops the guard without a result. Followers wait on the leader's
  * broadcast channel. Each action below is one critical section or one wake-up, so a sequence
  * of actions is one interleaving of any number of calls.
  */
module Singleflight {
  import opened Wrappers

  /** What subscribers of a broadcast channel find: nothing yet, one value, or a dropped sender. */
  datatype Channel<V> = Open | Sent(value: V) | Closed

  datatype Role = Leader | Follower

  datatype Status<V> =
    | Active                      // leader: upstream call pending; follower: waiting on the channel
    | Resolved(result: Option<V>) // leader only: the guard holds the upstream result
    | Done(outcome: Option<V>)    // `do_call` has returned
    | Cancelled                   // the future was dropped

  datatype Call<K, V> = Call(key: K, chan: nat, role: Role, status: Status<V>) {
    /** Leaders whose guard is still alive. */
    predicate Live() { role.Leader? && (status.Active? || status.Resolved?) }

    predicate Finished() { status.Done? || status.Cancelled? }

    predicate Served() { role.Follower? && status.Done? && status.outcome.Some? }
  }

  datatype State<K, V> = State(
    inFlight: map<K, nat>,       // the guarded map: key to channel
    channels: seq<Channel<V>>,   // every channel ever created
    calls: seq<Call<K, V>>,      // every call ever made
    coalesced: nat)

  datatype Action<K, V> =
    | Register(key: K)
    | UpstreamReady(c: nat, result: Option<V>)
    | DropGuard(c: nat)          // of a leader, with a result or by cancellation
    | Receive(c: nat)            // a follower wakes up
    | Abandon(c: nat)            // a waiting follower's future is dropped

  function Initial<K, V>(): State<K, V> { State(map[], [], [], 0) }

  predicate Enabled<K, V>(s: State<K, V>, a: Action<K, V>)
  {
    match a
    case Register(_) => true
    case UpstreamReady(c, _) => c < |s.calls| && s.calls[c].role.Leader? && s.calls[c].status.Active?
    case DropGuard(c) => c < |s.calls| && s.calls[c].Live()
    case Receive(c) =>
      && c < |s.calls| && s.calls[c].role.Follower? && s.calls[c].status.Active?
      && s.calls[c].chan < |s.channels| && !s.channels[s.calls[c].chan].Open?
    case Abandon(c) => c < |s.calls| && s.calls[c].role.Follower? && s.calls[c].status.Active?
  }

  function SetStatus<K, V>(s: State<K, V>, c: nat, status: Status<V>): State<K, V>
    requires c < |s.calls|
  {
    s.(calls := s.calls[c := s.calls[c].(status := status)])
  }

  /** The guard's destructor: it removes whatever the map holds under its key, and sends first
    * when the upstream call completed with a value. */
  function Unregister<K, V>(s: State<K, V>, key: K, completed: bool, result: Option<V>): State<K, V>
  {
    if key in s.inFlight && s.inFlight[key] < |s.channels| then
      var tx := s.inFlight[key];
      var left := if completed && result.Some? then Sent(result.value) else Closed;
      s.(inFlight := s.inFlight - {key}, channels := s.channels[tx := left])
    else s
  }

  function Step<K, V>(s: State<K, V>, a: Action<K, V>): State<K, V>
    requires Enabled(s, a)
  {
    match a
    case Register(key) =>
      if key in s.inFlight then
        s.(calls := s.calls + [Call(key, s.inFlight[key], Follower, Active)])
      else
        var tx := |s.channels|;
        s.(inFlight := s.inFlight[key := tx],
           channels := s.channels + [Open],
           calls := s.calls + [Call(key, tx, Leader, Active)])
    case UpstreamReady(c, result) => SetStatus(s, c, Resolved(result))
    case DropGuard(c) =>
      var call := s.calls[c];
      if call.status.Resolved? then
        SetStatus(Unregister(s, call.key, true, call.status.result), c, Done(call.status.result))
      else
        SetStatus(Unregister(s, call.key, false, None), c, Cancelled)
    case Receive(c) =>
      match s.channels[s.calls[c].chan] {
        case Sent(v) => SetStatus(s, c, Done(Some(v))).(coalesced := s.coalesced + 1)
        case _ => SetStatus(s, c, Done(None))
      }
    case Abandon(c) => SetStatus(s, c, Cancelled)
  }

  // ---------------------------------------------------------------- runs

  ghost predicate ValidRun<K, V>(s: State<K, V>, run: seq<Action<K, V>>)
    decreases |run|
  {
    run == [] || (Enabled(s, run[0]) && ValidRun(Step(s, run[0]), run[1..]))
  }

  ghost function After<K, V>(s: State<K, V>, run: seq<Action<K, V>>): State<K, V>
    requires ValidRun(s, run)
    decreases |run|
  {
    if run == [] then s else After(Step(s, run[0]), run[1..])
  }

  ghost predicate Reachable<K(!new), V(!new)>(s: State<K, V>)
  {
    exists run: seq<Action<K, V>> :: ValidRun(Initial(), run) && After(Initial(), run) == s
  }

  // ---------------------------------------------------------------- the inductive invariant

  function CountServed<K, V>(calls: seq<Call<K, V>>): nat
  {
    if calls == [] then 0
    else CountServed(calls[..|calls| - 1]) + if calls[|calls| - 1].Served() then 1 else 0
  }

  ghost predicate Inv<K(!new), V(!new)>(s: State<K, V>)
  {
    && ChannelsInv(s) && LeadersInv(s) && FollowersInv(s)
    && s.coalesced == CountServed(s.calls)
  }

  /** Registered channels are open; every channel was created by exactly one leader. */
  ghost predicate ChannelsInv<K(!new), V(!new)>(s: State<K, V>)
  {
    && (forall key <- s.inFlight :: s.inFlight[key] < |s.channels| && s.channels[s.inFlight[key]].Open?)
    && (forall c | 0 <= c < |s.calls| :: s.calls[c].chan < |s.channels|)
    && (forall ch | 0 <= ch < |s.channels| :: HasLeader(s, ch))
    && (forall c, d, ch: nat :: Leads(s, c, ch) && Leads(s, d, ch) ==> c == d)
  }

  ghost predicate Leads<K, V>(s: State<K, V>, c: int, ch: nat)
  {
    0 <= c < |s.calls| && s.calls[c].role.Leader? && s.calls[c].chan == ch
  }

  ghost predicate HasLeader<K, V>(s: State<K, V>, ch: nat)
  {
    exists c :: Leads(s, c, ch)
  }

  /** A live leader is registered on its own channel; a finished one left its outcome there. */
  ghost predicate LeadersInv<K(!new), V(!new)>(s: State<K, V>)
    requires ChannelsInv(s)
  {
    && (forall c, ch: nat :: Leads(s, c, ch) ==>
          var call := s.calls[c];
          match call.status {
            case Active => call.key in s.inFlight && s.inFlight[call.key] == ch
            case Resolved(_) => call.key in s.inFlight && s.inFlight[call.key] == ch
            case Done(Some(v)) => s.channels[ch] == Sent(v)
            case _ => s.channels[ch] == Closed
          })
    && (forall key <- s.inFlight, c :: Leads(s, c, s.inFlight[key]) ==> s.calls[c].key == key && s.calls[c].Live())
  }

  /** A follower came after its leader, has its key, and returned what the channel held. */
  ghost predicate FollowersInv<K(!new), V(!new)>(s: State<K, V>)
    requires ChannelsInv(s)
  {
    && (forall f, l | 0 <= f < |s.calls| && s.calls[f].role.Follower? && Leads(s, l, s.calls[f].chan) ::
          l < f && s.calls[l].key == s.calls[f].key)
    && (forall f | 0 <= f < |s.calls| && s.calls[f].role.Follower? ::
          match s.calls[f].status {
            case Resolved(_) => false
            case Done(Some(v)) => s.channels[s.calls[f].chan] == Sent(v)
            case Done(None) => s.channels[s.calls[f].chan] == Closed
            case _ => true
          })
  }

  lemma CountServedAppend<K, V>(calls: seq<Call<K, V>>, call: Call<K, V>)
    ensures CountServed(calls + [call]) == CountServed(calls) + if call.Served() then 1 else 0
  {
    assert (calls + [call])[..|calls|] == calls;
  }

  lemma {:induction false} CountServedUpdate<K, V>(calls: seq<Call<K, V>>, c: nat, call: Call<K, V>)
    requires c < |calls| && !calls[c].Served()
    ensures CountServed(calls[c := call]) == CountServed(calls) + if call.Served() then 1 else 0
  {
    var n := |calls| - 1;
    var calls' := calls[c := call];
    if c == n {
      assert calls'[..n] == calls[..n];
    } else {
      CountServedUpdate(calls[..n], c, call);
      assert calls'[..n] == calls[..n][c := call];
    }
  }

  lemma JoinKeepsInv<K(!new), V(!new)>(s: State<K, V>, key: K)
    requires Inv(s) && key in s.inFlight
    ensures Inv(Step(s, Register(key)))
  {
    var s' := Step(s, Register(key));
    CountServedAppend(s.calls, s'.calls[|s.calls|]);
    assert s'.channels == s.channels && s'.inFlight == s.inFlight;
    JoinKeepsLeads(s, key);
    assert ChannelsInv(s');
    assert LeadersInv(s');
    JoinKeepsFollowers(s, key);
  }

  lemma JoinKeepsFollowers<K(!new), V(!new)>(s: State<K, V>, key: K)
    requires Inv(s) && key in s.inFlight && ChannelsInv(Step(s, Register(key)))
    ensures FollowersInv(Step(s, Register(key)))
  {
    var s', n := Step(s, Register(key)), |s.calls|;
    JoinKeepsLeads(s, key);
    forall f, l | 0 <= f < |s'.calls| && s'.calls[f].role.Follower? && Leads(s', l, s'.calls[f].chan)
      ensures l < f && s'.calls[l].key == s'.calls[f].key
    {
      if f < n { assert s'.calls[f] == s.calls[f]; }
    }
  }

  lemma JoinKeepsLeads<K(!new), V(!new)>(s: State<K, V>, key: K)
    requires key in s.inFlight
    ensures var s' := Step(s, Register(key));
      && (forall c, ch: nat :: Leads(s', c, ch) <==> Leads(s, c, ch))
      && forall ch: nat :: HasLeader(s', ch) <==> HasLeader(s, ch)
  {
    var s' := Step(s, Register(key));
    assert forall c, ch: nat :: Leads(s', c, ch) <==> Leads(s, c, ch);
    assert forall ch: nat :: HasLeader(s, ch) ==> HasLeader(s', ch);
  }

  lemma LeadKeepsChannels<K(!new), V(!new)>(s: State<K, V>, key: K)
    requires ChannelsInv(s) && key !in s.inFlight
    ensures var s' := Step(s, Register(key));
      && ChannelsInv(s')
      && forall c, ch: nat :: Leads(s', c, ch) <==> Leads(s, c, ch) || (c == |s.calls| && ch == |s.channels|)
  {
    var s' := Step(s, Register(key));
    var n, tx := |s.calls|, |s.channels|;
    assert forall c, ch: nat :: Leads(s', c, ch) <==> Leads(s, c, ch) || (c == n && ch == tx);
    forall ch: nat | ch < |s'.channels| ensures HasLeader(s', ch) {
      if ch < tx { assert HasLeader(s, ch); } else { assert Leads(s', n, ch); }
    }
  }

  lemma LeadKeepsInv<K(!new), V(!new)>(s: State<K, V>, key: K)
    requires Inv(s) && key !in s.inFlight
    ensures Inv(Step(s, Register(key)))
  {
    var s' := Step(s, Register(key));
    var n, tx := |s.calls|, |s.channels|;
    CountServedAppend(s.calls, s'.calls[n]);
    LeadKeepsChannels(s, key);
    assert LeadersInv(s') by {
      forall k <- s'.inFlight, c: nat | Leads(s', c, s'.inFlight[k])
        ensures s'.calls[c].key == k && s'.calls[c].Live()
      {
        if c < n { assert Leads(s, c, s.inFlight[k]); }
      }
    }
  }

  lemma UpstreamReadyKeepsInv<K(!new), V(!new)>(s: State<K, V>, c: nat, result: Option<V>)
    requires Inv(s) && Enabled(s, UpstreamReady(c, result))
    ensures Inv(Step(s, UpstreamReady(c, result)))
  {
    var s' := Step(s, UpstreamReady(c, result));
    CountServedUpdate(s.calls, c, s'.calls[c]);
    assert forall d, ch: nat :: Leads(s, d, ch) <==> Leads(s', d, ch);
    assert forall ch: nat :: HasLeader(s, ch) ==> HasLeader(s', ch);
  }

  /** Roles and channels of the calls unchanged, who leads what is unchanged. */
  lemma SameLeads<K(!new), V(!new)>(s: State<K, V>, s': State<K, V>)
    requires |s.calls| == |s'.calls|
    requires forall c | 0 <= c < |s.calls| :: s'.calls[c].role == s.calls[c].role && s'.calls[c].chan == s.calls[c].chan
    ensures forall d, ch: nat :: Leads(s', d, ch) <==> Leads(s, d, ch)
    ensures forall ch: nat :: HasLeader(s', ch) <==> HasLeader(s, ch)
  {
    assert forall d, ch: nat :: Leads(s', d, ch) <==> Leads(s, d, ch);
    assert forall ch: nat :: HasLeader(s, ch) ==> HasLeader(s', ch);
  }

  /** What dropping a guard does to the map and the channels. */
  lemma DropGuardKeepsChannels<K(!new), V(!new)>(s: State<K, V>, c: nat)
    requires Inv(s) && Enabled(s, DropGuard(c))
    ensures var s' := Step(s, DropGuard(c)); var call := s.calls[c];
      && ChannelsInv(s') && Leads(s, c, call.chan) && call.key in s.inFlight && s.inFlight[call.key] == call.chan
      && (forall d, ch: nat :: Leads(s', d, ch) <==> Leads(s, d, ch))
      && s'.inFlight == s.inFlight - {call.key} && |s'.channels| == |s.channels|
      && forall ch | 0 <= ch < |s.channels| && ch != call.chan :: s'.channels[ch] == s.channels[ch]
  {
    var s' := Step(s, DropGuard(c));
    assert Leads(s, c, s.calls[c].chan);
    SameLeads(s, s');
    forall key <- s'.inFlight
      ensures s'.inFlight[key] < |s'.channels| && s'.channels[s'.inFlight[key]].Open?
    {
      assert key in s.inFlight && key != s.calls[c].key;
      assert !Leads(s, c, s.inFlight[key]);
    }
  }

  lemma DropGuardKeepsInv<K(!new), V(!new)>(s: State<K, V>, c: nat)
    requires Inv(s) && Enabled(s, DropGuard(c))
    ensures Inv(Step(s, DropGuard(c)))
  {
    var s' := Step(s, DropGuard(c));
    CountServedUpdate(s.calls, c, s'.calls[c]);
    DropGuardKeepsChannels(s, c);
    DropGuardKeepsFollowers(s, c);
    assert LeadersInv(s');
  }

  lemma DropGuardKeepsFollowers<K(!new), V(!new)>(s: State<K, V>, c: nat)
    requires Inv(s) && Enabled(s, DropGuard(c)) && ChannelsInv(Step(s, DropGuard(c)))
    ensures FollowersInv(Step(s, DropGuard(c)))
  {
    DropGuardKeepsChannels(s, c);
  }

  /** A waiting follower that takes what the channel holds, or gives up, disturbs no other call. */
  lemma FollowerEnds<K(!new), V(!new)>(s: State<K, V>, s': State<K, V>, c: nat, status: Status<V>)
    requires Inv(s) && c < |s.calls| && s.calls[c].role.Follower? && !status.Resolved?
    requires s'.channels == s.channels && s'.inFlight == s.inFlight &&
             s'.calls == s.calls[c := s.calls[c].(status := status)]
    requires status.Done? ==> s.channels[s.calls[c].chan] == if status.outcome.Some? then Sent(status.outcome.value) else Closed
    ensures ChannelsInv(s') && LeadersInv(s') && FollowersInv(s')
  {
    SameLeads(s, s');
    assert ChannelsInv(s');
    assert LeadersInv(s');
    assert FollowersInv(s');
  }

  lemma ReceiveKeepsInv<K(!new), V(!new)>(s: State<K, V>, c: nat)
    requires Inv(s) && Enabled(s, Receive(c))
    ensures Inv(Step(s, Receive(c)))
  {
    var s' := Step(s, Receive(c));
    FollowerEnds(s, s', c, s'.calls[c].status);
    CountServedUpdate(s.calls, c, s'.calls[c]);
  }

  lemma AbandonKeepsInv<K(!new), V(!new)>(s: State<K, V>, c: nat)
    requires Inv(s) && Enabled(s, Abandon(c))
    ensures Inv(Step(s, Abandon(c)))
  {
    var s' := Step(s, Abandon(c));
    FollowerEnds(s, s', c, Cancelled);
    CountServedUpdate(s.calls, c, s'.calls[c]);
  }

  lemma StepKeepsInv<K(!new), V(!new)>(s: State<K, V>, a: Action<K, V>)
    requires Inv(s) && Enabled(s, a)
    ensures Inv(Step(s, a))
  {
    match a {
      case Register(key) => if key in s.inFlight { JoinKeepsInv(s, key); } else { LeadKeepsInv(s, key); }
      case UpstreamReady(c, result) => UpstreamReadyKeepsInv(s, c, result);
      case DropGuard(c) => DropGuardKeepsInv(s, c);
      case Receive(c) => ReceiveKeepsInv(s, c);
      case Abandon(c) => AbandonKeepsInv(s, c);
    }
  }

  lemma {:induction false} RunKeepsInv<K(!new), V(!new)>(s: State<K, V>, run: seq<Action<K, V>>)
    requires Inv(s) && ValidRun(s, run)
    ensures Inv(After(s, run))
    decreases |run|
  {
    if run == [] {
    } else {
      StepKeepsInv(s, run[0]);
      RunKeepsInv(Step(s, run[0]), run[1..]);
    }
  }

  lemma ReachableInv<K(!new), V(!new)>(s: State<K, V>)
    requires Reachable(s)
    ensures Inv(s)
  {
    var run :| ValidRun(Initial<K, V>(), run) && After(Initial(), run) == s;
    assert forall c, ch: nat :: !Leads(Initial<K, V>(), c, ch);
    RunKeepsInv(Initial(), run);
  }

  // ---------------------------------------------------------------- safety

  /** A key is registered exactly while it has a live leader, and it never has two. */
  lemma OneLiveLeaderPerKey<K(!new), V(!new)>(s: State<K, V>, key: K)
    requires Reachable(s)
    ensures key in s.inFlight <==> exists c :: 0 <= c < |s.calls| && s.calls[c].key == key && s.calls[c].Live()
    ensures forall c, d | 0 <= c < |s.calls| && 0 <= d < |s.calls| ::
              s.calls[c].key == key == s.calls[d].key && s.calls[c].Live() && s.calls[d].Live() ==> c == d
  {
    ReachableInv(s);
    forall c | 0 <= c < |s.calls| && s.calls[c].key == key && s.calls[c].Live()
      ensures key in s.inFlight && Leads(s, c, s.inFlight[key])
    {
      assert Leads(s, c, s.calls[c].chan);
    }
    if key in s.inFlight {
      assert HasLeader(s, s.inFlight[key]);
      var c :| Leads(s, c, s.inFlight[key]);
      assert s.calls[c].key == key && s.calls[c].Live();
    }
  }

  /** A follower that has returned subscribed to one earlier leader of the same key, that leader
    * is over, and the follower's outcome is the leader's: a value exactly when the leader
    * finished with that value, nothing when it failed or was cancelled. */
  lemma FollowerOutcomeIsLeaders<K(!new), V(!new)>(s: State<K, V>, f: nat) returns (l: nat)
    requires Reachable(s) && f < |s.calls| && s.calls[f].role.Follower? && s.calls[f].status.Done?
    ensures l < f && s.calls[l].role.Leader? && s.calls[l].chan == s.calls[f].chan && s.calls[l].key == s.calls[f].key
    ensures forall d | 0 <= d < |s.calls| :: s.calls[d].role.Leader? && s.calls[d].chan == s.calls[f].chan ==> d == l
    ensures s.calls[l].Finished()
    ensures s.calls[f].status.outcome == if s.calls[l].status.Done? then s.calls[l].status.outcome else None
  {
    ReachableInv(s);
    assert HasLeader(s, s.calls[f].chan);
    l :| Leads(s, l, s.calls[f].chan);
    forall d | 0 <= d < |s.calls| && s.calls[d].role.Leader? && s.calls[d].chan == s.calls[f].chan
      ensures d == l
    {
      assert Leads(s, d, s.calls[f].chan);
    }
  }

  /** The `coalesced` counter counts exactly the followers that were given a value. */
  lemma CoalescedCountsServed<K(!new), V(!new)>(s: State<K, V>)
    requires Reachable(s)
    ensures s.coalesced == |set c | 0 <= c < |s.calls| && s.calls[c].Served()|
  {
    ReachableInv(s);
    CountServedIsCardinality(s.calls);
  }

  lemma {:induction false} CountServedIsCardinality<K, V>(calls: seq<Call<K, V>>)
    ensures CountServed(calls) == |set c | 0 <= c < |calls| && calls[c].Served()|
  {
    var served := set c | 0 <= c < |calls| && calls[c].Served();
    if calls == [] {
      assert served == {};
    } else {
      var n := |calls| - 1;
      CountServedIsCardinality(calls[..n]);
      var before := set c | 0 <= c < n && calls[..n][c].Served();
      assert served == before + (if calls[n].Served() then {n} else {});
    }
  }

  // ---------------------------------------------------------------- what the actions of a run decide

  /** The i-th action is the upstream answer to call `c`. */
  ghost predicate AnswerAt<K, V>(run: seq<Action<K, V>>, i: int, c: nat) {
    0 <= i < |run| && run[i].UpstreamReady? && run[i].c == c
  }

  /** Upstream answered call `c` once, with `result`. */
  ghost predicate AnsweredOnce<K(!new), V(!new)>(run: seq<Action<K, V>>, c: nat, result: Option<V>) {
    && UpstreamReady(c, result) in run
    && forall i, j | AnswerAt(run, i, c) && AnswerAt(run, j, c) :: i == j
  }

  ghost predicate Answered<K(!new), V(!new)>(run: seq<Action<K, V>>, c: nat) {
    exists i :: AnswerAt(run, i, c)
  }

  /** The keys of the arrivals, in order. */
  ghost function Arrivals<K, V>(run: seq<Action<K, V>>): seq<K> {
    if run == [] then []
    else Arrivals(run[..|run| - 1]) + if run[|run| - 1].Register? then [run[|run| - 1].key] else []
  }

  /** What a leader's status says about the actions so far. */
  ghost predicate LeaderTold<K(!new), V(!new)>(run: seq<Action<K, V>>, c: nat, status: Status<V>) {
    match status
    case Active => !Answered(run, c) && DropGuard(c) !in run
    case Resolved(result) => AnsweredOnce(run, c, result) && DropGuard(c) !in run
    case Done(outcome) => AnsweredOnce(run, c, outcome) && DropGuard(c) in run
    case Cancelled => !Answered(run, c) && DropGuard(c) in run
  }

  ghost predicate FollowerTold<K, V>(run: seq<Action<K, V>>, c: nat, status: Status<V>) {
    (status.Done? <==> Receive(c) in run) && (status.Cancelled? <==> Abandon(c) in run)
  }

  /** The calls of `s` are those that arrived in `run`, and are where its actions brought them. */
  ghost predicate Told<K(!new), V(!new)>(run: seq<Action<K, V>>, s: State<K, V>) {
    && (forall a <- run :: !a.Register? ==> a.c < |s.calls|)
    && Arrivals(run) == seq(|s.calls|, i requires 0 <= i < |s.calls| => s.calls[i].key)
    && forall c: nat | c < |s.calls| ::
         if s.calls[c].role.Leader? then LeaderTold(run, c, s.calls[c].status) else FollowerTold(run, c, s.calls[c].status)
  }

  lemma AnswersSnoc<K(!new), V(!new)>(run: seq<Action<K, V>>, a: Action<K, V>, c: nat, result: Option<V>)
    ensures Answered(run + [a], c) <==> Answered(run, c) || (a.UpstreamReady? && a.c == c)
    ensures !(a.UpstreamReady? && a.c == c) && AnsweredOnce(run, c, result) ==> AnsweredOnce(run + [a], c, result)
    ensures a == UpstreamReady(c, result) && !Answered(run, c) ==> AnsweredOnce(run + [a], c, result)
  {
    var n := |run|;
    assert (run + [a])[n] == a && a in run + [a];
    assert forall i :: 0 <= i < n ==> (run + [a])[i] == run[i];
    assert forall i :: AnswerAt(run + [a], i, c) <==> AnswerAt(run, i, c) || (i == n && AnswerAt(run + [a], n, c));
    if i :| AnswerAt(run, i, c) { assert AnswerAt(run + [a], i, c); }
    if a.UpstreamReady? && a.c == c { assert AnswerAt(run + [a], n, c); }
  }

  lemma AnswerIsOnly<K(!new), V(!new)>(run: seq<Action<K, V>>, c: nat, result: Option<V>)
    requires UpstreamReady(c, result) in run
    ensures Answered(run, c) && forall other | AnsweredOnce(run, c, other) :: other == result
  {
    var i :| 0 <= i < |run| && run[i] == UpstreamReady(c, result);
    assert AnswerAt(run, i, c);
    forall other | AnsweredOnce(run, c, other) ensures other == result {
      var j :| 0 <= j < |run| && run[j] == UpstreamReady(c, other);
      assert AnswerAt(run, j, c);
    }
  }

  lemma NotYet<K(!new), V(!new)>(run: seq<Action<K, V>>, c: nat)
    requires forall a <- run :: !a.Register? ==> a.c < c
    ensures LeaderTold(run, c, Active) && FollowerTold(run, c, Active)
  {
    assert forall i :: !AnswerAt(run, i, c);
  }

  /** An action of another call, or an arrival, changes nothing about a call. */
  lemma OtherToldSnoc<K(!new), V(!new)>(run: seq<Action<K, V>>, a: Action<K, V>, c: nat, status: Status<V>)
    requires a.Register? || a.c != c
    ensures LeaderTold(run, c, status) ==> LeaderTold(run + [a], c, status)
    ensures FollowerTold(run, c, status) ==> FollowerTold(run + [a], c, status)
  {
    var result := if status.Resolved? then status.result else if status.Done? then status.outcome else None;
    AnswersSnoc(run, a, c, result);
  }

  /** The action of a call changes its status as it changes what is told. */
  lemma OwnToldSnoc<K(!new), V(!new)>(run: seq<Action<K, V>>, s: State<K, V>, a: Action<K, V>)
    requires Enabled(s, a) && !a.Register?
    requires if s.calls[a.c].role.Leader? then LeaderTold(run, a.c, s.calls[a.c].status) else FollowerTold(run, a.c, s.calls[a.c].status)
    ensures var status := Step(s, a).calls[a.c].status;
      if s.calls[a.c].role.Leader? then LeaderTold(run + [a], a.c, status) else FollowerTold(run + [a], a.c, status)
  {
    var status := s.calls[a.c].status;
    var result := if a.UpstreamReady? then a.result else if status.Resolved? then status.result else None;
    AnswersSnoc(run, a, a.c, result);
    assert a in run + [a];
  }

  lemma ArrivalsSnoc<K, V>(run: seq<Action<K, V>>, a: Action<K, V>)
    ensures Arrivals(run + [a]) == Arrivals(run) + if a.Register? then [a.key] else []
  {
    assert (run + [a])[..|run|] == run;
  }

  lemma StepKeepsTold<K(!new), V(!new)>(run: seq<Action<K, V>>, s: State<K, V>, a: Action<K, V>)
    requires Told(run, s) && Enabled(s, a)
    ensures Told(run + [a], Step(s, a))
  {
    var s' := Step(s, a);
    ArrivalsSnoc(run, a);
    forall c: nat | c < |s'.calls|
      ensures if s'.calls[c].role.Leader? then LeaderTold(run + [a], c, s'.calls[c].status) else FollowerTold(run + [a], c, s'.calls[c].status)
    {
      if a.Register? || a.c != c {
        if c == |s.calls| { NotYet(run, c); }
        OtherToldSnoc(run, a, c, s'.calls[c].status);
      } else {
        OwnToldSnoc(run, s, a);
      }
    }
  }

  lemma {:induction false} RunTold<K(!new), V(!new)>(past: seq<Action<K, V>>, s: State<K, V>, run: seq<Action<K, V>>)
    requires Told(past, s) && ValidRun(s, run)
    ensures Told(past + run, After(s, run))
    decreases |run|
  {
    if run == [] {
      assert past + [] == past;
    } else {
      StepKeepsTold(past, s, run[0]);
      RunTold(past + [run[0]], Step(s, run[0]), run[1..]);
      assert past + [run[0]] + run[1..] == past + run;
    }
  }

  lemma RunIsTold<K(!new), V(!new)>(run: seq<Action<K, V>>)
    requires ValidRun(Initial<K, V>(), run)
    ensures Told(run, After(Initial(), run)) && Inv(After(Initial(), run))
  {
    RunTold([], Initial<K, V>(), run);
    assert [] + run == run;
    ReachableInv(After(Initial<K, V>(), run));
  }

  /** Over every run, a leader returns exactly what upstream answered it, once its guard is gone: upstream
    * answered it once, and with that; without an answer it was cancelled. */
  lemma LeaderReturnsUpstreamsAnswer<K(!new), V(!new)>(run: seq<Action<K, V>>, l: nat, outcome: Option<V>)
    requires ValidRun(Initial<K, V>(), run)
    requires var s := After(Initial(), run); l < |s.calls| && s.calls[l].role.Leader?
    ensures var status := After(Initial(), run).calls[l].status;
      && (status == Done(outcome) <==> UpstreamReady(l, outcome) in run && DropGuard(l) in run)
      && (status.Cancelled? <==> DropGuard(l) in run && !Answered(run, l))
    ensures forall i, j | AnswerAt(run, i, l) && AnswerAt(run, j, l) :: i == j
  {
    RunIsTold(run);
    var status := After(Initial<K, V>(), run).calls[l].status;
    assert LeaderTold(run, l, status);
    if UpstreamReady(l, outcome) in run { AnswerIsOnly(run, l, outcome); }
    if status.Resolved? { AnswerIsOnly(run, l, status.result); }
    if status.Done? { AnswerIsOnly(run, l, status.outcome); }
  }

  /** A follower that woke up returns the value upstream gave its leader, and nothing if upstream gave none;
    * it returns only by waking up, and after its leader's guard is gone. */
  lemma FollowerReturnsUpstreamsAnswer<K(!new), V(!new)>(run: seq<Action<K, V>>, f: nat) returns (l: nat)
    requires ValidRun(Initial<K, V>(), run)
    requires var s := After(Initial(), run); f < |s.calls| && s.calls[f].role.Follower?
    ensures var s := After(Initial(), run); var status := s.calls[f].status;
      && l < f && s.calls[l].role.Leader? && s.calls[l].key == s.calls[f].key && s.calls[l].chan == s.calls[f].chan
      && (status.Done? <==> Receive(f) in run) && (status.Done? ==> DropGuard(l) in run)
      && (status.Done? ==> forall v :: status.outcome == Some(v) <==> UpstreamReady(l, Some(v)) in run)
  {
    var s := After(Initial<K, V>(), run);
    RunIsTold(run);
    assert HasLeader(s, s.calls[f].chan);
    l :| Leads(s, l, s.calls[f].chan);
    if s.calls[f].status.Done? {
      forall v ensures s.calls[f].status.outcome == Some(v) <==> UpstreamReady(l, Some(v)) in run {
        LeaderReturnsUpstreamsAnswer(run, l, Some(v));
      }
    }
  }

  /** The c-th call has the key of the c-th arrival. */
  lemma CallsAreArrivals<K(!new), V(!new)>(run: seq<Action<K, V>>)
    requires ValidRun(Initial<K, V>(), run)
    ensures var s := After(Initial(), run); Arrivals(run) == seq(|s.calls|, i requires 0 <= i < |s.calls| => s.calls[i].key)
  {
    RunIsTold(run);
  }

  // ---------------------------------------------------------------- progress

  function Work<K, V>(call: Call<K, V>): nat
  {
    if call.Finished() then 0 else if call.role.Leader? && call.status.Active? then 2 else 1
  }

  function TotalWork<K, V>(calls: seq<Call<K, V>>): nat
  {
    if calls == [] then 0 else TotalWork(calls[..|calls| - 1]) + Work(calls[|calls| - 1])
  }

  lemma {:induction false} TotalWorkUpdate<K, V>(calls: seq<Call<K, V>>, c: nat, call: Call<K, V>)
    requires c < |calls|
    ensures TotalWork(calls[c := call]) == TotalWork(calls) - Work(calls[c]) + Work(call)
  {
    var n := |calls| - 1;
    if c == n {
      assert calls[c := call][..n] == calls[..n];
    } else {
      TotalWorkUpdate(calls[..n], c, call);
      assert calls[c := call][..n] == calls[..n][c := call];
    }
  }

  /** Every action but an arrival uses up work, so only finitely many can happen between arrivals. */
  lemma StepUsesWork<K(!new), V(!new)>(s: State<K, V>, a: Action<K, V>)
    requires Enabled(s, a) && !a.Register?
    ensures TotalWork(Step(s, a).calls) < TotalWork(s.calls)
  {
    TotalWorkUpdate(s.calls, a.c, Step(s, a).calls[a.c]);
  }

  /** No waiting follower is stuck: either it can wake now, or its leader is live, and the end of
    * that leader, by result or by cancellation, lets it wake. */
  lemma WaitingFollowerCanWake<K(!new), V(!new)>(s: State<K, V>, f: nat)
    requires Reachable(s) && f < |s.calls| && s.calls[f].role.Follower? && s.calls[f].status.Active?
    ensures Enabled(s, Receive(f)) ||
            exists l: nat :: l < f && s.calls[l].key == s.calls[f].key && Enabled(s, DropGuard(l)) &&
                             Enabled(Step(s, DropGuard(l)), Receive(f))
  {
    ReachableInv(s);
    if s.channels[s.calls[f].chan].Open? {
      assert HasLeader(s, s.calls[f].chan);
      var l: nat :| Leads(s, l, s.calls[f].chan);
      assert Enabled(s, DropGuard(l)) && Enabled(Step(s, DropGuard(l)), Receive(f));
    }
  }

  /** In `t` the calls of `s` have come to an end, and no more of them were cancelled. */
  ghost predicate Finishes<K, V>(s: State<K, V>, t: State<K, V>) {
    && |t.calls| == |s.calls|
    && forall c | 0 <= c < |s.calls| :: t.calls[c].Finished() && (t.calls[c].status.Cancelled? ==> s.calls[c].status.Cancelled?)
  }

  lemma FinishesAfterStep<K, V>(s: State<K, V>, a: Action<K, V>, t: State<K, V>)
    requires Enabled(s, a) && Finishes(Step(s, a), t) && !a.Register? && !a.Abandon?
    requires a.DropGuard? ==> s.calls[a.c].status.Resolved?
    ensures Finishes(s, t)
  {
    assert |Step(s, a).calls| == |s.calls|;
    assert forall c | 0 <= c < |s.calls| :: Step(s, a).calls[c].status.Cancelled? ==> s.calls[c].status.Cancelled?;
  }

  /** Without arrivals and without cancelling anybody, the calls of a reachable state can all be
    * brought to an end, whatever the upstream answers. */
  lemma {:induction false} EveryCallCanFinish<K(!new), V(!new)>(s: State<K, V>, answer: Option<V>)
    returns (run: seq<Action<K, V>>)
    requires Inv(s)
    ensures ValidRun(s, run) && |run| <= TotalWork(s.calls)
    ensures forall a <- run :: a.Receive? || a.DropGuard? || (a.UpstreamReady? && a.result == answer)
    ensures Finishes(s, After(s, run))
    decreases TotalWork(s.calls)
  {
    if c :| 0 <= c < |s.calls| && !s.calls[c].Finished() {
      var a := NextAction(s, c, answer);
      StepKeepsInv(s, a);
      StepUsesWork(s, a);
      var rest := EveryCallCanFinish(Step(s, a), answer);
      run := [a] + rest;
      assert run[1..] == rest;
      FinishesAfterStep(s, a, After(s, run));
    } else {
      run := [];
    }
  }

  /** Some action other than an arrival or a cancellation is possible while a call is unfinished. */
  lemma NextAction<K(!new), V(!new)>(s: State<K, V>, c: nat, answer: Option<V>) returns (a: Action<K, V>)
    requires Inv(s) && c < |s.calls| && !s.calls[c].Finished()
    ensures Enabled(s, a) && !a.Register? && !a.Abandon?
    ensures a.Receive? || (a.UpstreamReady? && a.result == answer) || (a.DropGuard? && s.calls[a.c].status.Resolved?)
  {
    if s.calls[c].role.Follower? && !s.channels[s.calls[c].chan].Open? {
      a := Receive(c);
    } else {
      assert HasLeader(s, s.calls[c].chan);
      var l: nat :| Leads(s, l, s.calls[c].chan);
      a := if s.calls[l].status.Active? then UpstreamReady(l, answer) else DropGuard(l);
    }
  }

  // ---------------------------------------------------------------- the object

  /** The shared object and the futures running over it, updated in place. */
  class Coalescer<K(==, !new), V(!new)> {
    var inFlight: map<K, nat>
    var channels: seq<Channel<V>>
    var calls: seq<Call<K, V>>
    var coalesced: nat

    ghost function Model(): State<K, V> reads this { State(inFlight, channels, calls, coalesced) }

    constructor ()
      ensures Model() == Initial()
    {
      inFlight, channels, calls, coalesced := map[], [], [], 0;
    }

    /** `do_call` up to its first await. */
    method Start(key: K) returns (c: nat)
      requires Inv(Model())
      modifies this
      ensures Model() == Step(old(Model()), Register(key)) && Inv(Model())
      ensures c == old(|calls|) && |calls| == c + 1 && calls[c].key == key
    {
      StepKeepsInv(Model(), Register(key));
      c := |calls|;
      if key in inFlight {
        calls := calls + [Call(key, inFlight[key], Follower, Active)];
      } else {
        inFlight := inFlight[key := |channels|];
        calls := calls + [Call(key, |channels|, Leader, Active)];
        channels := channels + [Open];
      }
    }

    /** The upstream future is ready: the guard takes a copy of its result. */
    method StoreResult(c: nat, result: Option<V>)
      requires Inv(Model()) && Enabled(Model(), UpstreamReady(c, result))
      modifies this`calls
      ensures Model() == Step(old(Model()), UpstreamReady(c, result)) && Inv(Model())
      ensures calls[c].status == Resolved(result)
    {
      StepKeepsInv(Model(), UpstreamReady(c, result));
      calls := calls[c := calls[c].(status := Resolved(result))];
    }

    /** `SingleflightGuard::drop`, after completion or on cancellation. */
    method Drop(c: nat)
      requires Inv(Model()) && Enabled(Model(), DropGuard(c))
      modifies this
      ensures Model() == Step(old(Model()), DropGuard(c)) && Inv(Model())
      ensures calls[c].key !in inFlight
      ensures calls[c].status == if old(calls[c].status).Resolved? then Done(old(calls[c].status).result) else Cancelled
    {
      StepKeepsInv(Model(), DropGuard(c));
      var key, status := calls[c].key, calls[c].status;
      if key in inFlight && inFlight[key] < |channels| {
        var tx := inFlight[key];
        inFlight := inFlight - {key};
        if status.Resolved? && status.result.Some? {
          channels := channels[tx := Sent(status.result.value)];
        } else {
          channels := channels[tx := Closed];
        }
      }
      calls := calls[c := calls[c].(status := if status.Resolved? then Done(status.result) else Cancelled)];
    }

    /** A follower's `recv` completes. */
    method Recv(f: nat) returns (outcome: Option<V>)
      requires Inv(Model()) && Enabled(Model(), Receive(f))
      modifies this`calls, this`coalesced
      ensures Model() == Step(old(Model()), Receive(f)) && Inv(Model())
      ensures calls[f].status == Done(outcome)
      ensures coalesced == old(coalesced) + if outcome.Some? then 1 else 0
    {
      StepKeepsInv(Model(), Receive(f));
      match channels[calls[f].chan] {
        case Sent(v) =>
          coalesced := coalesced + 1;
          outcome := Some(v);
        case _ =>
          outcome := None;
      }
      calls := calls[f := calls[f].(status := Done(outcome))];
    }
  }
}
