// What a resolved provenance says about the window, message by message.
module Accounting {
  import opened Wrappers
  import opened Conversation
  import opened Lists
  import opened Provenance

  ghost predicate DistinctIds(events: seq<MessageEvent>) {
    forall i, j :: 0 <= i < j < |events| ==> events[i].eventId != events[j].eventId
  }

  function EventTypeOf(m: ChatMessage): string {
    if IsContextHandoff(m) then SWITCH_CREATED else MESSAGE_CREATED
  }

  // Each message of `ms` has its own stored event of the right type in `loaded`.
  ghost predicate Accounts(env: Env, ms: seq<ChatMessage>, loaded: seq<MessageEvent>, matched: seq<MessageEvent>) {
    && |matched| == |ms|
    && DistinctIds(matched)
    && forall i :: 0 <= i < |ms| ==>
         Matches(env, ms[i], matched[i]) && matched[i] in loaded && matched[i].eventType == EventTypeOf(ms[i])
  }

  // ---------------------------------------------------------------- distinct ids survive sorting and filtering

  lemma {:induction false} InsertKeepsIdsDistinct(key: MessageEvent -> int, x: MessageEvent, s: seq<MessageEvent>)
    requires DistinctIds(s) && forall e :: e in s ==> e.eventId != x.eventId
    ensures DistinctIds(Insert(key, x, s))
  {
    if s != [] && key(s[0]) < key(x) {
      InsertKeepsIdsDistinct(key, x, s[1..]);
      var r := Insert(key, x, s[1..]);
      forall j | 0 <= j < |r| ensures r[j].eventId != s[0].eventId {
        assert r[j] in r;
      }
    }
  }

  lemma {:induction false} SortKeepsIdsDistinct(key: MessageEvent -> int, s: seq<MessageEvent>)
    requires DistinctIds(s)
    ensures DistinctIds(StableSort(key, s))
  {
    if s != [] {
      var rest := StableSort(key, s[1..]);
      SortKeepsIdsDistinct(key, s[1..]);
      forall j | 0 <= j < |rest| ensures rest[j].eventId != s[0].eventId {
        assert rest[j] in s[1..];
      }
      InsertKeepsIdsDistinct(key, s[0], rest);
    }
  }

  lemma {:induction false} FilterKeepsIdsDistinct(keep: MessageEvent -> bool, s: seq<MessageEvent>)
    requires DistinctIds(s)
    ensures DistinctIds(Filter(keep, s))
  {
    if s != [] {
      var rest := Filter(keep, s[1..]);
      FilterKeepsIdsDistinct(keep, s[1..]);
      forall j | 0 <= j < |rest| ensures rest[j].eventId != s[0].eventId {
        assert rest[j] in s[1..];
      }
    }
  }

  // ---------------------------------------------------------------- from runs to messages

  // The messages of the first `n` runs.
  function Concat(runs: seq<Run>): seq<ChatMessage> {
    if runs == [] then [] else Concat(runs[..|runs| - 1]) + runs[|runs| - 1]
  }

  lemma {:induction false} ConcatCons(run: Run, runs: seq<Run>)
    ensures Concat([run] + runs) == run + Concat(runs)
  {
    if runs == [] {
      assert ([run] + runs)[..0] == [];
    } else {
      var n := |runs| - 1;
      assert ([run] + runs)[..n + 1] == [run] + runs[..n];
      ConcatCons(run, runs[..n]);
    }
  }

  lemma {:induction false} RunsConcat(ms: seq<ChatMessage>)
    ensures Concat(Runs(ms)) == ms
  {
    if ms != [] {
      var run := FirstRun(ms);
      RunsConcat(ms[|run|..]);
      ConcatCons(run, Runs(ms[|run|..]));
    }
  }

  ghost predicate PoolsAreTyped(pools: Pools, loaded: seq<MessageEvent>) {
    && (forall e :: e in pools.created ==> e in loaded && e.eventType == MESSAGE_CREATED)
    && (forall e :: e in pools.switches ==> e in loaded && e.eventType == SWITCH_CREATED)
    && DistinctIds(pools.created) && DistinctIds(pools.switches)
  }

  lemma {:induction false} TypedPools(loaded: seq<MessageEvent>)
    requires DistinctIds(loaded)
    ensures PoolsAreTyped(PoolsOf(loaded), loaded)
  {
    SortKeepsIdsDistinct((e: MessageEvent) => e.id, loaded);
    FilterKeepsIdsDistinct((e: MessageEvent) => e.eventType == MESSAGE_CREATED, ById(loaded));
    FilterKeepsIdsDistinct((e: MessageEvent) => e.eventType == SWITCH_CREATED, ById(loaded));
  }

  lemma {:induction false} WindowAccounts(env: Env, pools: Pools, loaded: seq<MessageEvent>, run: Run, w: nat)
    requires PoolsAreTyped(pools, loaded) && Homogeneous(run) && Fits(env, pools, run, w)
    ensures Accounts(env, run, loaded, Window(pools, run, w))
  {
    var window, pool := Window(pools, run, w), pools.For(run);
    forall i | 0 <= i < |run|
      ensures window[i] in loaded && window[i].eventType == EventTypeOf(run[i])
    {
      assert window[i] == pool[w + i];
      assert window[i] in pool;
    }
  }

  lemma {:induction false} AccountsConcat(env: Env, loaded: seq<MessageEvent>,
                                          a: seq<ChatMessage>, ea: seq<MessageEvent>, b: seq<ChatMessage>,
                                          eb: seq<MessageEvent>)
    requires Accounts(env, a, loaded, ea) && Accounts(env, b, loaded, eb)
    requires IdSet(ea) !! IdSet(eb)
    ensures Accounts(env, a + b, loaded, ea + eb)
  {
    hide Matches, EventTypeOf;
    forall i, j | 0 <= i < |ea| && 0 <= j < |eb| ensures ea[i].eventId != eb[j].eventId {
      assert ea[i].eventId in IdSet(ea) && eb[j].eventId in IdSet(eb);
    }
  }

  lemma {:induction false} OneMoreRunAccounts(env: Env, pools: Pools,
                                              loaded: seq<MessageEvent>, runs: seq<Run>, at: seq<nat>, w: nat)
    requires |at| < |runs| && PoolsAreTyped(pools, loaded) && Homogeneous(runs[|at|])
    requires Accounts(env, Concat(runs[..|at|]), loaded, Matched(pools, runs, at))
    requires IsCandidate(env, pools, runs[|at|], IdSet(Matched(pools, runs, at)), w)
    ensures Accounts(env, Concat(runs[..|at| + 1]), loaded, Matched(pools, runs, at + [w]))
  {
    hide Accounts, Window, Fits, IdSet, PoolsAreTyped, Homogeneous, Matched;
    var n := |at|;
    WindowAccounts(env, pools, loaded, runs[n], w);
    AccountsConcat(env, loaded, Concat(runs[..n]), Matched(pools, runs, at), runs[n], Window(pools, runs[n], w));
    MatchedOneMore(pools, runs, at, w);
    assert runs[..n + 1][..n] == runs[..n];
  }

  lemma {:induction false} NoRunsAccount(env: Env, pools: Pools, loaded: seq<MessageEvent>, runs: seq<Run>)
    ensures Accounts(env, Concat(runs[..0]), loaded, Matched(pools, runs, []))
  {
  }

  lemma {:induction false} PlacementAccounts(env: Env, pools: Pools,
                                             loaded: seq<MessageEvent>, runs: seq<Run>, at: seq<nat>)
    requires PoolsAreTyped(pools, loaded) && forall i :: 0 <= i < |runs| ==> Homogeneous(runs[i])
    requires |at| <= |runs| && Placed(env, pools, runs, at)
    ensures Accounts(env, Concat(runs[..|at|]), loaded, Matched(pools, runs, at))
  {
    hide Accounts, IsCandidate, PoolsAreTyped, Placed, Homogeneous, Matched, Concat;
    if at == [] {
      NoRunsAccount(env, pools, loaded, runs);
    } else {
      var before, w := at[..|at| - 1], at[|at| - 1];
      assert at == before + [w];
      LastIsCandidate(env, pools, runs, before, w);
      PlacementAccounts(env, pools, loaded, runs, before);
      OneMoreRunAccounts(env, pools, loaded, runs, before, w);
    }
  }

  lemma {:induction false} CompanionSplit(env: Env, window: seq<ChatMessage>)
    ensures |Durable(env, window)| + |Companions(env, window)| == |window|
  {
    if window != [] { CompanionSplit(env, window[1..]); }
  }

  lemma {:induction false} RunsAreHomogeneous(ms: seq<ChatMessage>)
    ensures forall i :: 0 <= i < |Runs(ms)| ==> Homogeneous(Runs(ms)[i])
  {
    if ms != [] { RunsAreHomogeneous(ms[|FirstRun(ms)|..]); }
  }

  lemma {:induction false} WholePlacementAccounts(env: Env,
                                                  ms: seq<ChatMessage>, loaded: seq<MessageEvent>, at: seq<nat>)
    requires DistinctIds(loaded)
    requires |at| == |Runs(ms)| && Placed(env, PoolsOf(loaded), Runs(ms), at)
    ensures Accounts(env, ms, loaded, Matched(PoolsOf(loaded), Runs(ms), at))
  {
    hide Accounts, Placed, PoolsOf, PoolsAreTyped, Matched;
    TypedPools(loaded);
    RunsAreHomogeneous(ms);
    PlacementAccounts(env, PoolsOf(loaded), loaded, Runs(ms), at);
    assert Runs(ms)[..|at|] == Runs(ms);
    RunsConcat(ms);
  }

  lemma {:induction false} ResolvedEvents(env: Env, hasSession: bool, window: seq<ChatMessage>,
                                          loaded: seq<MessageEvent>, prov: Provenance)
      returns (matched: seq<MessageEvent>)
    requires DistinctIds(loaded) && Resolves(env, hasSession, window, loaded, Some(prov))
    ensures Accounts(env, Durable(env, window), loaded, matched)
    ensures matched != [] && prov == Describe(matched, |Companions(env, window)|)
  {
    hide Accounts, Placed, Unambiguous;
    var ms, pools := Durable(env, window), PoolsOf(loaded);
    var at :| |at| == |Runs(ms)| && OnlyPlacement(env, pools, Runs(ms), at) && Matched(pools, Runs(ms), at) != []
              && Some(prov) == Some(Describe(Matched(pools, Runs(ms), at), |Companions(env, window)|));
    WholePlacementAccounts(env, ms, loaded, at);
    matched := Matched(pools, Runs(ms), at);
  }

  // Role, text and type of each matched event.
  lemma {:induction false} AccountsLiterally(env: Env, ms: seq<ChatMessage>, loaded: seq<MessageEvent>,
                                             matched: seq<MessageEvent>)
    requires Accounts(env, ms, loaded, matched)
    ensures |matched| == |ms| && forall i :: 0 <= i < |matched| ==>
              var m, e := ms[i], matched[i];
              && e in loaded && e.role == m.role
              && (e.content == m.content || e.content == env.redact(m.content) || e.content == env.sanitize(m.content))
              && e.eventType == (if m.role == "assistant" && "[context_handoff]" <= m.content
                                 then "context.switch.created" else "message.created")
  {
  }

  // An answer of the resolver gives every durable message its own stored event,
  // counts the rest as companions, and bounds the rows of all of them.
  lemma {:induction false} ResolutionAccounts(env: Env, hasSession: bool, window: seq<ChatMessage>,
                                              loaded: seq<MessageEvent>, prov: Provenance)
      returns (matched: seq<MessageEvent>)
    requires DistinctIds(loaded) && Resolves(env, hasSession, window, loaded, Some(prov))
    ensures Accounts(env, Durable(env, window), loaded, matched)
    ensures forall i :: 0 <= i < |matched| ==>
              var m, e := Durable(env, window)[i], matched[i];
              && e in loaded && e.role == m.role
              && (e.content == m.content || e.content == env.redact(m.content) || e.content == env.sanitize(m.content))
              && e.eventType == (if m.role == "assistant" && "[context_handoff]" <= m.content
                                 then "context.switch.created" else "message.created")
    ensures prov.sourceEventIds == Ids(matched) && matched != []
    ensures |prov.sourceEventIds| + prov.companionCount == |window|
    ensures forall e :: e in matched ==> prov.firstRowId <= e.id <= prov.lastRowId
    ensures exists e, f :: e in matched && f in matched
                           && e.id == prov.firstRowId && e.eventId == prov.firstEventId
                           && f.id == prov.lastRowId && f.eventId == prov.lastEventId
  {
    matched := ResolvedEvents(env, hasSession, window, loaded, prov);
    AccountsLiterally(env, Durable(env, window), loaded, matched);
    hide Accounts, Resolves, Durable;
    CompanionSplit(env, window);
  }

  // Two answers for one window agree, and every way of placing its runs on
  // disjoint windows names the events of the answer.
  lemma {:induction false} ResolutionIsForced(env: Env, hasSession: bool, window: seq<ChatMessage>,
                                              loaded: seq<MessageEvent>, prov: Provenance, at: seq<nat>)
    requires Resolves(env, hasSession, window, loaded, Some(prov))
    requires |at| == |Runs(Durable(env, window))|
    requires Placed(env, PoolsOf(loaded), Runs(Durable(env, window)), at)
    ensures prov.sourceEventIds == Ids(Matched(PoolsOf(loaded), Runs(Durable(env, window)), at))
  {
  }

  lemma {:induction false} ResolutionIsUnique(env: Env, hasSession: bool, window: seq<ChatMessage>,
                                              loaded: seq<MessageEvent>, r1: Option<Provenance>, r2: Option<Provenance>)
    requires Resolves(env, hasSession, window, loaded, r1) && Resolves(env, hasSession, window, loaded, r2)
    ensures r1 == r2
  {
    hide Unambiguous, Placed;
  }
}
