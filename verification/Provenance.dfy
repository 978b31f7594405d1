// `resolve_compaction_event_provenance`: which stored events a cold window came from.
module Provenance {
  import opened Wrappers
  import opened Conversation
  import opened Lists

  const MESSAGE_CREATED: string := "message.created"
  const SWITCH_CREATED: string := "context.switch.created"

  datatype Provenance = Provenance(
    sourceEventIds: seq<string>,
    firstEventId: string,
    lastEventId: string,
    firstRowId: int,
    lastRowId: int,
    companionCount: nat)

  // The stored form of a message: its text as is, redacted, or redacted and capped.
  predicate Matches(env: Env, m: ChatMessage, e: MessageEvent) {
    && m.role == e.role
    && (m.content == e.content || env.redact(m.content) == e.content || env.sanitize(m.content) == e.content)
  }

  function Durable(env: Env, window: seq<ChatMessage>): seq<ChatMessage> {
    Filter((m: ChatMessage) => !IsCompanion(env, m), window)
  }

  function Companions(env: Env, window: seq<ChatMessage>): seq<ChatMessage> {
    Filter((m: ChatMessage) => IsCompanion(env, m), window)
  }

  predicate UserOrAssistant(ms: seq<ChatMessage>) {
    forall m :: m in ms ==> m.role == "user" || m.role == "assistant"
  }

  function ById(events: seq<MessageEvent>): (r: seq<MessageEvent>)
    ensures forall e :: e in r <==> e in events
  {
    StableSort((e: MessageEvent) => e.id, events)
  }

  function OfType(events: seq<MessageEvent>, t: string): (r: seq<MessageEvent>)
    ensures forall e :: e in r <==> e in events && e.eventType == t
  {
    Filter((e: MessageEvent) => e.eventType == t, events)
  }

  function Ids(events: seq<MessageEvent>): (ids: seq<string>)
    ensures |ids| == |events| && forall i :: 0 <= i < |ids| ==> ids[i] == events[i].eventId
  {
    seq(|events|, i requires 0 <= i < |events| => events[i].eventId)
  }

  // ---------------------------------------------------------------- runs and pools

  type Run = r: seq<ChatMessage> | r != [] witness [ChatMessage("user", "")]

  // Length of the first run: one handoff note, or the messages before the next one.
  function RunLength(ms: seq<ChatMessage>): (n: nat)
    requires ms != []
    ensures 1 <= n <= |ms|
    ensures n == 1 || forall i :: 0 <= i < n ==> !IsContextHandoff(ms[i])
    ensures n < |ms| ==> IsContextHandoff(ms[0]) || IsContextHandoff(ms[n])
  {
    if IsContextHandoff(ms[0]) || |ms| == 1 || IsContextHandoff(ms[1]) then 1
    else 1 + RunLength(ms[1..])
  }

  // One handoff note, or messages none of which is one.
  predicate Homogeneous(run: Run) {
    |run| == 1 || forall i :: 0 <= i < |run| ==> !IsContextHandoff(run[i])
  }

  function FirstRun(ms: seq<ChatMessage>): (run: Run)
    requires ms != []
    ensures run <= ms && Homogeneous(run)
  {
    ms[..RunLength(ms)]
  }

  // The window cut at its handoff notes, each note a run of its own.
  function Runs(ms: seq<ChatMessage>): (runs: seq<Run>)
    ensures ms != [] ==> runs != []
  {
    if ms == [] then [] else [FirstRun(ms)] + Runs(ms[|FirstRun(ms)|..])
  }

  // The events messages may be placed on, in row order.
  datatype Pools = Pools(created: seq<MessageEvent>, switches: seq<MessageEvent>) {
    function For(run: Run): seq<MessageEvent>
    {
      if IsContextHandoff(run[0]) then switches else created
    }
  }

  function PoolsOf(loaded: seq<MessageEvent>): Pools {
    Pools(OfType(ById(loaded), MESSAGE_CREATED), OfType(ById(loaded), SWITCH_CREATED))
  }

  // The events a run takes when its first message is placed at position `w`.
  function Window(pools: Pools, run: Run, w: nat): seq<MessageEvent>
  {
    if w + |run| <= |pools.For(run)| then pools.For(run)[w..w + |run|] else []
  }

  predicate Fits(env: Env, pools: Pools, run: Run, w: nat)
  {
    var window := Window(pools, run, w);
    |window| == |run| && forall i :: 0 <= i < |run| ==> Matches(env, run[i], window[i])
  }

  function IdSet(events: seq<MessageEvent>): set<string> {
    set e | e in events :: e.eventId
  }

  lemma {:induction false} IdSetConcat(a: seq<MessageEvent>, b: seq<MessageEvent>)
    ensures IdSet(a + b) == IdSet(a) + IdSet(b)
  {
  }

  // ---------------------------------------------------------------- placements

  // `at` places the first |at| runs on matching windows, no event serving two runs.
  ghost predicate Placed(env: Env, pools: Pools, runs: seq<Run>, at: seq<nat>)
  {
    && |at| <= |runs|
    && (forall i :: 0 <= i < |at| ==> Fits(env, pools, runs[i], at[i]))
    && (forall i, j :: 0 <= i < j < |at| ==>
          IdSet(Window(pools, runs[i], at[i])) !! IdSet(Window(pools, runs[j], at[j])))
  }

  ghost predicate OnlyPlacement(env: Env, pools: Pools, runs: seq<Run>, at: seq<nat>)
  {
    && Placed(env, pools, runs, at)
    && forall other :: |other| == |at| && Placed(env, pools, runs, other) ==> other == at
  }

  ghost predicate ExactlyOnePlacement(env: Env, pools: Pools, runs: seq<Run>, n: nat)
  {
    exists at :: |at| == n && OnlyPlacement(env, pools, runs, at)
  }

  // The events of the placed runs, in message order.
  function Matched(pools: Pools, runs: seq<Run>, at: seq<nat>): seq<MessageEvent>
    requires |at| <= |runs|
  {
    if at == [] then []
    else
      var n := |at| - 1;
      Matched(pools, runs, at[..n]) + Window(pools, runs[n], at[n])
  }

  lemma {:induction false} MatchedIds(pools: Pools, runs: seq<Run>, at: seq<nat>, id: string)
    requires |at| <= |runs|
    ensures id in IdSet(Matched(pools, runs, at)) <==>
            exists i :: 0 <= i < |at| && id in IdSet(Window(pools, runs[i], at[i]))
  {
    if at != [] {
      var n := |at| - 1;
      MatchedIds(pools, runs, at[..n], id);
      assert id in IdSet(Matched(pools, runs, at)) <==>
             id in IdSet(Matched(pools, runs, at[..n])) || id in IdSet(Window(pools, runs[n], at[n]));
      assert forall i :: 0 <= i < n ==> at[..n][i] == at[i];
    }
  }

  predicate IsCandidate(env: Env, pools: Pools, run: Run, used: set<string>, w: nat)
  {
    Fits(env, pools, run, w) && IdSet(Window(pools, run, w)) !! used
  }

  // Start positions from `from` on where the run fits without a used event.
  function Candidates(env: Env, pools: Pools, run: Run, used: set<string>, from: nat): (r: seq<nat>)
    ensures forall w: nat :: w in r <==> from <= w && IsCandidate(env, pools, run, used, w)
    ensures forall i, j :: 0 <= i < j < |r| ==> r[i] < r[j]
    decreases |pools.For(run)| - from
  {
    if from >= |pools.For(run)| then []
    else
      var rest := Candidates(env, pools, run, used, from + 1);
      assert forall i :: 0 <= i < |rest| ==> rest[i] in rest;
      if IsCandidate(env, pools, run, used, from) then [from] + rest else rest
  }

  lemma {:induction false} LastIsCandidate(env: Env, pools: Pools, runs: seq<Run>, at: seq<nat>, w: nat)
    requires |at| < |runs| && Placed(env, pools, runs, at + [w])
    ensures Placed(env, pools, runs, at)
    ensures IsCandidate(env, pools, runs[|at|], IdSet(Matched(pools, runs, at)), w)
  {
    var n, more := |at|, at + [w];
    assert more[n] == w && forall i :: 0 <= i < n ==> more[i] == at[i];
    forall id | id in IdSet(Window(pools, runs[n], w)) ensures id !in IdSet(Matched(pools, runs, at)) {
      MatchedIds(pools, runs, at, id);
    }
  }

  lemma {:induction false} CandidateExtends(env: Env, pools: Pools, runs: seq<Run>, at: seq<nat>, w: nat)
    requires |at| < |runs| && Placed(env, pools, runs, at)
    requires IsCandidate(env, pools, runs[|at|], IdSet(Matched(pools, runs, at)), w)
    ensures Placed(env, pools, runs, at + [w])
  {
    hide Window, Fits, Matched, IdSet;
    var more := at + [w];
    forall i, j | 0 <= i < j < |more|
      ensures IdSet(Window(pools, runs[i], more[i])) !! IdSet(Window(pools, runs[j], more[j]))
    {
      assert more[i] == at[i];
      if j < |at| {
        assert more[j] == at[j];
      } else {
        forall id | id in IdSet(Window(pools, runs[j], w)) ensures id !in IdSet(Window(pools, runs[i], at[i])) {
          MatchedIds(pools, runs, at, id);
        }
      }
    }
  }

  lemma {:induction false} PlacementsOfOneMore(env: Env, pools: Pools, runs: seq<Run>, at: seq<nat>, b: seq<nat>)
    requires |at| < |runs| && OnlyPlacement(env, pools, runs, at)
    requires |b| == |at| + 1 && Placed(env, pools, runs, b)
    ensures b == at + [b[|at|]]
    ensures IsCandidate(env, pools, runs[|at|], IdSet(Matched(pools, runs, at)), b[|at|])
  {
    assert b == b[..|at|] + [b[|at|]];
    LastIsCandidate(env, pools, runs, b[..|at|], b[|at|]);
  }

  // The greedy step: with the earlier runs placed in the only way, a single
  // candidate extends the only placement, and any other number of candidates
  // means that the runs up to here have no placement or several.
  lemma {:induction false} SingleCandidate(env: Env, pools: Pools, runs: seq<Run>, at: seq<nat>, w: nat)
    requires |at| < |runs| && OnlyPlacement(env, pools, runs, at)
    requires Candidates(env, pools, runs[|at|], IdSet(Matched(pools, runs, at)), 0) == [w]
    ensures OnlyPlacement(env, pools, runs, at + [w])
  {
    assert w in [w];
    CandidateExtends(env, pools, runs, at, w);
    forall b | |b| == |at| + 1 && Placed(env, pools, runs, b) ensures b == at + [w] {
      PlacementsOfOneMore(env, pools, runs, at, b);
      assert b[|at|] in [w];
    }
  }

  lemma {:induction false} OtherCandidates(env: Env, pools: Pools, runs: seq<Run>, at: seq<nat>, cands: seq<nat>)
    requires |at| < |runs| && OnlyPlacement(env, pools, runs, at)
    requires cands == Candidates(env, pools, runs[|at|], IdSet(Matched(pools, runs, at)), 0) && |cands| != 1
    ensures !ExactlyOnePlacement(env, pools, runs, |at| + 1)
  {
    forall b | |b| == |at| + 1 && Placed(env, pools, runs, b) ensures !OnlyPlacement(env, pools, runs, b) {
      PlacementsOfOneMore(env, pools, runs, at, b);
      assert b[|at|] in cands;
      var w := if cands[0] == b[|at|] then cands[1] else cands[0];
      assert w in cands;
      CandidateExtends(env, pools, runs, at, w);
      assert (at + [w])[|at|] != b[|at|];
    }
  }

  // ---------------------------------------------------------------- the resolver

  // First event with the smallest row id, as `min_by_key`.
  function MinById(events: seq<MessageEvent>): (e: MessageEvent)
    requires events != []
    ensures e in events && forall x :: x in events ==> e.id <= x.id
  {
    if |events| == 1 then events[0]
    else var rest := MinById(events[1..]); if events[0].id <= rest.id then events[0] else rest
  }

  // Last event with the largest row id, as `max_by_key`.
  function MaxById(events: seq<MessageEvent>): (e: MessageEvent)
    requires events != []
    ensures e in events && forall x :: x in events ==> x.id <= e.id
  {
    if |events| == 1 then events[0]
    else var rest := MaxById(events[1..]); if rest.id < events[0].id then events[0] else rest
  }

  function Describe(matched: seq<MessageEvent>, companions: nat): Provenance
    requires matched != []
  {
    var first, last := MinById(matched), MaxById(matched);
    Provenance(Ids(matched), first.eventId, last.eventId, first.id, last.id, companions)
  }

  // However many runs are read, there is one way to place them.
  ghost predicate Unambiguous(env: Env, pools: Pools, runs: seq<Run>) {
    forall n: nat :: n <= |runs| ==> ExactlyOnePlacement(env, pools, runs, n)
  }

  // What the resolver answers: a description of the only placement when the
  // transcript is unambiguous, and nothing otherwise.
  ghost predicate Resolves(env: Env, hasSession: bool, window: seq<ChatMessage>, loaded: seq<MessageEvent>,
                           r: Option<Provenance>) {
    var ms, pools := Durable(env, window), PoolsOf(loaded);
    var runs := Runs(ms);
    if !hasSession || ms == [] || !UserOrAssistant(ms) || !Unambiguous(env, pools, runs) then r == None
    else exists at :: |at| == |runs| && OnlyPlacement(env, pools, runs, at)
                      && Matched(pools, runs, at) != []
                      && r == Some(Describe(Matched(pools, runs, at), |Companions(env, window)|))
  }

  method ResolveProvenance(env: Env, hasSession: bool, window: seq<ChatMessage>, loaded: seq<MessageEvent>)
      returns (r: Option<Provenance>)
    ensures Resolves(env, hasSession, window, loaded, r)
  {
    if !hasSession || window == [] {
      return None;
    }
    var companionCount := |Companions(env, window)|;
    var ms := Durable(env, window);
    if ms == [] || !UserOrAssistant(ms) {
      return None;
    }
    var matched := PlaceRuns(env, ms, PoolsOf(loaded));
    if matched == [] {
      return None;
    }
    r := Some(Describe(matched, companionCount));
  }

  lemma {:induction false} UnfoldRuns(ms: seq<ChatMessage>)
    ensures Runs(ms) == if ms == [] then [] else [FirstRun(ms)] + Runs(ms[|FirstRun(ms)|..])
  {
  }

  // The loop of the resolver; the empty answer is its early return.
  method PlaceRuns(env: Env, ms: seq<ChatMessage>, pools: Pools) returns (matched: seq<MessageEvent>)
    requires ms != []
    ensures matched == [] ==> !Unambiguous(env, pools, Runs(ms))
    ensures matched != [] ==> Read(env, pools, Runs(ms), |Runs(ms)|, matched)
  {
    hide Read, Unambiguous, Candidates, Window, IdSet, RunLength, Homogeneous, Pools.For, IsContextHandoff,
         IsOnlyReading, Runs;
    var used := IdSet([]);
    var sourceIndex: nat := 0;
    ghost var runs, done: nat := Runs(ms), 0;
    matched := [];
    NothingRead(env, pools, runs);
    while sourceIndex < |ms|
      invariant sourceIndex <= |ms| && done <= |runs| && (done != 0 ==> matched != [])
      invariant Read(env, pools, runs, done, matched) && used == IdSet(matched)
      invariant runs[done..] == Runs(ms[sourceIndex..])
    {
      var rest := ms[sourceIndex..];
      var run := FirstRun(rest);
      UnfoldRuns(rest);
      assert run == runs[done..][0];
      var windows := Candidates(env, pools, run, used, 0);
      if |windows| != 1 {
        CannotReadNext(env, pools, runs, done, matched);
        return [];
      }
      ReadNext(env, pools, runs, done, matched);
      var window := Window(pools, run, windows[0]);
      IdSetConcat(matched, window);
      matched := matched + window;
      used := used + IdSet(window);
      sourceIndex := sourceIndex + |run|;
      assert ms[sourceIndex..] == rest[|run|..];
      done := done + 1;
    }
    UnfoldRuns(ms[sourceIndex..]);
  }

  // `matched` holds the events of the only placement of the first `n` runs.
  ghost predicate IsOnlyReading(env: Env, pools: Pools, runs: seq<Run>, n: nat, matched: seq<MessageEvent>) {
    exists at :: |at| == n && OnlyPlacement(env, pools, runs, at) && matched == Matched(pools, runs, at)
  }

  // The first `n` runs are read, and every prefix of them had one placement.
  ghost predicate Read(env: Env, pools: Pools, runs: seq<Run>, n: nat, matched: seq<MessageEvent>) {
    && n <= |runs|
    && IsOnlyReading(env, pools, runs, n, matched)
    && forall j: nat :: j <= n ==> ExactlyOnePlacement(env, pools, runs, j)
  }

  lemma {:induction false} NothingRead(env: Env, pools: Pools, runs: seq<Run>)
    ensures Read(env, pools, runs, 0, [])
  {
    assert OnlyPlacement(env, pools, runs, []);
    assert IsOnlyReading(env, pools, runs, 0, []);
  }

  lemma {:induction false} ReadOneMore(env: Env, pools: Pools, runs: seq<Run>, n: nat,
                                       matched: seq<MessageEvent>, w: nat)
    requires n < |runs| && IsOnlyReading(env, pools, runs, n, matched)
    requires Candidates(env, pools, runs[n], IdSet(matched), 0) == [w]
    ensures IsOnlyReading(env, pools, runs, n + 1, matched + Window(pools, runs[n], w))
    ensures |Window(pools, runs[n], w)| == |runs[n]|
  {
    var at :| |at| == n && OnlyPlacement(env, pools, runs, at) && matched == Matched(pools, runs, at);
    SingleCandidate(env, pools, runs, at, w);
    MatchedOneMore(pools, runs, at, w);
    assert w in [w];
  }

  lemma {:induction false} MatchedOneMore(pools: Pools, runs: seq<Run>, at: seq<nat>, w: nat)
    requires |at| < |runs|
    ensures Matched(pools, runs, at + [w]) == Matched(pools, runs, at) + Window(pools, runs[|at|], w)
  {
    assert (at + [w])[..|at|] == at;
  }

  lemma {:induction false} ReadNext(env: Env, pools: Pools, runs: seq<Run>, n: nat, matched: seq<MessageEvent>)
    requires n < |runs| && Read(env, pools, runs, n, matched)
    requires |Candidates(env, pools, runs[n], IdSet(matched), 0)| == 1
    ensures var window := Window(pools, runs[n], Candidates(env, pools, runs[n], IdSet(matched), 0)[0]);
            Read(env, pools, runs, n + 1, matched + window) && |window| == |runs[n]|
  {
    hide OnlyPlacement;
    ReadOneMore(env, pools, runs, n, matched, Candidates(env, pools, runs[n], IdSet(matched), 0)[0]);
  }

  lemma {:induction false} CannotReadNext(env: Env, pools: Pools, runs: seq<Run>, n: nat, matched: seq<MessageEvent>)
    requires n < |runs| && Read(env, pools, runs, n, matched)
    requires |Candidates(env, pools, runs[n], IdSet(matched), 0)| != 1
    ensures !Unambiguous(env, pools, runs)
  {
    var at :| |at| == n && OnlyPlacement(env, pools, runs, at) && matched == Matched(pools, runs, at);
    OtherCandidates(env, pools, runs, at, Candidates(env, pools, runs[n], IdSet(matched), 0));
  }
}
