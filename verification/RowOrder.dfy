// Neighbouring messages of a window are read off neighbouring rows.
module RowOrder {
  import opened Wrappers
  import opened Conversation
  import opened Lists
  import opened Provenance
  import opened Accounting

  ghost predicate NextIn(pool: seq<MessageEvent>, e: MessageEvent, f: MessageEvent) {
    exists i, j :: 0 <= i < |pool| && 0 <= j < |pool| && j == i + 1 && pool[i] == e && pool[j] == f
  }

  // Messages with no handoff note between them sit on events that follow each other.
  ghost predicate Contiguous(pool: seq<MessageEvent>, ms: seq<ChatMessage>, matched: seq<MessageEvent>) {
    && |matched| == |ms|
    && forall i, j :: 0 <= i < |ms| && 0 <= j < |ms| && j == i + 1
                      && !IsContextHandoff(ms[i]) && !IsContextHandoff(ms[j]) ==>
         NextIn(pool, matched[i], matched[j])
  }

  lemma {:induction false} RunIsContiguous(env: Env, pools: Pools, run: Run, w: nat)
    requires Homogeneous(run) && Fits(env, pools, run, w)
    ensures Contiguous(pools.created, run, Window(pools, run, w))
  {
    hide Matches, IsContextHandoff;
    var pool := pools.For(run);
    forall i, j | 0 <= i < |run| && 0 <= j < |run| && j == i + 1
                  && !IsContextHandoff(run[i]) && !IsContextHandoff(run[j])
      ensures NextIn(pools.created, Window(pools, run, w)[i], Window(pools, run, w)[j])
    {
      assert pool[w + i] == Window(pools, run, w)[i] && pool[w + j] == Window(pools, run, w)[j];
      assert NextIn(pool, pool[w + i], pool[w + j]);
    }
  }

  ghost predicate Apart(a: seq<ChatMessage>, b: seq<ChatMessage>) {
    a != [] && b != [] ==> IsContextHandoff(a[|a| - 1]) || IsContextHandoff(b[0])
  }

  lemma {:induction false} ContiguousConcat(pool: seq<MessageEvent>,
                                            a: seq<ChatMessage>, ea: seq<MessageEvent>,
                                            b: seq<ChatMessage>, eb: seq<MessageEvent>)
    requires Contiguous(pool, a, ea) && Contiguous(pool, b, eb) && Apart(a, b)
    ensures Contiguous(pool, a + b, ea + eb)
  {
    hide NextIn, IsContextHandoff;
    var ms, matched := a + b, ea + eb;
    forall i, j | 0 <= i < |ms| && 0 <= j < |ms| && j == i + 1
                  && !IsContextHandoff(ms[i]) && !IsContextHandoff(ms[j])
      ensures NextIn(pool, matched[i], matched[j])
    {
      if i >= |a| {
        assert ms[i] == b[i - |a|] && ms[j] == b[j - |a|];
      }
    }
  }

  // Runs are cut at handoff notes and nowhere else.
  lemma {:induction false} RunsAreApart(ms: seq<ChatMessage>)
    ensures forall i, j :: 0 <= i < |Runs(ms)| && 0 <= j < |Runs(ms)| && j == i + 1 ==> Apart(Runs(ms)[i], Runs(ms)[j])
  {
    hide IsContextHandoff, RunLength;
    if ms != [] {
      var n := RunLength(ms);
      RunsAreApart(ms[n..]);
      if n < |ms| { assert Runs(ms)[1] == FirstRun(ms[n..]) && FirstRun(ms[n..])[0] == ms[n]; }
    }
  }

  lemma {:induction false} PlacementIsContiguous(env: Env, pools: Pools, runs: seq<Run>, at: seq<nat>)
    requires forall i :: 0 <= i < |runs| ==> Homogeneous(runs[i])
    requires forall i, j :: 0 <= i < |runs| && 0 <= j < |runs| && j == i + 1 ==> Apart(runs[i], runs[j])
    requires |at| <= |runs| && Placed(env, pools, runs, at)
    ensures Contiguous(pools.created, Concat(runs[..|at|]), Matched(pools, runs, at))
  {
    hide Contiguous, Fits, IsCandidate, Homogeneous, Matched, Window, Apart;
    if at == [] {
      NothingIsContiguous(pools, runs);
    } else {
      var n := |at| - 1;
      var before, w := at[..n], at[n];
      assert at == before + [w];
      LastIsCandidate(env, pools, runs, before, w);
      PlacementIsContiguous(env, pools, runs, before);
      assert Fits(env, pools, runs[n], w);
      RunIsContiguous(env, pools, runs[n], w);
      MatchedOneMore(pools, runs, before, w);
      assert runs[..n + 1][..n] == runs[..n];
      LastRunIsApart(runs, n);
      ContiguousConcat(pools.created, Concat(runs[..n]), Matched(pools, runs, before), runs[n],
                       Window(pools, runs[n], w));
    }
  }

  lemma {:induction false} NothingIsContiguous(pools: Pools, runs: seq<Run>)
    ensures Contiguous(pools.created, Concat(runs[..0]), Matched(pools, runs, []))
  {
  }

  lemma {:induction false} LastRunIsApart(runs: seq<Run>, n: nat)
    requires n < |runs|
    requires forall i, j :: 0 <= i < |runs| && 0 <= j < |runs| && j == i + 1 ==> Apart(runs[i], runs[j])
    ensures Apart(Concat(runs[..n]), runs[n])
  {
    hide IsContextHandoff;
    if n > 0 {
      assert runs[..n][..n - 1] == runs[..n - 1];
      assert Apart(runs[n - 1], runs[n]);
    }
  }

  // ---------------------------------------------------------------- the pool

  lemma {:induction false} FilterKeepsOrder(key: MessageEvent -> int, keep: MessageEvent -> bool,
                                            s: seq<MessageEvent>)
    requires SortedBy(key, s)
    ensures SortedBy(key, Filter(keep, s))
  {
    if s != [] {
      FilterKeepsOrder(key, keep, s[1..]);
      forall j | 0 <= j < |Filter(keep, s[1..])| ensures key(s[0]) <= key(Filter(keep, s[1..])[j]) {
        assert Filter(keep, s[1..])[j] in s[1..];
      }
    }
  }

  lemma {:induction false} CreatedPool(loaded: seq<MessageEvent>)
    ensures SortedBy((e: MessageEvent) => e.id, PoolsOf(loaded).created)
    ensures forall e :: e in PoolsOf(loaded).created <==> e in loaded && e.eventType == "message.created"
  {
    FilterKeepsOrder((e: MessageEvent) => e.id, (e: MessageEvent) => e.eventType == MESSAGE_CREATED, ById(loaded));
  }

  // Nothing in the pool lies between two events that follow each other.
  lemma {:induction false} NextInSorted(pool: seq<MessageEvent>, e: MessageEvent, f: MessageEvent)
    requires SortedBy((e: MessageEvent) => e.id, pool) && NextIn(pool, e, f)
    ensures e in pool && f in pool && e.id <= f.id
    ensures forall x :: x in pool ==> x.id <= e.id || f.id <= x.id
  {
    var i, j :| 0 <= i < |pool| && 0 <= j < |pool| && j == i + 1 && pool[i] == e && pool[j] == f;
    forall x | x in pool ensures x.id <= e.id || f.id <= x.id {
      var k :| 0 <= k < |pool| && pool[k] == x;
    }
  }

  lemma {:induction false} NextInRowOrder(loaded: seq<MessageEvent>, e: MessageEvent, f: MessageEvent)
    requires NextIn(PoolsOf(loaded).created, e, f)
    ensures e.id <= f.id
    ensures forall x :: x in loaded && x.eventType == "message.created" ==> x.id <= e.id || f.id <= x.id
  {
    hide NextIn, PoolsOf, SortedBy;
    CreatedPool(loaded);
    NextInSorted(PoolsOf(loaded).created, e, f);
  }

  lemma {:induction false} WholePlacementIsContiguous(env: Env, ms: seq<ChatMessage>, loaded: seq<MessageEvent>,
                                                      at: seq<nat>)
    requires DistinctIds(loaded) && |at| == |Runs(ms)| && Placed(env, PoolsOf(loaded), Runs(ms), at)
    ensures Contiguous(PoolsOf(loaded).created, ms, Matched(PoolsOf(loaded), Runs(ms), at))
    ensures forall i :: 0 <= i < |Matched(PoolsOf(loaded), Runs(ms), at)| ==>
              Matched(PoolsOf(loaded), Runs(ms), at)[i] in loaded
  {
    hide Placed, PoolsOf, Contiguous, Matched, Runs, Matches, EventTypeOf, Homogeneous, Apart, DistinctIds;
    WholePlacementAccounts(env, ms, loaded, at);
    RunsAreHomogeneous(ms);
    RunsAreApart(ms);
    PlacementIsContiguous(env, PoolsOf(loaded), Runs(ms), at);
    assert Runs(ms)[..|at|] == Runs(ms);
    RunsConcat(ms);
  }

  lemma {:induction false} DescribesIds(matched: seq<MessageEvent>, companions: nat)
    requires matched != []
    ensures Describe(matched, companions).sourceEventIds == Ids(matched)
  {
  }

  lemma {:induction false} ContiguousInRowOrder(loaded: seq<MessageEvent>, ms: seq<ChatMessage>,
                                                matched: seq<MessageEvent>)
    requires Contiguous(PoolsOf(loaded).created, ms, matched)
    ensures |matched| == |ms|
    ensures forall i, j :: 0 <= i < |matched| && 0 <= j < |matched| && j == i + 1 ==>
              var m, n, e, f := ms[i], ms[j], matched[i], matched[j];
              !(m.role == "assistant" && "[context_handoff]" <= m.content)
              && !(n.role == "assistant" && "[context_handoff]" <= n.content) ==>
                && e.id <= f.id
                && forall x :: x in loaded && x.eventType == "message.created" ==> x.id <= e.id || f.id <= x.id
  {
    hide NextIn, PoolsOf;
    forall i, j | 0 <= i < |matched| && 0 <= j < |matched| && j == i + 1
                  && !IsContextHandoff(ms[i]) && !IsContextHandoff(ms[j])
      ensures && matched[i].id <= matched[j].id
              && forall x :: x in loaded && x.eventType == "message.created" ==>
                   x.id <= matched[i].id || matched[j].id <= x.id
    {
      NextInRowOrder(loaded, matched[i], matched[j]);
    }
  }

  // Two durable messages next to each other, neither a handoff note, resolve to
  // two events in row order with no stored message between them.
  lemma {:induction false} NeighboursAreNeighbours(env: Env, hasSession: bool, window: seq<ChatMessage>,
                                                   loaded: seq<MessageEvent>, prov: Provenance)
      returns (matched: seq<MessageEvent>)
    requires DistinctIds(loaded) && Resolves(env, hasSession, window, loaded, Some(prov))
    ensures prov.sourceEventIds == Ids(matched) && |matched| == |Durable(env, window)|
    ensures forall i :: 0 <= i < |matched| ==> matched[i] in loaded
    ensures forall i, j :: 0 <= i < |matched| && 0 <= j < |matched| && j == i + 1 ==>
              var m, n, e, f := Durable(env, window)[i], Durable(env, window)[j], matched[i], matched[j];
              !(m.role == "assistant" && "[context_handoff]" <= m.content)
              && !(n.role == "assistant" && "[context_handoff]" <= n.content) ==>
                && e.id <= f.id
                && forall x :: x in loaded && x.eventType == "message.created" ==> x.id <= e.id || f.id <= x.id
  {
    hide Placed, Unambiguous, PoolsOf, Contiguous, Matched, Durable, Companions, Runs, IsContextHandoff,
         DistinctIds, UserOrAssistant, Describe;
    var ms := Durable(env, window);
    var at :| |at| == |Runs(ms)| && OnlyPlacement(env, PoolsOf(loaded), Runs(ms), at)
              && Matched(PoolsOf(loaded), Runs(ms), at) != []
              && Some(prov) == Some(Describe(Matched(PoolsOf(loaded), Runs(ms), at), |Companions(env, window)|));
    matched := Matched(PoolsOf(loaded), Runs(ms), at);
    WholePlacementIsContiguous(env, ms, loaded, at);
    DescribesIds(matched, |Companions(env, window)|);
    ContiguousInRowOrder(loaded, ms, matched);
  }
}
