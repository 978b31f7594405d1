// What the resolver answers for the smallest windows, and that the parts of a tool
// round-trip do not change it.
module Resolution {
  import opened Wrappers
  import opened Text
  import opened Conversation
  import opened Lists
  import opened Provenance
  import opened Accounting

  lemma {:induction false} SoleMessage(env: Env, m: ChatMessage)
    requires !IsCompanion(env, m)
    ensures Durable(env, [m]) == [m] && Companions(env, [m]) == [] && Runs([m]) == [[m]]
  {
    hide IsCompanion, IsContextHandoff;
    assert [m][1..] == [] && [m][..1] == [m];
    UnfoldRuns([m]);
  }

  lemma {:induction false} CandidateIsMatch(env: Env, pools: Pools, m: ChatMessage, v: nat)
    ensures IsCandidate(env, pools, [m], {}, v) <==> v < |pools.For([m])| && Matches(env, m, pools.For([m])[v])
    ensures v < |pools.For([m])| ==> Window(pools, [m], v) == [pools.For([m])[v]]
  {
    hide Matches;
    var pool := pools.For([m]);
    if v < |pool| { assert pool[v..v + 1] == [pool[v]]; }
  }

  lemma {:induction false} OneMember(cands: seq<nat>, w: nat)
    requires w in cands && forall x :: x in cands ==> x == w
    requires forall i, j :: 0 <= i < j < |cands| ==> cands[i] < cands[j]
    ensures cands == [w]
  {
    TwoMembers(cands);
  }

  lemma {:induction false} TwoMembers(cands: seq<nat>)
    requires forall i, j :: 0 <= i < j < |cands| ==> cands[i] < cands[j]
    ensures |cands| > 1 ==> cands[0] in cands && cands[1] in cands && cands[0] != cands[1]
  {
  }

  // The only event of a pool that matches is the only candidate.
  lemma {:induction false} OnlyMatchIsOnlyCandidate(env: Env, pools: Pools, m: ChatMessage, e: MessageEvent)
      returns (w: nat)
    requires DistinctIds(pools.For([m])) && e in pools.For([m]) && Matches(env, m, e)
    requires forall x :: x in pools.For([m]) && Matches(env, m, x) ==> x == e
    ensures Candidates(env, pools, [m], {}, 0) == [w] && Window(pools, [m], w) == [e]
  {
    hide Matches, Candidates, IsCandidate, Pools.For, Window;
    var pool, cands := pools.For([m]), Candidates(env, pools, [m], {}, 0);
    w :| 0 <= w < |pool| && pool[w] == e;
    CandidateIsMatch(env, pools, m, w);
    assert w in cands;
    forall v | v in cands ensures v == w {
      CandidateIsMatch(env, pools, m, v);
      assert pool[v] in pool;
    }
    OneMember(cands, w);
  }

  lemma {:induction false} NoMatchNoCandidate(env: Env, pools: Pools, m: ChatMessage)
    requires forall x :: x in pools.For([m]) ==> !Matches(env, m, x)
    ensures Candidates(env, pools, [m], {}, 0) == []
  {
    hide Matches, Candidates, IsCandidate, Pools.For;
    var pool, cands := pools.For([m]), Candidates(env, pools, [m], {}, 0);
    forall v: nat ensures v !in cands {
      CandidateIsMatch(env, pools, m, v);
      assert v < |pool| ==> pool[v] in pool;
    }
    FirstMember(cands);
  }

  lemma {:induction false} FirstMember(cands: seq<nat>)
    ensures cands != [] ==> cands[0] in cands
  {
  }

  lemma {:induction false} EmptyPlacement(env: Env, pools: Pools, runs: seq<Run>)
    ensures OnlyPlacement(env, pools, runs, []) && IdSet(Matched(pools, runs, [])) == {}
    ensures Matched(pools, runs, []) == [] && ExactlyOnePlacement(env, pools, runs, 0)
  {
    var none: seq<nat> := [];
    assert Matched(pools, runs, none) == [];
    assert OnlyPlacement(env, pools, runs, none) && |none| == 0;
  }

  lemma {:induction false} SoleRunResolves(env: Env, m: ChatMessage, loaded: seq<MessageEvent>, e: MessageEvent, w: nat)
    requires !IsCompanion(env, m) && (m.role == "user" || m.role == "assistant")
    requires Candidates(env, PoolsOf(loaded), [m], {}, 0) == [w] && Window(PoolsOf(loaded), [m], w) == [e]
    ensures Resolves(env, true, [m], loaded, Some(Describe([e], 0)))
  {
    SoleMessage(env, m);
    hide Durable, Companions, Runs, PoolsOf, Candidates, Window, OnlyPlacement, Describe, IsCompanion, Matched,
         Unambiguous, UserOrAssistant;
    SolePlacement(env, PoolsOf(loaded), m, e, w);
    assert UserOrAssistant([m]) by { SoleRole(m); }
    assert |[w]| == |Runs([m])|;
  }

  lemma {:induction false} SoleRole(m: ChatMessage)
    requires m.role == "user" || m.role == "assistant"
    ensures UserOrAssistant([m])
  {
  }

  lemma {:induction false} SolePlacement(env: Env, pools: Pools, m: ChatMessage, e: MessageEvent, w: nat)
    requires Runs([m]) == [[m]] && Candidates(env, pools, [m], {}, 0) == [w] && Window(pools, [m], w) == [e]
    ensures OnlyPlacement(env, pools, Runs([m]), [w]) && Matched(pools, Runs([m]), [w]) == [e]
    ensures Unambiguous(env, pools, Runs([m]))
  {
    hide Runs, Candidates, Window, OnlyPlacement, Matched, IdSet;
    var runs := Runs([m]);
    EmptyPlacement(env, pools, runs);
    SingleCandidate(env, pools, runs, [], w);
    assert [] + [w] == [w];
    MatchedOneMore(pools, runs, [], w);
    assert ExactlyOnePlacement(env, pools, runs, 1) by { assert |[w]| == 1; }
    forall n: nat | n <= |runs| ensures ExactlyOnePlacement(env, pools, runs, n) { assert n == 0 || n == 1; }
  }

  lemma {:induction false} SoleRunFails(env: Env, m: ChatMessage, loaded: seq<MessageEvent>)
    requires !IsCompanion(env, m) && |Candidates(env, PoolsOf(loaded), [m], {}, 0)| != 1
    ensures Resolves(env, true, [m], loaded, None)
  {
    SoleMessage(env, m);
    hide Durable, Companions, Runs, PoolsOf, Candidates, OnlyPlacement, ExactlyOnePlacement, IsCompanion;
    var pools, runs := PoolsOf(loaded), Runs([m]);
    EmptyPlacement(env, pools, runs);
    OtherCandidates(env, pools, runs, [], Candidates(env, pools, [m], {}, 0));
    assert !ExactlyOnePlacement(env, pools, runs, 1);
  }

  lemma {:induction false} PoolOf(loaded: seq<MessageEvent>, m: ChatMessage)
    requires DistinctIds(loaded)
    ensures DistinctIds(PoolsOf(loaded).For([m]))
    ensures forall e :: e in PoolsOf(loaded).For([m]) <==>
              e in loaded && e.eventType == (if m.role == "assistant" && "[context_handoff]" <= m.content
                                             then "context.switch.created" else "message.created")
  {
    TypedPools(loaded);
  }

  // A message stands alone in its window: it resolves to the one loaded event of
  // its type with its role and its text, redacted or sanitised or as it is,
  lemma {:induction false} SoleMessageResolves(env: Env, m: ChatMessage, loaded: seq<MessageEvent>, e: MessageEvent)
    requires DistinctIds(loaded) && !IsCompanion(env, m) && (m.role == "user" || m.role == "assistant")
    requires e in loaded && e.role == m.role
             && e.eventType == (if m.role == "assistant" && "[context_handoff]" <= m.content
                                then "context.switch.created" else "message.created")
    requires e.content == m.content || e.content == env.redact(m.content) || e.content == env.sanitize(m.content)
    requires forall x :: (x in loaded && x.eventType == e.eventType && x.role == m.role
                          && (x.content == m.content || x.content == env.redact(m.content)
                              || x.content == env.sanitize(m.content))) ==> x == e
    ensures Resolves(env, true, [m], loaded, Some(Provenance([e.eventId], e.eventId, e.eventId, e.id, e.id, 0)))
  {
    hide IsCompanion, PoolsOf, Pools.For, Candidates, Window, Describe, DistinctIds;
    PoolOf(loaded, m);
    OneTextMatches(env, m, loaded, PoolsOf(loaded).For([m]), e);
    var w := OnlyMatchIsOnlyCandidate(env, PoolsOf(loaded), m, e);
    hide Resolves;
    SoleRunResolves(env, m, loaded, e, w);
    DescribesSole(e);
  }

  lemma {:induction false} DescribesSole(e: MessageEvent)
    ensures Describe([e], 0) == Provenance([e.eventId], e.eventId, e.eventId, e.id, e.id, 0)
  {
    assert Ids([e]) == [e.eventId];
  }

  lemma {:induction false} OneTextMatches(env: Env, m: ChatMessage, loaded: seq<MessageEvent>, pool: seq<MessageEvent>,
                                          e: MessageEvent)
    requires e in pool && e.role == m.role && forall x :: x in pool ==> x in loaded && x.eventType == e.eventType
    requires e.content == m.content || e.content == env.redact(m.content) || e.content == env.sanitize(m.content)
    requires forall x :: (x in loaded && x.eventType == e.eventType && x.role == m.role
                          && (x.content == m.content || x.content == env.redact(m.content)
                              || x.content == env.sanitize(m.content))) ==> x == e
    ensures Matches(env, m, e) && forall x :: x in pool && Matches(env, m, x) ==> x == e
  {
  }

  // to nothing when no such event is loaded,
  lemma {:induction false} UnstoredMessageResolvesToNothing(env: Env, m: ChatMessage, loaded: seq<MessageEvent>)
    requires DistinctIds(loaded) && !IsCompanion(env, m)
    requires forall x :: (x in loaded && x.role == m.role
                          && x.eventType == (if m.role == "assistant" && "[context_handoff]" <= m.content
                                             then "context.switch.created" else "message.created"))
                         ==> x.content != m.content && x.content != env.redact(m.content)
                             && x.content != env.sanitize(m.content)
    ensures Resolves(env, true, [m], loaded, None)
  {
    PoolOf(loaded, m);
    hide IsCompanion, PoolsOf, Pools.For, Candidates;
    NoMatchNoCandidate(env, PoolsOf(loaded), m);
    SoleRunFails(env, m, loaded);
  }

  // and to nothing when two of them are.
  lemma {:induction false} AmbiguousMessageResolvesToNothing(env: Env, m: ChatMessage, loaded: seq<MessageEvent>,
                                                             e: MessageEvent, f: MessageEvent)
    requires DistinctIds(loaded) && !IsCompanion(env, m) && e in loaded && f in loaded && e != f
    requires e.role == m.role && f.role == m.role && e.eventType == f.eventType
    requires e.eventType == (if m.role == "assistant" && "[context_handoff]" <= m.content
                             then "context.switch.created" else "message.created")
    requires e.content == m.content || e.content == env.redact(m.content) || e.content == env.sanitize(m.content)
    requires f.content == m.content || f.content == env.redact(m.content) || f.content == env.sanitize(m.content)
    ensures Resolves(env, true, [m], loaded, None)
  {
    hide IsCompanion, PoolsOf, Pools.For, Candidates, Resolves;
    PoolOf(loaded, m);
    assert Matches(env, m, e) && Matches(env, m, f);
    hide Matches;
    IsACandidate(env, PoolsOf(loaded), m, e);
    IsACandidate(env, PoolsOf(loaded), m, f);
    SoleRunFails(env, m, loaded);
  }

  lemma {:induction false} IsACandidate(env: Env, pools: Pools, m: ChatMessage, e: MessageEvent)
    requires e in pools.For([m]) && Matches(env, m, e)
    ensures exists w: nat :: w in Candidates(env, pools, [m], {}, 0) && w < |pools.For([m])| && pools.For([m])[w] == e
  {
    hide Matches, Candidates;
    var pool := pools.For([m]);
    var w :| 0 <= w < |pool| && pool[w] == e;
    assert pool[w..w + 1] == [e];
    assert IsCandidate(env, pools, [m], {}, w);
  }

  // A window with a durable message of another role resolves to nothing.
  lemma {:induction false} OtherRolesResolveToNothing(env: Env, window: seq<ChatMessage>, loaded: seq<MessageEvent>,
                                                      m: ChatMessage)
    requires m in window && !IsCompanion(env, m) && m.role != "user" && m.role != "assistant"
    ensures Resolves(env, true, window, loaded, None)
  {
    hide IsCompanion, Unambiguous;
    assert m in Durable(env, window);
  }

  // ---------------------------------------------------------------- folded parts

  lemma {:induction false} FoldsOne(env: Env, a: seq<ChatMessage>, m: ChatMessage, b: seq<ChatMessage>)
    requires IsCompanion(env, m)
    ensures Durable(env, a + [m] + b) == Durable(env, a + b)
    ensures |Companions(env, a + [m] + b)| == |Companions(env, a + b)| + 1
  {
    hide IsCompanion, Filter;
    FilterConcat((x: ChatMessage) => !IsCompanion(env, x), a + [m], b);
    FilterConcat((x: ChatMessage) => !IsCompanion(env, x), a, [m]);
    FilterConcat((x: ChatMessage) => !IsCompanion(env, x), a, b);
    FilterConcat((x: ChatMessage) => IsCompanion(env, x), a + [m], b);
    FilterConcat((x: ChatMessage) => IsCompanion(env, x), a, [m]);
    FilterConcat((x: ChatMessage) => IsCompanion(env, x), a, b);
    FoldsSole(env, m);
    assert Durable(env, a) + [] == Durable(env, a);
  }

  lemma {:induction false} FoldsSole(env: Env, m: ChatMessage)
    requires IsCompanion(env, m)
    ensures Durable(env, [m]) == [] && Companions(env, [m]) == [m]
  {
    hide IsCompanion;
    assert [m][1..] == [];
  }

  // A tool result, a result block or a tool-call envelope anywhere in a window
  // leaves the events it resolves to as they are and is counted once.
  lemma {:induction false} RoundTripPartIsFolded(env: Env, hasSession: bool, a: seq<ChatMessage>, m: ChatMessage,
                                                 b: seq<ChatMessage>, loaded: seq<MessageEvent>, r: Option<Provenance>)
    requires || m.role == "tool"
             || (m.role == "user" && "[Tool results]" <= m.content)
             || (m.role == "assistant" && "{" <= m.content && Contains(m.content, "\"tool_calls\"")
                 && exists fields, calls :: env.parse(m.content) == Some(Obj(fields)) && calls != []
                                            && "tool_calls" in fields && fields["tool_calls"] == Arr(calls))
    requires Resolves(env, hasSession, a + b, loaded, r)
    ensures Resolves(env, hasSession, a + [m] + b, loaded,
                     match r case None => None
                             case Some(p) => Some(p.(companionCount := p.companionCount + 1)))
  {
    RoundTripShapes(env, m);
    hide IsCompanion;
    FoldsOne(env, a, m, b);
    hide Durable, Companions, Unambiguous, OnlyPlacement, PoolsOf, UserOrAssistant, Contains;
  }
}
