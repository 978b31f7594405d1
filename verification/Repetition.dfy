// What happens without a message's own event: two switches name the same event.
module Repetition {
  import opened Wrappers
  import opened Conversation
  import opened Lists
  import opened Boundary
  import opened Provenance
  import opened Accounting
  import opened Handoff
  import opened Sessions
  import opened Durability
  import opened Lineage
  import opened Expansion

  const YES: ChatMessage := ChatMessage("user", "yes")
  const OK: ChatMessage := ChatMessage("assistant", "ok")
  const YES_EVENT: MessageEvent := MessageEvent(1, "e1", MESSAGE_CREATED, "user", "yes")

  function HandoffEvent(id: int, eventId: string, text: string): MessageEvent {
    MessageEvent(id, eventId, SWITCH_CREATED, "assistant", text)
  }

  // A run of one message that matches the only event of its pool.
  lemma {:induction false} OnlyCandidate(env: Env, pools: Pools, m: ChatMessage, e: MessageEvent, used: set<string>)
    requires pools.For([m]) == [e] && Matches(env, m, e) && e.eventId !in used
    ensures Candidates(env, pools, [m], used, 0) == [0] && Window(pools, [m], 0) == [e]
  {
    hide Matches;
    assert Window(pools, [m], 0) == [e] by { assert [e][0..1] == [e]; }
    assert Candidates(env, pools, [m], used, 1) == [];
    assert IdSet([e]) !! used;
  }

  lemma {:induction false} NothingPlaced(env: Env, pools: Pools, runs: seq<Run>)
    ensures OnlyPlacement(env, pools, runs, []) && Matched(pools, runs, []) == []
    ensures ExactlyOnePlacement(env, pools, runs, 0)
  {
  }

  lemma {:induction false} OnePlacement(env: Env, pools: Pools, runs: seq<Run>, at: seq<nat>)
    requires OnlyPlacement(env, pools, runs, at)
    ensures ExactlyOnePlacement(env, pools, runs, |at|)
  {
  }

  // A window of one message with one event to match resolves to it,
  lemma {:induction false} OneRunResolves(env: Env, window: seq<ChatMessage>, loaded: seq<MessageEvent>,
                                          m: ChatMessage, e: MessageEvent)
    requires Durable(env, window) == [m] && (m.role == "user" || m.role == "assistant") && Runs([m]) == [[m]]
    requires PoolsOf(loaded).For([m]) == [e] && Matches(env, m, e)
    ensures Resolves(env, true, window, loaded, Some(Describe([e], |Companions(env, window)|)))
  {
    hide Matches, Durable, PoolsOf, Runs, Candidates, Window, OnlyPlacement, Describe;
    var pools, runs := PoolsOf(loaded), Runs([m]);
    NothingPlaced(env, pools, runs);
    OnlyCandidate(env, pools, m, e, {});
    assert IdSet([]) == {};
    SingleCandidate(env, pools, runs, [], 0);
    assert [] + [0] == [0];
    MatchedOneMore(pools, runs, [], 0);
    OnePlacement(env, pools, runs, [0]);
    OnePlacement(env, pools, runs, []);
    assert Unambiguous(env, pools, runs) by {
      forall n: nat | n <= |runs| ensures ExactlyOnePlacement(env, pools, runs, n) { assert n == 0 || n == 1; }
    }
    assert Matched(pools, runs, [0]) == [e];
  }

  // and one of a note and a message to both events.
  lemma {:induction false} TwoRunsResolve(env: Env, window: seq<ChatMessage>, loaded: seq<MessageEvent>,
                                          note: ChatMessage, h: MessageEvent, m: ChatMessage, e: MessageEvent)
    requires Durable(env, window) == [note, m] && Runs([note, m]) == [[note], [m]]
    requires note.role == "assistant" && m.role == "user" && h.eventId != e.eventId
    requires PoolsOf(loaded).For([note]) == [h] && Matches(env, note, h)
    requires PoolsOf(loaded).For([m]) == [e] && Matches(env, m, e)
    ensures Resolves(env, true, window, loaded, Some(Describe([h, e], |Companions(env, window)|)))
  {
    hide Matches, Durable, PoolsOf, Runs, Candidates, Window, OnlyPlacement, Describe, Matched, IdSet, UserOrAssistant;
    var pools, runs := PoolsOf(loaded), Runs([note, m]);
    TwoRunsPlacedOnce(env, pools, note, h, m, e);
    assert UserOrAssistant([note, m]) by { Roles(note, m); }
    assert Matched(pools, runs, [0, 0]) == [h, e];
  }

  lemma {:induction false} Roles(note: ChatMessage, m: ChatMessage)
    requires note.role == "assistant" && m.role == "user"
    ensures UserOrAssistant([note, m])
  {
  }

  lemma {:induction false} TwoRunsPlacedOnce(env: Env, pools: Pools, note: ChatMessage, h: MessageEvent, m: ChatMessage,
                                             e: MessageEvent)
    requires Runs([note, m]) == [[note], [m]] && h.eventId != e.eventId
    requires pools.For([note]) == [h] && Matches(env, note, h) && pools.For([m]) == [e] && Matches(env, m, e)
    ensures var runs := Runs([note, m]);
            && OnlyPlacement(env, pools, runs, [0, 0]) && Matched(pools, runs, [0, 0]) == [h, e]
            && Unambiguous(env, pools, runs)
  {
    hide Matches, Runs, Candidates, Window, OnlyPlacement, Matched, Unambiguous, ExactlyOnePlacement, Pools.For;
    var runs := Runs([note, m]);
    NothingPlaced(env, pools, runs);
    OnlyCandidate(env, pools, note, h, {});
    assert IdSet([]) == {};
    SingleCandidate(env, pools, runs, [], 0);
    assert [] + [0] == [0];
    MatchedOneMore(pools, runs, [], 0);
    assert Matched(pools, runs, [0]) == [h];
    assert e.eventId !in IdSet([h]);
    OnlyCandidate(env, pools, m, e, IdSet([h]));
    SingleCandidate(env, pools, runs, [0], 0);
    assert [0] + [0] == [0, 0];
    MatchedOneMore(pools, runs, [0], 0);
    assert [h] + [e] == [h, e];
    OnePlacement(env, pools, runs, [0, 0]);
    OnePlacement(env, pools, runs, [0]);
    ThreePrefixes(env, pools, runs);
  }

  lemma {:induction false} ThreePrefixes(env: Env, pools: Pools, runs: seq<Run>)
    requires |runs| == 2 && ExactlyOnePlacement(env, pools, runs, 0)
    requires ExactlyOnePlacement(env, pools, runs, 1) && ExactlyOnePlacement(env, pools, runs, 2)
    ensures Unambiguous(env, pools, runs)
  {
    hide ExactlyOnePlacement;
    forall n: nat | n <= |runs| ensures ExactlyOnePlacement(env, pools, runs, n) { assert n == 0 || n == 1 || n == 2; }
  }

  // ---------------------------------------------------------------- the pieces of the run

  lemma {:induction false} PlainMessages(env: Env)
    ensures !IsCompanion(env, YES) && !IsCompanion(env, OK) && !IsContextHandoff(YES) && !IsContextHandoff(OK)
    ensures Runs([YES]) == [[YES]]
  {
    assert TOOL_RESULTS_PREFIX[0] == '[' && "yes"[0] == 'y' && "ok"[0] == 'o' && CONTEXT_HANDOFF_START[0] == '[';
    assert [YES][..1] == [YES] && [YES][1..] == [];
    UnfoldRuns([YES]);
  }

  lemma {:induction false} AllDurable(env: Env, ms: seq<ChatMessage>)
    requires forall m :: m in ms ==> !IsCompanion(env, m)
    ensures Durable(env, ms) == ms && Companions(env, ms) == []
  {
    hide IsCompanion, Companions;
    NoCompanions(env, ms);
  }

  lemma {:induction false} NoCompanions(env: Env, ms: seq<ChatMessage>)
    requires forall m :: m in ms ==> !IsCompanion(env, m)
    ensures Companions(env, ms) == []
  {
    hide IsCompanion;
    if ms != [] { NoCompanions(env, ms[1..]); }
  }

  lemma {:induction false} NoteThenYes(env: Env, note: ChatMessage)
    requires IsContextHandoff(note)
    ensures Runs([note, YES]) == [[note], [YES]]
    ensures Durable(env, [note, YES]) == [note, YES] && Companions(env, [note, YES]) == []
    ensures Durable(env, [YES]) == [YES] && Companions(env, [YES]) == []
  {
    PlainMessages(env);
    HandoffIsDurable(env, note);
    AllDurable(env, [YES]);
    AllDurable(env, [note, YES]);
    hide IsCompanion, IsContextHandoff, Durable, Companions;
    assert [note, YES][..1] == [note] && [note, YES][1..] == [YES] && [YES][1..] == [];
    UnfoldRuns([note, YES]);
  }

  lemma {:induction false} ByIdOfTwo(a: MessageEvent, b: MessageEvent)
    requires a.id < b.id
    ensures ById([a]) == [a] && ById([a, b]) == [a, b]
  {
    hide StableSort;
    var r, q := ById([a, b]), ById([a]);
    assert |r| == 2 && r[0] in r && r[1] in r && a in r && b in r && |q| == 1 && q[0] in q;
  }

  lemma {:induction false} OfTypeOfOne(e: MessageEvent, t: string)
    ensures OfType([e], t) == if e.eventType == t then [e] else []
  {
    hide Filter;
    var r := OfType([e], t);
    assert r != [] ==> r[0] in r;
  }

  lemma {:induction false} OfTypeOfTwo(a: MessageEvent, b: MessageEvent, t: string)
    ensures OfType([a, b], t) == OfType([a], t) + OfType([b], t)
  {
    hide Filter;
    assert [a] + [b] == [a, b];
    FilterConcat((e: MessageEvent) => e.eventType == t, [a], [b]);
  }

  lemma {:induction false} PoolsOfLoaded(h: MessageEvent)
    requires h.eventType == SWITCH_CREATED && h.id == 2
    ensures PoolsOf([YES_EVENT]) == Pools([YES_EVENT], [])
    ensures PoolsOf([YES_EVENT, h]) == Pools([YES_EVENT], [h])
  {
    hide ById, OfType;
    ByIdOfTwo(YES_EVENT, h);
    OfTypeOfOne(YES_EVENT, MESSAGE_CREATED);
    OfTypeOfOne(YES_EVENT, SWITCH_CREATED);
    OfTypeOfOne(h, MESSAGE_CREATED);
    OfTypeOfOne(h, SWITCH_CREATED);
    OfTypeOfTwo(YES_EVENT, h, MESSAGE_CREATED);
    OfTypeOfTwo(YES_EVENT, h, SWITCH_CREATED);
  }

  lemma {:induction false} DescribesOne()
    ensures Describe([YES_EVENT], 0) == Provenance(["e1"], "e1", "e1", 1, 1, 0)
  {
    assert Ids([YES_EVENT]) == ["e1"];
  }

  lemma {:induction false} DescribesTwo(h: MessageEvent)
    requires h.id == 2 && h.eventId == "h1"
    ensures Describe([h, YES_EVENT], 0) == Provenance(["h1", "e1"], "e1", "h1", 1, 2, 0)
  {
    assert [h, YES_EVENT][1..] == [YES_EVENT];
    assert Ids([h, YES_EVENT]) == ["h1", "e1"];
  }

  lemma {:induction false} Cuts(env: Env, note: ChatMessage)
    requires IsContextHandoff(note)
    ensures IsCutPoint(env, [YES, YES], 1, 1) && NonSystemStart([YES, YES]) == 0
    ensures IsCutPoint(env, [note, YES, OK], 1, 2) && NonSystemStart([note, YES, OK]) == 0
  {
    PlainMessages(env);
    assert note.role == "assistant";
    hide IsCompanion, IsContextHandoff;
    assert Cuttable(env, [YES, YES], 1) && Cuttable(env, [note, YES, OK], 2);
  }

  lemma {:induction false} OneMoreHandoff(store: seq<MessageEvent>, h: MessageEvent)
    requires StoreOk(store) && WellFormedEvent(h) && h.role == "assistant" && CONTEXT_HANDOFF_START <= h.content
    requires forall e :: e in store ==> e.eventId != h.eventId
    ensures StoreOk(store + [h])
  {
    hide WellFormedEvent;
    var more := store + [h];
    forall i, j | 0 <= i < j < |more| ensures more[i].eventId != more[j].eventId {
      assert more[i] in store;
    }
  }

  lemma {:induction false} StoresAreOk(h: MessageEvent, g: MessageEvent)
    requires h.id == 2 && h.eventId == "h1" && g.id == 3 && g.eventId == "h2"
    requires h.eventType == SWITCH_CREATED && g.eventType == SWITCH_CREATED
    requires h.role == "assistant" && CONTEXT_HANDOFF_START <= h.content
    requires g.role == "assistant" && CONTEXT_HANDOFF_START <= g.content
    ensures StoreOk([YES_EVENT]) && StoreOk([YES_EVENT, h]) && StoreOk([YES_EVENT, h, g])
  {
    assert WellFormedEvent(YES_EVENT) && WellFormedEvent(h) && WellFormedEvent(g);
    assert StoreOk([YES_EVENT]);
    hide StoreOk, WellFormedEvent, CONTEXT_HANDOFF_START;
    var two := [YES_EVENT] + [h];
    var three := two + [g];
    OneMoreHandoff([YES_EVENT], h);
    OneMoreHandoff(two, g);
    assert two == [YES_EVENT, h];
    assert three == [YES_EVENT, h, g];
  }

  // ---------------------------------------------------------------- the run

  const FIRST: Provenance := Provenance(["e1"], "e1", "e1", 1, 1, 0)
  const SECOND: Provenance := Provenance(["h1", "e1"], "e1", "h1", 1, 2, 0)

  const SWITCH_ONE: Action := Action.Switch(1, 1, [YES_EVENT], FIRST, "h1", 2, map[])
  const START: State := State([YES, YES], [YES_EVENT], [], [YES, YES], [], [])

  function NoteOne(env: Env): MessageEvent {
    HandoffEvent(2, "h1", SwitchText(env, START.history, SWITCH_ONE))
  }

  // The states of the run, after the first note `h` and the second note `g`.
  function AfterOne(h: MessageEvent): State {
    State([ChatMessage("assistant", h.content), YES], [YES_EVENT, h], [], [YES, YES], ["h1"], [])
  }

  function AfterAppend(h: MessageEvent): State {
    State([ChatMessage("assistant", h.content), YES, OK], [YES_EVENT, h], [], [YES, YES, OK], ["h1"], [])
  }

  function SwitchTwo(h: MessageEvent): Action {
    Action.Switch(1, 2, [YES_EVENT, h], SECOND, "h2", 3, map[])
  }

  function NoteTwo(env: Env, h: MessageEvent): MessageEvent {
    HandoffEvent(3, "h2", SwitchText(env, AfterAppend(h).history, SwitchTwo(h)))
  }

  function AfterTwo(h: MessageEvent, g: MessageEvent): State {
    State([ChatMessage("assistant", g.content), OK], [YES_EVENT, h, g], [], [YES, YES, OK], ["h1", "h2"], [])
  }

  // The user says "yes" twice and only the first is stored; each is folded by a
  // switch of its own, and the last note expands to the one event twice.
  lemma {:induction false} UnstoredMessageIsNamedTwice(env: Env) returns (states: seq<State>, actions: seq<Action>)
    requires LawfulCodec(env)
    ensures IsRun(env, states, actions) && |actions| == 3 && OnlySwitchesAndOrdinaryAppends(actions)
    ensures FreshStart(states[0]) && states[0].handoffIds == [] && states[0].history == [YES, YES]
    ensures |states[3].history| == 2
    ensures ExpandNote(env, states[3].store, states[3].history[0].content, 1) == Some([YES_EVENT, YES_EVENT])
  {
    hide LawfulCodec, ExpandNote, StoreOk, Next, IsContextHandoff, IsCompanion, IsRun, AfterOne, AfterAppend, SwitchTwo,
         NoteOne, NoteTwo, START, SWITCH_ONE;
    var h := NoteOne(env);
    var g := NoteTwo(env, h);
    StepsOfTheRun(env, h, g);
    Expanded(env, h, g);
    PlainMessages(env);
    RunOfThree(env, START, SWITCH_ONE, AfterOne(h), Action.Append(OK, []), AfterAppend(h), SwitchTwo(h),
               AfterTwo(h, g));
    states := [START, AfterOne(h), AfterAppend(h), AfterTwo(h, g)];
    actions := [SWITCH_ONE, Action.Append(OK, []), SwitchTwo(h)];
    SwitchesOnly(h);
  }

  lemma {:induction false} SwitchesOnly(h: MessageEvent)
    ensures SWITCH_ONE.Switch? && SwitchTwo(h).Switch?
    ensures START.handoffIds == [] && START.history == [YES, YES] && START.appended == [YES, YES]
    ensures START.store == [YES_EVENT]
  {
  }

  lemma {:induction false} StepsOfTheRun(env: Env, h: MessageEvent, g: MessageEvent)
    requires h == NoteOne(env) && g == NoteTwo(env, h)
    ensures StoreOk([YES_EVENT]) && StoreOk([YES_EVENT, h, g])
    ensures Next(env, START, SWITCH_ONE, AfterOne(h))
    ensures Next(env, AfterOne(h), Action.Append(OK, []), AfterAppend(h))
    ensures Next(env, AfterAppend(h), SwitchTwo(h), AfterTwo(h, g))
  {
    hide SwitchText, StoreOk, SwitchStep, AppendStep;
    StoresAreOk(h, g);
    FirstStep(env, START, SWITCH_ONE, AfterOne(h), h);
    AppendOk(AfterOne(h), Action.Append(OK, []), AfterAppend(h));
    SecondStep(env, AfterAppend(h), SwitchTwo(h), AfterTwo(h, g), h, g);
  }

  lemma {:induction false} RunOfThree(env: Env, s0: State, a0: Action, s1: State, a1: Action, s2: State, a2: Action,
                                      s3: State)
    requires Next(env, s0, a0, s1) && Next(env, s1, a1, s2) && Next(env, s2, a2, s3)
    ensures IsRun(env, [s0, s1, s2, s3], [a0, a1, a2])
  {
    hide Next;
    var states, actions := [s0, s1, s2, s3], [a0, a1, a2];
    forall i | 0 <= i < 3 ensures Next(env, states[i], actions[i], states[i + 1]) {
      assert i == 0 || i == 1 || i == 2;
    }
  }

  lemma {:induction false} NoteIsHandoff(text: string)
    requires CONTEXT_HANDOFF_START <= text
    ensures IsContextHandoff(ChatMessage("assistant", text))
  {
  }

  lemma {:induction false} AppendOk(s: State, a: Action, t: State)
    requires a == Action.Append(OK, []) && StoreOk(s.store)
    requires t == s.(history := s.history + [OK], appended := s.appended + [OK])
    ensures AppendStep(s, a, t)
  {
    hide StoreOk;
    assert s.store + [] == s.store;
  }

  lemma {:induction false} FirstStep(env: Env, s: State, a: Action, t: State, h: MessageEvent)
    requires s == State([YES, YES], [YES_EVENT], [], [YES, YES], [], [])
    requires a == Action.Switch(1, 1, [YES_EVENT], FIRST, "h1", 2, map[])
    requires h == HandoffEvent(2, "h1", SwitchText(env, s.history, a)) && StoreOk([YES_EVENT, h])
    requires t == State([ChatMessage("assistant", h.content), YES], [YES_EVENT, h], [], [YES, YES], ["h1"], [])
    ensures SwitchStep(env, s, a, t)
  {
    hide SwitchText, StoreOk, Resolves, IsCutPoint, Durable, PoolsOf, Runs, Describe, Matches;
    var note := ChatMessage("assistant", h.content);
    NoteIsHandoff(h.content);
    Cuts(env, note);
    NoteThenYes(env, note);
    PlainMessages(env);
    PoolsOfLoaded(h);
    DescribesOne();
    YesMatches(env);
    assert [YES, YES][0..1] == [YES];
    OneRunResolves(env, [YES], [YES_EVENT], YES, YES_EVENT);
    assert Spliced(s.history, 1, [note]) == [note, YES];
    assert [YES_EVENT] + [h] == [YES_EVENT, h] && [] + ["h1"] == ["h1"];
  }

  lemma {:induction false} YesMatches(env: Env)
    ensures Matches(env, YES, YES_EVENT)
  {
  }

  lemma {:induction false} SecondStep(env: Env, s: State, a: Action, t: State, h: MessageEvent, g: MessageEvent)
    requires CONTEXT_HANDOFF_START <= h.content && h == HandoffEvent(2, "h1", h.content)
    requires s == State([ChatMessage("assistant", h.content), YES, OK], [YES_EVENT, h], [], [YES, YES, OK], ["h1"], [])
    requires a == Action.Switch(1, 2, [YES_EVENT, h], SECOND, "h2", 3, map[])
    requires g == HandoffEvent(3, "h2", SwitchText(env, s.history, a)) && StoreOk([YES_EVENT, h, g])
    requires StoreOk([YES_EVENT, h])
    requires t == State([ChatMessage("assistant", g.content), OK], [YES_EVENT, h, g], [], [YES, YES, OK], ["h1", "h2"],
                        [])
    ensures SwitchStep(env, s, a, t)
  {
    hide SwitchText, StoreOk, Resolves, IsCutPoint, Durable, PoolsOf, Runs, Describe, Matches;
    var note, next := ChatMessage("assistant", h.content), ChatMessage("assistant", g.content);
    NoteIsHandoff(h.content);
    Cuts(env, note);
    NoteThenYes(env, note);
    PlainMessages(env);
    PoolsOfLoaded(h);
    DescribesTwo(h);
    YesMatches(env);
    NoteMatches(env, note, h);
    assert [note, YES, OK][0..2] == [note, YES];
    TwoRunsResolve(env, [note, YES], [YES_EVENT, h], note, h, YES, YES_EVENT);
    assert Spliced(s.history, 2, [next]) == [next, OK];
    assert [YES_EVENT, h] + [g] == [YES_EVENT, h, g] && ["h1"] + ["h2"] == ["h1", "h2"];
    assert DistinctIds([YES_EVENT, h]);
  }

  lemma {:induction false} NoteMatches(env: Env, note: ChatMessage, h: MessageEvent)
    requires note.role == h.role && note.content == h.content
    ensures Matches(env, note, h)
  {
  }

  lemma {:induction false} Expanded(env: Env, h: MessageEvent, g: MessageEvent)
    requires LawfulCodec(env) && StoreOk([YES_EVENT, h, g]) && h == NoteOne(env) && g == NoteTwo(env, h)
    ensures ExpandNote(env, [YES_EVENT, h, g], g.content, 1) == Some([YES_EVENT, YES_EVENT])
  {
    hide LawfulCodec, SwitchText, StoreOk, Lookup, NoteArguments, ExpandNote, ExpandAll;
    var store := [YES_EVENT, h, g];
    SwitchTextArguments(env, START.history, SWITCH_ONE);
    SwitchTextArguments(env, AfterAppend(h).history, SwitchTwo(h));
    LooksUp(store, h);
    CreatedExpand(env, store, [YES_EVENT], 0);
    ExpandsTo(env, store, h.content, [YES_EVENT], 0);
    assert [h, YES_EVENT][1..] == [YES_EVENT] && [h, YES_EVENT][0] == h;
    ExpandMatched(env, store, g.content, [h, YES_EVENT], [YES_EVENT], 0);
    assert [YES_EVENT] + [YES_EVENT] == [YES_EVENT, YES_EVENT];
  }

  lemma {:induction false} ExpandsTo(env: Env, store: seq<MessageEvent>, content: string, events: seq<MessageEvent>,
                                     depth: nat)
    requires NoteArguments(env, content).Some?
    requires Lookup(store, NoteArguments(env, content).value) == Some(events)
    ensures ExpandNote(env, store, content, depth) == ExpandAll(env, store, events, depth)
  {
    hide NoteArguments, Lookup, ExpandAll;
  }

  lemma {:induction false} LooksUp(store: seq<MessageEvent>, h: MessageEvent)
    requires StoreOk(store) && YES_EVENT in store && h in store && h.id == 2 && h.eventId == "h1"
    ensures Lookup(store, LookupArguments(FIRST)) == Some([YES_EVENT])
    ensures Lookup(store, LookupArguments(SECOND)) == Some([h, YES_EVENT])
  {
    DescribesOne();
    DescribesTwo(h);
    StoreFacts(store);
    hide StoreOk, Lookup, LookupArguments, Describe, WellFormedEvent, DistinctIds;
    assert DistinctIds([YES_EVENT]) && DistinctIds([h, YES_EVENT]) by { TwoIdsDiffer(h); }
    LookupRecoversMatched(store, [YES_EVENT], FIRST, 0);
    LookupRecoversMatched(store, [h, YES_EVENT], SECOND, 0);
  }

  lemma {:induction false} TwoIdsDiffer(h: MessageEvent)
    requires h.eventId == "h1"
    ensures DistinctIds([YES_EVENT]) && DistinctIds([h, YES_EVENT])
  {
  }

  lemma {:induction false} StoreFacts(store: seq<MessageEvent>)
    requires StoreOk(store)
    ensures DistinctIds(store) && forall e :: e in store ==> WellFormedEvent(e)
  {
  }
}
