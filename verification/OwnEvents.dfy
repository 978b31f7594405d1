// When every message brings its own event, the note expands to exactly those.
module OwnEvents {
  import opened Wrappers
  import opened Conversation
  import opened Lists
  import opened Provenance
  import opened Accounting
  import opened Handoff
  import opened Sessions
  import opened Durability
  import opened Lineage
  import opened Expansion

  // The stored events of ordinary messages, oldest first.
  function Created(store: seq<MessageEvent>): seq<MessageEvent> {
    OfType(store, MESSAGE_CREATED)
  }

  lemma {:induction false} CreatedJoins(a: seq<MessageEvent>, b: seq<MessageEvent>)
    ensures Created(a + b) == Created(a) + Created(b)
  {
    FilterConcat((e: MessageEvent) => e.eventType == MESSAGE_CREATED, a, b);
  }

  // The messages behind any system message at the head.
  function Body(messages: seq<ChatMessage>): seq<ChatMessage> {
    messages[NonSystemStart(messages)..]
  }

  // The append stores the message's own event: one for a durable message, none
  // for a companion or the system message at the head.
  ghost predicate BringsItsEvent(env: Env, s: State, a: Action)
    requires a.Append?
  {
    var created := Created(a.events);
    if IsCompanion(env, a.message) || (s.appended == [] && a.message.role == "system") then created == []
    else |created| == 1 && Matches(env, a.message, created[0])
  }

  // The events stored for ordinary messages are, one by one, those of the durable
  // messages appended; rewrites have left the head of the history alone.
  ghost predicate IsPersisted(env: Env, s: State) {
    var start := NonSystemStart(s.appended);
    && (s.history == [] <==> s.appended == [])
    && NonSystemStart(s.history) == start && s.history[..start] == s.appended[..start]
    && StandFor(env, s.store, Created(s.store), Durable(env, Body(s.appended)))
  }

  // How many of them stand for messages that are still in the history.
  function Present(env: Env, s: State): nat
    requires s.handoffIds != []
  {
    |Durable(env, if NonSystemStart(s.history) < |s.history| then s.history[NonSystemStart(s.history) + 1..] else [])|
  }

  // The note expands to the events of all messages that are no longer present.
  ghost predicate ExpandsToOwn(env: Env, s: State) {
    if s.handoffIds == [] then s.appended == s.history
    else
      var start, created := NonSystemStart(s.history), Created(s.store);
      var n := |created| - Present(env, s);
      && start < |s.history| && IsStoredHandoff(s.store, s.history[start])
      && 0 <= n && n <= |Durable(env, Body(s.appended))|
      && ExpandNote(env, s.store, s.history[start].content, |s.handoffIds| - 1) == Some(created[..n])
      && Durable(env, Body(s.appended))[n..] == Durable(env, s.history[start + 1..])
  }

  // ---------------------------------------------------------------- appends

  lemma {:induction false} BodyGrows(env: Env, messages: seq<ChatMessage>, m: ChatMessage)
    ensures var brings := !IsCompanion(env, m) && !(messages == [] && m.role == "system");
            Durable(env, Body(messages + [m])) == Durable(env, Body(messages)) + if brings then [m] else []
  {
    hide IsCompanion;
    if messages == [] {
      assert messages + [m] == [m];
      DurableOfOne(env, m);
      assert Body([]) == [];
      if m.role == "system" { assert Body([m]) == []; } else { assert Body([m]) == [m]; }
    } else {
      assert (messages + [m])[0] == messages[0];
      assert Body(messages + [m]) == Body(messages) + [m];
      DurableJoins(env, Body(messages), [m]);
      DurableOfOne(env, m);
    }
  }

  lemma {:induction false} DurableOfOne(env: Env, m: ChatMessage)
    ensures Durable(env, [m]) == (if IsCompanion(env, m) then [] else [m]) && Durable(env, []) == []
  {
    hide IsCompanion;
    assert [m][1..] == [];
  }

  lemma {:induction false} AppendKeepsPersisted(env: Env, s: State, a: Action, t: State)
    requires a.Append? && AppendStep(s, a, t) && BringsItsEvent(env, s, a) && IsPersisted(env, s)
    ensures IsPersisted(env, t)
  {
    hide StoreOk, Durable, OfType, IsCompanion, Body;
    CreatedJoins(s.store, a.events);
    BodyGrows(env, s.appended, a.message);
    var own, more := Created(s.store), Created(a.events);
    var ms := Durable(env, Body(s.appended));
    StandForInLongerStore(env, s.store, a.events, own, ms);
    if more != [] {
      assert more[0] in more;
      CreatedIn(a.events, more[0]);
      assert StandFor(env, t.store, more, [a.message]);
      StandForJoins(env, t.store, own, ms, more, [a.message]);
    } else {
      assert own + [] == own && ms + [] == ms;
    }
    HeadStays(s, a, t);
  }

  lemma {:induction false} CreatedIn(events: seq<MessageEvent>, e: MessageEvent)
    ensures e in Created(events) <==> e in events && e.eventType == MESSAGE_CREATED
  {
  }

  lemma {:induction false} HeadStays(s: State, a: Action, t: State)
    requires a.Append? && AppendStep(s, a, t)
    requires NonSystemStart(s.history) == NonSystemStart(s.appended)
    requires s.history[..NonSystemStart(s.history)] == s.appended[..NonSystemStart(s.history)]
    requires s.history == [] <==> s.appended == []
    ensures NonSystemStart(t.history) == NonSystemStart(t.appended)
    ensures t.history[..NonSystemStart(t.history)] == t.appended[..NonSystemStart(t.history)]
  {
  }

  // The facts of `ExpandsToOwn` behind a note, for the `n` events it expands to.
  ghost predicate OwnBehindNote(env: Env, s: State, n: nat) {
    var start := NonSystemStart(s.history);
    && s.handoffIds != [] && start < |s.history| && IsStoredHandoff(s.store, s.history[start])
    && n <= |Created(s.store)| && n <= |Durable(env, Body(s.appended))|
    && |Created(s.store)| == n + |Durable(env, s.history[start + 1..])|
    && ExpandNote(env, s.store, s.history[start].content, |s.handoffIds| - 1) == Some(Created(s.store)[..n])
    && Durable(env, Body(s.appended))[n..] == Durable(env, s.history[start + 1..])
  }

  lemma {:induction false} OwnBehind(env: Env, s: State)
    requires s.handoffIds != []
    ensures ExpandsToOwn(env, s) <==> exists n: nat :: OwnBehindNote(env, s, n)
  {
    hide Durable, OfType, Body, ExpandNote, IsStoredHandoff;
    if ExpandsToOwn(env, s) {
      assert OwnBehindNote(env, s, |Created(s.store)| - Present(env, s));
    }
  }

  lemma {:induction false} AppendKeepsOwn(env: Env, s: State, a: Action, t: State)
    requires a.Append? && AppendStep(s, a, t) && BringsItsEvent(env, s, a)
    requires IsPersisted(env, s) && ExpandsToOwn(env, s)
    ensures ExpandsToOwn(env, t)
  {
    hide StoreOk, Durable, OfType, Body, IsCompanion, ExpandNote, StandFor, IsStoredHandoff, Created, ExpandsToOwn;
    if s.handoffIds == [] {
      FreshOwn(env, s);
      FreshOwn(env, t);
    } else {
      OwnBehind(env, s);
      OwnBehind(env, t);
      var n: nat :| OwnBehindNote(env, s, n);
      var start := NonSystemStart(s.history);
      AppendStore(s, a, t);
      CreatedJoins(s.store, a.events);
      BodyGrows(env, s.appended, a.message);
      ExpandNoteInLongerStore(env, s.store, a.events, s.history[start].content, |s.handoffIds| - 1);
      StoredHandoffInLongerStore(s.store, a.events, s.history[start]);
      assert t.history[start + 1..] == s.history[start + 1..] + [a.message] && t.history[start] == s.history[start];
      DurableJoins(env, s.history[start + 1..], [a.message]);
      DurableOfOne(env, a.message);
      assert Created(t.store)[..n] == Created(s.store)[..n];
      assert OwnBehindNote(env, t, n);
    }
  }

  lemma {:induction false} FreshOwn(env: Env, s: State)
    requires s.handoffIds == []
    ensures ExpandsToOwn(env, s) <==> s.appended == s.history
  {
  }

  // ---------------------------------------------------------------- switches

  // The events in front of the window's own ones, and the window behind the note.
  function Expanded(env: Env, s: State): int {
    if s.handoffIds == [] then 0 else |Created(s.store)| - Present(env, s)
  }

  function Unfolded(s: State, b: nat): seq<ChatMessage>
    requires NonSystemStart(s.history) < b <= |s.history|
  {
    if s.handoffIds == [] then s.history[NonSystemStart(s.history)..b] else s.history[NonSystemStart(s.history) + 1..b]
  }

  // The own events of the window's messages behind the note.
  function OwnOf(env: Env, s: State, b: nat): (r: seq<MessageEvent>)
    requires NonSystemStart(s.history) < b <= |s.history|
    requires 0 <= Expanded(env, s) && Expanded(env, s) + |Durable(env, Unfolded(s, b))| <= |Created(s.store)|
  {
    Created(s.store)[Expanded(env, s)..Expanded(env, s) + |Durable(env, Unfolded(s, b))|]
  }

  ghost predicate IsSlice(pool: seq<MessageEvent>, events: seq<MessageEvent>, w: nat) {
    w + |events| <= |pool| && pool[w..w + |events|] == events
  }

  ghost predicate IsEventOf(e: MessageEvent, note: ChatMessage) {
    e.eventType == SWITCH_CREATED && e.role == note.role && e.content == note.content
  }

  // The events read for the switch hold the own events of the window's messages,
  // one after the other, and that of the note.
  ghost predicate OwnEventsLoaded(env: Env, s: State, a: Action)
    requires a.Switch? && NonSystemStart(s.history) < a.boundary <= |s.history|
  {
    && 0 <= Expanded(env, s)
    && Expanded(env, s) + |Durable(env, Unfolded(s, a.boundary))| <= |Created(s.store)|
    && (exists w: nat :: IsSlice(PoolsOf(a.loaded).created, OwnOf(env, s, a.boundary), w))
    && (s.handoffIds != [] ==> exists e :: e in a.loaded && IsEventOf(e, s.history[NonSystemStart(s.history)]))
  }

  predicate NoHandoff(ms: seq<ChatMessage>) {
    forall i :: 0 <= i < |ms| ==> !IsContextHandoff(ms[i])
  }

  lemma {:induction false} RunOfPlain(ms: seq<ChatMessage>)
    requires ms != [] && NoHandoff(ms)
    ensures RunLength(ms) == |ms|
  {
    hide IsContextHandoff;
    if |ms| > 1 { RunOfPlain(ms[1..]); }
  }

  lemma {:induction false} RunsOfPlain(ms: seq<ChatMessage>)
    requires NoHandoff(ms)
    ensures Runs(ms) == if ms == [] then [] else [ms]
  {
    hide IsContextHandoff;
    if ms != [] {
      RunOfPlain(ms);
      assert ms[..|ms|] == ms && ms[|ms|..] == [];
      UnfoldRuns(ms);
    }
  }

  lemma {:induction false} RunsOfNote(note: ChatMessage, ms: seq<ChatMessage>)
    requires IsContextHandoff(note) && NoHandoff(ms)
    ensures Runs([note] + ms) == [[note]] + if ms == [] then [] else [ms]
  {
    var all := [note] + ms;
    assert all[..1] == [note] && all[1..] == ms;
    UnfoldRuns(all);
    hide IsContextHandoff;
    RunsOfPlain(ms);
  }

  lemma {:induction false} OwnFits(env: Env, pools: Pools, ms: Run, own: seq<MessageEvent>, w: nat,
                                   store: seq<MessageEvent>)
    requires NoHandoff(ms) && IsSlice(pools.created, own, w) && StandFor(env, store, own, ms)
    ensures Fits(env, pools, ms, w) && Window(pools, ms, w) == own
  {
    hide IsContextHandoff, Matches;
    assert pools.For(ms) == pools.created;
  }

  lemma {:induction false} NoteFits(env: Env, pools: Pools, note: ChatMessage, e: MessageEvent)
    requires IsContextHandoff(note) && e in pools.switches && IsEventOf(e, note)
    ensures exists v: nat :: Fits(env, pools, [note], v) && Window(pools, [note], v) == [e]
  {
    var v :| 0 <= v < |pools.switches| && pools.switches[v] == e;
    hide IsContextHandoff;
    assert pools.switches[v..v + 1] == [e];
    assert Window(pools, [note], v) == [e];
    assert Fits(env, pools, [note], v);
  }

  lemma {:induction false} SameIdsSameEvents(store: seq<MessageEvent>, a: seq<MessageEvent>, b: seq<MessageEvent>)
    requires DistinctIds(store) && Ids(a) == Ids(b)
    requires forall e :: e in a || e in b ==> e in store
    ensures a == b
  {
    forall i | 0 <= i < |a| ensures a[i] == b[i] {
      assert Ids(a)[i] == Ids(b)[i];
      assert a[i] in store && b[i] in store;
    }
  }

  // One run: the placement on the own events.
  lemma {:induction false} PlacedOnOwn(env: Env, pools: Pools, ms: seq<ChatMessage>, own: seq<MessageEvent>, w: nat,
                                       store: seq<MessageEvent>)
      returns (at: seq<nat>)
    requires NoHandoff(ms) && IsSlice(pools.created, own, w) && StandFor(env, store, own, ms)
    ensures |at| == |Runs(ms)| && Placed(env, pools, Runs(ms), at) && Matched(pools, Runs(ms), at) == own
  {
    RunsOfPlain(ms);
    if ms == [] {
      at := [];
    } else {
      at := [w];
      OwnFits(env, pools, ms, own, w, store);
      hide Fits, Window, IsContextHandoff, StandFor;
      assert [w][..0] == [] && Matched(pools, [ms], []) == [];
    }
  }

  // Two runs: the note on its event, the rest on the own events.
  lemma {:induction false} PlacedOnNoteAndOwn(env: Env, pools: Pools, note: ChatMessage, e: MessageEvent,
                                              ms: seq<ChatMessage>, own: seq<MessageEvent>, w: nat,
                                              store: seq<MessageEvent>)
      returns (at: seq<nat>)
    requires IsContextHandoff(note) && e in pools.switches && IsEventOf(e, note)
    requires NoHandoff(ms) && IsSlice(pools.created, own, w) && StandFor(env, store, own, ms)
    requires forall x :: x in own ==> x.eventId != e.eventId
    ensures var runs := Runs([note] + ms);
            |at| == |runs| && Placed(env, pools, runs, at) && Matched(pools, runs, at) == [e] + own
  {
    hide Fits, Window, IsContextHandoff, IsEventOf, Placed, Matched, IdSet;
    RunsOfNote(note, ms);
    NoteFits(env, pools, note, e);
    var v: nat :| Fits(env, pools, [note], v) && Window(pools, [note], v) == [e];
    if ms == [] {
      at := [v];
      OwnIsEmpty(env, store, own, ms);
      OneRunPlaced(env, pools, [note], v);
      assert Runs([note] + ms) == [[note]];
      assert [e] + own == [e];
    } else {
      at := [v, w];
      OwnFits(env, pools, ms, own, w, store);
      assert IdSet([e]) !! IdSet(own) by { DisjointIds(e, own); }
      TwoRunsPlaced(env, pools, [note], ms, v, w);
    }
  }

  lemma {:induction false} DisjointIds(e: MessageEvent, own: seq<MessageEvent>)
    requires forall x :: x in own ==> x.eventId != e.eventId
    ensures IdSet([e]) !! IdSet(own)
  {
  }

  lemma {:induction false} OneRunPlaced(env: Env, pools: Pools, run: Run, v: nat)
    requires Fits(env, pools, run, v)
    ensures Placed(env, pools, [run], [v]) && Matched(pools, [run], [v]) == Window(pools, run, v)
  {
    hide Fits, Window;
    assert [v][..0] == [] && Matched(pools, [run], []) == [];
  }

  lemma {:induction false} TwoRunsPlaced(env: Env, pools: Pools, first: Run, second: Run, v: nat, w: nat)
    requires Fits(env, pools, first, v) && Fits(env, pools, second, w)
    requires IdSet(Window(pools, first, v)) !! IdSet(Window(pools, second, w))
    ensures var runs := [first] + [second];
            && Placed(env, pools, runs, [v, w])
            && Matched(pools, runs, [v, w]) == Window(pools, first, v) + Window(pools, second, w)
  {
    hide Fits, Window, IdSet;
    var runs := [first] + [second];
    assert [v, w][..1] == [v] && [v][..0] == [] && Matched(pools, runs, []) == [];
    assert Matched(pools, runs, [v]) == [] + Window(pools, first, v);
  }

  lemma {:induction false} OwnIsEmpty(env: Env, store: seq<MessageEvent>, own: seq<MessageEvent>, ms: seq<ChatMessage>)
    requires StandFor(env, store, own, ms) && ms == []
    ensures own == []
  {
  }

  lemma {:induction false} InPools(loaded: seq<MessageEvent>, e: MessageEvent)
    ensures e in PoolsOf(loaded).created <==> e in loaded && e.eventType == MESSAGE_CREATED
    ensures e in PoolsOf(loaded).switches <==> e in loaded && e.eventType == SWITCH_CREATED
  {
  }

  // A placement names the events its switch looks up.
  lemma {:induction false} PlacementIsMatched(env: Env, s: State, a: Action, t: State, matched: seq<MessageEvent>,
                                              at: seq<nat>, named: seq<MessageEvent>)
    requires StoreOk(s.store) && a.Switch? && SwitchStep(env, s, a, t)
    requires a.prov.sourceEventIds == Ids(matched) && forall e :: e in matched ==> e in s.store
    requires NonSystemStart(s.history) <= a.boundary <= |s.history|
    requires var window := ColdWindow(s.history, a.boundary);
             && |at| == |Runs(Durable(env, window))|
             && Placed(env, PoolsOf(a.loaded), Runs(Durable(env, window)), at)
             && Matched(PoolsOf(a.loaded), Runs(Durable(env, window)), at) == named
    requires forall e :: e in named ==> e in s.store
    ensures matched == named
  {
    hide Resolves, IsCutPoint, Durable, Placed, Matched, Runs, PoolsOf, Ids, SwitchText;
    ResolutionIsForced(env, true, ColdWindow(s.history, a.boundary), a.loaded, a.prov, at);
    SameIdsSameEvents(s.store, matched, named);
  }

  // The durable messages of the window behind the note are those the own events
  // stand for.
  lemma {:induction false} OwnStandFor(env: Env, s: State, a: Action, n: nat)
    requires IsPersisted(env, s) && a.Switch? && NonSystemStart(s.history) < a.boundary <= |s.history|
    requires n <= |Created(s.store)| && n <= |Durable(env, Body(s.appended))|
    requires Durable(env, Body(s.appended))[n..]
             == Durable(env, Unfolded(s, a.boundary)) + Durable(env, s.history[a.boundary..])
    ensures var ms := Durable(env, Unfolded(s, a.boundary));
            n + |ms| <= |Created(s.store)| && StandFor(env, s.store, Created(s.store)[n..n + |ms|], ms)
  {
    hide Durable, OfType, Body, Matches, IsCompanion;
    var own, all := Created(s.store), Durable(env, Body(s.appended));
    var ms := Durable(env, Unfolded(s, a.boundary));
    assert all[n..][..|ms|] == ms;
    forall i | 0 <= i < |ms| ensures Matches(env, ms[i], own[n + i]) && own[n + i] in s.store {
      assert ms[i] == all[n..][i] == all[n + i];
    }
  }

  lemma {:induction false} SliceIsIn(s: State, n: nat, k: nat)
    requires n + k <= |Created(s.store)|
    ensures forall e :: e in Created(s.store)[n..n + k] ==> e in s.store && e.eventType == MESSAGE_CREATED
  {
    forall e | e in Created(s.store)[n..n + k] ensures e in s.store && e.eventType == MESSAGE_CREATED {
      assert e in Created(s.store);
    }
  }

  // The first switch names exactly the own events of the window's messages.
  lemma {:induction false} FirstSwitchNamesOwn(env: Env, s: State, a: Action, t: State)
      returns (matched: seq<MessageEvent>)
    requires LawfulCodec(env) && StoreOk(s.store) && a.Switch? && SwitchStep(env, s, a, t)
    requires s.handoffIds == [] && IsPersisted(env, s) && s.appended == s.history && NoHandoff(s.history)
    requires NonSystemStart(s.history) < a.boundary <= |s.history| && OwnEventsLoaded(env, s, a)
    ensures matched == OwnOf(env, s, a.boundary)
    ensures ExpandNote(env, t.store, SwitchText(env, s.history, a), 0) == Some(matched)
  {
    hide SwitchStep, Durable, OfType, Body, StoreOk, LawfulCodec, SwitchText, NoteArguments, Lookup, StandFor,
         IsPersisted, PoolsOf, Matched, Placed, Runs, IsContextHandoff;
    var b := a.boundary;
    var ms := Durable(env, Unfolded(s, b));
    matched := SwitchIsLossless(env, s, a, t);
    FreshSplits(env, s, b);
    OwnStandFor(env, s, a, 0);
    var own := OwnOf(env, s, b);
    SliceIsIn(s, 0, |ms|);
    PlainWindow(env, Unfolded(s, b));
    var w: nat :| IsSlice(PoolsOf(a.loaded).created, own, w);
    var at := PlacedOnOwn(env, PoolsOf(a.loaded), ms, own, w, s.store);
    MatchedInStore(env, s, a, matched);
    PlacementIsMatched(env, s, a, t, matched, at, own);
    CreatedExpand(env, t.store, own, 0);
  }

  lemma {:induction false} MatchedInStore(env: Env, s: State, a: Action, matched: seq<MessageEvent>)
    requires a.Switch? && NonSystemStart(s.history) <= a.boundary <= |s.history|
    requires Accounts(env, Durable(env, ColdWindow(s.history, a.boundary)), s.store, matched)
    ensures forall e :: e in matched ==> e in s.store
  {
    hide Matches, Durable;
  }

  lemma {:induction false} FreshSplits(env: Env, s: State, b: nat)
    requires s.handoffIds == [] && s.appended == s.history && NonSystemStart(s.history) < b <= |s.history|
    ensures Unfolded(s, b) == ColdWindow(s.history, b)
    ensures Durable(env, Body(s.appended))[0..] == Durable(env, Unfolded(s, b)) + Durable(env, s.history[b..])
  {
    var start := NonSystemStart(s.history);
    assert s.history[start..] == s.history[start..b] + s.history[b..];
    DurableJoins(env, s.history[start..b], s.history[b..]);
    hide Durable;
  }

  lemma {:induction false} PlainWindow(env: Env, window: seq<ChatMessage>)
    requires NoHandoff(window)
    ensures NoHandoff(Durable(env, window))
  {
    hide IsContextHandoff;
    forall i | 0 <= i < |Durable(env, window)| ensures !IsContextHandoff(Durable(env, window)[i]) {
      assert Durable(env, window)[i] in window;
    }
  }

  // A later switch names the note's event and the own events behind it.
  lemma {:induction false} LaterSwitchNamesOwn(env: Env, s: State, a: Action, t: State, n: nat)
      returns (matched: seq<MessageEvent>)
    requires LawfulCodec(env) && StoreOk(s.store) && a.Switch? && SwitchStep(env, s, a, t)
    requires IsPersisted(env, s) && OwnBehindNote(env, s, n) && n == Expanded(env, s)
    requires NoHandoff(s.history[NonSystemStart(s.history) + 1..])
    requires NonSystemStart(s.history) < a.boundary <= |s.history| && OwnEventsLoaded(env, s, a)
    ensures matched != [] && matched[0].eventType == SWITCH_CREATED && matched[1..] == OwnOf(env, s, a.boundary)
    ensures matched[0].content == s.history[NonSystemStart(s.history)].content
    ensures NoteArguments(env, SwitchText(env, s.history, a)).Some?
    ensures Lookup(t.store, NoteArguments(env, SwitchText(env, s.history, a)).value) == Some(matched)
  {
    hide SwitchStep, Durable, OfType, Body, StoreOk, LawfulCodec, SwitchText, NoteArguments, Lookup, StandFor,
         IsPersisted, PoolsOf, Matched, Placed, Runs, IsContextHandoff, ExpandNote, IsStoredHandoff, Created;
    var b, start := a.boundary, NonSystemStart(s.history);
    var note, ms := s.history[start], Durable(env, Unfolded(s, b));
    matched := SwitchIsLossless(env, s, a, t);
    WindowSplits(env, s, b);
    HistorySplits(env, s.history, start, b);
    OwnStandFor(env, s, a, n);
    var own := OwnOf(env, s, b);
    SliceIsIn(s, n, |ms|);
    assert NoHandoff(Unfolded(s, b)) by { NoHandoffInPart(s.history, start + 1, b); }
    PlainWindow(env, Unfolded(s, b));
    var e :| e in a.loaded && IsEventOf(e, note);
    var w: nat :| IsSlice(PoolsOf(a.loaded).created, own, w);
    InPools(a.loaded, e);
    LoadedIsStored(env, s, a, t, e);
    OtherIds(s.store, e, own);
    var at := PlacedOnNoteAndOwn(env, PoolsOf(a.loaded), note, e, ms, own, w, s.store);
    MatchedInStore(env, s, a, matched);
    PlacementIsMatched(env, s, a, t, matched, at, [e] + own);
    assert ([e] + own)[1..] == own;
  }

  lemma {:induction false} NoHandoffInPart(history: seq<ChatMessage>, from: nat, to: nat)
    requires from <= to <= |history| && NoHandoff(history[from..])
    ensures NoHandoff(history[from..to])
  {
    hide IsContextHandoff;
    assert history[from..to] == history[from..][..to - from];
  }

  lemma {:induction false} LoadedIsStored(env: Env, s: State, a: Action, t: State, e: MessageEvent)
    requires a.Switch? && SwitchStep(env, s, a, t) && e in a.loaded
    ensures e in s.store
  {
  }

  lemma {:induction false} OtherIds(store: seq<MessageEvent>, e: MessageEvent, own: seq<MessageEvent>)
    requires StoreOk(store) && e in store && e.eventType == SWITCH_CREATED
    requires forall x :: x in own ==> x in store && x.eventType == MESSAGE_CREATED
    ensures forall x :: x in own ==> x.eventId != e.eventId
  {
  }

  // ---------------------------------------------------------------- runs

  lemma {:induction false} SwitchKeepsPersisted(env: Env, s: State, a: Action, t: State)
    requires a.Switch? && SwitchStep(env, s, a, t) && IsPersisted(env, s)
    ensures IsPersisted(env, t) && Created(t.store) == Created(s.store)
  {
    hide Resolves, SwitchText, Durable, StandFor, OfType;
    SwitchResult(env, s, a, t);
    var more := t.store[|s.store|..];
    CreatedJoins(s.store, more);
    assert Created(more) == [] by { SwitchEventIsNotCreated(env, s, a, t); }
    assert Created(s.store) + [] == Created(s.store);
    StandForInLongerStore(env, s.store, more, Created(s.store), Durable(env, Body(s.appended)));
  }

  lemma {:induction false} SwitchEventIsNotCreated(env: Env, s: State, a: Action, t: State)
    requires a.Switch? && SwitchStep(env, s, a, t) && |t.store| >= |s.store|
    ensures Created(t.store[|s.store|..]) == []
  {
    hide SwitchText, SwitchAllowed, StoreOk;
    var e := t.store[|s.store|];
    assert t.store[|s.store|..] == [e] && e.eventType == SWITCH_CREATED;
    assert [e][1..] == [];
  }

  lemma {:induction false} FirstSwitchKeepsOwn(env: Env, s: State, a: Action, t: State)
    requires LawfulCodec(env) && StoreOk(s.store) && a.Switch? && SwitchStep(env, s, a, t)
    requires s.handoffIds == [] && IsPersisted(env, s) && s.appended == s.history && NoHandoff(s.history)
    requires NonSystemStart(s.history) < a.boundary <= |s.history| && OwnEventsLoaded(env, s, a)
    ensures ExpandsToOwn(env, t)
  {
    hide SwitchStep, Durable, OfType, Body, StoreOk, LawfulCodec, SwitchText, ExpandNote, IsStoredHandoff, Created,
         NoHandoff, ExpandsToOwn, OwnEventsLoaded;
    var b := a.boundary;
    SwitchResult(env, s, a, t);
    SwitchKeepsPersisted(env, s, a, t);
    FreshSplits(env, s, b);
    OwnStandFor(env, s, a, 0);
    var matched := FirstSwitchNamesOwn(env, s, a, t);
    var n := |Durable(env, Unfolded(s, b))|;
    var all := Durable(env, Body(s.appended));
    assert all[0..] == all && all[n..] == Durable(env, s.history[b..]);
    assert Created(s.store)[0..n] == Created(s.store)[..n];
    assert |Created(s.store)| == |all| by { PersistedCount(env, s); }
    assert OwnBehindNote(env, t, n);
    OwnBehind(env, t);
  }

  lemma {:induction false} PersistedCount(env: Env, s: State)
    requires IsPersisted(env, s)
    ensures |Created(s.store)| == |Durable(env, Body(s.appended))|
  {
  }

  lemma {:induction false} LaterSwitchKeepsOwn(env: Env, s: State, a: Action, t: State)
    requires LawfulCodec(env) && StoreOk(s.store) && a.Switch? && SwitchStep(env, s, a, t)
    requires s.handoffIds != [] && IsPersisted(env, s) && ExpandsToOwn(env, s)
    requires NonSystemStart(s.history) < a.boundary <= |s.history| && OwnEventsLoaded(env, s, a)
    requires NoHandoff(s.history[NonSystemStart(s.history) + 1..])
    ensures ExpandsToOwn(env, t)
  {
    hide SwitchStep, Durable, OfType, Body, StoreOk, LawfulCodec, SwitchText, ExpandNote, IsStoredHandoff, Created,
         NoHandoff, ExpandsToOwn, OwnEventsLoaded, NoteArguments, Lookup;
    OwnBehind(env, s);
    var n: nat :| OwnBehindNote(env, s, n);
    var b, start, depth := a.boundary, NonSystemStart(s.history), |s.handoffIds| - 1;
    SwitchResult(env, s, a, t);
    SwitchKeepsPersisted(env, s, a, t);
    HistorySplits(env, s.history, start, b);
    OwnStandFor(env, s, a, n);
    var matched := LaterSwitchNamesOwn(env, s, a, t, n);
    var created, k := Created(s.store), |Durable(env, Unfolded(s, b))|;
    ExpandNoteInLongerStore(env, s.store, t.store[|s.store|..], s.history[start].content, depth);
    OwnAreCreated(env, s, a, n);
    ExpandMatched(env, t.store, t.history[start].content, matched, created[..n], depth);
    assert created[..n] + created[n..n + k] == created[..n + k];
    var all := Durable(env, Body(s.appended));
    assert |all| == |created| by { PersistedCount(env, s); }
    assert all[n..][k..] == all[n + k..] == Durable(env, s.history[b..]);
    assert OwnBehindNote(env, t, n + k);
    OwnBehind(env, t);
  }

  lemma {:induction false} OwnAreCreated(env: Env, s: State, a: Action, n: nat)
    requires a.Switch? && NonSystemStart(s.history) < a.boundary <= |s.history| && n == Expanded(env, s)
    requires n + |Durable(env, Unfolded(s, a.boundary))| <= |Created(s.store)|
    ensures AllCreated(OwnOf(env, s, a.boundary))
  {
    hide Durable, Created;
    SliceIsIn(s, n, |Durable(env, Unfolded(s, a.boundary))|);
  }

  // Every durable message brings its event, and every switch finds the events of
  // its window.
  ghost predicate BringsOrFinds(env: Env, s: State, a: Action) {
    && (a.Append? ==> BringsItsEvent(env, s, a))
    && (a.Switch? ==> NonSystemStart(s.history) < a.boundary <= |s.history| && OwnEventsLoaded(env, s, a))
  }

  // Over any run of switches and ordinary appends in which every durable message
  // brings its own event: each note expands to exactly the events of the messages
  // that are gone from the history, in order, no event twice.
  lemma {:induction false} NoteExpandsToOwnEvents(env: Env, states: seq<State>, actions: seq<Action>, n: nat)
    requires LawfulCodec(env) && IsRun(env, states, actions) && OnlySwitchesAndOrdinaryAppends(actions)
    requires FreshStart(states[0]) && states[0].handoffIds == [] && IsPersisted(env, states[0])
    requires forall m :: m in states[0].history ==> !IsContextHandoff(m)
    requires forall i :: 0 <= i < |actions| ==> BringsOrFinds(env, states[i], actions[i])
    requires n < |states|
    ensures StoreOk(states[n].store) && IsPersisted(env, states[n]) && ExpandsToOwn(env, states[n])
    ensures DistinctIds(Created(states[n].store))
  {
    hide LawfulCodec, StoreOk, IsPersisted, ExpandsToOwn, AppendStep, SwitchStep, BringsItsEvent, OwnEventsLoaded;
    if n == 0 {
      FreshOwn(env, states[0]);
    } else {
      NoteExpandsToOwnEvents(env, states, actions, n - 1);
      HandoffsFormOneChain(env, states, actions, n - 1);
      var s, a, t := states[n - 1], actions[n - 1], states[n];
      assert Next(env, s, a, states[n - 1 + 1]) && BringsOrFinds(env, s, a);
      StepFacts(env, s, a, t);
      if a.Append? {
        AppendKeepsPersisted(env, s, a, t);
        AppendKeepsOwn(env, s, a, t);
      } else {
        SwitchKeepsPersisted(env, s, a, t);
        if s.handoffIds == [] {
          FreshOwn(env, s);
          FirstSwitchKeepsOwn(env, s, a, t);
        } else {
          LaterSwitchKeepsOwn(env, s, a, t);
        }
      }
    }
    CreatedIdsAreDistinct(states[n].store);
  }

  lemma {:induction false} CreatedIdsAreDistinct(store: seq<MessageEvent>)
    requires StoreOk(store)
    ensures DistinctIds(Created(store))
  {
    FilterKeepsIdsDistinct((e: MessageEvent) => e.eventType == MESSAGE_CREATED, store);
  }
}
