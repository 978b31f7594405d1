// The one handoff note, expanded: every durable message in order and as often as
// it was appended.
module Expansion {
  import opened Wrappers
  import opened Conversation
  import opened Lists
  import opened Provenance
  import opened Accounting
  import opened Handoff
  import opened Sessions
  import opened Durability
  import opened Lineage

  // The events a note points at, each earlier note among them replaced by its
  // own expansion, at most `depth` notes down.
  ghost function ExpandNote(env: Env, store: seq<MessageEvent>, content: string, depth: nat): Option<seq<MessageEvent>>
    decreases depth, 1, 0
  {
    match NoteArguments(env, content)
    case None => None
    case Some(args) =>
      match Lookup(store, args)
      case None => None
      case Some(events) => ExpandAll(env, store, events, depth)
  }

  ghost function ExpandAll(env: Env, store: seq<MessageEvent>, events: seq<MessageEvent>, depth: nat)
    : Option<seq<MessageEvent>>
    decreases depth, 0, |events|
  {
    if events == [] then Some([])
    else
      var first := if events[0].eventType != SWITCH_CREATED then Some([events[0]])
                   else if depth == 0 then None
                   else ExpandNote(env, store, events[0].content, depth - 1);
      var rest := ExpandAll(env, store, events[1..], depth);
      if first.None? || rest.None? then None else Some(first.value + rest.value)
  }

  lemma {:induction false} ExpandNoteInLongerStore(env: Env, store: seq<MessageEvent>, more: seq<MessageEvent>,
                                                   content: string, depth: nat)
    requires DistinctIds(store + more) && ExpandNote(env, store, content, depth).Some?
    ensures ExpandNote(env, store + more, content, depth) == ExpandNote(env, store, content, depth)
    decreases depth, 1, 0
  {
    hide Lookup, NoteArguments;
    var args := NoteArguments(env, content).value;
    LookupInLongerStore(store, more, args);
    ExpandAllInLongerStore(env, store, more, Lookup(store, args).value, depth);
  }

  lemma {:induction false} ExpandAllInLongerStore(env: Env, store: seq<MessageEvent>, more: seq<MessageEvent>,
                                                  events: seq<MessageEvent>, depth: nat)
    requires DistinctIds(store + more) && ExpandAll(env, store, events, depth).Some?
    ensures ExpandAll(env, store + more, events, depth) == ExpandAll(env, store, events, depth)
    decreases depth, 0, |events|
  {
    hide Lookup, NoteArguments, ExpandNote;
    if events != [] {
      ExpandAllInLongerStore(env, store, more, events[1..], depth);
      if events[0].eventType == SWITCH_CREATED {
        ExpandNoteInLongerStore(env, store, more, events[0].content, depth - 1);
      }
    }
  }

  predicate AllCreated(events: seq<MessageEvent>) {
    forall i :: 0 <= i < |events| ==> events[i].eventType == MESSAGE_CREATED
  }

  // Events of ordinary messages stand for themselves.
  lemma {:induction false} CreatedExpand(env: Env, store: seq<MessageEvent>, events: seq<MessageEvent>, depth: nat)
    requires AllCreated(events)
    ensures ExpandAll(env, store, events, depth) == Some(events)
    decreases |events|
  {
    if events != [] {
      CreatedExpand(env, store, events[1..], depth);
      assert [events[0]] + events[1..] == events;
    }
  }

  // Event by event, `events` are the stored forms of `ms`.
  ghost predicate StandFor(env: Env, store: seq<MessageEvent>, events: seq<MessageEvent>, ms: seq<ChatMessage>) {
    && |events| == |ms|
    && forall i :: 0 <= i < |ms| ==> Matches(env, ms[i], events[i]) && events[i] in store
  }

  // The durable messages appended so far: those in front of the note, those the
  // note expands to, those behind it.
  ghost predicate Restores(env: Env, s: State, folded: seq<ChatMessage>, events: seq<MessageEvent>) {
    var start := NonSystemStart(s.history);
    && s.handoffIds != [] && start < |s.history|
    && ExpandNote(env, s.store, s.history[start].content, |s.handoffIds| - 1) == Some(events)
    && StandFor(env, s.store, events, folded)
    && Durable(env, s.appended)
       == Durable(env, s.history[..start]) + folded + Durable(env, s.history[start + 1..])
  }

  // Nothing is missing, nothing is doubled, nothing out of order.
  ghost predicate Complete(env: Env, s: State) {
    if s.handoffIds == [] then s.appended == s.history
    else
      var start := NonSystemStart(s.history);
      && start < |s.history| && IsStoredHandoff(s.store, s.history[start])
      && exists folded, events :: Restores(env, s, folded, events)
  }

  lemma {:induction false} DurableJoins(env: Env, a: seq<ChatMessage>, b: seq<ChatMessage>)
    ensures Durable(env, a + b) == Durable(env, a) + Durable(env, b)
  {
    FilterConcat((m: ChatMessage) => !IsCompanion(env, m), a, b);
  }

  lemma {:induction false} StandForInLongerStore(env: Env, store: seq<MessageEvent>, more: seq<MessageEvent>,
                                                 events: seq<MessageEvent>, ms: seq<ChatMessage>)
    requires StandFor(env, store, events, ms)
    ensures StandFor(env, store + more, events, ms)
  {
    hide Matches;
  }

  lemma {:induction false} AppendKeepsComplete(env: Env, s: State, a: Action, t: State)
    requires a.Append? && AppendStep(s, a, t) && Complete(env, s)
    ensures Complete(env, t)
  {
    hide ExpandNote, StandFor, StoreOk, Durable;
    assert DistinctIds(t.store) by { AppendStore(s, a, t); }
    if s.handoffIds != [] {
      var folded, events :| Restores(env, s, folded, events);
      var start := NonSystemStart(s.history);
      var note := s.history[start];
      ExpandNoteInLongerStore(env, s.store, a.events, note.content, |s.handoffIds| - 1);
      StandForInLongerStore(env, s.store, a.events, events, folded);
      StoredHandoffInLongerStore(s.store, a.events, note);
      DurableJoins(env, s.appended, [a.message]);
      DurableJoins(env, s.history[start + 1..], [a.message]);
      assert t.history[..start] == s.history[..start];
      assert t.history[start + 1..] == s.history[start + 1..] + [a.message];
      assert Restores(env, t, folded, events);
    }
  }

  lemma {:induction false} AppendStore(s: State, a: Action, t: State)
    requires a.Append? && AppendStep(s, a, t)
    ensures t.store == s.store + a.events && DistinctIds(t.store)
  {
  }

  // A switch without an earlier note: its events are the window's messages.
  lemma {:induction false} FirstSwitchCompletes(env: Env, s: State, a: Action, t: State)
    requires LawfulCodec(env) && StoreOk(s.store) && a.Switch? && SwitchStep(env, s, a, t)
    requires s.handoffIds == [] && s.appended == s.history
    requires forall i :: 0 <= i < |s.history| ==> !IsContextHandoff(s.history[i])
    ensures Complete(env, t)
  {
    hide Durable, SwitchText, SwitchStep, LawfulCodec, NoteArguments, Lookup, Accounts, StandFor, StoreOk,
         IsStoredHandoff, ExpandAll;
    var start := NonSystemStart(s.history);
    SwitchResult(env, s, a, t);
    var window := ColdWindow(s.history, a.boundary);
    var ms := Durable(env, window);
    var matched := SwitchIsLossless(env, s, a, t);
    MatchedAreCreated(env, s.store, window, matched);
    AccountsStandFor(env, ms, s.store, matched);
    CreatedExpand(env, t.store, matched, 0);
    assert ExpandNote(env, t.store, t.history[start].content, 0) == Some(matched);
    hide ExpandNote;
    StandForInLongerStore(env, s.store, t.store[|s.store|..], matched, ms);
    assert s.history == s.history[..start] + window + s.history[a.boundary..];
    DurableJoins(env, s.history[..start] + window, s.history[a.boundary..]);
    DurableJoins(env, s.history[..start], window);
    assert Restores(env, t, ms, matched);
  }

  lemma {:induction false} MatchedAreCreated(env: Env, store: seq<MessageEvent>, window: seq<ChatMessage>,
                                             matched: seq<MessageEvent>)
    requires Accounts(env, Durable(env, window), store, matched)
    requires forall i :: 0 <= i < |window| ==> !IsContextHandoff(window[i])
    ensures AllCreated(matched)
  {
    hide Matches;
    var ms := Durable(env, window);
    forall i | 0 <= i < |matched| ensures matched[i].eventType == MESSAGE_CREATED {
      assert ms[i] in window;
    }
  }

  lemma {:induction false} AccountsStandFor(env: Env,
                                            ms: seq<ChatMessage>, store: seq<MessageEvent>, matched: seq<MessageEvent>)
    requires Accounts(env, ms, store, matched)
    ensures StandFor(env, store, matched, ms)
  {
    hide Matches;
  }

  // What a switch leaves: the note where the window was, stored, and one id more.
  lemma {:induction false} SwitchResult(env: Env, s: State, a: Action, t: State)
    requires a.Switch? && SwitchStep(env, s, a, t)
    ensures var note, start := ChatMessage("assistant", SwitchText(env, s.history, a)), NonSystemStart(s.history);
            && start < a.boundary <= |s.history|
            && NonSystemStart(t.history) == start < |t.history|
            && t.history[..start] == s.history[..start] && t.history[start] == note
            && t.history[start + 1..] == s.history[a.boundary..]
            && IsStoredHandoff(t.store, note)
    ensures |t.store| == |s.store| + 1 && t.store == s.store + t.store[|s.store|..] && DistinctIds(t.store)
    ensures t.appended == s.appended && |t.handoffIds| == |s.handoffIds| + 1
  {
    hide SwitchText, Resolves;
    var note := ChatMessage("assistant", SwitchText(env, s.history, a));
    SplicedByOne(s.history, a.boundary, note);
    assert t.store[|s.store|] in t.store && t.store[|s.store|].eventType == SWITCH_CREATED;
  }

  // A switch that folds the earlier note: its first event is that note's, and
  // expands to what the note expanded to.
  lemma {:induction false} LaterSwitchCompletes(env: Env, s: State, a: Action, t: State)
    requires LawfulCodec(env) && StoreOk(s.store) && StableHandoffs(env, t.store)
    requires a.Switch? && SwitchStep(env, s, a, t)
    requires s.handoffIds != [] && Complete(env, s)
    requires forall i :: 0 <= i < |s.history| && i != NonSystemStart(s.history) ==> !IsContextHandoff(s.history[i])
    ensures Complete(env, t)
  {
    hide Durable, SwitchText, SwitchStep, LawfulCodec, NoteArguments, Lookup, Accounts, StandFor, StoreOk,
         IsStoredHandoff, ExpandNote, ExpandAll, StableHandoffs, ColdWindow, Matches;
    var folded, events :| Restores(env, s, folded, events);
    var start, b := NonSystemStart(s.history), a.boundary;
    SwitchResult(env, s, a, t);
    var earlier, later := s.history[start], s.history[start + 1..b];
    var depth := |s.handoffIds| - 1;
    var matched := SwitchIsLossless(env, s, a, t);
    var more := t.store[|s.store|..];
    WindowSplits(env, s, b);
    MatchedSplits(env, s, a, t, matched);
    ExpandNoteInLongerStore(env, s.store, more, earlier.content, depth);
    ExpandMatched(env, t.store, t.history[start].content, matched, events, depth);
    AccountsRest(env, s.store, Durable(env, s.history[start..b]), matched);
    StandForInLongerStore(env, s.store, more, events, folded);
    StandForInLongerStore(env, s.store, more, matched[1..], Durable(env, later));
    StandForJoins(env, t.store, events, folded, matched[1..], Durable(env, later));
    HistorySplits(env, s.history, start, b);
    Regroup(Durable(env, s.history[..start]), folded, Durable(env, later), Durable(env, s.history[b..]));
    assert Restores(env, t, folded + Durable(env, later), events + matched[1..]);
  }

  lemma {:induction false} Regroup(a: seq<ChatMessage>, b: seq<ChatMessage>, c: seq<ChatMessage>, d: seq<ChatMessage>)
    ensures a + b + (c + d) == a + (b + c) + d
  {
  }

  lemma {:induction false} StandForJoins(env: Env, store: seq<MessageEvent>, a: seq<MessageEvent>, ma: seq<ChatMessage>,
                                         b: seq<MessageEvent>, mb: seq<ChatMessage>)
    requires StandFor(env, store, a, ma) && StandFor(env, store, b, mb)
    ensures StandFor(env, store, a + b, ma + mb)
  {
    hide Matches;
  }

  lemma {:induction false} AccountsRest(env: Env,
                                        store: seq<MessageEvent>, ms: seq<ChatMessage>, matched: seq<MessageEvent>)
    requires Accounts(env, ms, store, matched) && ms != []
    ensures matched != [] && StandFor(env, store, matched[1..], ms[1..])
  {
    hide Matches, EventTypeOf;
  }

  // The durable messages of a window that starts with a stored note.
  lemma {:induction false} WindowSplits(env: Env, s: State, b: nat)
    requires StoreOk(s.store)
    requires var start := NonSystemStart(s.history);
             start < b <= |s.history| && IsStoredHandoff(s.store, s.history[start])
    ensures var start := NonSystemStart(s.history);
            && IsContextHandoff(s.history[start]) && ColdWindow(s.history, b) == s.history[start..b]
            && Durable(env, s.history[start..b]) == [s.history[start]] + Durable(env, s.history[start + 1..b])
  {
    var start := NonSystemStart(s.history);
    StoredHandoffIsHandoff(s.store, s.history[start]);
    HandoffIsDurable(env, s.history[start]);
    hide IsCompanion, IsContextHandoff, StoreOk;
    assert s.history[start..b][1..] == s.history[start + 1..b];
  }

  // The first matched event is the note's own, the others are created events.
  lemma {:induction false} MatchedSplits(env: Env, s: State, a: Action, t: State, matched: seq<MessageEvent>)
    requires StoreOk(s.store) && StableHandoffs(env, t.store) && a.Switch? && SwitchStep(env, s, a, t)
    requires var start := NonSystemStart(s.history);
             && start < a.boundary <= |s.history| && IsStoredHandoff(s.store, s.history[start])
             && Durable(env, s.history[start..a.boundary])
                == [s.history[start]] + Durable(env, s.history[start + 1..a.boundary])
             && IsContextHandoff(s.history[start])
             && Accounts(env, Durable(env, s.history[start..a.boundary]), s.store, matched)
    requires forall i :: 0 <= i < |s.history| && i != NonSystemStart(s.history) ==> !IsContextHandoff(s.history[i])
    ensures matched != [] && matched[0].eventType == SWITCH_CREATED
    ensures matched[0].content == s.history[NonSystemStart(s.history)].content
    ensures AllCreated(matched[1..])
  {
    hide SwitchStep, StoreOk, StableHandoffs, IsStoredHandoff, Matches;
    var start := NonSystemStart(s.history);
    var ms := Durable(env, s.history[start..a.boundary]);
    var later := s.history[start + 1..a.boundary];
    assert ms[0] == s.history[start];
    MatchedHandoffIsVerbatim(env, s, a, t, s.history[start], matched[0]);
    forall i | 0 <= i < |matched| - 1 ensures matched[1..][i].eventType == MESSAGE_CREATED {
      assert ms[i + 1] == Durable(env, later)[i];
      assert ms[i + 1] in later;
    }
  }

  lemma {:induction false} ExpandMatched(env: Env, store: seq<MessageEvent>, content: string,
                                         matched: seq<MessageEvent>, events: seq<MessageEvent>, depth: nat)
    requires NoteArguments(env, content).Some? && Lookup(store, NoteArguments(env, content).value) == Some(matched)
    requires matched != [] && matched[0].eventType == SWITCH_CREATED && AllCreated(matched[1..])
    requires ExpandNote(env, store, matched[0].content, depth) == Some(events)
    ensures ExpandNote(env, store, content, depth + 1) == Some(events + matched[1..])
  {
    hide NoteArguments, Lookup;
    CreatedExpand(env, store, matched[1..], depth + 1);
  }

  lemma {:induction false} HistorySplits(env: Env, history: seq<ChatMessage>, start: nat, b: nat)
    requires start < b <= |history|
    ensures Durable(env, history[start + 1..]) == Durable(env, history[start + 1..b]) + Durable(env, history[b..])
  {
    assert history[start + 1..] == history[start + 1..b] + history[b..];
    DurableJoins(env, history[start + 1..b], history[b..]);
  }

  // After any run of switches and ordinary appends from a handoff-free history:
  // the durable messages in front of the one note, the expansion of the note and
  // the durable messages behind it are the durable messages appended, in order
  // and as often, each expanded event the stored form of its message.
  lemma {:induction false} NoteExpandsToEverything(env: Env, states: seq<State>, actions: seq<Action>, n: nat)
    requires LawfulCodec(env) && IsRun(env, states, actions) && OnlySwitchesAndOrdinaryAppends(actions)
    requires FreshStart(states[0]) && states[0].handoffIds == []
    requires forall m :: m in states[0].history ==> !IsContextHandoff(m)
    requires forall i :: 0 <= i < |states| ==> StableHandoffs(env, states[i].store)
    requires n < |states|
    ensures StoreOk(states[n].store) && Complete(env, states[n])
  {
    hide LawfulCodec, StoreOk, StableHandoffs, Complete, AppendStep, SwitchStep;
    if n == 0 {
      assert Complete(env, states[0]) by { FreshIsComplete(env, states[0]); }
      assert StoreOk(states[0].store);
    } else {
      NoteExpandsToEverything(env, states, actions, n - 1);
      HandoffsFormOneChain(env, states, actions, n - 1);
      var s, a, t := states[n - 1], actions[n - 1], states[n];
      assert Next(env, s, a, states[n - 1 + 1]);
      StepFacts(env, s, a, t);
      if a.Append? {
        AppendKeepsComplete(env, s, a, t);
      } else if s.handoffIds == [] {
        assert s.appended == s.history by { CompleteFresh(env, s); }
        FirstSwitchCompletes(env, s, a, t);
      } else {
        LaterSwitchCompletes(env, s, a, t);
      }
    }
  }

  lemma {:induction false} FreshIsComplete(env: Env, s: State)
    requires s.handoffIds == [] && s.appended == s.history
    ensures Complete(env, s)
  {
  }

  lemma {:induction false} CompleteFresh(env: Env, s: State)
    requires Complete(env, s) && s.handoffIds == []
    ensures s.appended == s.history
  {
  }
}
