// Over every run of appends and switches, no durable message is lost.
module Durability {
  import opened Wrappers
  import opened Conversation
  import opened Provenance
  import opened Accounting
  import opened Handoff
  import opened Sessions

  // Looking up the events a handoff text points at finds `m`, at most `depth`
  // earlier handoffs away.
  ghost predicate Recovers(env: Env, store: seq<MessageEvent>, content: string, m: ChatMessage, depth: nat)
    decreases depth
  {
    var args := NoteArguments(env, content);
    && args.Some?
    && Lookup(store, args.value).Some?
    && exists e :: e in Lookup(store, args.value).value
                   && (Matches(env, m, e)
                       || (depth > 0 && e.eventType == SWITCH_CREATED && Recovers(env, store, e.content, m, depth - 1)))
  }

  lemma {:induction false} RecoversInLongerStore(env: Env, store: seq<MessageEvent>, more: seq<MessageEvent>,
                                                 content: string, m: ChatMessage, depth: nat)
    requires DistinctIds(store + more) && Recovers(env, store, content, m, depth)
    ensures Recovers(env, store + more, content, m, depth)
    decreases depth
  {
    var args := NoteArguments(env, content).value;
    LookupInLongerStore(store, more, args);
    var e :| e in Lookup(store, args).value
             && (Matches(env, m, e)
                 || (depth > 0 && e.eventType == SWITCH_CREATED && Recovers(env, store, e.content, m, depth - 1)));
    if !Matches(env, m, e) {
      RecoversInLongerStore(env, store, more, e.content, m, depth - 1);
    }
  }

  // A history message that is one of the stored handoff notes.
  ghost predicate IsStoredHandoff(store: seq<MessageEvent>, h: ChatMessage) {
    h.role == "assistant" && exists e :: e in store && e.eventType == SWITCH_CREATED && e.content == h.content
  }

  ghost predicate HeldThrough(env: Env, s: State, m: ChatMessage, h: ChatMessage, depth: nat) {
    h in s.history && IsStoredHandoff(s.store, h) && Recovers(env, s.store, h.content, m, depth)
  }

  // `m` is in the history or recoverable from a handoff note that is.
  ghost predicate Held(env: Env, s: State, m: ChatMessage) {
    m in s.history || exists h, depth: nat :: HeldThrough(env, s, m, h, depth)
  }

  // No stored handoff note is the redacted or capped form of another one.
  ghost predicate StableHandoffs(env: Env, store: seq<MessageEvent>) {
    forall e, f ::
      e in store && f in store && e.eventType == SWITCH_CREATED && f.eventType == SWITCH_CREATED
      && Matches(env, ChatMessage("assistant", e.content), f)
      ==> e.content == f.content
  }

  // A switch keeps a way back to every durable message it folds away: the
  // lookup named in its note returns one stored event per durable message of
  // the cold window, in window order, each of them that message's stored form.
  lemma {:induction false} SwitchIsLossless(env: Env, s: State, a: Action, t: State)
      returns (matched: seq<MessageEvent>)
    requires LawfulCodec(env) && StoreOk(s.store)
    requires a.Switch? && SwitchStep(env, s, a, t)
    ensures Accounts(env, Durable(env, ColdWindow(s.history, a.boundary)), s.store, matched)
    ensures a.prov.sourceEventIds == Ids(matched)
    ensures NoteArguments(env, SwitchText(env, s.history, a)).Some?
    ensures Lookup(t.store, NoteArguments(env, SwitchText(env, s.history, a)).value) == Some(matched)
  {
    var window := ColdWindow(s.history, a.boundary);
    hide Resolves, IsCutPoint, Lookup, NoteArguments, LawfulCodec, SwitchText, MinById, MaxById, Accounts;
    matched := ResolvedEvents(env, true, window, a.loaded, a.prov);
    SwitchTextArguments(env, s.history, a);
    AccountsIn(env, Durable(env, window), a.loaded, s.store, matched);
    LookupRecoversMatched(s.store, matched, a.prov, |Companions(env, window)|);
    LookupInLongerStore(s.store, t.store[|s.store|..], LookupArguments(a.prov));
    assert t.store == s.store + t.store[|s.store|..];
  }

  lemma {:induction false} SwitchTextArguments(env: Env, history: seq<ChatMessage>, a: Action)
    requires LawfulCodec(env) && a.Switch?
    ensures NoteArguments(env, SwitchText(env, history, a)) == Some(LookupArguments(a.prov))
  {
    var (generation, parent) := Lineage(env, history);
    NoteCarriesArguments(env, a.prov, a.handoffId, parent, generation, a.extras);
  }

  lemma {:induction false} AccountsIn(env: Env,
                                      ms: seq<ChatMessage>, loaded: seq<MessageEvent>, store: seq<MessageEvent>,
                                      matched: seq<MessageEvent>)
    requires Accounts(env, ms, loaded, matched) && forall e :: e in loaded ==> e in store
    ensures Accounts(env, ms, store, matched)
    ensures DistinctIds(matched) && forall e :: e in matched ==> e in store
  {
  }

  lemma {:induction false} DurableInWindow(env: Env, window: seq<ChatMessage>, m: ChatMessage)
      returns (i: nat)
    requires m in window && !IsCompanion(env, m)
    ensures i < |Durable(env, window)| && Durable(env, window)[i] == m
  {
    assert m in Durable(env, window);
    i :| 0 <= i < |Durable(env, window)| && Durable(env, window)[i] == m;
  }

  // The event a handoff note in the window was matched with is its own text.
  lemma {:induction false} MatchedHandoffIsVerbatim(env: Env, s: State, a: Action, t: State, h: ChatMessage,
                                                    e: MessageEvent)
    requires StoreOk(s.store) && StableHandoffs(env, t.store) && a.Switch? && SwitchStep(env, s, a, t)
    requires IsStoredHandoff(s.store, h) && e in s.store && e.eventType == SWITCH_CREATED && Matches(env, h, e)
    ensures e.content == h.content
  {
    var f :| f in s.store && f.eventType == SWITCH_CREATED && f.content == h.content;
    assert e in t.store && f in t.store;
  }

  // Splicing keeps every message outside the window.
  lemma {:induction false} SpliceMembers(history: seq<ChatMessage>, b: nat, middle: seq<ChatMessage>, m: ChatMessage)
    requires NonSystemStart(history) <= b <= |history| && m in history
    ensures m in ColdWindow(history, b) || m in Spliced(history, b, middle)
  {
    var i :| 0 <= i < |history| && history[i] == m;
    var start := NonSystemStart(history);
    assert history == history[..start] + ColdWindow(history, b) + history[b..];
  }

  // The new note is in the history, is stored, and looks up the matched events.
  ghost predicate NoteInPlace(env: Env, t: State, note: ChatMessage, matched: seq<MessageEvent>) {
    && note in t.history && IsStoredHandoff(t.store, note)
    && NoteArguments(env, note.content).Some?
    && Lookup(t.store, NoteArguments(env, note.content).value) == Some(matched)
  }

  lemma {:induction false} SwitchPutsNote(env: Env, s: State, a: Action, t: State)
      returns (matched: seq<MessageEvent>)
    requires LawfulCodec(env) && StoreOk(s.store)
    requires a.Switch? && SwitchStep(env, s, a, t)
    ensures Accounts(env, Durable(env, ColdWindow(s.history, a.boundary)), s.store, matched)
    ensures NoteInPlace(env, t, ChatMessage("assistant", SwitchText(env, s.history, a)), matched)
  {
    hide SwitchText, SwitchAllowed, LawfulCodec, StoreOk, ColdWindow, Durable, NoteArguments, Lookup, Accounts;
    matched := SwitchIsLossless(env, s, a, t);
    assert t.store[|s.store|] in t.store;
    assert t.history[NonSystemStart(s.history)] == ChatMessage("assistant", SwitchText(env, s.history, a));
  }

  lemma {:induction false} NoteRecoversWindow(env: Env, t: State, note: ChatMessage, window: seq<ChatMessage>,
                                              store: seq<MessageEvent>, matched: seq<MessageEvent>, m: ChatMessage)
    requires NoteInPlace(env, t, note, matched) && Accounts(env, Durable(env, window), store, matched)
    requires m in window && !IsCompanion(env, m)
    ensures Held(env, t, m)
  {
    var i := DurableInWindow(env, window, m);
    hide Lookup, NoteArguments, Durable, IsStoredHandoff;
    assert Recovers(env, t.store, note.content, m, 0) by { assert matched[i] in matched; }
    assert HeldThrough(env, t, m, note, 0);
  }

  lemma {:induction false} NoteRecoversThroughHandoff(env: Env, t: State, note: ChatMessage, matched: seq<MessageEvent>,
                                                      e: MessageEvent, m: ChatMessage, depth: nat)
    requires NoteInPlace(env, t, note, matched)
    requires e in matched && e.eventType == SWITCH_CREATED && Recovers(env, t.store, e.content, m, depth)
    ensures Held(env, t, m)
  {
    hide Lookup, NoteArguments, IsStoredHandoff;
    assert Recovers(env, t.store, note.content, m, depth + 1);
    assert HeldThrough(env, t, m, note, depth + 1);
  }

  lemma {:induction false} SwitchKeepsHeld(env: Env, s: State, a: Action, t: State, m: ChatMessage)
    requires LawfulCodec(env) && StoreOk(s.store) && StableHandoffs(env, t.store)
    requires a.Switch? && SwitchStep(env, s, a, t)
    requires !IsCompanion(env, m) && Held(env, s, m)
    ensures Held(env, t, m)
  {
    var window := ColdWindow(s.history, a.boundary);
    var matched := SwitchPutsNote(env, s, a, t);
    var note := ChatMessage("assistant", SwitchText(env, s.history, a));
    hide SwitchText, SwitchAllowed, LawfulCodec, StableHandoffs, StoreOk, ColdWindow, Durable, NoteInPlace, Recovers;
    assert t.store == s.store + t.store[|s.store|..];
    if m in s.history {
      SpliceMembers(s.history, a.boundary, [note], m);
      if m in window { NoteRecoversWindow(env, t, note, window, s.store, matched, m); }
    } else {
      var h, depth: nat :| HeldThrough(env, s, m, h, depth);
      RecoversInLongerStore(env, s.store, t.store[|s.store|..], h.content, m, depth);
      SpliceMembers(s.history, a.boundary, [note], h);
      if h in window {
        StoredHandoffIsHandoff(s.store, h);
        HandoffIsDurable(env, h);
        var i := DurableInWindow(env, window, h);
        MatchedHandoffIsVerbatim(env, s, a, t, h, matched[i]);
        NoteRecoversThroughHandoff(env, t, note, matched, matched[i], m, depth);
      } else {
        StoredHandoffInLongerStore(s.store, t.store[|s.store|..], h);
        assert HeldThrough(env, t, m, h, depth);
      }
    }
  }

  lemma {:induction false} StoredHandoffIsHandoff(store: seq<MessageEvent>, h: ChatMessage)
    requires StoreOk(store) && IsStoredHandoff(store, h)
    ensures IsContextHandoff(h)
  {
    var e :| e in store && e.eventType == SWITCH_CREATED && e.content == h.content;
  }

  lemma {:induction false} StoredHandoffInLongerStore(store: seq<MessageEvent>, more: seq<MessageEvent>, h: ChatMessage)
    requires IsStoredHandoff(store, h)
    ensures IsStoredHandoff(store + more, h)
  {
    var e :| e in store && e.eventType == SWITCH_CREATED && e.content == h.content;
    assert e in store + more;
  }

  lemma {:induction false} AppendKeepsHeld(env: Env, s: State, a: Action, t: State, m: ChatMessage)
    requires a.Append? && AppendStep(s, a, t)
    requires Held(env, s, m) || m == a.message
    ensures Held(env, t, m)
  {
    if m !in s.history && m != a.message {
      var h, depth: nat :| HeldThrough(env, s, m, h, depth);
      RecoversInLongerStore(env, s.store, a.events, h.content, m, depth);
      StoredHandoffInLongerStore(s.store, a.events, h);
      assert HeldThrough(env, t, m, h, depth);
    }
  }

  ghost predicate NothingLost(env: Env, s: State) {
    forall m :: m in s.appended && !IsCompanion(env, m) ==> Held(env, s, m)
  }

  ghost predicate OnlyAppendsAndSwitches(actions: seq<Action>) {
    forall i :: 0 <= i < |actions| ==> actions[i].Append? || actions[i].Switch?
  }

  // The history starts as everything appended so far.
  ghost predicate FreshStart(s: State) {
    s.appended == s.history && StoreOk(s.store)
  }

  // Every durable message ever appended stays in the history or can be looked up
  // through the handoff notes in it, whatever appends and switches follow.
  lemma {:induction false} NothingDurableIsLost(env: Env, states: seq<State>, actions: seq<Action>, n: nat)
    requires LawfulCodec(env) && IsRun(env, states, actions) && OnlyAppendsAndSwitches(actions)
    requires FreshStart(states[0])
    requires forall i :: 0 <= i < |states| ==> StableHandoffs(env, states[i].store)
    requires n < |states|
    ensures StoreOk(states[n].store) && NothingLost(env, states[n])
  {
    hide AppendStep, SwitchStep, StoreOk, LawfulCodec, StableHandoffs, Held;
    if n == 0 {
      forall m | m in states[0].appended ensures Held(env, states[0], m) {
        assert Held(env, states[0], m) by { HeldInHistory(env, states[0], m); }
      }
    } else {
      NothingDurableIsLost(env, states, actions, n - 1);
      var s, a, t := states[n - 1], actions[n - 1], states[n];
      assert Next(env, s, a, states[n - 1 + 1]);
      StepFacts(env, s, a, t);
      forall m | m in t.appended && !IsCompanion(env, m) ensures Held(env, t, m) {
        if a.Append? { AppendKeepsHeld(env, s, a, t, m); } else { SwitchKeepsHeld(env, s, a, t, m); }
      }
    }
  }

  lemma {:induction false} HeldInHistory(env: Env, s: State, m: ChatMessage)
    requires m in s.history
    ensures Held(env, s, m)
  {
  }

  lemma {:induction false} StepFacts(env: Env, s: State, a: Action, t: State)
    requires (a.Append? || a.Switch?) && Next(env, s, a, t)
    ensures StoreOk(t.store)
    ensures a.Append? ==> t.appended == s.appended + [a.message]
    ensures a.Switch? ==> t.appended == s.appended
  {
  }
}
