// Over every run of switches and ordinary appends, one handoff note at most is
// present, and the notes form one numbered chain.
module Lineage {
  import opened Wrappers
  import opened Text
  import opened Conversation
  import opened Provenance
  import opened Handoff
  import opened Sessions
  import opened Durability

  // The `k`-th handoff of the chain `ids`, counting from 1.
  ghost predicate IsChainNote(note: Json, ids: seq<string>, k: nat) {
    && 1 <= k <= |ids|
    && note.Obj?
    && note.Get("to_generation") == Some(Number(if k <= 0xFFFF_FFFF_FFFF_FFFF then k else 0xFFFF_FFFF_FFFF_FFFF))
    && note.Get("handoff_event_id") == Some(Str(ids[k - 1]))
    && note.Get("parent_handoff_event_id") == Some(if k == 1 then Null else Str(ids[k - 2]))
  }

  // Before the first switch there is no handoff note. Afterwards there is one,
  // right after any system message, and it is the last of the chain.
  ghost predicate ChainOk(env: Env, history: seq<ChatMessage>, ids: seq<string>) {
    var start := NonSystemStart(history);
    && (forall i :: 0 <= i < |history| && (ids == [] || i != start) ==> !IsContextHandoff(history[i]))
    && (ids != [] ==>
          && start < |history|
          && exists note :: IsChainNote(note, ids, |ids|)
                            && history[start] == ChatMessage("assistant", HandoffText(env, note)))
  }

  lemma {:induction false} ChainLineage(env: Env, history: seq<ChatMessage>, ids: seq<string>)
    requires LawfulCodec(env) && ChainOk(env, history, ids)
    ensures Lineage(env, history)
         == (if |ids| <= 0xFFFF_FFFF_FFFF_FFFF then |ids| else 0xFFFF_FFFF_FFFF_FFFF,
             if ids == [] then None else Some(ids[|ids| - 1]))
  {
    hide HandoffText, ParseHandoff, LatestHandoff, LawfulCodec, IsChainNote;
    var start := NonSystemStart(history);
    if ids == [] {
      LatestHandoffOfNone(history);
    } else {
      var note :| IsChainNote(note, ids, |ids|) && history[start] == ChatMessage("assistant", HandoffText(env, note));
      assert IsContextHandoff(history[start]);
      hide IsContextHandoff;
      LatestHandoffOfOne(history, start);
      ChainNoteReads(note, ids);
      HandoffRoundTrip(env, note);
    }
  }

  lemma {:induction false} ChainNoteReads(note: Json, ids: seq<string>)
    requires ids != [] && IsChainNote(note, ids, |ids|)
    ensures var generation, id := note.Get("to_generation"), note.Get("handoff_event_id");
            && note.Obj? && generation.Some? && id.Some? && id.value.AsStr() == Some(ids[|ids| - 1])
            && generation.value.AsU64() == Some(if |ids| <= 0xFFFF_FFFF_FFFF_FFFF then |ids| else 0xFFFF_FFFF_FFFF_FFFF)
  {
  }

  // Without a readable note the lineage starts anew.
  lemma {:induction false} UnreadableLineage(env: Env, history: seq<ChatMessage>, k: nat)
    requires k < |history| && history[k].role == "assistant" && "[context_handoff]" <= history[k].content
    requires forall i :: k < i < |history| ==>
               !(history[i].role == "assistant" && "[context_handoff]" <= history[i].content)
    requires !exists body :: history[k].content == "[context_handoff]" + body + "[/context_handoff]"
                             && env.parse(Trim(body)).Some?
    ensures Lineage(env, history) == (0, None)
  {
    LatestHandoffOfOne(history, k);
    ReadsHandoff(env, history[k].content);
    hide LatestHandoff;
  }

  // The lineage is read off the last note, field by field: a generation that is no
  // u64 counts as 0, an id that is no string as none.
  lemma {:induction false} ReadableLineage(env: Env, history: seq<ChatMessage>, k: nat, body: string,
                                           fields: map<string, Json>)
    requires k < |history| && history[k].role == "assistant"
    requires history[k].content == "[context_handoff]" + body + "[/context_handoff]"
    requires forall i :: k < i < |history| ==>
               !(history[i].role == "assistant" && "[context_handoff]" <= history[i].content)
    requires env.parse(Trim(body)) == Some(Obj(fields))
    ensures Lineage(env, history).0 ==
            if "to_generation" in fields && fields["to_generation"].Number?
               && 0 <= fields["to_generation"].n <= 0xFFFF_FFFF_FFFF_FFFF then fields["to_generation"].n else 0
    ensures Lineage(env, history).1 ==
            if "handoff_event_id" in fields && fields["handoff_event_id"].Str? then Some(fields["handoff_event_id"].s)
            else None
  {
    hide LatestHandoff, ParseHandoff, Trim, Lineage;
    LatestHandoffOfOne(history, k);
    ReadsHandoff(env, history[k].content);
    FieldsOfLineage(env, history, history[k], fields);
  }

  lemma {:induction false} FieldsOfLineage(env: Env, history: seq<ChatMessage>, m: ChatMessage,
                                           fields: map<string, Json>)
    requires LatestHandoff(history) == Some(m) && ParseHandoff(env, m.content) == Some(Obj(fields))
    ensures Lineage(env, history).0 ==
            if "to_generation" in fields && fields["to_generation"].Number?
               && 0 <= fields["to_generation"].n <= 0xFFFF_FFFF_FFFF_FFFF then fields["to_generation"].n else 0
    ensures Lineage(env, history).1 ==
            if "handoff_event_id" in fields && fields["handoff_event_id"].Str? then Some(fields["handoff_event_id"].s)
            else None
  {
    hide LatestHandoff, ParseHandoff;
  }

  // The note of a switch continues the chain.
  lemma {:induction false} NextNote(prov: Provenance, id: string, ids: seq<string>, extras: map<string, Json>)
    ensures IsChainNote(
              HandoffNote(prov, id, if ids == [] then None else Some(ids[|ids| - 1]), SaturatingAdd(0, |ids|), extras),
              ids + [id], |ids| + 1)
  {
  }

  // Folding the window, and with it any earlier note, into the next note.
  lemma {:induction false} NextNoteKeepsChain(env: Env, history: seq<ChatMessage>, ids: seq<string>, id: string,
                                              b: nat, note: Json)
    requires ChainOk(env, history, ids) && NonSystemStart(history) < b <= |history|
    requires IsChainNote(note, ids + [id], |ids| + 1)
    ensures ChainOk(env, Spliced(history, b, [ChatMessage("assistant", HandoffText(env, note))]), ids + [id])
  {
    hide HandoffText, IsChainNote;
    var start, m := NonSystemStart(history), ChatMessage("assistant", HandoffText(env, note));
    var spliced := Spliced(history, b, [m]);
    SplicedByOne(history, b, m);
    forall i | 0 <= i < |spliced| && i != start ensures !IsContextHandoff(spliced[i]) {
      assert spliced[i] == if i < start then history[i] else history[b + (i - start - 1)];
    }
  }

  lemma {:induction false} SwitchShape(env: Env, s: State, a: Action, t: State)
    requires a.Switch? && SwitchStep(env, s, a, t)
    ensures NonSystemStart(s.history) < a.boundary <= |s.history|
    ensures var (generation, parent) := Lineage(env, s.history);
            var note := HandoffNote(a.prov, a.handoffId, parent, generation, a.extras);
            t.history == Spliced(s.history, a.boundary, [ChatMessage("assistant", HandoffText(env, note))])
    ensures t.handoffIds == s.handoffIds + [a.handoffId]
  {
  }

  lemma {:induction false} SwitchKeepsChain(env: Env, s: State, a: Action, t: State)
    requires LawfulCodec(env) && a.Switch? && SwitchStep(env, s, a, t)
    requires ChainOk(env, s.history, s.handoffIds)
    ensures ChainOk(env, t.history, t.handoffIds)
  {
    hide ChainOk, IsChainNote, SwitchStep, LawfulCodec, HandoffNote, HandoffText;
    SwitchShape(env, s, a, t);
    ChainLineage(env, s.history, s.handoffIds);
    NextNote(a.prov, a.handoffId, s.handoffIds, a.extras);
    var (generation, parent) := Lineage(env, s.history);
    NextNoteKeepsChain(env, s.history, s.handoffIds, a.handoffId, a.boundary,
                       HandoffNote(a.prov, a.handoffId, parent, generation, a.extras));
  }

  lemma {:induction false} AppendKeepsChain(env: Env, s: State, a: Action, t: State)
    requires a.Append? && AppendStep(s, a, t) && !IsContextHandoff(a.message)
    requires ChainOk(env, s.history, s.handoffIds)
    ensures ChainOk(env, t.history, t.handoffIds)
  {
  }

  ghost predicate OnlySwitchesAndOrdinaryAppends(actions: seq<Action>) {
    forall i :: 0 <= i < |actions| ==>
      actions[i].Switch? || (actions[i].Append? && !IsContextHandoff(actions[i].message))
  }

  function SwitchCount(actions: seq<Action>): nat {
    if actions == [] then 0
    else SwitchCount(actions[..|actions| - 1]) + if actions[|actions| - 1].Switch? then 1 else 0
  }

  // From a handoff-free history, after `n` steps the note in the history is the
  // last of as many handoffs as there were switches.
  lemma {:induction false} HandoffsFormOneChain(env: Env, states: seq<State>, actions: seq<Action>, n: nat)
    requires LawfulCodec(env) && IsRun(env, states, actions) && OnlySwitchesAndOrdinaryAppends(actions)
    requires states[0].handoffIds == []
    requires forall m :: m in states[0].history ==> !IsContextHandoff(m)
    requires n < |states|
    ensures ChainOk(env, states[n].history, states[n].handoffIds)
    ensures |states[n].handoffIds| == SwitchCount(actions[..n])
  {
    hide ChainOk, SwitchStep, AppendStep, LawfulCodec;
    if n == 0 {
      FreshChain(env, states[0].history);
    } else {
      HandoffsFormOneChain(env, states, actions, n - 1);
      var s, a, t := states[n - 1], actions[n - 1], states[n];
      assert Next(env, s, a, states[n - 1 + 1]);
      assert actions[..n][..n - 1] == actions[..n - 1];
      HandoffIdsGrow(env, s, a, t);
      if a.Switch? { SwitchKeepsChain(env, s, a, t); } else { AppendKeepsChain(env, s, a, t); }
    }
  }

  lemma {:induction false} FreshChain(env: Env, history: seq<ChatMessage>)
    requires forall m :: m in history ==> !IsContextHandoff(m)
    ensures ChainOk(env, history, [])
  {
  }

  lemma {:induction false} HandoffIdsGrow(env: Env, s: State, a: Action, t: State)
    requires (a.Append? || a.Switch?) && Next(env, s, a, t)
    ensures |t.handoffIds| == |s.handoffIds| + if a.Switch? then 1 else 0
  {
  }

  lemma {:induction false} HeldBehindTheNote(env: Env, s: State, m: ChatMessage)
    requires StoreOk(s.store) && ChainOk(env, s.history, s.handoffIds) && Held(env, s, m) && m !in s.history
    ensures var start := NonSystemStart(s.history);
            && start < |s.history| && IsContextHandoff(s.history[start])
            && exists depth: nat :: Recovers(env, s.store, s.history[start].content, m, depth)
  {
    var h, depth: nat :| HeldThrough(env, s, m, h, depth);
    StoredHandoffIsHandoff(s.store, h);
    hide Recovers;
    var i :| 0 <= i < |s.history| && s.history[i] == h;
    assert i == NonSystemStart(s.history);
  }

  // Put together: after any run of switches and ordinary appends, a durable
  // message that has left the history is found by following the lookup of the
  // one handoff note there is.
  lemma {:induction false} OneNoteLeadsToEverything(env: Env, states: seq<State>, actions: seq<Action>, n: nat,
                                                    m: ChatMessage)
    requires LawfulCodec(env) && IsRun(env, states, actions) && OnlySwitchesAndOrdinaryAppends(actions)
    requires FreshStart(states[0]) && states[0].handoffIds == []
    requires forall m :: m in states[0].history ==> !IsContextHandoff(m)
    requires forall i :: 0 <= i < |states| ==> StableHandoffs(env, states[i].store)
    requires n < |states| && m in states[n].appended && !IsCompanion(env, m) && m !in states[n].history
    ensures var h := states[n].history;
            var start := NonSystemStart(h);
            && start < |h| && IsContextHandoff(h[start])
            && (forall i :: 0 <= i < |h| && i != start ==> !IsContextHandoff(h[i]))
            && exists depth: nat :: Recovers(env, states[n].store, h[start].content, m, depth)
  {
    NothingDurableIsLost(env, states, actions, n);
    HandoffsFormOneChain(env, states, actions, n);
    hide LawfulCodec, IsRun, StableHandoffs, Recovers, Held;
    HeldBehindTheNote(env, states[n], m);
  }
}
