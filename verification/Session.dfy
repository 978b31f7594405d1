// The operations on a live conversation, each shown to be the step it stands for.
module Session {
  import opened Wrappers
  import opened Conversation
  import opened Boundary
  import opened Provenance
  import opened Accounting
  import opened Patch
  import opened Handoff
  import opened Sessions
  import opened ToolOrder
  import opened Pages
  import opened Projection

  // The messages from the first one on that is no tool result.
  function WithoutLeadingTools(messages: seq<ChatMessage>): seq<ChatMessage> {
    if messages != [] && IsTool(messages[0]) then WithoutLeadingTools(messages[1..]) else messages
  }

  class Session {
    var history: seq<ChatMessage>
    var store: seq<MessageEvent>
    var pages: seq<string>
    ghost var appended: seq<ChatMessage>
    ghost var handoffIds: seq<string>
    ghost var breadcrumbs: seq<ChatMessage>

    constructor (history: seq<ChatMessage>, store: seq<MessageEvent>)
      ensures this.history == history && this.store == store && pages == []
      ensures appended == history && handoffIds == [] && breadcrumbs == []
    {
      this.history, this.store, pages := history, store, [];
      appended, handoffIds, breadcrumbs := history, [], [];
    }

    ghost function Value(): State
      reads this
    {
      State(history, store, pages, appended, handoffIds, breadcrumbs)
    }

    // A message enters the history; the events persisted for it enter the store.
    method Append(message: ChatMessage, events: seq<MessageEvent>)
      requires forall e :: e in events ==> e.eventType != SWITCH_CREATED
      requires StoreOk(store + events)
      modifies this
      ensures AppendStep(old(Value()), Action.Append(message, events), Value())
    {
      history, store := history + [message], store + events;
      appended := appended + [message];
    }

    // `Vec::splice`.
    method Splice(start: nat, end: nat, items: seq<ChatMessage>)
      requires start <= end <= |history|
      modifies this`history
      ensures history == old(history[..start]) + items + old(history[end..])
    {
      history := history[..start] + items + history[end..];
    }

    method ApplyCompactionPatchExact(patch: CompactionPatch)
      requires patch.rangeStart <= patch.rangeEnd <= |history|
      modifies this`history
      ensures history == Applied(old(history), patch)
    {
      Splice(patch.rangeStart, patch.rangeEnd, patch.replacement);
      var appendIndex := patch.rangeStart + |patch.replacement|;
      assert history[..appendIndex] == old(history[..patch.rangeStart]) + patch.replacement;
      Splice(appendIndex, appendIndex, patch.appendAfter);
    }

    // The cut of `build_configurable_compaction_patch`, if there is one.
    method FindCutPoint(env: Env, keepRecent: nat) returns (r: Option<nat>)
      ensures r.Some? ==> IsCutPoint(env, history, keepRecent, r.value)
                          && NonSystemStart(history) < r.value < |history|
      ensures r.None? <==> forall b: nat :: !IsCutPoint(env, history, keepRecent, b)
      // With `keep` messages to stay, the cut is where they start, unless that is
      // a companion; it lies behind only after nothing but companions; there is
      // none when no more messages are there, or nothing but companions.
      ensures var start := if history != [] && history[0].role == "system" then 1 else 0;
              var cut := |history| - (if keepRecent == 0 then 1 else keepRecent);
              && (start < cut && !IsCompanion(env, history[cut]) ==> r == Some(cut))
              && (r.Some? && r.value > cut ==> forall i :: start < i < r.value ==> IsCompanion(env, history[i]))
              && (r.None? <==> start >= cut || forall i :: start < i < |history| ==> IsCompanion(env, history[i]))
    {
      hide IsCompanion, IsCutPoint, IsBoundary, ColdCount;
      NoCutPoint(env, history, keepRecent);
      var start := if history != [] && history[0].role == "system" then 1 else 0;
      var nonSystemCount := |history| - start;
      if nonSystemCount <= 1 {
        NothingToCut(env, history, keepRecent);
        return None;
      }
      var keep := if keepRecent < 1 then 1 else keepRecent;
      var requestedKeep := if keep < nonSystemCount then keep else nonSystemCount;
      var requestedCompact := nonSystemCount - requestedKeep;
      RequestedCut(history, keepRecent);
      if requestedCompact == 0 {
        NothingToCut(env, history, keepRecent);
        return None;
      }
      var compactEnd := BoundaryWithoutOrphanToolResults(env, history, start, start + requestedCompact);
      CutAtBoundary(env, history, keepRecent, compactEnd);
      if compactEnd <= start {
        return None;
      }
      CutPointIsExact(env, history, keepRecent, compactEnd);
      return Some(compactEnd);
    }

    // Builds the patch of a switch, persisting the switch event first. `loaded`
    // is the session context, or none when reading it failed; `persisted` tells
    // whether the event write succeeded.
    method BuildSwitchPatch(env: Env, overLimit: bool, hasSession: bool, keepRecent: nat,
                            loaded: Option<seq<MessageEvent>>, persisted: bool,
                            handoffId: string, rowId: int, extras: map<string, Json>)
        returns (patch: Option<CompactionPatch>, ghost prov: Provenance)
      requires loaded.Some? ==> DistinctIds(loaded.value) && forall e :: e in loaded.value ==> e in store
      modifies this`store
      ensures patch.None? ==> store == old(store)
      ensures patch.None? <==>
              !overLimit || !hasSession || loaded.None? || !persisted
              || forall b, p :: !SwitchAllowed(env, history, keepRecent, loaded.value, b, p)
      ensures patch.Some? ==>
              var p := patch.value;
              var a := Action.Switch(keepRecent, p.rangeEnd, loaded.value, prov, handoffId, rowId, extras);
              var text := SwitchText(env, history, a);
              && SwitchAllowed(env, history, keepRecent, loaded.value, p.rangeEnd, prov)
              && p.rangeStart == NonSystemStart(history)
              && p.replacement == [ChatMessage("assistant", text)] && p.appendAfter == []
              && GuardMatches(env, history, p.guard)
              && store == old(store) + [MessageEvent(rowId, handoffId, SWITCH_CREATED, "assistant", text)]
    {
      hide Resolves;
      prov := Provenance([], "", "", 0, 0, 0);
      if !overLimit {
        return None, prov;
      }
      var cut := FindCutPoint(env, keepRecent);
      if cut.None? || loaded.None? {
        return None, prov;
      }
      var start, compactEnd := NonSystemStart(history), cut.value;
      var resolved := ResolveProvenance(env, hasSession, history[start..compactEnd], loaded.value);
      forall b, p | SwitchAllowed(env, history, keepRecent, loaded.value, b, p)
        ensures b == compactEnd && (hasSession ==> resolved == Some(p))
      {
        BoundaryIsUnique(env, history, start, start + ColdCount(history, keepRecent), b, compactEnd);
        if hasSession {
          ResolutionIsUnique(env, true, history[start..compactEnd], loaded.value, Some(p), resolved);
        }
      }
      if resolved.None? {
        NoSessionOrNoProvenance(env, hasSession, history[start..compactEnd], loaded.value);
        return None, prov;
      }
      HasSession(env, hasSession, history[start..compactEnd], loaded.value, resolved.value);
      if |resolved.value.sourceEventIds| > MAX_REFERENCED_EVENTS
         || resolved.value.lastRowId - resolved.value.firstRowId > MAX_ROW_SPAN {
        return None, prov;
      }
      prov := resolved.value;
      var (fromGeneration, parent) := Lineage(env, history);
      var text := HandoffText(env, HandoffNote(resolved.value, handoffId, parent, fromGeneration, extras));
      assert SwitchAllowed(env, history, keepRecent, loaded.value, compactEnd, prov);
      if !persisted {
        return None, prov;
      }
      store := store + [MessageEvent(rowId, handoffId, SWITCH_CREATED, "assistant", text)];
      patch := Some(CompactionPatch(start, compactEnd, [ChatMessage("assistant", text)], [],
                                    GuardFor(env, history, start, compactEnd).value));
    }

    // A switch of the live history: build the patch, then apply it.
    method ApplySwitch(env: Env, overLimit: bool, hasSession: bool, keepRecent: nat,
                       loaded: Option<seq<MessageEvent>>, persisted: bool,
                       handoffId: string, rowId: int, extras: map<string, Json>)
        returns (applied: bool, ghost action: Action)
      requires StoreOk(store)
      requires WellFormedEvent(MessageEvent(rowId, handoffId, "", "", ""))
      requires forall e :: e in store ==> e.eventId != handoffId
      requires loaded.Some? ==> DistinctIds(loaded.value) && forall e :: e in loaded.value ==> e in store
      modifies this
      ensures applied ==> action.Switch? && SwitchStep(env, old(Value()), action, Value())
      ensures applied ==> action.keepRecent == keepRecent && Some(action.loaded) == loaded && action.extras == extras
                          && action.handoffId == handoffId && action.rowId == rowId
      ensures !applied ==> Value() == old(Value())
      ensures applied <==>
              overLimit && hasSession && loaded.Some? && persisted
              && exists b, p :: SwitchAllowed(env, old(history), keepRecent, loaded.value, b, p)
    {
      hide SwitchAllowed, HandoffNote, GuardMatches, SwitchStep, SwitchText;
      ghost var prov;
      var patch: Option<CompactionPatch>;
      patch, prov := BuildSwitchPatch(env, overLimit, hasSession, keepRecent, loaded, persisted, handoffId, rowId,
                                      extras);
      if patch.None? {
        return false, Action.Recall(ChatMessage("", ""));
      }
      AllowedInRange(env, history, keepRecent, loaded.value, patch.value.rangeEnd, prov);
      ApplyCompactionPatchExact(patch.value);
      action := Action.Switch(keepRecent, patch.value.rangeEnd, loaded.value, prov, handoffId, rowId, extras);
      handoffIds := handoffIds + [handoffId];
      SwitchTaken(env, old(Value()), action, Value());
      applied := true;
    }

    // Whether the projection of a window leaves the summariser anything to read.
    method ShowsAnything(window: seq<ChatMessage>) returns (shown: bool)
      requires window != []
      ensures shown <==> |window[0].role| + 4 < COMPACTION_MAX_SOURCE_CHARS
    {
      hide Shows, TotalCost;
      var projection := BoundedCompactionProjection(window);
      ProjectionStarts(projection, window);
      shown := projection != [];
    }

    // A lossy compaction with the notes the summariser wrote.
    method ApplySummary(env: Env, overLimit: bool, keepRecent: nat, summary: string,
                        flush: Option<string>, refresh: string)
        returns (applied: bool, ghost action: Action)
      modifies this`history
      ensures applied ==> action.Summarise? && SummariseStep(env, old(Value()), action, Value())
      ensures applied ==> action.keepRecent == keepRecent && action.refresh == ChatMessage("user", refresh)
                          && action.replacement == [ChatMessage("assistant", summary)]
                             + if flush.Some? then [ChatMessage("assistant", flush.value)] else []
      ensures !applied ==> Value() == old(Value())
      ensures applied <==>
              && overLimit && (exists b :: IsCutPoint(env, old(history), keepRecent, b))
              && |old(history)[NonSystemStart(old(history))].role| + 4 < COMPACTION_MAX_SOURCE_CHARS
    {
      hide SummariseStep, IsCutPoint, IsCompanion;
      action := Action.Recall(ChatMessage("", ""));
      if !overLimit {
        return false, action;
      }
      var cut := FindCutPoint(env, keepRecent);
      if cut.None? {
        return false, action;
      }
      var start := NonSystemStart(history);
      var shown := ShowsAnything(history[start..cut.value]);
      if !shown {
        return false, action;
      }
      var replacement := [ChatMessage("assistant", summary)]
                         + if flush.Some? then [ChatMessage("assistant", flush.value)] else [];
      var aside := ChatMessage("user", refresh);
      var guard := GuardFor(env, history, start, cut.value).value;
      action := Action.Summarise(keepRecent, cut.value, replacement, aside);
      ApplyCompactionPatchExact(CompactionPatch(start, cut.value, replacement, [aside], guard));
      SummaryTaken(env, old(Value()), action, Value());
      applied := true;
    }

    // `drop_orphan_tool_results_at`: removes the results standing at `from`.
    method DropOrphanToolResultsAt(from: nat)
      modifies this`history
      ensures history == if from <= |old(history)| then old(history)[..from] + WithoutLeadingTools(old(history)[from..])
                         else old(history)
      // Nothing goes but tool results at `from`, and all of those go.
      ensures from <= |old(history)| ==>
              exists end :: from <= end <= |old(history)| && history == old(history)[..from] + old(history)[end..]
                            && (forall i :: from <= i < end ==> old(history)[i].role == "tool")
                            && (end < |old(history)| ==> old(history)[end].role != "tool")
    {
      ghost var before, end := history, from;
      while |history| > from && history[from].role == "tool"
        invariant |before| < from ==> history == before
        invariant from <= |before| ==> from <= end <= |before| && history == before[..from] + before[end..]
        invariant from <= |before| ==> forall i :: from <= i < end ==> before[i].role == "tool"
        decreases |history|
      {
        history := history[..from] + history[from + 1..];
        assert before[end..][1..] == before[end + 1..];
        end := end + 1;
      }
      if from <= |before| {
        assert end < |before| ==> before[end] == history[from];
        DropsLeadingTools(before, from, end);
      }
    }

    // The cut of a page-out, if it leaves a hot window.
    method FindEvictEnd(keepRecent: nat) returns (r: Option<nat>)
      ensures r.Some? ==> ColdCount(history, keepRecent) > 0
                          && IsEvictEnd(history, NonSystemStart(history) + ColdCount(history, keepRecent), r.value)
                          && r.value < |history|
      ensures r.Some? <==> CanEvict(history, keepRecent)
      // The first message that is no tool result, from where `keep` messages stay.
      ensures var start := if history != [] && history[0].role == "system" then 1 else 0;
              var cut := |history| - (if keepRecent == 0 then 1 else keepRecent);
              && (r.Some? ==> start < cut <= r.value < |history| && history[r.value].role != "tool"
                              && forall i :: cut <= i < r.value ==> history[i].role == "tool")
              && (r.None? <==> start >= cut || forall i :: cut <= i < |history| ==> history[i].role == "tool")
    {
      var start := if history != [] && history[0].role == "system" then 1 else 0;
      var nonSystemCount := |history| - start;
      var keep := if keepRecent < 1 then 1 else keepRecent;
      var evictCount := if keep < nonSystemCount then nonSystemCount - keep else 0;
      if evictCount == 0 {
        return None;
      }
      var evictEnd := start + evictCount;
      while evictEnd < |history| && history[evictEnd].role == "tool"
        invariant start + evictCount <= evictEnd <= |history|
        invariant forall i :: start + evictCount <= i < evictEnd ==> history[i].role == "tool"
      {
        evictEnd := evictEnd + 1;
      }
      if evictEnd >= |history| {
        return None;
      }
      assert NonSystemStart(history) + ColdCount(history, keepRecent) == start + evictCount;
      assert history[start + evictCount..][evictEnd - start - evictCount] == history[evictEnd];
      assert history[evictEnd] in history[start + evictCount..] && !IsTool(history[evictEnd]);
      return Some(evictEnd);
    }

    // Page-out of the cold window; `ingested` tells whether the page was stored.
    method ApplyOsPaging(env: Env, overWarning: bool, supportsIngest: bool, keepRecent: nat, ingested: bool,
                         breadcrumb: string)
        returns (evicted: bool, ghost action: Action)
      modifies this`history, this`pages, this`breadcrumbs
      ensures evicted ==> action.PageOut? && PageOutStep(env, old(Value()), action, Value())
      ensures evicted ==> action.keepRecent == keepRecent && action.breadcrumb == ChatMessage("assistant", breadcrumb)
      ensures !evicted ==> Value() == old(Value())
      ensures evicted <==> overWarning && supportsIngest && ingested && CanEvict(old(history), keepRecent)
    {
      hide CanEvict, ColdCount, IsEvictEnd, PageTranscript, IsTool;
      action := Action.Recall(ChatMessage("", ""));
      if !overWarning || !supportsIngest {
        return false, action;
      }
      var cut := FindEvictEnd(keepRecent);
      if cut.None? || !ingested {
        return false, action;
      }
      var note := ChatMessage("assistant", breadcrumb);
      action := Action.PageOut(keepRecent, cut.value, note);
      Evict(env, cut.value, note);
      evicted := true;
    }

    // Stores the page and puts the breadcrumb in place of the window.
    method Evict(env: Env, evictEnd: nat, note: ChatMessage)
      requires NonSystemStart(history) < evictEnd < |history| && history[evictEnd].role != "tool"
      requires note.role == "assistant"
      modifies this`history, this`pages, this`breadcrumbs
      ensures history == Spliced(old(history), evictEnd, [note]) && breadcrumbs == old(breadcrumbs) + [note]
      ensures pages == old(pages) + [PageTranscript(env, ColdWindow(old(history), evictEnd))]
    {
      hide PageTranscript;
      var start := NonSystemStart(history);
      var transcript := BuildPageTranscript(env, history[start..evictEnd]);
      pages := pages + [transcript];
      breadcrumbs := breadcrumbs + [note];
      Splice(start, evictEnd, [note]);
      ghost var spliced := history;
      assert spliced[start + 1..] == old(history)[evictEnd..];
      DropOrphanToolResultsAt(start + 1);
      assert history == spliced[..start + 1] + spliced[start + 1..] == spliced;
    }

    // A recalled page goes right after any system message.
    method InjectRecalledContext(recalled: ChatMessage)
      requires recalled.role == "system" || recalled.role == "user"
      modifies this`history
      ensures RecallStep(old(Value()), Action.Recall(recalled), Value())
      ensures var start := if old(history) != [] && old(history)[0].role == "system" then 1 else 0;
              history == old(history)[..start] + [recalled] + old(history)[start..]
    {
      var insertAt := if history != [] && history[0].role == "system" then 1 else 0;
      history := history[..insertAt] + [recalled] + history[insertAt..];
    }
  }

  lemma {:induction false} RequestedCut(history: seq<ChatMessage>, keepRecent: nat)
    ensures var start := if history != [] && history[0].role == "system" then 1 else 0;
            var keep := if keepRecent < 1 then 1 else keepRecent;
            ColdCount(history, keepRecent) ==
            |history| - start - (if keep < |history| - start then keep else |history| - start)
  {
  }

  lemma {:induction false} NothingToCut(env: Env, history: seq<ChatMessage>, keepRecent: nat)
    requires |history| - NonSystemStart(history) <= 1 || ColdCount(history, keepRecent) == 0
    ensures forall b: nat :: !IsCutPoint(env, history, keepRecent, b)
  {
    hide IsBoundary;
  }

  lemma {:induction false} CutAtBoundary(env: Env, history: seq<ChatMessage>, keepRecent: nat, b: nat)
    requires ColdCount(history, keepRecent) > 0
    requires IsBoundary(env, history, NonSystemStart(history),
                        NonSystemStart(history) + ColdCount(history, keepRecent), b)
    ensures b > NonSystemStart(history) ==> IsCutPoint(env, history, keepRecent, b)
    ensures b <= NonSystemStart(history) ==> forall c: nat :: !IsCutPoint(env, history, keepRecent, c)
  {
    hide IsBoundary;
    var start := NonSystemStart(history);
    forall c: nat | IsCutPoint(env, history, keepRecent, c) ensures c == b {
      BoundaryIsUnique(env, history, start, start + ColdCount(history, keepRecent), c, b);
    }
  }

  // The patch of a switch, applied, with the event stored, is the switch step.
  lemma {:induction false} SwitchTaken(env: Env, s: State, a: Action, t: State)
    requires a.Switch? && SwitchAllowed(env, s.history, a.keepRecent, a.loaded, a.boundary, a.prov)
    requires NonSystemStart(s.history) <= a.boundary <= |s.history|
    requires DistinctIds(a.loaded) && forall e :: e in a.loaded ==> e in s.store
    requires StoreOk(s.store) && WellFormedEvent(MessageEvent(a.rowId, a.handoffId, "", "", ""))
    requires forall e :: e in s.store ==> e.eventId != a.handoffId
    requires var text := SwitchText(env, s.history, a);
             && t.history == s.history[..NonSystemStart(s.history)] + [ChatMessage("assistant", text)] + []
                             + s.history[a.boundary..]
             && t.store == s.store + [MessageEvent(a.rowId, a.handoffId, SWITCH_CREATED, "assistant", text)]
    requires t.handoffIds == s.handoffIds + [a.handoffId]
    requires t.pages == s.pages && t.appended == s.appended && t.breadcrumbs == s.breadcrumbs
    ensures SwitchStep(env, s, a, t)
  {
    hide SwitchAllowed, SwitchText;
    assert t.history == Spliced(s.history, a.boundary, [ChatMessage("assistant", SwitchText(env, s.history, a))]);
  }

  lemma {:induction false} SummaryTaken(env: Env, s: State, a: Action, t: State)
    requires a.Summarise? && IsCutPoint(env, s.history, a.keepRecent, a.boundary)
    requires NonSystemStart(s.history) <= a.boundary <= |s.history|
    requires a.refresh.role == "user" && forall m :: m in a.replacement ==> m.role == "assistant"
    requires t == s.(history := s.history[..NonSystemStart(s.history)] + a.replacement + [a.refresh]
                                + s.history[a.boundary..])
    ensures SummariseStep(env, s, a, t)
  {
    hide IsCutPoint;
    assert t.history == Spliced(s.history, a.boundary, a.replacement + [a.refresh]);
  }

  lemma {:induction false} DropsLeadingTools(messages: seq<ChatMessage>, from: nat, end: nat)
    requires from <= end <= |messages| && forall i :: from <= i < end ==> messages[i].role == "tool"
    requires end < |messages| ==> messages[end].role != "tool"
    ensures WithoutLeadingTools(messages[from..]) == messages[end..]
    decreases end - from
  {
    if from < end {
      DropsLeadingTools(messages, from + 1, end);
      assert messages[from..][1..] == messages[from + 1..];
    }
  }

  // There is a cold window, and the hot one is not made of tool results alone.
  ghost predicate CanEvict(history: seq<ChatMessage>, keepRecent: nat) {
    ColdCount(history, keepRecent) > 0
    && exists m :: m in history[NonSystemStart(history) + ColdCount(history, keepRecent)..] && !IsTool(m)
  }

  lemma {:induction false} NoSessionOrNoProvenance(env: Env, hasSession: bool,
                                                   window: seq<ChatMessage>, loaded: seq<MessageEvent>)
    requires Resolves(env, hasSession, window, loaded, None)
    ensures !hasSession || forall p :: !Resolves(env, true, window, loaded, Some(p))
  {
    hide Unambiguous, OnlyPlacement;
  }

  lemma {:induction false} HasSession(env: Env, hasSession: bool,
                                      window: seq<ChatMessage>, loaded: seq<MessageEvent>, p: Provenance)
    requires Resolves(env, hasSession, window, loaded, Some(p))
    ensures hasSession
  {
    hide Unambiguous, OnlyPlacement;
  }

  lemma {:induction false} AllowedInRange(env: Env, history: seq<ChatMessage>, keepRecent: nat,
                                          loaded: seq<MessageEvent>, b: nat, p: Provenance)
    requires SwitchAllowed(env, history, keepRecent, loaded, b, p)
    ensures NonSystemStart(history) <= b <= |history|
  {
    hide Resolves;
  }
}
