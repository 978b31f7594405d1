// A conversation as a state machine over its history, the append-only event
// store and the page store, with the steps that rewrite the history.
module Sessions {
  import opened Wrappers
  import opened Conversation
  import opened Boundary
  import opened Provenance
  import opened Accounting
  import opened Handoff
  import opened Pages

  // `appended`, `handoffIds` and `breadcrumbs` record the past for the
  // statements below; a page is the text it is stored as.
  datatype State = State(
    history: seq<ChatMessage>,
    store: seq<MessageEvent>,
    pages: seq<string>,
    appended: seq<ChatMessage>,
    handoffIds: seq<string>,
    breadcrumbs: seq<ChatMessage>)

  datatype Action =
    | Append(message: ChatMessage, events: seq<MessageEvent>)
    | Switch(keepRecent: nat, boundary: nat, loaded: seq<MessageEvent>, prov: Provenance,
             handoffId: string, rowId: int, extras: map<string, Json>)
    | Summarise(keepRecent: nat, boundary: nat, replacement: seq<ChatMessage>, refresh: ChatMessage)
    | PageOut(keepRecent: nat, evictEnd: nat, breadcrumb: ChatMessage)
    | Recall(message: ChatMessage)

  // Ids are unique, and only handoff notes are stored as switch events.
  ghost predicate StoreOk(store: seq<MessageEvent>) {
    && DistinctIds(store)
    && forall e :: e in store ==>
         WellFormedEvent(e) && (e.eventType == SWITCH_CREATED ==> IsContextHandoff(ChatMessage(e.role, e.content)))
  }

  // ---------------------------------------------------------------- the cut

  // Number of non-system messages before the ones to keep.
  function ColdCount(history: seq<ChatMessage>, keepRecent: nat): (count: nat)
    ensures NonSystemStart(history) + count <= |history|
    ensures |history| > NonSystemStart(history) ==> NonSystemStart(history) + count < |history|
  {
    var nonSystem := |history| - NonSystemStart(history);
    var keep := if keepRecent == 0 then 1 else keepRecent;
    if keep < nonSystem then nonSystem - keep else 0
  }

  // `b` is where the compaction cuts: the boundary found from the requested
  // count, if it leaves anything to compact.
  ghost predicate IsCutPoint(env: Env, history: seq<ChatMessage>, keepRecent: nat, b: nat) {
    var start := NonSystemStart(history);
    && ColdCount(history, keepRecent) > 0
    && IsBoundary(env, history, start, start + ColdCount(history, keepRecent), b)
    && start < b
  }

  // Where a compaction cuts, counted from the end: with `keep` messages to stay,
  // at the last message up to there that is no companion; failing that, behind
  // nothing but companions, at the first one after.
  lemma {:induction false} CutPointIsExact(env: Env, history: seq<ChatMessage>, keepRecent: nat, b: nat)
    ensures var start := if history != [] && history[0].role == "system" then 1 else 0;
            var cut := |history| - (if keepRecent == 0 then 1 else keepRecent);
            IsCutPoint(env, history, keepRecent, b) <==>
            && start < cut && start < b < |history| && !IsCompanion(env, history[b])
            && if b <= cut then forall i :: b < i <= cut ==> IsCompanion(env, history[i])
               else forall i :: start < i < b ==> IsCompanion(env, history[i])
  {
    hide IsCompanion;
    var start := NonSystemStart(history);
    var cut := |history| - (if keepRecent == 0 then 1 else keepRecent);
    assert ColdCount(history, keepRecent) > 0 <==> start < cut;
    if start < cut {
      assert start + ColdCount(history, keepRecent) == cut < |history|;
      assert forall i :: start < i <= cut ==> (Cuttable(env, history, i) <==> !IsCompanion(env, history[i]));
      if IsCutPoint(env, history, keepRecent, b) {
        CutPointHead(env, history, keepRecent, b);
        forall i | b < i <= cut ensures IsCompanion(env, history[i]) { assert !Cuttable(env, history, i); }
        if b > cut {
          forall i | start < i < b ensures IsCompanion(env, history[i]) { assert !Cuttable(env, history, i); }
        }
      }
    }
  }

  // There is no cut exactly when at most `keep` messages follow any system
  // message, or nothing but companions follow the first of them.
  lemma {:induction false} NoCutPoint(env: Env, history: seq<ChatMessage>, keepRecent: nat)
    ensures var start := if history != [] && history[0].role == "system" then 1 else 0;
            (forall b: nat :: !IsCutPoint(env, history, keepRecent, b)) <==>
            || |history| - start <= (if keepRecent == 0 then 1 else keepRecent)
            || forall i :: start < i < |history| ==> IsCompanion(env, history[i])
  {
    hide IsCompanion, IsCutPoint;
    var start := if history != [] && history[0].role == "system" then 1 else 0;
    var cut := |history| - (if keepRecent == 0 then 1 else keepRecent);
    if start < cut && exists i :: start < i < |history| && !IsCompanion(env, history[i]) {
      var last := LastDurable(env, history, start, cut);
      var b := if last > start then last else FirstDurable(env, history, cut);
      CutPointIsExact(env, history, keepRecent, b);
      assert IsCutPoint(env, history, keepRecent, b);
    }
    forall b: nat | IsCutPoint(env, history, keepRecent, b)
      ensures start < cut && start < b < |history| && !IsCompanion(env, history[b])
    {
      CutPointIsExact(env, history, keepRecent, b);
    }
  }

  function LastDurable(env: Env, history: seq<ChatMessage>, start: nat, i: nat): (b: nat)
    requires start <= i < |history|
    ensures start <= b <= i && (b > start ==> !IsCompanion(env, history[b]))
    ensures forall j :: b < j <= i ==> IsCompanion(env, history[j])
  {
    if i == start || !IsCompanion(env, history[i]) then i else LastDurable(env, history, start, i - 1)
  }

  function FirstDurable(env: Env, history: seq<ChatMessage>, i: nat): (b: nat)
    requires i <= |history|
    ensures i <= b <= |history| && (b < |history| ==> !IsCompanion(env, history[b]))
    ensures forall j :: i <= j < b ==> IsCompanion(env, history[j])
    decreases |history| - i
  {
    if i == |history| || !IsCompanion(env, history[i]) then i else FirstDurable(env, history, i + 1)
  }

  lemma {:induction false} CutPointHead(env: Env, history: seq<ChatMessage>, keepRecent: nat, b: nat)
    requires IsCutPoint(env, history, keepRecent, b)
    ensures NonSystemStart(history) < b < |history| && !IsCompanion(env, history[b])
  {
    BoundaryHead(env, history, NonSystemStart(history), NonSystemStart(history) + ColdCount(history, keepRecent), b);
  }

  function ColdWindow(history: seq<ChatMessage>, b: nat): seq<ChatMessage>
    requires NonSystemStart(history) <= b <= |history|
  {
    history[NonSystemStart(history)..b]
  }

  // The history with the cold window replaced.
  function Spliced(history: seq<ChatMessage>, b: nat, middle: seq<ChatMessage>): seq<ChatMessage>
    requires NonSystemStart(history) <= b <= |history|
  {
    history[..NonSystemStart(history)] + middle + history[b..]
  }

  // One assistant message in place of the window sits where the window began.
  lemma {:induction false} SplicedByOne(history: seq<ChatMessage>, b: nat, m: ChatMessage)
    requires NonSystemStart(history) <= b <= |history| && m.role == "assistant"
    ensures var spliced, start := Spliced(history, b, [m]), NonSystemStart(history);
            && NonSystemStart(spliced) == start < |spliced|
            && spliced[..start] == history[..start] && spliced[start] == m && spliced[start + 1..] == history[b..]
  {
    var spliced := Spliced(history, b, [m]);
    assert NonSystemStart(history) == 1 ==> spliced[0] == history[0];
    assert NonSystemStart(history) == 0 ==> spliced[0] == m;
  }

  // ---------------------------------------------------------------- steps

  ghost predicate AppendStep(s: State, a: Action, t: State)
    requires a.Append?
  {
    && (forall e :: e in a.events ==> e.eventType != SWITCH_CREATED)
    && t == s.(history := s.history + [a.message], store := s.store + a.events, appended := s.appended + [a.message])
    && StoreOk(t.store)
  }

  function SwitchText(env: Env, history: seq<ChatMessage>, a: Action): (text: string)
    requires a.Switch?
    ensures CONTEXT_HANDOFF_START <= text
  {
    var (generation, parent) := Lineage(env, history);
    HandoffText(env, HandoffNote(a.prov, a.handoffId, parent, generation, a.extras))
  }

  // The conditions under which a switch goes ahead.
  ghost predicate SwitchAllowed(env: Env, history: seq<ChatMessage>, keepRecent: nat, loaded: seq<MessageEvent>,
                                b: nat, prov: Provenance) {
    && IsCutPoint(env, history, keepRecent, b) && b <= |history|
    && Resolves(env, true, ColdWindow(history, b), loaded, Some(prov))
    && |prov.sourceEventIds| <= MAX_REFERENCED_EVENTS
    && prov.lastRowId - prov.firstRowId <= MAX_ROW_SPAN
  }

  // A note names at most 500 events, in a span of at most 20,000 rows.
  lemma {:induction false} SwitchLimits(env: Env, history: seq<ChatMessage>, keepRecent: nat, loaded: seq<MessageEvent>,
                                        b: nat, prov: Provenance)
    ensures var start := if history != [] && history[0].role == "system" then 1 else 0;
            SwitchAllowed(env, history, keepRecent, loaded, b, prov) <==>
            && IsCutPoint(env, history, keepRecent, b) && start < b < |history|
            && Resolves(env, true, history[start..b], loaded, Some(prov))
            && |prov.sourceEventIds| <= 500 && prov.lastRowId - prov.firstRowId <= 20_000
  {
    hide Resolves, IsCutPoint;
    if IsCutPoint(env, history, keepRecent, b) { CutPointHead(env, history, keepRecent, b); }
  }

  ghost predicate SwitchStep(env: Env, s: State, a: Action, t: State)
    requires a.Switch?
  {
    && SwitchAllowed(env, s.history, a.keepRecent, a.loaded, a.boundary, a.prov)
    && DistinctIds(a.loaded) && (forall e :: e in a.loaded ==> e in s.store)
    && var text := SwitchText(env, s.history, a);
       && t == s.(history := Spliced(s.history, a.boundary, [ChatMessage("assistant", text)]),
                  store := s.store + [MessageEvent(a.rowId, a.handoffId, SWITCH_CREATED, "assistant", text)],
                  handoffIds := s.handoffIds + [a.handoffId])
       && StoreOk(t.store)
  }

  // A lossy compaction: assistant notes replace the window, a user aside follows.
  ghost predicate SummariseStep(env: Env, s: State, a: Action, t: State)
    requires a.Summarise?
  {
    && IsCutPoint(env, s.history, a.keepRecent, a.boundary) && a.boundary <= |s.history|
    && (forall m :: m in a.replacement ==> m.role == "assistant")
    && a.refresh.role == "user"
    && t == s.(history := Spliced(s.history, a.boundary, a.replacement + [a.refresh]))
  }

  // The end of an eviction: past the requested count and the tool results behind it.
  ghost predicate IsEvictEnd(history: seq<ChatMessage>, from: nat, end: nat) {
    && from <= end <= |history|
    && (forall i :: from <= i < end ==> history[i].role == "tool")
    && (end < |history| ==> history[end].role != "tool")
  }

  // Where an eviction ends, counted from the end: at the first message that is no
  // tool result, with `keep` messages to stay.
  lemma {:induction false} EvictEndIsExact(history: seq<ChatMessage>, keepRecent: nat, end: nat)
    ensures var start := if history != [] && history[0].role == "system" then 1 else 0;
            var cut := |history| - (if keepRecent == 0 then 1 else keepRecent);
            (ColdCount(history, keepRecent) > 0 && end < |history|
             && IsEvictEnd(history, NonSystemStart(history) + ColdCount(history, keepRecent), end)) <==>
            && start < cut <= end < |history| && history[end].role != "tool"
            && forall i :: cut <= i < end ==> history[i].role == "tool"
  {
  }

  ghost predicate PageOutStep(env: Env, s: State, a: Action, t: State)
    requires a.PageOut?
  {
    var count := ColdCount(s.history, a.keepRecent);
    && count > 0
    && IsEvictEnd(s.history, NonSystemStart(s.history) + count, a.evictEnd)
    && a.evictEnd < |s.history|
    && a.breadcrumb.role == "assistant"
    && t == s.(history := Spliced(s.history, a.evictEnd, [a.breadcrumb]),
               pages := s.pages + [PageTranscript(env, ColdWindow(s.history, a.evictEnd))],
               breadcrumbs := s.breadcrumbs + [a.breadcrumb])
  }

  ghost predicate RecallStep(s: State, a: Action, t: State)
    requires a.Recall?
  {
    && (a.message.role == "system" || a.message.role == "user")
    && t == s.(history := Spliced(s.history, NonSystemStart(s.history), [a.message]))
  }

  ghost predicate Next(env: Env, s: State, a: Action, t: State) {
    match a
    case Append(_, _) => AppendStep(s, a, t)
    case Switch(_, _, _, _, _, _, _) => SwitchStep(env, s, a, t)
    case Summarise(_, _, _, _) => SummariseStep(env, s, a, t)
    case PageOut(_, _, _) => PageOutStep(env, s, a, t)
    case Recall(_) => RecallStep(s, a, t)
  }

  // A run: `states[i]` becomes `states[i + 1]` by `actions[i]`.
  ghost predicate IsRun(env: Env, states: seq<State>, actions: seq<Action>) {
    && |states| == |actions| + 1
    && forall i :: 0 <= i < |actions| ==> Next(env, states[i], actions[i], states[i + 1])
  }
}
