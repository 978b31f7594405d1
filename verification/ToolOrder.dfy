// No rewrite of the history strands a tool result.
module ToolOrder {
  import opened Wrappers
  import opened Conversation
  import opened Sessions

  predicate IsTool(m: ChatMessage) {
    m.role == "tool"
  }

  predicate IsEnvelope(env: Env, m: ChatMessage) {
    m.role == "assistant" && IsCompanion(env, m)
  }

  // Result `i` answers the envelope `j`: only results lie between them.
  ghost predicate Answers(env: Env, history: seq<ChatMessage>, i: nat, j: nat)
    requires i < |history|
  {
    j < i && IsEnvelope(env, history[j]) && forall t :: j < t <= i ==> IsTool(history[t])
  }

  ghost predicate ToolsAnswered(env: Env, history: seq<ChatMessage>) {
    forall i :: 0 <= i < |history| && IsTool(history[i]) ==> exists j: nat :: Answers(env, history, i, j)
  }

  // The same, seen locally: a result never comes first, and what precedes one
  // is an envelope or another result.
  ghost predicate Linked(env: Env, history: seq<ChatMessage>) {
    && (history != [] ==> !IsTool(history[0]))
    && forall i, k :: 0 <= i < k < |history| && k == i + 1 && IsTool(history[k]) ==>
         IsTool(history[i]) || IsEnvelope(env, history[i])
  }

  lemma {:induction false} LinkedAnswers(env: Env, history: seq<ChatMessage>, i: nat) returns (j: nat)
    requires Linked(env, history) && i < |history| && IsTool(history[i])
    ensures Answers(env, history, i, j)
  {
    if IsTool(history[i - 1]) {
      j := LinkedAnswers(env, history, i - 1);
    } else {
      j := i - 1;
    }
  }

  lemma {:induction false} AnsweredIsLinked(env: Env, history: seq<ChatMessage>)
    ensures ToolsAnswered(env, history) <==> Linked(env, history)
  {
    if ToolsAnswered(env, history) {
      forall k | 0 <= k < |history| && IsTool(history[k])
        ensures 0 < k && (IsTool(history[k - 1]) || IsEnvelope(env, history[k - 1]))
      {
        var j: nat :| Answers(env, history, k, j);
      }
    }
    if Linked(env, history) {
      forall i | 0 <= i < |history| && IsTool(history[i]) ensures exists j: nat :: Answers(env, history, i, j) {
        var j := LinkedAnswers(env, history, i);
      }
    }
  }

  // The scan the tests use to look for an orphan: it finds the first result that
  // no envelope answers.
  method FirstOrphanToolIndex(env: Env, history: seq<ChatMessage>) returns (r: Option<nat>)
    ensures r.None? <==> ToolsAnswered(env, history)
    ensures r.Some? ==> r.value < |history| && IsTool(history[r.value])
                        && ToolsAnswered(env, history[..r.value])
                        && forall j: nat :: !Answers(env, history, r.value, j)
  {
    hide IsCompanion;
    var insideRoundtrip := false;
    for index := 0 to |history|
      invariant Linked(env, history[..index])
      invariant insideRoundtrip <==> index > 0 && (IsTool(history[index - 1]) || IsEnvelope(env, history[index - 1]))
    {
      if IsTool(history[index]) {
        if !insideRoundtrip {
          AnsweredIsLinked(env, history[..index]);
          assert !Linked(env, history);
          AnsweredIsLinked(env, history);
          return Some(index);
        }
      } else {
        insideRoundtrip := IsEnvelope(env, history[index]);
      }
      assert history[..index + 1] == history[..index] + [history[index]];
    }
    assert history[..|history|] == history;
    AnsweredIsLinked(env, history);
    return None;
  }

  // Replacing a stretch by messages that are no tool results strands none,
  // provided the stretch does not end in front of one.
  lemma {:induction false} SpliceKeepsToolsAnswered(env: Env, history: seq<ChatMessage>, start: nat, end: nat,
                                                    middle: seq<ChatMessage>)
    requires ToolsAnswered(env, history) && start <= end <= |history|
    requires forall m :: m in middle ==> !IsTool(m)
    requires end < |history| ==> !IsTool(history[end])
    ensures ToolsAnswered(env, history[..start] + middle + history[end..])
  {
    hide IsCompanion;
    var spliced := history[..start] + middle + history[end..];
    AnsweredIsLinked(env, history);
    var shift := start + |middle|;
    forall k | start <= k < shift ensures !IsTool(spliced[k]) {
      assert spliced[k] in middle;
    }
    forall i, k | 0 <= i < k < |spliced| && k == i + 1 && IsTool(spliced[k])
      ensures IsTool(spliced[i]) || IsEnvelope(env, spliced[i])
    {
      if k < start {
        assert IsTool(history[i]) || IsEnvelope(env, history[i]);
      } else {
        assert k > shift;
        assert spliced[k] == history[end + (k - shift)] && spliced[i] == history[end + (i - shift)];
      }
    }
    AnsweredIsLinked(env, spliced);
  }

  // What every step but an append does to the history.
  lemma {:induction false} RewriteShape(env: Env, s: State, a: Action, t: State)
      returns (end: nat, middle: seq<ChatMessage>)
    requires !a.Append? && Next(env, s, a, t)
    ensures NonSystemStart(s.history) <= end <= |s.history|
    ensures t.history == s.history[..NonSystemStart(s.history)] + middle + s.history[end..]
    ensures forall m :: m in middle ==> !IsTool(m)
    ensures end == NonSystemStart(s.history) || (end < |s.history| && !IsTool(s.history[end]))
  {
    match a
    case Switch(k, b, _, _, _, _, _) =>
      CutPointHead(env, s.history, k, b);
      end, middle := b, [ChatMessage("assistant", SwitchText(env, s.history, a))];
    case Summarise(k, b, replacement, refresh) =>
      CutPointHead(env, s.history, k, b);
      end, middle := b, replacement + [refresh];
    case PageOut(_, e, breadcrumb) =>
      end, middle := e, [breadcrumb];
    case Recall(m) =>
      end, middle := NonSystemStart(s.history), [m];
  }

  // A compaction, an eviction and a recall keep every tool result answered; an
  // append does unless it appends an unanswered result itself.
  lemma {:induction false} StepKeepsToolsAnswered(env: Env, s: State, a: Action, t: State)
    requires Next(env, s, a, t) && ToolsAnswered(env, s.history)
    requires a.Append? ==> ToolsAnswered(env, s.history + [a.message])
    ensures ToolsAnswered(env, t.history)
  {
    if !a.Append? {
      var end, middle := RewriteShape(env, s, a, t);
      hide Next, ToolsAnswered;
      NoToolAtStart(env, s.history);
      SpliceKeepsToolsAnswered(env, s.history, NonSystemStart(s.history), end, middle);
    }
  }

  lemma {:induction false} NoToolAtStart(env: Env, history: seq<ChatMessage>)
    requires ToolsAnswered(env, history)
    ensures NonSystemStart(history) < |history| ==> !IsTool(history[NonSystemStart(history)])
  {
    var start := NonSystemStart(history);
    if start < |history| && IsTool(history[start]) {
      var j: nat :| Answers(env, history, start, j);
      assert false;
    }
  }

  predicate MayBeAnswered(env: Env, m: ChatMessage) {
    IsTool(m) || IsEnvelope(env, m)
  }

  // A round-trip that is still open stands at the end of the history: no rewrite
  // comes between an envelope and the results still to be appended.
  ghost predicate OpenRoundTripIsLast(env: Env, appended: seq<ChatMessage>, history: seq<ChatMessage>) {
    appended != [] && MayBeAnswered(env, appended[|appended| - 1]) ==>
      history != [] && history[|history| - 1] == appended[|appended| - 1]
  }

  lemma {:induction false} AnsweredBefore(env: Env, messages: seq<ChatMessage>, n: nat)
    requires n <= |messages| && ToolsAnswered(env, messages)
    ensures ToolsAnswered(env, messages[..n])
  {
    hide IsCompanion;
    AnsweredIsLinked(env, messages);
    AnsweredIsLinked(env, messages[..n]);
  }

  lemma {:induction false} AppendKeepsRoundTrips(env: Env,
                                                 appended: seq<ChatMessage>, history: seq<ChatMessage>, m: ChatMessage)
    requires ToolsAnswered(env, appended + [m]) && ToolsAnswered(env, history)
    requires OpenRoundTripIsLast(env, appended, history)
    ensures ToolsAnswered(env, history + [m])
    ensures OpenRoundTripIsLast(env, appended + [m], history + [m])
  {
    hide IsCompanion;
    AnsweredIsLinked(env, appended + [m]);
    AnsweredIsLinked(env, history);
    AnsweredIsLinked(env, history + [m]);
    if IsTool(m) {
      var n := |appended| - 1;
      assert (appended + [m])[n + 1] == m;
      assert MayBeAnswered(env, (appended + [m])[n]);
    }
  }

  lemma {:induction false} RewriteKeepsRoundTrips(env: Env, s: State, a: Action, t: State)
    requires !a.Append? && Next(env, s, a, t)
    requires OpenRoundTripIsLast(env, s.appended, s.history)
    ensures t.appended == s.appended && OpenRoundTripIsLast(env, t.appended, t.history)
  {
    hide Next, IsCompanion;
    var end, middle := RewriteShape(env, s, a, t);
    AppendedStays(env, s, a, t);
    if end < |s.history| {
      assert t.history[|t.history| - 1] == s.history[|s.history| - 1];
    } else if s.history != [] {
      assert !MayBeAnswered(env, s.history[|s.history| - 1]);
    }
  }

  lemma {:induction false} AppendedStays(env: Env, s: State, a: Action, t: State)
    requires !a.Append? && Next(env, s, a, t)
    ensures t.appended == s.appended
  {
  }

  // Over every run of every kind of step: if the messages as appended answer
  // each tool result, the history does, wherever rewrites fall between them.
  lemma {:induction false} RunsKeepToolsAnswered(env: Env, states: seq<State>, actions: seq<Action>, n: nat)
    requires IsRun(env, states, actions) && n < |states|
    requires states[0].appended == states[0].history
    requires ToolsAnswered(env, states[n].appended)
    ensures ToolsAnswered(env, states[n].history)
    ensures forall i :: 0 <= i < |states[n].history| && states[n].history[i].role == "tool" ==>
              exists j :: 0 <= j < i
                          && states[n].history[j].role == "assistant" && IsCompanion(env, states[n].history[j])
                          && forall t :: j < t <= i ==> states[n].history[t].role == "tool"
    ensures OpenRoundTripIsLast(env, states[n].appended, states[n].history)
  {
    hide ToolsAnswered, OpenRoundTripIsLast, IsCompanion;
    AnsweredMeans(env, states[n].history);
    if n == 0 {
      NothingRewritten(env, states[0].history);
    } else {
      var s, a, t := states[n - 1], actions[n - 1], states[n];
      assert Next(env, s, a, states[n - 1 + 1]);
      if a.Append? {
        AnsweredBefore(env, t.appended, |s.appended|);
        assert t.appended[..|s.appended|] == s.appended;
        RunsKeepToolsAnswered(env, states, actions, n - 1);
        AppendKeepsRoundTrips(env, s.appended, s.history, a.message);
      } else {
        AppendedStays(env, s, a, t);
        RunsKeepToolsAnswered(env, states, actions, n - 1);
        StepKeepsToolsAnswered(env, s, a, t);
        RewriteKeepsRoundTrips(env, s, a, t);
      }
    }
  }

  lemma {:induction false} AnsweredMeans(env: Env, history: seq<ChatMessage>)
    ensures ToolsAnswered(env, history) <==>
            forall i :: 0 <= i < |history| && history[i].role == "tool" ==>
              exists j :: 0 <= j < i && history[j].role == "assistant" && IsCompanion(env, history[j])
                          && forall t :: j < t <= i ==> history[t].role == "tool"
  {
    hide IsCompanion;
    if ToolsAnswered(env, history) {
      forall i | 0 <= i < |history| && history[i].role == "tool"
        ensures exists j :: 0 <= j < i && history[j].role == "assistant" && IsCompanion(env, history[j])
                            && forall t :: j < t <= i ==> history[t].role == "tool"
      {
        assert IsTool(history[i]);
        var j: nat :| Answers(env, history, i, j);
        assert IsEnvelope(env, history[j]);
      }
    }
    if forall i :: 0 <= i < |history| && history[i].role == "tool" ==>
         exists j :: 0 <= j < i && history[j].role == "assistant" && IsCompanion(env, history[j])
                     && forall t :: j < t <= i ==> history[t].role == "tool" {
      forall i | 0 <= i < |history| && IsTool(history[i]) ensures exists j: nat :: Answers(env, history, i, j) {
        var j :| 0 <= j < i && history[j].role == "assistant" && IsCompanion(env, history[j])
                 && forall t :: j < t <= i ==> history[t].role == "tool";
        assert Answers(env, history, i, j);
      }
    }
  }

  lemma {:induction false} NothingRewritten(env: Env, history: seq<ChatMessage>)
    ensures OpenRoundTripIsLast(env, history, history)
  {
  }

  // A compaction leaves a durable message at the head of the hot window, an
  // eviction one that is no tool result.
  lemma {:induction false} HotWindowHead(env: Env, s: State, a: Action, t: State)
    requires Next(env, s, a, t)
    ensures a.Switch? || a.Summarise? ==> a.boundary < |s.history| && !IsCompanion(env, s.history[a.boundary])
    ensures a.PageOut? ==>
            |t.history| > NonSystemStart(s.history) + 1 && !IsTool(t.history[NonSystemStart(s.history) + 1])
  {
    match a
    case Switch(k, b, _, _, _, _, _) => CutPointHead(env, s.history, k, b);
    case Summarise(k, b, _, _) => CutPointHead(env, s.history, k, b);
    case PageOut(_, e, _) => assert t.history[NonSystemStart(s.history) + 1] == s.history[e];
    case _ =>
  }
}
