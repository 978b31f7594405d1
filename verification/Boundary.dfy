// The cut of a compaction: `compaction_boundary_without_orphan_tool_results`.
module Boundary {
  import opened Wrappers
  import opened Text
  import opened Conversation

  // Nothing at `i` would be stranded by cutting there.
  predicate Cuttable(env: Env, history: seq<ChatMessage>, i: nat) {
    i >= |history| || !IsCompanion(env, history[i])
  }

  // The last cuttable index in (start, end]; failing that the first message
  // from `end` on that is no companion; failing that `start`.
  ghost predicate IsBoundary(env: Env, history: seq<ChatMessage>, start: nat, end: nat, b: nat) {
    || (start < b <= end && Cuttable(env, history, b)
        && forall i :: b < i <= end ==> !Cuttable(env, history, i))
    || ((forall i :: start < i <= end ==> !Cuttable(env, history, i))
        && (|| (end <= b < |history| && Cuttable(env, history, b)
                && forall i :: end <= i < b ==> !Cuttable(env, history, i))
            || (b == start && forall i :: end <= i < |history| ==> !Cuttable(env, history, i))))
  }

  lemma {:induction false} BoundaryIsUnique(env: Env, history: seq<ChatMessage>, start: nat, end: nat, b: nat, c: nat)
    requires IsBoundary(env, history, start, end, b) && IsBoundary(env, history, start, end, c)
    ensures b == c
  {
    assert b < c ==> Cuttable(env, history, c) || c == start;
    assert c < b ==> Cuttable(env, history, b) || b == start;
  }

  // A proper cut leaves a durable message at the head of the hot window, and
  // there is no proper cut exactly when only companions follow `start`.
  lemma {:induction false} BoundaryHead(env: Env, history: seq<ChatMessage>, start: nat, end: nat, b: nat)
    requires start < end < |history|
    requires IsBoundary(env, history, start, end, b)
    ensures start <= b < |history|
    ensures b != start ==> !IsCompanion(env, history[b])
    ensures b == start <==> forall i :: start < i < |history| ==> IsCompanion(env, history[i])
  {
    if b == start {
      forall i | start < i < |history| ensures IsCompanion(env, history[i]) {
        assert !Cuttable(env, history, i);
      }
    } else {
      assert Cuttable(env, history, b);
    }
  }

  method BoundaryWithoutOrphanToolResults(env: Env, history: seq<ChatMessage>, start: nat, compactEnd: nat)
      returns (b: nat)
    ensures IsBoundary(env, history, start, compactEnd, b)
    // A cut never strands a tool result, a result block or a tool-call envelope,
    ensures b != start && b < |history| ==>
            && history[b].role != "tool"
            && !(history[b].role == "user" && "[Tool results]" <= history[b].content)
            && !(history[b].role == "assistant" && "{" <= history[b].content
                 && Contains(history[b].content, "\"tool_calls\"")
                 && exists fields, calls :: env.parse(history[b].content) == Some(Obj(fields))
                      && "tool_calls" in fields && fields["tool_calls"] == Arr(calls) && calls != [])
    // and every other message stays where the cut was asked for.
    ensures start < compactEnd < |history|
            && history[compactEnd].role != "tool"
            && !(history[compactEnd].role == "user" && "[Tool results]" <= history[compactEnd].content)
            && !(history[compactEnd].role == "assistant" && "{" <= history[compactEnd].content
                 && Contains(history[compactEnd].content, "\"tool_calls\"")
                 && exists fields, calls :: env.parse(history[compactEnd].content) == Some(Obj(fields))
                      && "tool_calls" in fields && fields["tool_calls"] == Arr(calls) && calls != []) ==>
            b == compactEnd
  {
    hide IsCompanion, Contains;
    if compactEnd < |history| { RoundTripShapes(env, history[compactEnd]); }
    var boundary := compactEnd;
    while boundary > start
      invariant start <= boundary <= compactEnd || boundary == compactEnd <= start
      invariant forall i :: boundary < i <= compactEnd ==> !Cuttable(env, history, i)
    {
      if boundary >= |history| || !IsCompanion(env, history[boundary]) {
        break;
      }
      boundary := boundary - 1;
    }
    assert boundary < compactEnd ==> !Cuttable(env, history, compactEnd);
    if boundary > start {
      assert Cuttable(env, history, boundary);
      if boundary < |history| { RoundTripShapes(env, history[boundary]); }
      return boundary;
    }
    var forward := compactEnd;
    while forward < |history|
      invariant compactEnd <= forward
      invariant forall i :: compactEnd <= i < forward ==> i < |history| && !Cuttable(env, history, i)
    {
      if !IsCompanion(env, history[forward]) {
        assert Cuttable(env, history, forward);
        RoundTripShapes(env, history[forward]);
        return forward;
      }
      forward := forward + 1;
    }
    return start;
  }
}
