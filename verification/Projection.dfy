// `bounded_compaction_projection`: the part of a window shown to the summariser.
module Projection {
  import opened Text
  import opened Conversation

  const COMPACTION_MAX_SOURCE_CHARS: nat := 12_000

  function Cost(m: ChatMessage): nat {
    |m.role| + |m.content| + 4
  }

  function TotalCost(messages: seq<ChatMessage>): nat {
    if messages == [] then 0 else TotalCost(messages[..|messages| - 1]) + Cost(messages[|messages| - 1])
  }

  // `p` shows `m` when `used` characters are taken: whole if it fits the rest of
  // the cap, and otherwise its beginning up to the rest and an ellipsis.
  predicate Shows(p: ChatMessage, m: ChatMessage, used: nat) {
    && p.role == m.role
    && used + |m.role| + 4 < COMPACTION_MAX_SOURCE_CHARS
    && (if used + Cost(m) <= COMPACTION_MAX_SOURCE_CHARS then p.content == m.content
        else p.content == TrimEnd(m.content[..COMPACTION_MAX_SOURCE_CHARS - used - |m.role| - 4]) + ELLIPSIS)
  }

  // Each message is shown in what the ones before it have left.
  predicate ShowsAll(projected: seq<ChatMessage>, messages: seq<ChatMessage>) {
    |projected| <= |messages|
    && forall i :: 0 <= i < |projected| ==> Shows(projected[i], messages[i], TotalCost(projected[..i]))
  }

  lemma {:induction false} ShowsOneMore(projected: seq<ChatMessage>, messages: seq<ChatMessage>, p: ChatMessage)
    requires ShowsAll(projected, messages) && |projected| < |messages|
    requires Shows(p, messages[|projected|], TotalCost(projected))
    ensures ShowsAll(projected + [p], messages)
    ensures TotalCost(projected + [p]) == TotalCost(projected) + Cost(p)
  {
    hide Shows;
    var more := projected + [p];
    assert more[..|projected|] == projected;
    forall i | 0 <= i < |projected| ensures Shows(more[i], messages[i], TotalCost(more[..i])) {
      assert more[..i] == projected[..i];
    }
  }

  method BoundedCompactionProjection(messages: seq<ChatMessage>) returns (projected: seq<ChatMessage>)
    // A prefix of the messages, in order.
    ensures ShowsAll(projected, messages)
    // The cap is exceeded by an ellipsis at most.
    ensures TotalCost(projected) <= 12_003
    // The first message is whole if role, content and four more fit 12,000; it is
    // cut to what they leave otherwise.
    ensures projected != [] ==>
            && projected[0].role == messages[0].role && |messages[0].role| + 4 < 12_000
            && projected[0].content
               == (if |messages[0].role| + |messages[0].content| + 4 <= 12_000 then messages[0].content
                   else TrimEnd(messages[0].content[..12_000 - |messages[0].role| - 4]) + "...")
    // Messages that stay below the cap are all shown, and shown whole.
    ensures TotalCost(messages) < COMPACTION_MAX_SOURCE_CHARS ==> projected == messages
    // The window is left unfinished only where not one character more would fit.
    ensures |projected| < |messages| ==>
            TotalCost(projected) + |messages[|projected|].role| + 4 >= COMPACTION_MAX_SOURCE_CHARS
  {
    hide ShowsAll, Shows, TotalCost, TruncateWithEllipsis, TrimEnd, EndsWith;
    projected := [];
    var retained := 0;
    NothingShown(messages);
    for i := 0 to |messages|
      invariant i == |projected| && retained == TotalCost(projected)
      invariant ShowsAll(projected, messages)
      invariant retained <= COMPACTION_MAX_SOURCE_CHARS + |ELLIPSIS|
      invariant TotalCost(messages) < COMPACTION_MAX_SOURCE_CHARS ==> projected == messages[..i]
    {
      var msg := messages[i];
      NextCost(messages, i);
      FirstShown(projected, messages);
      if retained >= COMPACTION_MAX_SOURCE_CHARS {
        return;
      }
      var remaining := COMPACTION_MAX_SOURCE_CHARS - retained;
      var budget := if remaining > |msg.role| + 4 then remaining - (|msg.role| + 4) else 0;
      if budget == 0 {
        return;
      }
      FittedShows(msg, retained);
      var content := if |msg.content| > budget then TruncateWithEllipsis(msg.content, budget) else msg.content;
      var shown := ChatMessage(msg.role, content);
      ShowsOneMore(projected, messages, shown);
      assert projected == messages[..i] && shown == msg ==> projected + [shown] == messages[..i + 1];
      retained := retained + Cost(shown);
      projected := projected + [shown];
    }
    assert messages[..|messages|] == messages;
    FirstShown(projected, messages);
  }

  lemma {:induction false} FirstShown(projected: seq<ChatMessage>, messages: seq<ChatMessage>)
    requires ShowsAll(projected, messages)
    ensures projected != [] ==>
            && projected[0].role == messages[0].role && |messages[0].role| + 4 < 12_000
            && projected[0].content
               == (if |messages[0].role| + |messages[0].content| + 4 <= 12_000 then messages[0].content
                   else TrimEnd(messages[0].content[..12_000 - |messages[0].role| - 4]) + "...")
  {
    hide TrimEnd;
    if projected != [] { assert Shows(projected[0], messages[0], TotalCost(projected[..0])); }
  }

  lemma {:induction false} CostOfOneMore(messages: seq<ChatMessage>, m: ChatMessage)
    ensures TotalCost(messages + [m]) == TotalCost(messages) + |m.role| + |m.content| + 4
  {
    assert (messages + [m])[..|messages|] == messages;
  }

  // A content fitted to what `used` characters leave of the cap.
  lemma {:induction false} FittedShows(m: ChatMessage, used: nat)
    requires used + |m.role| + 4 < COMPACTION_MAX_SOURCE_CHARS
    ensures var budget := COMPACTION_MAX_SOURCE_CHARS - used - |m.role| - 4;
            var content := if |m.content| > budget then TruncateWithEllipsis(m.content, budget) else m.content;
            var shown := ChatMessage(m.role, content);
            && Shows(shown, m, used)
            && used + Cost(shown) <= COMPACTION_MAX_SOURCE_CHARS + |ELLIPSIS|
            && (used + Cost(m) <= COMPACTION_MAX_SOURCE_CHARS ==> shown == m)
  {
    hide TrimEnd;
  }

  lemma {:induction false} NothingShown(messages: seq<ChatMessage>)
    ensures ShowsAll([], messages) && TotalCost([]) == 0
  {
  }

  lemma {:induction false} NextCost(messages: seq<ChatMessage>, i: nat)
    requires i < |messages|
    ensures TotalCost(messages[..i]) + Cost(messages[i]) <= TotalCost(messages)
  {
    PrefixCost(messages, i + 1);
    assert messages[..i + 1][..i] == messages[..i];
  }

  lemma {:induction false} PrefixCost(messages: seq<ChatMessage>, n: nat)
    requires n <= |messages|
    ensures TotalCost(messages[..n]) <= TotalCost(messages)
    decreases |messages| - n
  {
    if n < |messages| {
      PrefixCost(messages, n + 1);
      assert messages[..n + 1][..n] == messages[..n];
    } else {
      assert messages[..n] == messages;
    }
  }

  // The projection of a window is empty only when its first role fills the cap.
  lemma {:induction false} ProjectionStarts(projected: seq<ChatMessage>, messages: seq<ChatMessage>)
    requires messages != [] && ShowsAll(projected, messages)
    requires |projected| < |messages| ==>
               TotalCost(projected) + |messages[|projected|].role| + 4 >= COMPACTION_MAX_SOURCE_CHARS
    ensures projected == [] <==> |messages[0].role| + 4 >= COMPACTION_MAX_SOURCE_CHARS
  {
    if projected != [] { assert Shows(projected[0], messages[0], TotalCost(projected[..0])); }
  }
}
