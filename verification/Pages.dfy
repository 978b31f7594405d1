// The text a page is stored as: `build_page_transcript` of src/agent/context_paging.rs.
module Pages {
  import opened Text
  import opened Conversation

  // One message of a page: its role in capitals and its content, trimmed.
  function PageLine(env: Env, m: ChatMessage): string {
    env.upper(m.role) + ": " + Trim(m.content) + "\n"
  }

  function PageTranscript(env: Env, messages: seq<ChatMessage>): string {
    if messages == [] then "" else PageLine(env, messages[0]) + PageTranscript(env, messages[1..])
  }

  lemma {:induction false} PagesJoin(env: Env, a: seq<ChatMessage>, b: seq<ChatMessage>)
    ensures PageTranscript(env, a + b) == PageTranscript(env, a) + PageTranscript(env, b)
  {
    hide PageLine;
    if a == [] {
      assert a + b == b;
    } else {
      assert (a + b)[1..] == a[1..] + b && (a + b)[0] == a[0];
      PagesJoin(env, a[1..], b);
    }
  }

  lemma {:induction false} PageOfOne(env: Env, m: ChatMessage)
    ensures PageTranscript(env, [m]) == PageLine(env, m)
  {
    hide Trim;
    assert [m][1..] == [];
  }

  // A page of one message: its role in capitals, a colon, its content trimmed.
  lemma {:induction false} PageOfOneMessage(env: Env, m: ChatMessage)
    ensures PageTranscript(env, [m]) == env.upper(m.role) + ": " + Trim(m.content) + "\n"
  {
    hide Trim;
    PageOfOne(env, m);
  }

  lemma {:induction false} NoPage(env: Env, messages: seq<ChatMessage>)
    ensures PageTranscript(env, messages[..0]) == ""
  {
  }

  lemma {:induction false} OneMoreLine(env: Env, messages: seq<ChatMessage>, i: nat)
    requires i < |messages|
    ensures PageTranscript(env, messages[..i + 1]) == PageTranscript(env, messages[..i]) + PageLine(env, messages[i])
  {
    hide PageTranscript, PageLine;
    PagesJoin(env, messages[..i], [messages[i]]);
    PageOfOne(env, messages[i]);
    assert messages[..i + 1] == messages[..i] + [messages[i]];
  }

  method BuildPageTranscript(env: Env, messages: seq<ChatMessage>) returns (transcript: string)
    ensures transcript == PageTranscript(env, messages)
  {
    hide PageTranscript, Trim;
    transcript := "";
    NoPage(env, messages);
    for i := 0 to |messages|
      invariant transcript == PageTranscript(env, messages[..i])
    {
      OneMoreLine(env, messages, i);
      var role := env.upper(messages[i].role);
      transcript := transcript + (role + ": " + Trim(messages[i].content) + "\n");
    }
    assert messages[..|messages|] == messages;
  }

  // ---------------------------------------------------------------- what a page keeps

  // The same lines with the contents as they are.
  function VerbatimLine(env: Env, m: ChatMessage): string {
    env.upper(m.role) + ": " + m.content + "\n"
  }

  function VerbatimTranscript(env: Env, messages: seq<ChatMessage>): string {
    if messages == [] then "" else VerbatimLine(env, messages[0]) + VerbatimTranscript(env, messages[1..])
  }

  predicate AllTrimmed(messages: seq<ChatMessage>) {
    forall m :: m in messages ==> IsTrimmed(m.content)
  }

  lemma {:induction false} TrimmingShortens(s: string)
    ensures |Trim(s)| <= |s|
    ensures |Trim(s)| == |s| <==> IsTrimmed(s)
    ensures Trim(s) == s <==> IsTrimmed(s)
  {
    if IsTrimmed(s) {
      TrimOfTrimmed(s);
    }
    var r := TrimStart(s);
    assert |r| == |s| ==> r == s[0..] == s;
    assert |Trim(s)| == |s| ==> Trim(s) == r[..|r|] == s;
  }

  lemma {:induction false} PageIsNoLonger(env: Env, messages: seq<ChatMessage>)
    ensures |PageTranscript(env, messages)| <= |VerbatimTranscript(env, messages)|
    ensures |PageTranscript(env, messages)| == |VerbatimTranscript(env, messages)| <==> AllTrimmed(messages)
    ensures AllTrimmed(messages) ==> PageTranscript(env, messages) == VerbatimTranscript(env, messages)
  {
    hide Trim, IsTrimmed;
    if messages != [] {
      TrimmingShortens(messages[0].content);
      PageIsNoLonger(env, messages[1..]);
      assert messages == [messages[0]] + messages[1..];
    }
  }

  // A page keeps its contents verbatim exactly when each of them is trimmed.
  lemma {:induction false} PageIsVerbatimIffTrimmed(env: Env, messages: seq<ChatMessage>)
    ensures PageTranscript(env, messages) == VerbatimTranscript(env, messages) <==> AllTrimmed(messages)
  {
    hide PageTranscript, VerbatimTranscript, AllTrimmed;
    PageIsNoLonger(env, messages);
  }

  // A content padded with whitespace is stored without it.
  lemma {:induction false} PaddedContentIsNotKept(env: Env)
    ensures var page := [ChatMessage("user", "  x\n")];
            && PageTranscript(env, page) == env.upper("user") + ": x\n"
            && PageTranscript(env, page) != VerbatimTranscript(env, page)
  {
    hide Trim, IsTrimmed, PageTranscript, VerbatimTranscript;
    var m := ChatMessage("user", "  x\n");
    PadsAway();
    PageOfOne(env, m);
    assert [m][0] == m;
    PageIsVerbatimIffTrimmed(env, [m]);
  }

  lemma {:induction false} PadsAway()
    ensures Trim("  x\n") == "x" && !IsTrimmed("  x\n")
  {
    TrimPadded("  ", "x", "\n");
    assert "  " + "x" + "\n" == "  x\n";
  }

  // A page does not tell where its messages end: a content may look like the
  // next line.
  lemma {:induction false} PagesRunTogether(env: Env, role: string, a: string, b: string)
    requires IsTrimmed(a) && IsTrimmed(b) && a != "" && b != ""
    ensures var one := [ChatMessage(role, a + "\n" + env.upper(role) + ": " + b)];
            var two := [ChatMessage(role, a), ChatMessage(role, b)];
            one != two && PageTranscript(env, one) == PageTranscript(env, two)
  {
    var m := ChatMessage(role, a + "\n" + env.upper(role) + ": " + b);
    var x, y := ChatMessage(role, a), ChatMessage(role, b);
    assert m.content[0] == a[0] && m.content[|m.content| - 1] == b[|b| - 1];
    TrimOfTrimmed(m.content);
    TrimOfTrimmed(a);
    TrimOfTrimmed(b);
    hide Trim;
    PageOfOne(env, m);
    PageOfOne(env, x);
    PageOfOne(env, y);
    PagesJoin(env, [x], [y]);
    assert [x] + [y] == [x, y];
  }
}
