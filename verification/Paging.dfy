// Paging out moves messages, it does not lose their text.
module Paging {
  import opened Conversation
  import opened Pages
  import opened Sessions

  // A later page opens with the line of the breadcrumb it evicted, which stands
  // for what is already read.
  function WithoutLine(page: string, line: string): string {
    if line <= page then page[|line|..] else page
  }

  ghost predicate OpensWithBreadcrumbs(env: Env, pages: seq<string>, breadcrumbs: seq<ChatMessage>)
    requires |breadcrumbs| == |pages|
  {
    |pages| <= 1
    || (var n := |pages| - 1;
        PageLine(env, breadcrumbs[n - 1]) <= pages[n] && OpensWithBreadcrumbs(env, pages[..n], breadcrumbs[..n]))
  }

  // The pages read back in order, their breadcrumb lines removed.
  function Unpaged(env: Env, pages: seq<string>, breadcrumbs: seq<ChatMessage>): string
    requires |breadcrumbs| == |pages|
  {
    if pages == [] then ""
    else if |pages| == 1 then pages[0]
    else
      var n := |pages| - 1;
      Unpaged(env, pages[..n], breadcrumbs[..n]) + WithoutLine(pages[n], PageLine(env, breadcrumbs[n - 1]))
  }

  // The pages put back where the breadcrumb stands, everything as page text.
  function Rebuilt(env: Env, s: State): string
    requires |s.breadcrumbs| == |s.pages|
  {
    var start := NonSystemStart(s.history);
    if s.pages == [] || start >= |s.history| then PageTranscript(env, s.history)
    else
      PageTranscript(env, s.history[..start]) + Unpaged(env, s.pages, s.breadcrumbs)
      + PageTranscript(env, s.history[start + 1..])
  }

  // The text of every message ever appended is there, in order.
  ghost predicate NothingPagedAway(env: Env, s: State) {
    var start := NonSystemStart(s.history);
    && |s.breadcrumbs| == |s.pages|
    && OpensWithBreadcrumbs(env, s.pages, s.breadcrumbs)
    && (s.pages != [] ==> start < |s.history| && s.history[start] == s.breadcrumbs[|s.pages| - 1])
    && PageTranscript(env, s.appended) == Rebuilt(env, s)
  }

  lemma {:induction false} AppendKeepsPages(env: Env, s: State, a: Action, t: State)
    requires a.Append? && AppendStep(s, a, t) && NothingPagedAway(env, s)
    ensures NothingPagedAway(env, t)
  {
    hide PageTranscript, Unpaged, OpensWithBreadcrumbs;
    PagesJoin(env, s.appended, [a.message]);
    if s.pages == [] {
      PagesJoin(env, s.history, [a.message]);
    } else {
      var start := NonSystemStart(s.history);
      assert t.history[start + 1..] == s.history[start + 1..] + [a.message];
      assert t.history[..start] == s.history[..start];
      PagesJoin(env, s.history[start + 1..], [a.message]);
    }
  }

  lemma {:induction false} OneMorePage(env: Env, pages: seq<string>, breadcrumbs: seq<ChatMessage>, page: string,
                                       breadcrumb: ChatMessage, rest: string)
    requires |breadcrumbs| == |pages| && OpensWithBreadcrumbs(env, pages, breadcrumbs)
    requires pages != [] ==> page == PageLine(env, breadcrumbs[|pages| - 1]) + rest
    ensures OpensWithBreadcrumbs(env, pages + [page], breadcrumbs + [breadcrumb])
    ensures Unpaged(env, pages + [page], breadcrumbs + [breadcrumb])
            == Unpaged(env, pages, breadcrumbs) + if pages == [] then page else rest
  {
    hide PageLine;
    assert (pages + [page])[..|pages|] == pages && (breadcrumbs + [breadcrumb])[..|pages|] == breadcrumbs;
    if pages != [] {
      var line := PageLine(env, breadcrumbs[|pages| - 1]);
      assert line <= page && page[|line|..] == rest;
    }
  }

  // The window in front of the hot messages, as text.
  lemma {:induction false} WindowText(env: Env, history: seq<ChatMessage>, start: nat, end: nat)
    requires start < end <= |history|
    ensures PageTranscript(env, history)
            == PageTranscript(env, history[..start]) + PageTranscript(env, history[start..end])
               + PageTranscript(env, history[end..])
    ensures PageTranscript(env, history[start..end])
            == PageLine(env, history[start]) + PageTranscript(env, history[start + 1..end])
    ensures PageTranscript(env, history[start + 1..])
            == PageTranscript(env, history[start + 1..end]) + PageTranscript(env, history[end..])
  {
    hide PageLine;
    assert history == history[..start] + history[start..end] + history[end..];
    assert history[start..end][1..] == history[start + 1..end];
    assert history[start + 1..] == history[start + 1..end] + history[end..];
    PagesJoin(env, history[..start] + history[start..end], history[end..]);
    PagesJoin(env, history[..start], history[start..end]);
    PagesJoin(env, history[start + 1..end], history[end..]);
  }

  lemma {:induction false} PageOutKeepsPages(env: Env, s: State, a: Action, t: State)
    requires a.PageOut? && PageOutStep(env, s, a, t) && NothingPagedAway(env, s)
    ensures NothingPagedAway(env, t)
  {
    hide PageTranscript, Unpaged, OpensWithBreadcrumbs, PageLine;
    var start := NonSystemStart(s.history);
    SplicedByOne(s.history, a.evictEnd, a.breadcrumb);
    WindowText(env, s.history, start, a.evictEnd);
    var page := PageTranscript(env, ColdWindow(s.history, a.evictEnd));
    OneMorePage(env, s.pages, s.breadcrumbs, page, a.breadcrumb,
                PageTranscript(env, s.history[start + 1..a.evictEnd]));
    RebuiltAfter(env, s, t, a.evictEnd);
  }

  lemma {:induction false} RebuiltAfter(env: Env, s: State, t: State, end: nat)
    requires |s.breadcrumbs| == |s.pages| && |t.breadcrumbs| == |t.pages| && t.pages != []
    requires var start := NonSystemStart(s.history);
             && start < end <= |s.history| && NonSystemStart(t.history) == start < |t.history|
             && t.history[..start] == s.history[..start] && t.history[start + 1..] == s.history[end..]
             && Unpaged(env, t.pages, t.breadcrumbs)
                == Unpaged(env, s.pages, s.breadcrumbs)
                   + PageTranscript(env, s.history[if s.pages == [] then start else start + 1..end])
    ensures Rebuilt(env, t) == Rebuilt(env, s)
  {
    hide PageTranscript, Unpaged, PageLine, NonSystemStart;
    var h, start := s.history, NonSystemStart(s.history);
    WindowText(env, h, start, end);
    var head, tail := PageTranscript(env, h[..start]), PageTranscript(env, h[end..]);
    var read := Unpaged(env, s.pages, s.breadcrumbs);
    if s.pages == [] {
      NothingUnpaged(env, s.breadcrumbs);
      assert Rebuilt(env, s) == head + PageTranscript(env, h[start..end]) + tail;
    } else {
      Reassociate(head, read, PageTranscript(env, h[start + 1..end]), tail);
    }
  }

  lemma {:induction false} NothingUnpaged(env: Env, breadcrumbs: seq<ChatMessage>)
    requires breadcrumbs == []
    ensures Unpaged(env, [], breadcrumbs) == ""
  {
  }

  lemma {:induction false} Reassociate(a: string, b: string, c: string, d: string)
    ensures a + b + (c + d) == a + (b + c) + d
  {
  }

  // Over every run of appends and evictions, with any retention settings, the
  // pages without their breadcrumb lines and the history give the page text of
  // everything appended; it is the text itself exactly when all of it is trimmed.
  lemma {:induction false} PagingIsNonDestructive(env: Env, states: seq<State>, actions: seq<Action>, n: nat)
    requires IsRun(env, states, actions) && n < |states|
    requires forall i :: 0 <= i < |actions| ==> actions[i].Append? || actions[i].PageOut?
    requires states[0].pages == [] && states[0].breadcrumbs == [] && states[0].appended == states[0].history
    ensures NothingPagedAway(env, states[n])
    ensures Rebuilt(env, states[n]) == VerbatimTranscript(env, states[n].appended) <==> AllTrimmed(states[n].appended)
  {
    hide AppendStep, PageOutStep, PageTranscript, VerbatimTranscript, AllTrimmed;
    PageIsVerbatimIffTrimmed(env, states[n].appended);
    if n != 0 {
      PagingIsNonDestructive(env, states, actions, n - 1);
      var s, a, t := states[n - 1], actions[n - 1], states[n];
      assert Next(env, s, a, states[n - 1 + 1]);
      if a.Append? { AppendKeepsPages(env, s, a, t); } else { PageOutKeepsPages(env, s, a, t); }
    }
  }
}
