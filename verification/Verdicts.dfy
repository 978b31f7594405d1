// The verdict on one constraint, kind by kind: what makes it a violation, and what
// makes it no valid extraction.
module Verdicts {
  import opened Wrappers
  import opened Text
  import opened Conversation
  import opened Evidence

  // Counting is the number of positions counted.
  lemma {:induction false} CountIsSize(trace: seq<Observed>, counts: Observed -> bool)
    ensures Count(trace, counts) == |set i | 0 <= i < |trace| && counts(trace[i])|
  {
    var all := set i | 0 <= i < |trace| && counts(trace[i]);
    if trace == [] {
      assert all == {};
    } else {
      var n := |trace| - 1;
      var front := set i | 0 <= i < n && counts(trace[..n][i]);
      CountIsSize(trace[..n], counts);
      assert forall i :: 0 <= i < n ==> trace[..n][i] == trace[i];
      assert all == front + if counts(trace[n]) then {n} else {};
    }
  }

  lemma {:induction false} ExecutedIsSize(trace: seq<Observed>)
    ensures Executed(trace) == |set i | 0 <= i < |trace| && trace[i].result.executed|
  {
    CountIsSize(trace, (o: Observed) => o.result.executed);
    assert (set i | 0 <= i < |trace| && trace[i].result.executed)
        == (set i | 0 <= i < |trace| && ((o: Observed) => o.result.executed)(trace[i]));
  }

  lemma {:induction false} NamedIsSize(trace: seq<Observed>, tool: string)
    ensures NamedCount(trace, tool)
            == |set i | 0 <= i < |trace| && trace[i].result.executed && trace[i].call.name == tool|
  {
    CountIsSize(trace, o => RanAs(o, tool));
    assert (set i | 0 <= i < |trace| && trace[i].result.executed && trace[i].call.name == tool)
        == (set i | 0 <= i < |trace| && (o => RanAs(o, tool))(trace[i]));
  }

  lemma {:induction false} BackendIsSize(trace: seq<Observed>, tool: string)
    ensures BackendCount(trace, tool)
            == |set i | 0 <= i < |trace| && trace[i].result.executed && trace[i].result.backendName == Some(tool)|
  {
    CountIsSize(trace, o => RanOn(o, tool));
    assert (set i | 0 <= i < |trace| && trace[i].result.executed && trace[i].result.backendName == Some(tool))
        == (set i | 0 <= i < |trace| && (o => RanOn(o, tool))(trace[i]));
  }

  lemma {:induction false} JudgedAlone(env: ReviewEnv, trace: seq<Observed>, request: string, c: Constraint)
    ensures Judged(env, trace, request, [c]) ==
            if Defect(env, request, c).Some? then Invalid(Defect(env, request, c).value)
            else if Breaks(env, trace, ExpectedCommands(env, request, [c]), c) then Violation(c.quote)
            else Accepted
  {
    hide Defect, Breaks, ExpectedCommands;
    var expected := ExpectedCommands(env, request, [c]);
    assert [c][0] == c && [c][1..] == [] && [c][..0] == [];
    assert FirstBroken(env, trace, request, expected, []) == None && LastDefect(env, request, []) == None;
    assert LastDefect(env, request, [c]) == Defect(env, request, c);
  }

  // A quote that is blank or not in the request is a defect, whatever it restricts.
  lemma {:induction false} UnquotedConstraintIsInvalid(env: ReviewEnv, trace: seq<Observed>, request: string,
                                                       c: Constraint)
    requires Trim(c.quote) == "" || !Contains(request, c.quote)
    ensures Judged(env, trace, request, [c])
            == Invalid("completion review constraint is not quoted from the current request")
  {
    hide Trim, Contains, Breaks, ExpectedCommands;
    JudgedAlone(env, trace, request, c);
  }

  lemma {:induction false} SemanticIsAccepted(env: ReviewEnv, trace: seq<Observed>, request: string, quote: string)
    requires Trim(quote) != "" && Contains(request, quote)
    ensures Judged(env, trace, request, [Semantic(quote)]) == Accepted
  {
    hide Trim, Contains, ExpectedCommands;
    JudgedAlone(env, trace, request, Semantic(quote));
  }

  // A quoted ban that names its tool is violated exactly when an executed call ran
  // under that name or on that backend; the name counts whatever its case.
  lemma {:induction false} BanVerdict(env: ReviewEnv, trace: seq<Observed>, request: string, quote: string,
                                      tool: string)
    requires Trim(quote) != "" && Contains(request, quote)
    ensures Judged(env, trace, request, [ForbiddenTool(quote, tool)]) ==
            if Trim(tool) == "" || !Contains(env.lower(quote), env.lower(tool)) then
              Invalid("completion review tool ban does not quote the named tool")
            else if exists i :: 0 <= i < |trace| && trace[i].result.executed
                                && (trace[i].call.name == tool || trace[i].result.backendName == Some(tool)) then
              Violation(quote)
            else Accepted
  {
    hide Trim, Contains, ExpectedCommands, ExecutedCount;
    JudgedAlone(env, trace, request, ForbiddenTool(quote, tool));
    RanIffCounted(trace, tool);
  }

  // A quoted limit on all calls is violated exactly by more executed calls,
  lemma {:induction false} LimitVerdict(env: ReviewEnv, trace: seq<Observed>, request: string, quote: string,
                                        limit: nat)
    requires Trim(quote) != "" && Contains(request, quote)
    ensures Judged(env, trace, request, [MaxCalls(quote, None, limit)]) ==
            if |set i | 0 <= i < |trace| && trace[i].result.executed| > limit then Violation(quote) else Accepted
  {
    hide Trim, Contains, ExpectedCommands, Executed;
    JudgedAlone(env, trace, request, MaxCalls(quote, None, limit));
    ExecutedIsSize(trace);
  }

  // one on a tool by more calls under its name, or more on it as a backend.
  lemma {:induction false} ToolLimitVerdict(env: ReviewEnv, trace: seq<Observed>, request: string, quote: string,
                                            tool: string, limit: nat)
    requires Trim(quote) != "" && Contains(request, quote)
    ensures Judged(env, trace, request, [MaxCalls(quote, Some(tool), limit)]) ==
            if |set i | 0 <= i < |trace| && trace[i].result.executed && trace[i].call.name == tool| > limit
               || |set i | 0 <= i < |trace| && trace[i].result.executed
                           && trace[i].result.backendName == Some(tool)| > limit
            then Violation(quote) else Accepted
  {
    hide Trim, Contains, ExpectedCommands, NamedCount, BackendCount;
    JudgedAlone(env, trace, request, MaxCalls(quote, Some(tool), limit));
    NamedIsSize(trace, tool);
    BackendIsSize(trace, tool);
  }

  // A quoted exact command is violated exactly when an executed shell call, by name
  // or backend, ran any other command.
  lemma {:induction false} CommandVerdict(env: ReviewEnv, trace: seq<Observed>, request: string, quote: string,
                                          command: string)
    requires Trim(quote) != "" && Contains(request, quote) && IsCollisionFree(env)
    ensures Judged(env, trace, request, [ExactCommand(quote, command)]) ==
            if command == "" || !Contains(quote, command) then
              Invalid("completion review exact command is not quoted from the request")
            else if exists i, ran :: 0 <= i < |trace| && trace[i].result.executed
                                     && (trace[i].call.name == "shell" || trace[i].result.backendName == Some("shell"))
                                     && trace[i].call.arguments.Get("command") == Some(Str(ran)) && ran != command then
              Violation(quote)
            else Accepted
  {
    hide Trim, Contains, IsCollisionFree;
    var c := ExactCommand(quote, command);
    JudgedAlone(env, trace, request, c);
    if command != "" && Contains(quote, command) {
      ExactCommandMeans(env, trace, request, [c], c);
      SoleCommandIsExpected(request, c);
      hide ExpectedCommands, Breaks, IsExpected;
      OtherCommandRan(trace, command);
    }
  }

  lemma {:induction false} SoleCommandIsExpected(request: string, c: Constraint)
    requires ExpectsCommand(request, c)
    ensures forall ran :: IsExpected(request, [c], ran) <==> ran == c.command
  {
    hide Contains;
    assert [c][0] == c;
  }

  lemma {:induction false} OtherCommandRan(trace: seq<Observed>, command: string)
    ensures (exists i :: 0 <= i < |trace| && ShellCommand(trace[i]).Some?
                         && ShellCommand(trace[i]).value != command) <==>
            exists i, ran :: 0 <= i < |trace| && trace[i].result.executed
                             && (trace[i].call.name == "shell" || trace[i].result.backendName == Some("shell"))
                             && trace[i].call.arguments.Get("command") == Some(Str(ran)) && ran != command
  {
    forall i | 0 <= i < |trace| && ShellCommand(trace[i]).Some?
      ensures trace[i].call.arguments.Get("command") == Some(Str(ShellCommand(trace[i]).value))
    {
    }
  }

  // More than 32 constraints are rejected, unless one of them is violated.
  lemma {:induction false} TooManyConstraints(env: ReviewEnv, trace: seq<Observed>, request: string,
                                              constraints: seq<Constraint>)
    requires forall c :: c in constraints ==> c.Semantic? && Trim(c.quote) != "" && Contains(request, c.quote)
    ensures Judged(env, trace, request, constraints) ==
            if |constraints| > 32 then Invalid("completion review has too many constraints") else Accepted
  {
    hide Trim, Contains, ExpectedCommands;
    FirstBrokenExists(env, trace, request, ExpectedCommands(env, request, constraints), constraints);
    LastDefectExists(env, request, constraints);
  }

  // What the ring keeps of a call.
  lemma {:induction false} RecordKeeps(env: ReviewEnv, o: Observed)
    ensures var r := RecordOf(env, o);
            && r.tool == o.call.name && r.backendTool == o.result.backendName
            && r.status == o.result.status && r.executed == o.result.executed
            && r.arguments == env.argumentExcerpts(o.call.arguments)
            && r.result.text <= o.result.content
            && |r.result.text| == (if |o.result.content| <= 4000 then |o.result.content| else 4000)
            && (r.result.truncated <==> |o.result.content| > 4000)
  {
  }

  // A user message that opens with none of the loop's own markers is the current
  // request, and stays so behind messages of other roles and behind such notes.
  lemma {:induction false} LastUserTextIsTheRequest(history: seq<ChatMessage>, m: ChatMessage, notes: seq<ChatMessage>)
    requires m.role == "user"
    requires !("[Tool results]" <= m.content) && !("[Post-compaction context refresh]" <= m.content)
             && !(("[" + "Recalled context from earlier in this session]") <= m.content)
    requires forall i :: 0 <= i < |notes| ==>
               || notes[i].role != "user"
               || "[Tool results]" <= notes[i].content || "[Post-compaction context refresh]" <= notes[i].content
               || ("[" + "Recalled context from earlier in this session]") <= notes[i].content
    ensures CurrentRequest(history + [m] + notes) == m.content
  {
    var all := history + [m] + notes;
    if notes == [] {
      assert all[..|all| - 1] == history && all[|all| - 1] == m;
    } else {
      var fewer := notes[..|notes| - 1];
      assert all[|all| - 1] == notes[|notes| - 1] && all[..|all| - 1] == history + [m] + fewer;
      LastUserTextIsTheRequest(history, m, fewer);
    }
  }

  // Without such a message the request is empty.
  lemma {:induction false} NotesAloneAreNoRequest(notes: seq<ChatMessage>)
    requires forall i :: 0 <= i < |notes| ==>
               || notes[i].role != "user"
               || "[Tool results]" <= notes[i].content || "[Post-compaction context refresh]" <= notes[i].content
               || ("[" + "Recalled context from earlier in this session]") <= notes[i].content
    ensures CurrentRequest(notes) == ""
  {
    if notes != [] { NotesAloneAreNoRequest(notes[..|notes| - 1]); }
  }

  // Inbound text is kept as it is, unless it opens with one of the markers.
  lemma {:induction false} OnlyMarkersAreEscaped(text: string)
    ensures NeutralizeReservedMarkers(text) ==
            if "[Tool results]" <= text || "[Post-compaction context refresh]" <= text
               || ("[" + "Recalled context from earlier in this session]") <= text
            then "\U{200b}" + text else text
  {
  }
}
