// `CompletionEvidence` of src/agent/completion_review.rs: a bounded ring of
// records and counters over the whole turn, proved to stand for the whole trace.
module CompletionReview {
  import opened Wrappers
  import opened Text
  import opened Conversation
  import opened Evidence

  const MAX_RECORDS: nat := 24

  function Lookup(m: map<string, nat>, key: string): nat {
    if key in m then m[key] else 0
  }

  function Bumped(m: map<string, nat>, key: string): map<string, nat> {
    m[key := Lookup(m, key) + 1]
  }

  ghost function Sum(m: map<string, nat>): nat
    decreases |m|
  {
    if m == map[] then 0
    else
      var k :| k in m;
      m[k] + Sum(m - {k})
  }

  // The sum does not depend on the order the keys are taken in.
  lemma {:induction false} SumTakes(m: map<string, nat>, k: string)
    requires k in m
    ensures Sum(m) == m[k] + Sum(m - {k})
    decreases |m|
  {
    var x :| x in m && Sum(m) == m[x] + Sum(m - {x});
    if x != k {
      SumTakes(m - {x}, k);
      SumTakes(m - {k}, x);
      assert m - {x} - {k} == m - {k} - {x};
    }
  }

  lemma {:induction false} SumOfBumped(m: map<string, nat>, key: string)
    ensures Sum(Bumped(m, key)) == Sum(m) + 1
  {
    var b := Bumped(m, key);
    SumTakes(b, key);
    if key in m {
      SumTakes(m, key);
      assert b - {key} == m - {key};
    } else {
      assert b - {key} == m;
    }
  }

  // The newest records of the trace, oldest first.
  function Newest(env: ReviewEnv, trace: seq<Observed>): seq<Record> {
    if |trace| <= MAX_RECORDS then Recorded(env, trace) else Recorded(env, trace[|trace| - MAX_RECORDS..])
  }

  function Recorded(env: ReviewEnv, trace: seq<Observed>): (r: seq<Record>)
    ensures |r| == |trace| && forall i :: 0 <= i < |r| ==> r[i] == RecordOf(env, trace[i])
  {
    seq(|trace|, i requires 0 <= i < |trace| => RecordOf(env, trace[i]))
  }

  ghost predicate CountsNames(m: map<string, nat>, trace: seq<Observed>) {
    forall tool :: Lookup(m, tool) == NamedCount(trace, tool)
  }

  ghost predicate CountsBackends(m: map<string, nat>, trace: seq<Observed>) {
    forall tool :: Lookup(m, tool) == BackendCount(trace, tool)
  }

  class CompletionEvidence {
    const env: ReviewEnv
    var records: seq<Record>
    var omitted: nat
    var executedCounts: map<string, nat>
    var backendCounts: map<string, nat>
    var shellCommandHashes: set<string>
    // Every call of the turn.
    ghost var trace: seq<Observed>

    // The ledger stands for the trace.
    ghost predicate Valid()
      reads this
    {
      && records == Newest(env, trace) && |records| + omitted == |trace|
      && CountsNames(executedCounts, trace) && Sum(executedCounts) == Executed(trace)
      && CountsBackends(backendCounts, trace)
      && shellCommandHashes == ShellHashes(env, trace)
    }

    constructor (env: ReviewEnv)
      ensures Valid() && this.env == env && trace == []
    {
      this.env := env;
      records := [];
      omitted := 0;
      executedCounts := map[];
      backendCounts := map[];
      shellCommandHashes := {};
      trace := [];
    }

    method Record(call: ParsedToolCall, result: ObservedToolResult)
      requires Valid()
      modifies this
      ensures Valid() && trace == old(trace) + [Observed(call, result)]
    {
      hide CountsNames, CountsBackends, ShellHashes, Newest, ShellCommand, Executed;
      ghost var o := Observed(call, result);
      NamesGrow(executedCounts, trace, o);
      BackendsGrow(backendCounts, trace, o);
      ExecutedGrows(trace, o);
      HashesOfOneMore(env, trace, o);
      RingTurns(env, trace, o);
      if result.executed {
        SumOfBumped(executedCounts, call.name);
        executedCounts := Bumped(executedCounts, call.name);
        if result.backendName.Some? {
          backendCounts := Bumped(backendCounts, result.backendName.value);
        }
        if call.name == "shell" || result.backendName == Some("shell") {
          var command := call.arguments.Get("command");
          if command.Some? && command.value.AsStr().Some? {
            shellCommandHashes := shellCommandHashes + {env.digest(command.value.AsStr().value)};
          }
        }
        ShellCommandIs(o);
      } else {
        ShellCommandIs(o);
      }
      if |records| == MAX_RECORDS {
        records := records[1..];
        omitted := omitted + 1;
      }
      records := records + [RecordOf(env, Observed(call, result))];
      trace := trace + [o];
    }

    // The larger of the two counts, which overlap and are never summed.
    method ExecutedCountOf(tool: string) returns (count: nat)
      requires Valid()
      ensures count == ExecutedCount(trace, tool)
    {
      var named := Lookup(executedCounts, tool);
      var backend := Lookup(backendCounts, tool);
      count := if named > backend then named else backend;
    }

    method ExecutedTotal() returns (total: nat)
      requires Valid()
      ensures total == Executed(trace)
    {
      total := 0;
      var rest := executedCounts;
      while rest != map[]
        invariant total + Sum(rest) == Sum(executedCounts)
        decreases |rest|
      {
        var k :| k in rest;
        SumTakes(rest, k);
        total := total + rest[k];
        rest := rest - {k};
      }
    }

    // The commands the constraints allow, by digest.
    method Expected(request: string, constraints: seq<Constraint>) returns (expected: set<string>)
      ensures expected == ExpectedCommands(env, request, constraints)
    {
      hide Contains;
      expected := {};
      for i := 0 to |constraints|
        invariant expected
               == set k | 0 <= k < i && ExpectsCommand(request, constraints[k]) :: env.digest(constraints[k].command)
      {
        if ExpectsCommand(request, constraints[i]) {
          expected := expected + {env.digest(constraints[i].command)};
        }
      }
    }

    // `validate_review`: the verdict on the whole trace, from the ledger alone.
    method ValidateReview(constraints: seq<Constraint>, originalHistory: seq<ChatMessage>) returns (verdict: Verdict)
      requires Valid()
      ensures verdict == Judged(env, trace, CurrentRequest(originalHistory), constraints)
    {
      hide Contains, Trim, ExpectedCommands, ExecutedCount, Executed, ShellHashes, CountsNames, CountsBackends, Newest;
      var request := CurrentRequest(originalHistory);
      var invalid: Option<string> := if |constraints| > 32 then Some(TOO_MANY) else None;
      var expected := Expected(request, constraints);
      assert constraints[0..] == constraints && constraints[..0] == [];
      for i := 0 to |constraints|
        invariant FirstBroken(env, trace, request, expected, constraints)
               == FirstBroken(env, trace, request, expected, constraints[i..])
        invariant invalid == SoFar(env, request, constraints, i)
      {
        var c := constraints[i];
        OneMoreConstraint(env, trace, request, expected, constraints, i);
        var quote := c.quote;
        if Trim(quote) == "" || !Contains(request, quote) {
          invalid := Some(NOT_QUOTED);
          continue;
        }
        var violation;
        match c {
          case Semantic(_) =>
            violation := false;
          case ForbiddenTool(_, tool) =>
            if Trim(tool) == "" || !Contains(env.lower(quote), env.lower(tool)) {
              invalid := Some(BAN_NOT_NAMED);
              continue;
            }
            var count := ExecutedCountOf(tool);
            violation := count > 0;
          case MaxCalls(_, tool, limit) =>
            var count;
            if tool.Some? {
              count := ExecutedCountOf(tool.value);
            } else {
              count := ExecutedTotal();
            }
            violation := count > limit;
          case ExactCommand(_, command) =>
            if command == "" || !Contains(quote, command) {
              invalid := Some(COMMAND_NOT_QUOTED);
              continue;
            }
            violation := !(shellCommandHashes <= expected);
        }
        if violation {
          return Violation(quote);
        }
      }
      assert constraints[|constraints|..] == [] && constraints[..|constraints|] == constraints;
      verdict := if invalid.Some? then Invalid(invalid.value) else Accepted;
    }
  }

  // The defect `validate_review` has noted after `i` constraints.
  function SoFar(env: ReviewEnv, request: string, constraints: seq<Constraint>, i: nat): Option<string>
    requires i <= |constraints|
  {
    var last := LastDefect(env, request, constraints[..i]);
    if last.Some? then last else if |constraints| > 32 then Some(TOO_MANY) else None
  }

  lemma {:induction false} OneMoreConstraint(env: ReviewEnv, trace: seq<Observed>, request: string,
                                             expected: set<string>,
                                             constraints: seq<Constraint>, i: nat)
    requires i < |constraints|
    ensures var c := constraints[i];
            && FirstBroken(env, trace, request, expected, constraints[i..])
               == (if IsBroken(env, trace, request, expected, c) then Some(c)
                   else FirstBroken(env, trace, request, expected, constraints[i + 1..]))
            && SoFar(env, request, constraints, i + 1)
               == (if Defect(env, request, c).Some? then Defect(env, request, c)
                   else SoFar(env, request, constraints, i))
  {
    hide IsBroken, Defect;
    assert constraints[i..][1..] == constraints[i + 1..];
    assert constraints[..i + 1][..i] == constraints[..i];
  }

  lemma {:induction false} CountOfOneMore(trace: seq<Observed>, o: Observed, counts: Observed -> bool)
    ensures Count(trace + [o], counts) == Count(trace, counts) + (if counts(o) then 1 else 0)
  {
    assert (trace + [o])[..|trace|] == trace;
  }

  lemma {:induction false} NamesGrow(m: map<string, nat>, trace: seq<Observed>, o: Observed)
    requires CountsNames(m, trace)
    ensures CountsNames(if o.result.executed then Bumped(m, o.call.name) else m, trace + [o])
  {
    forall tool ensures NamedCount(trace + [o], tool) == NamedCount(trace, tool) + (if RanAs(o, tool) then 1 else 0) {
      CountOfOneMore(trace, o, o => RanAs(o, tool));
    }
  }

  lemma {:induction false} BackendsGrow(m: map<string, nat>, trace: seq<Observed>, o: Observed)
    requires CountsBackends(m, trace)
    ensures CountsBackends(if o.result.executed && o.result.backendName.Some?
                           then Bumped(m, o.result.backendName.value) else m, trace + [o])
  {
    forall tool
      ensures BackendCount(trace + [o], tool) == BackendCount(trace, tool) + (if RanOn(o, tool) then 1 else 0)
    {
      CountOfOneMore(trace, o, o => RanOn(o, tool));
    }
  }

  lemma {:induction false} ExecutedGrows(trace: seq<Observed>, o: Observed)
    ensures Executed(trace + [o]) == Executed(trace) + (if o.result.executed then 1 else 0)
  {
    CountOfOneMore(trace, o, (o: Observed) => o.result.executed);
  }

  lemma {:induction false} HashesOfOneMore(env: ReviewEnv, trace: seq<Observed>, o: Observed)
    ensures ShellHashes(env, trace + [o])
            == ShellHashes(env, trace) + (if ShellCommand(o).Some? then {env.digest(ShellCommand(o).value)} else {})
  {
    hide ShellCommand;
    var all := trace + [o];
    forall h | h in ShellHashes(env, trace) ensures h in ShellHashes(env, all) {
      var i :| 0 <= i < |trace| && ShellCommand(trace[i]).Some? && env.digest(ShellCommand(trace[i]).value) == h;
      assert all[i] == trace[i];
    }
    if ShellCommand(o).Some? {
      assert all[|trace|] == o;
      assert env.digest(ShellCommand(all[|trace|]).value) in ShellHashes(env, all);
    }
  }

  lemma {:induction false} ShellCommandIs(o: Observed)
    ensures !o.result.executed ==> ShellCommand(o) == None
    ensures !(o.call.name == "shell" || o.result.backendName == Some("shell")) ==> ShellCommand(o) == None
    ensures o.result.executed && (o.call.name == "shell" || o.result.backendName == Some("shell")) ==>
            ShellCommand(o) == match o.call.arguments.Get("command") case None => None case Some(v) => v.AsStr()
  {
  }

  // The ring drops its oldest record only when it is full.
  lemma {:induction false} RingTurns(env: ReviewEnv, trace: seq<Observed>, o: Observed)
    ensures var ring := Newest(env, trace);
            && |ring| == (if |trace| <= 24 then |trace| else 24)
            && Newest(env, trace + [o]) == (if |ring| == 24 then ring[1..] else ring) + [RecordOf(env, o)]
  {
    hide RecordOf;
    var all := trace + [o];
    if |all| > MAX_RECORDS {
      assert all[|all| - MAX_RECORDS..] == trace[|all| - MAX_RECORDS..] + [o];
    }
  }
}
