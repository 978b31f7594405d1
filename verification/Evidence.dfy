// What a completion review is judged against: the whole trace of tool calls of
// a turn, the current request and the constraints quoted from it.
module Evidence {
  import opened Wrappers
  import opened Text
  import opened Conversation

  // ---------------------------------------------------------------- the trace

  datatype ParsedToolCall = ParsedToolCall(name: string, arguments: Json)

  datatype ObservedToolResult = ObservedToolResult(content: string, status: string, executed: bool,
                                                   backendName: Option<string>)

  // One call of the turn and what came of it.
  datatype Observed = Observed(call: ParsedToolCall, result: ObservedToolResult)

  // Code outside this module: SHA-256, the excerpts of the arguments and
  // Unicode lower-casing.
  datatype ReviewEnv = ReviewEnv(digest: string -> string, argumentExcerpts: Json -> Json, lower: string -> string)

  datatype Excerpt = Excerpt(text: string, truncated: bool)

  datatype Record = Record(tool: string, backendTool: Option<string>, arguments: Json, status: string,
                           executed: bool, result: Excerpt)

  function ExcerptOf(value: string, limit: nat): Excerpt {
    if |value| <= limit then Excerpt(value, false) else Excerpt(value[..limit], true)
  }

  function RecordOf(env: ReviewEnv, o: Observed): Record {
    Record(o.call.name, o.result.backendName, env.argumentExcerpts(o.call.arguments), o.result.status,
           o.result.executed, ExcerptOf(o.result.content, 4000))
  }

  // The command a shell call executed.
  function ShellCommand(o: Observed): Option<string> {
    if !o.result.executed || !(o.call.name == "shell" || o.result.backendName == Some("shell")) then None
    else
      match o.call.arguments.Get("command")
      case None => None
      case Some(value) => value.AsStr()
  }

  function Count(trace: seq<Observed>, counts: Observed -> bool): nat {
    if trace == [] then 0
    else Count(trace[..|trace| - 1], counts) + (if counts(trace[|trace| - 1]) then 1 else 0)
  }

  predicate RanAs(o: Observed, tool: string) {
    o.result.executed && o.call.name == tool
  }

  predicate RanOn(o: Observed, tool: string) {
    o.result.executed && o.result.backendName == Some(tool)
  }

  function NamedCount(trace: seq<Observed>, tool: string): nat {
    Count(trace, o => RanAs(o, tool))
  }

  function BackendCount(trace: seq<Observed>, tool: string): nat {
    Count(trace, o => RanOn(o, tool))
  }

  function ExecutedCount(trace: seq<Observed>, tool: string): nat {
    if NamedCount(trace, tool) > BackendCount(trace, tool) then NamedCount(trace, tool) else BackendCount(trace, tool)
  }

  function Executed(trace: seq<Observed>): nat {
    Count(trace, (o: Observed) => o.result.executed)
  }

  function ShellHashes(env: ReviewEnv, trace: seq<Observed>): set<string> {
    set i | 0 <= i < |trace| && ShellCommand(trace[i]).Some? :: env.digest(ShellCommand(trace[i]).value)
  }

  lemma {:induction false} CountGrows(trace: seq<Observed>, more: seq<Observed>, counts: Observed -> bool)
    ensures Count(trace + more, counts) >= Count(trace, counts)
  {
    if more == [] {
      assert trace + more == trace;
    } else {
      var front := more[..|more| - 1];
      assert (trace + more)[..|trace + more| - 1] == trace + front;
      CountGrows(trace, front, counts);
    }
  }

  lemma {:induction false} CountIsPositive(trace: seq<Observed>, counts: Observed -> bool)
    ensures Count(trace, counts) > 0 <==> exists i :: 0 <= i < |trace| && counts(trace[i])
  {
    if trace != [] {
      var front := trace[..|trace| - 1];
      CountIsPositive(front, counts);
      if i :| 0 <= i < |trace| && counts(trace[i]) {
        assert i < |front| ==> counts(front[i]);
      }
    }
  }

  // A tool ran, under its own name or as the backend of another, exactly when
  // its count is positive.
  lemma {:induction false} RanIffCounted(trace: seq<Observed>, tool: string)
    ensures ExecutedCount(trace, tool) > 0
            <==> exists i :: 0 <= i < |trace| && (RanAs(trace[i], tool) || RanOn(trace[i], tool))
  {
    hide RanAs, RanOn;
    CountIsPositive(trace, o => RanAs(o, tool));
    CountIsPositive(trace, o => RanOn(o, tool));
    assert NamedCount(trace, tool) > 0 <==> exists i :: 0 <= i < |trace| && RanAs(trace[i], tool);
    assert BackendCount(trace, tool) > 0 <==> exists i :: 0 <= i < |trace| && RanOn(trace[i], tool);
  }

  // ---------------------------------------------------------------- the request

  const POST_COMPACTION_REFRESH_MARKER: string := "[Post-compaction context refresh]"
  const OS_PAGING_RECALL_MARKER: string := "[" + "Recalled context from earlier in this session]"

  predicate IsLoopWrittenUserNote(content: string) {
    || TOOL_RESULTS_PREFIX <= content
    || POST_COMPACTION_REFRESH_MARKER <= content
    || OS_PAGING_RECALL_MARKER <= content
  }

  predicate IsRequest(m: ChatMessage) {
    m.role == "user" && !IsLoopWrittenUserNote(m.content)
  }

  function CurrentRequest(history: seq<ChatMessage>): string {
    if history == [] then ""
    else
      var last := history[|history| - 1];
      if IsRequest(last) then last.content else CurrentRequest(history[..|history| - 1])
  }

  // Inbound text that opens with a reserved marker gets a zero-width space.
  function NeutralizeReservedMarkers(text: string): string {
    if IsLoopWrittenUserNote(text) then ['\U{200b}'] + text else text
  }

  // The current request is the last inbound user message, however many notes
  // and replies the loop has added behind it.
  lemma {:induction false} RequestOutlastsNotes(history: seq<ChatMessage>, text: string, notes: seq<ChatMessage>)
    requires forall i :: 0 <= i < |notes| ==> !IsRequest(notes[i])
    ensures var inbound := NeutralizeReservedMarkers(text);
            CurrentRequest(history + [ChatMessage("user", inbound)] + notes) == inbound
  {
    var inbound := NeutralizeReservedMarkers(text);
    var all := history + [ChatMessage("user", inbound)] + notes;
    if notes == [] {
      assert all[|all| - 1] == ChatMessage("user", inbound);
      NeutralizedIsNoNote(text);
    } else {
      var fewer := notes[..|notes| - 1];
      assert all[|all| - 1] == notes[|notes| - 1];
      assert all[..|all| - 1] == history + [ChatMessage("user", inbound)] + fewer;
      RequestOutlastsNotes(history, text, fewer);
    }
  }

  lemma {:induction false} NeutralizedIsNoNote(text: string)
    ensures !IsLoopWrittenUserNote(NeutralizeReservedMarkers(text))
  {
    var inbound := NeutralizeReservedMarkers(text);
    NotesOpenWithBracket(inbound);
    assert IsLoopWrittenUserNote(text) ==> inbound[0] == '\U{200b}';
  }

  lemma {:induction false} NotesOpenWithBracket(s: string)
    ensures IsLoopWrittenUserNote(s) ==> s != "" && s[0] == '['
  {
    assert TOOL_RESULTS_PREFIX[0] == '[';
    assert POST_COMPACTION_REFRESH_MARKER[0] == '[';
    assert OS_PAGING_RECALL_MARKER[0] == '[';
  }

  // ---------------------------------------------------------------- the verdict

  datatype Constraint =
    | Semantic(quote: string)
    | ForbiddenTool(quote: string, tool: string)
    | MaxCalls(quote: string, toolLimited: Option<string>, limit: nat)
    | ExactCommand(quote: string, command: string)

  datatype Verdict = Accepted | Invalid(reason: string) | Violation(quote: string)

  const TOO_MANY: string := "completion review has too many constraints"
  const NOT_QUOTED: string := "completion review constraint is not quoted from the current request"
  const BAN_NOT_NAMED: string := "completion review tool ban does not quote the named tool"
  const COMMAND_NOT_QUOTED: string := "completion review exact command is not quoted from the request"

  // Why a constraint is no valid extraction of the request.
  function Defect(env: ReviewEnv, request: string, c: Constraint): Option<string> {
    if Trim(c.quote) == "" || !Contains(request, c.quote) then Some(NOT_QUOTED)
    else
      match c
      case ForbiddenTool(quote, tool) =>
        if Trim(tool) == "" || !Contains(env.lower(quote), env.lower(tool)) then Some(BAN_NOT_NAMED) else None
      case ExactCommand(quote, command) =>
        if command == "" || !Contains(quote, command) then Some(COMMAND_NOT_QUOTED) else None
      case _ => None
  }

  predicate ExpectsCommand(request: string, c: Constraint) {
    c.ExactCommand? && c.command != "" && Contains(request, c.quote) && Contains(c.quote, c.command)
  }

  // The digests of the commands the constraints allow.
  function ExpectedCommands(env: ReviewEnv, request: string, constraints: seq<Constraint>): set<string> {
    set i | 0 <= i < |constraints| && ExpectsCommand(request, constraints[i]) :: env.digest(constraints[i].command)
  }

  // What the trace says about a valid constraint.
  predicate Breaks(env: ReviewEnv, trace: seq<Observed>, expected: set<string>, c: Constraint) {
    match c
    case Semantic(_) => false
    case ForbiddenTool(_, tool) => ExecutedCount(trace, tool) > 0
    case MaxCalls(_, None, limit) => Executed(trace) > limit
    case MaxCalls(_, Some(tool), limit) => ExecutedCount(trace, tool) > limit
    case ExactCommand(_, _) => !(ShellHashes(env, trace) <= expected)
  }

  predicate IsBroken(env: ReviewEnv, trace: seq<Observed>, request: string, expected: set<string>, c: Constraint) {
    Defect(env, request, c).None? && Breaks(env, trace, expected, c)
  }

  // The first broken constraint, and the defect found last.
  function FirstBroken(env: ReviewEnv, trace: seq<Observed>, request: string, expected: set<string>,
                       constraints: seq<Constraint>): Option<Constraint>
  {
    if constraints == [] then None
    else if IsBroken(env, trace, request, expected, constraints[0]) then Some(constraints[0])
    else FirstBroken(env, trace, request, expected, constraints[1..])
  }

  function LastDefect(env: ReviewEnv, request: string, constraints: seq<Constraint>): Option<string> {
    if constraints == [] then None
    else
      var last := Defect(env, request, constraints[|constraints| - 1]);
      if last.Some? then last else LastDefect(env, request, constraints[..|constraints| - 1])
  }

  // The verdict on a review, read off the whole trace.
  function Judged(env: ReviewEnv, trace: seq<Observed>, request: string, constraints: seq<Constraint>): Verdict {
    match FirstBroken(env, trace, request, ExpectedCommands(env, request, constraints), constraints)
    case Some(c) => Violation(c.quote)
    case None =>
      match LastDefect(env, request, constraints)
      case Some(reason) => Invalid(reason)
      case None => if |constraints| > 32 then Invalid(TOO_MANY) else Accepted
  }

  lemma {:induction false} FirstBrokenExists(env: ReviewEnv, trace: seq<Observed>, request: string,
                                             expected: set<string>,
                                             constraints: seq<Constraint>)
    ensures FirstBroken(env, trace, request, expected, constraints).Some?
            <==> exists c :: c in constraints && IsBroken(env, trace, request, expected, c)
  {
    hide IsBroken;
    if constraints != [] {
      FirstBrokenExists(env, trace, request, expected, constraints[1..]);
      assert constraints == [constraints[0]] + constraints[1..];
    }
  }

  lemma {:induction false} LastDefectExists(env: ReviewEnv, request: string, constraints: seq<Constraint>)
    ensures LastDefect(env, request, constraints).Some?
            <==> exists c :: c in constraints && Defect(env, request, c).Some?
  {
    hide Defect;
    if constraints != [] {
      var n := |constraints| - 1;
      LastDefectExists(env, request, constraints[..n]);
      assert constraints == constraints[..n] + [constraints[n]];
    }
  }

  // A violation is a valid constraint that is broken; it beats every defect. An
  // invalid verdict is a defect, or too many constraints, and no violation.
  lemma {:induction false} VerdictMeans(env: ReviewEnv, trace: seq<Observed>, request: string,
                                        constraints: seq<Constraint>)
    ensures var verdict := Judged(env, trace, request, constraints);
            var expected := ExpectedCommands(env, request, constraints);
            var broken := exists c :: c in constraints && IsBroken(env, trace, request, expected, c);
            && (verdict.Violation? <==> broken)
            && (verdict.Invalid? <==> !broken && (|constraints| > 32
                                                  || exists c :: c in constraints && Defect(env, request, c).Some?))
  {
    hide IsBroken, Defect, FirstBroken, LastDefect, ExpectedCommands;
    FirstBrokenExists(env, trace, request, ExpectedCommands(env, request, constraints), constraints);
    LastDefectExists(env, request, constraints);
  }

  // The violation reported is the first in the review; of the defects the last.
  lemma {:induction false} VerdictReports(env: ReviewEnv, trace: seq<Observed>, request: string,
                                          constraints: seq<Constraint>)
    ensures var expected := ExpectedCommands(env, request, constraints);
            match Judged(env, trace, request, constraints)
            case Accepted => true
            case Violation(quote) =>
              exists i :: 0 <= i < |constraints| && constraints[i].quote == quote
                          && IsBroken(env, trace, request, expected, constraints[i])
                          && forall j :: 0 <= j < i ==> !IsBroken(env, trace, request, expected, constraints[j])
            case Invalid(reason) =>
              || (exists i :: 0 <= i < |constraints| && Defect(env, request, constraints[i]) == Some(reason)
                              && forall j :: i < j < |constraints| ==> Defect(env, request, constraints[j]).None?)
              || ((forall j :: 0 <= j < |constraints| ==> Defect(env, request, constraints[j]).None?)
                  && |constraints| > 32 && reason == "completion review has too many constraints")
  {
    hide IsBroken, Defect, ExpectedCommands, FirstBroken, LastDefect;
    FirstBrokenIsFirst(env, trace, request, ExpectedCommands(env, request, constraints), constraints);
    LastDefectIsLast(env, request, constraints);
  }

  lemma {:induction false} FirstBrokenIsFirst(env: ReviewEnv, trace: seq<Observed>, request: string,
                                              expected: set<string>, constraints: seq<Constraint>)
    ensures match FirstBroken(env, trace, request, expected, constraints)
            case None => true
            case Some(c) =>
              exists i :: 0 <= i < |constraints| && constraints[i] == c
                          && IsBroken(env, trace, request, expected, constraints[i])
                          && forall j :: 0 <= j < i ==> !IsBroken(env, trace, request, expected, constraints[j])
  {
    hide IsBroken;
    if constraints != [] && !IsBroken(env, trace, request, expected, constraints[0]) {
      FirstBrokenIsFirst(env, trace, request, expected, constraints[1..]);
      if FirstBroken(env, trace, request, expected, constraints).Some? {
        var i :| 0 <= i < |constraints| - 1
                 && constraints[1..][i] == FirstBroken(env, trace, request, expected, constraints).value
                 && IsBroken(env, trace, request, expected, constraints[1..][i])
                 && forall j :: 0 <= j < i ==> !IsBroken(env, trace, request, expected, constraints[1..][j]);
        forall j | 0 <= j < i + 1 ensures !IsBroken(env, trace, request, expected, constraints[j]) {
          assert j == 0 || constraints[j] == constraints[1..][j - 1];
        }
        assert constraints[i + 1] == constraints[1..][i];
      }
    }
  }

  lemma {:induction false} LastDefectIsLast(env: ReviewEnv, request: string, constraints: seq<Constraint>)
    ensures match LastDefect(env, request, constraints)
            case None => forall j :: 0 <= j < |constraints| ==> Defect(env, request, constraints[j]).None?
            case Some(reason) =>
              exists i :: 0 <= i < |constraints| && Defect(env, request, constraints[i]) == Some(reason)
                          && forall j :: i < j < |constraints| ==> Defect(env, request, constraints[j]).None?
  {
    hide Defect;
    if constraints != [] {
      var n := |constraints| - 1;
      LastDefectIsLast(env, request, constraints[..n]);
      assert constraints == constraints[..n] + [constraints[n]];
    }
  }

  lemma {:induction false} BrokenStaysBroken(env: ReviewEnv, trace: seq<Observed>, more: seq<Observed>, request: string,
                                             expected: set<string>, c: Constraint)
    requires IsBroken(env, trace, request, expected, c)
    ensures IsBroken(env, trace + more, request, expected, c)
  {
    hide Defect, ShellCommand;
    CountGrows(trace, more, (o: Observed) => o.result.executed);
    match c
    case ForbiddenTool(_, tool) => ToolCountGrows(trace, more, tool);
    case MaxCalls(_, Some(tool), _) => ToolCountGrows(trace, more, tool);
    case ExactCommand(_, _) => HashesGrow(env, trace, more);
    case _ =>
  }

  lemma {:induction false} HashesGrow(env: ReviewEnv, trace: seq<Observed>, more: seq<Observed>)
    ensures ShellHashes(env, trace) <= ShellHashes(env, trace + more)
  {
    hide ShellCommand;
    forall h | h in ShellHashes(env, trace) ensures h in ShellHashes(env, trace + more) {
      var i :| 0 <= i < |trace| && ShellCommand(trace[i]).Some? && env.digest(ShellCommand(trace[i]).value) == h;
      assert (trace + more)[i] == trace[i];
    }
  }

  lemma {:induction false} ToolCountGrows(trace: seq<Observed>, more: seq<Observed>, tool: string)
    ensures ExecutedCount(trace + more, tool) >= ExecutedCount(trace, tool)
  {
    CountGrows(trace, more, o => RanAs(o, tool));
    CountGrows(trace, more, o => RanOn(o, tool));
  }

  // A violation stands, whatever is recorded after it.
  lemma {:induction false} ViolationStands(env: ReviewEnv, trace: seq<Observed>, more: seq<Observed>, request: string,
                                           constraints: seq<Constraint>)
    requires Judged(env, trace, request, constraints).Violation?
    ensures Judged(env, trace + more, request, constraints).Violation?
  {
    hide IsBroken, Defect, ExpectedCommands, Judged;
    VerdictMeans(env, trace, request, constraints);
    VerdictMeans(env, trace + more, request, constraints);
    var expected := ExpectedCommands(env, request, constraints);
    var c :| c in constraints && IsBroken(env, trace, request, expected, c);
    BrokenStaysBroken(env, trace, more, request, expected, c);
  }

  // The kind of verdict does not depend on the order of the constraints.
  lemma {:induction false} OrderDoesNotMatter(env: ReviewEnv, trace: seq<Observed>, request: string,
                                              a: seq<Constraint>, b: seq<Constraint>)
    requires multiset(a) == multiset(b)
    ensures var va, vb := Judged(env, trace, request, a), Judged(env, trace, request, b);
            (va.Violation? <==> vb.Violation?) && (va.Invalid? <==> vb.Invalid?) && (va.Accepted? <==> vb.Accepted?)
  {
    hide IsBroken, Defect, Judged, ExpectedCommands;
    SameElements(a, b);
    ExpectedOfElements(env, request, a, b);
    VerdictMeans(env, trace, request, a);
    VerdictMeans(env, trace, request, b);
  }

  lemma {:induction false} SameElements(a: seq<Constraint>, b: seq<Constraint>)
    requires multiset(a) == multiset(b)
    ensures |a| == |b| && forall c :: c in a <==> c in b
  {
    assert |multiset(a)| == |multiset(b)|;
    assert forall c :: c in a <==> c in multiset(a);
    assert forall c :: c in b <==> c in multiset(b);
  }

  lemma {:induction false} ExpectedOfElements(env: ReviewEnv, request: string, a: seq<Constraint>, b: seq<Constraint>)
    requires forall c :: c in a <==> c in b
    ensures ExpectedCommands(env, request, a) == ExpectedCommands(env, request, b)
  {
    hide ExpectsCommand;
    ExpectedWithin(env, request, a, b);
    ExpectedWithin(env, request, b, a);
  }

  lemma {:induction false} ExpectedWithin(env: ReviewEnv, request: string, a: seq<Constraint>, b: seq<Constraint>)
    requires forall c :: c in a ==> c in b
    ensures ExpectedCommands(env, request, a) <= ExpectedCommands(env, request, b)
  {
    hide Contains;
    forall h | h in ExpectedCommands(env, request, a) ensures h in ExpectedCommands(env, request, b) {
      var i :| 0 <= i < |a| && ExpectsCommand(request, a[i]) && env.digest(a[i].command) == h;
      assert a[i] in b;
      var k :| 0 <= k < |b| && b[k] == a[i];
    }
  }

  // ---------------------------------------------------------------- exact commands

  ghost predicate IsCollisionFree(env: ReviewEnv) {
    forall a, b :: env.digest(a) == env.digest(b) ==> a == b
  }

  // With a collision-free digest a valid exact command is broken exactly when
  // a shell command ran that no expecting constraint names.
  lemma {:induction false} ExactCommandMeans(env: ReviewEnv, trace: seq<Observed>, request: string,
                                             constraints: seq<Constraint>, c: Constraint)
    requires IsCollisionFree(env) && c.ExactCommand?
    ensures Breaks(env, trace, ExpectedCommands(env, request, constraints), c)
            <==> exists i :: 0 <= i < |trace| && ShellCommand(trace[i]).Some?
                             && !IsExpected(request, constraints, ShellCommand(trace[i]).value)
  {
    hide ShellCommand, ExpectsCommand;
    var expected := ExpectedCommands(env, request, constraints);
    forall command ensures env.digest(command) in expected <==> IsExpected(request, constraints, command) {
      ExpectedIffNamed(env, request, constraints, command);
    }
    hide IsExpected, ExpectedCommands;
    if i :| 0 <= i < |trace| && ShellCommand(trace[i]).Some?
            && !IsExpected(request, constraints, ShellCommand(trace[i]).value) {
      assert env.digest(ShellCommand(trace[i]).value) in ShellHashes(env, trace);
    }
  }

  predicate IsExpected(request: string, constraints: seq<Constraint>, command: string) {
    exists i :: 0 <= i < |constraints| && ExpectsCommand(request, constraints[i]) && constraints[i].command == command
  }

  lemma {:induction false} ExpectedIffNamed(env: ReviewEnv, request: string,
                                            constraints: seq<Constraint>, command: string)
    requires IsCollisionFree(env)
    ensures env.digest(command) in ExpectedCommands(env, request, constraints)
            <==> IsExpected(request, constraints, command)
  {
    hide Contains;
  }

  lemma {:induction false} OnlyBlankQuotesSlipThrough(env: ReviewEnv, request: string, c: Constraint)
    requires c.ExactCommand?
    ensures ExpectsCommand(request, c) && Trim(c.quote) != "" <==> Defect(env, request, c).None?
  {
    hide Trim, Contains;
    match c
    case ExactCommand(quote, command) =>
  }

  // An invalid extraction that allows a command allows whitespace and nothing
  // else: its quote is blank, and the blank-quote test comes after the commands
  // have been collected.
  lemma {:induction false} InvalidExtractionAllowsOnlyBlanks(env: ReviewEnv, request: string, c: Constraint)
    requires ExpectsCommand(request, c) && Defect(env, request, c).Some?
    ensures AllWhitespace(c.command) && c.command != ""
  {
    OnlyBlankQuotesSlipThrough(env, request, c);
    hide Trim, Defect, TrimStart, TrimEnd, Find, OccursAt, IsWhitespace;
    BlankTrimsAway(c.quote);
    FindFinds(c.quote, c.command);
    BlankPart(c.quote, c.command, Find(c.quote, c.command).value);
  }

  lemma {:induction false} BlankPart(quote: string, command: string, i: nat)
    requires AllWhitespace(quote) && OccursAt(quote, command, i)
    ensures AllWhitespace(command)
  {
    assert forall k :: 0 <= k < |command| ==> command[k] == quote[i..i + |command|][k] == quote[i + k];
  }

  // The constraints that are valid extractions.
  function Valid(env: ReviewEnv, request: string, constraints: seq<Constraint>): (r: seq<Constraint>)
    ensures forall c :: c in r <==> c in constraints && Defect(env, request, c).None?
  {
    if constraints == [] then []
    else
      assert constraints == [constraints[0]] + constraints[1..];
      (if Defect(env, request, constraints[0]).None? then [constraints[0]] else [])
      + Valid(env, request, constraints[1..])
  }

  // Every command allowed by a blank quote is also named by one that is not blank.
  predicate BlanksAreCovered(request: string, constraints: seq<Constraint>) {
    forall i :: 0 <= i < |constraints| && ExpectsCommand(request, constraints[i]) && Trim(constraints[i].quote) == ""
      ==> IsNamedPlainly(request, constraints, constraints[i].command)
  }

  predicate IsNamedPlainly(request: string, constraints: seq<Constraint>, command: string) {
    exists k :: 0 <= k < |constraints| && ExpectsCommand(request, constraints[k])
                && Trim(constraints[k].quote) != "" && constraints[k].command == command
  }

  // What is named plainly is what the valid constraints expect.
  lemma {:induction false} NamedPlainlyIsExpected(env: ReviewEnv, request: string, constraints: seq<Constraint>,
                                                  command: string)
    ensures IsNamedPlainly(request, constraints, command)
            <==> IsExpected(request, Valid(env, request, constraints), command)
  {
    hide Contains, Trim, Defect, Valid;
    var valid := Valid(env, request, constraints);
    if IsNamedPlainly(request, constraints, command) {
      var k :| 0 <= k < |constraints| && ExpectsCommand(request, constraints[k])
               && Trim(constraints[k].quote) != "" && constraints[k].command == command;
      OnlyBlankQuotesSlipThrough(env, request, constraints[k]);
      assert constraints[k] in valid;
      var j :| 0 <= j < |valid| && valid[j] == constraints[k];
    }
    if IsExpected(request, valid, command) {
      var j :| 0 <= j < |valid| && ExpectsCommand(request, valid[j]) && valid[j].command == command;
      assert valid[j] in valid;
      OnlyBlankQuotesSlipThrough(env, request, valid[j]);
      var k :| 0 <= k < |constraints| && constraints[k] == valid[j];
    }
  }

  // The commands allowed are those of the valid constraints alone exactly when
  // they cover what blank quotes allow.
  lemma {:induction false} ExpectedOfValidAlone(env: ReviewEnv, request: string, constraints: seq<Constraint>)
    requires IsCollisionFree(env)
    ensures ExpectedCommands(env, request, constraints)
            == ExpectedCommands(env, request, Valid(env, request, constraints))
            <==> BlanksAreCovered(request, constraints)
  {
    hide ExpectsCommand, Defect, IsCollisionFree, ExpectedCommands, IsExpected, Valid, IsNamedPlainly, Trim;
    var valid := Valid(env, request, constraints);
    ExpectedWithin(env, request, valid, constraints);
    forall command
      ensures env.digest(command) in ExpectedCommands(env, request, valid)
              <==> IsNamedPlainly(request, constraints, command)
    {
      ExpectedIffNamed(env, request, valid, command);
      NamedPlainlyIsExpected(env, request, constraints, command);
    }
    forall i | 0 <= i < |constraints| && ExpectsCommand(request, constraints[i])
      ensures constraints[i].ExactCommand?
      ensures env.digest(constraints[i].command) in ExpectedCommands(env, request, constraints)
      ensures Trim(constraints[i].quote) != "" ==> IsNamedPlainly(request, constraints, constraints[i].command)
    {
      ExpectingAllows(env, request, constraints, i);
      if Trim(constraints[i].quote) != "" { NamesPlainly(request, constraints, i); }
    }
    if BlanksAreCovered(request, constraints) {
      forall h | h in ExpectedCommands(env, request, constraints) ensures h in ExpectedCommands(env, request, valid) {
        var i := AllowedBy(env, request, constraints, h);
      }
    }
  }

  lemma {:induction false} NamesPlainly(request: string, constraints: seq<Constraint>, i: nat)
    requires i < |constraints| && ExpectsCommand(request, constraints[i]) && Trim(constraints[i].quote) != ""
    ensures constraints[i].ExactCommand? && IsNamedPlainly(request, constraints, constraints[i].command)
  {
    hide Trim, Contains;
  }

  lemma {:induction false} ExpectingAllows(env: ReviewEnv, request: string, constraints: seq<Constraint>, i: nat)
    requires i < |constraints| && ExpectsCommand(request, constraints[i])
    ensures constraints[i].ExactCommand?
    ensures env.digest(constraints[i].command) in ExpectedCommands(env, request, constraints)
    ensures IsExpected(request, constraints, constraints[i].command)
  {
    hide Contains;
  }

  lemma {:induction false} AllowedBy(env: ReviewEnv, request: string, constraints: seq<Constraint>, h: string)
      returns (i: nat)
    requires h in ExpectedCommands(env, request, constraints)
    ensures i < |constraints| && ExpectsCommand(request, constraints[i]) && constraints[i].ExactCommand?
    ensures env.digest(constraints[i].command) == h
  {
    hide Contains;
    i :| 0 <= i < |constraints| && ExpectsCommand(request, constraints[i]) && env.digest(constraints[i].command) == h;
  }

  // What this can do to a verdict: a violation of the commands the valid
  // constraints allow goes unreported only where a whitespace command ran, and
  // then the review is rejected as invalid.
  lemma {:induction false} BlanksForgiveOnlyBlanks(env: ReviewEnv, trace: seq<Observed>, request: string,
                                                   constraints: seq<Constraint>, c: Constraint)
    requires IsCollisionFree(env) && c in constraints
    requires IsBroken(env, trace, request, ExpectedCommands(env, request, Valid(env, request, constraints)), c)
    requires !Judged(env, trace, request, constraints).Violation?
    ensures Judged(env, trace, request, constraints).Invalid?
    ensures exists i :: 0 <= i < |trace| && ShellCommand(trace[i]).Some? && AllWhitespace(ShellCommand(trace[i]).value)
  {
    hide Defect, ShellCommand, Judged, AllWhitespace, ExecutedCount, Executed, ExpectsCommand, Valid;
    VerdictMeans(env, trace, request, constraints);
    var expected := ExpectedCommands(env, request, constraints);
    var strict := ExpectedCommands(env, request, Valid(env, request, constraints));
    assert !IsBroken(env, trace, request, expected, c);
    var h :| h in ShellHashes(env, trace) && h !in strict && h in expected;
    var i := AllowedBy(env, request, constraints, h);
    var named := constraints[i];
    ForgivenIsInvalid(env, request, constraints, i);
    InvalidExtractionAllowsOnlyBlanks(env, request, named);
    assert named in constraints;
    var k :| 0 <= k < |trace| && ShellCommand(trace[k]).Some? && env.digest(ShellCommand(trace[k]).value) == h;
    assert ShellCommand(trace[k]).value == named.command;
    assert AllWhitespace(ShellCommand(trace[k]).value);
  }

  lemma {:induction false} ForgivenIsInvalid(env: ReviewEnv, request: string, constraints: seq<Constraint>, i: nat)
    requires i < |constraints| && ExpectsCommand(request, constraints[i])
    requires env.digest(constraints[i].command)
             !in ExpectedCommands(env, request, Valid(env, request, constraints))
    ensures Defect(env, request, constraints[i]).Some?
  {
    hide Defect, ExpectsCommand, ExpectedCommands, Valid;
    var valid := Valid(env, request, constraints);
    if constraints[i] in valid {
      var k :| 0 <= k < |valid| && valid[k] == constraints[i];
      ExpectingAllows(env, request, valid, k);
    }
    assert constraints[i] in constraints;
  }

  // So an invalid extraction can widen the set of allowed commands: a blank
  // quote turns the violation by a blank command into a mere defect.
  lemma {:induction false} BlankQuoteWidensCommands(env: ReviewEnv, trace: seq<Observed>)
    requires |trace| == 1 && ShellCommand(trace[0]) == Some(" ") && IsCollisionFree(env)
    ensures Judged(env, trace, "ls -a", [ExactCommand("ls", "ls")]) == Violation("ls")
    ensures Judged(env, trace, "ls -a", [ExactCommand("ls", "ls"), ExactCommand(" ", " ")]) == Invalid(NOT_QUOTED)
  {
    var request, named, blank := "ls -a", ExactCommand("ls", "ls"), ExactCommand(" ", " ");
    BlankQuoteFacts(env);
    hide Defect, ExpectsCommand, ShellCommand, IsCollisionFree;
    ExactCommandMeans(env, trace, request, [named], named);
    ExactCommandMeans(env, trace, request, [named, blank], named);
    assert [named, blank][1] == blank;
    assert !IsExpected(request, [named], " ") && IsExpected(request, [named, blank], " ");
    hide Breaks, ExpectedCommands, IsExpected;
    assert Judged(env, trace, request, [named]).Violation? by { VerdictMeans(env, trace, request, [named]); }
    VerdictMeans(env, trace, request, [named, blank]);
    assert [named, blank][..1] == [named] && [named, blank][1..] == [blank] && [blank][1..] == [];
  }

  lemma {:induction false} OccurrenceIsContained(s: string, pattern: string, i: nat)
    requires OccursAt(s, pattern, i)
    ensures Contains(s, pattern)
  {
    hide OccursAt, Find;
    FindFinds(s, pattern);
    assert i < |s| + 1 by { OccursWithin(s, pattern, i); }
  }

  lemma {:induction false} OccursWithin(s: string, pattern: string, i: nat)
    requires OccursAt(s, pattern, i)
    ensures i <= |s|
  {
  }

  lemma {:induction false} BlankQuoteFacts(env: ReviewEnv)
    ensures Defect(env, "ls -a", ExactCommand("ls", "ls")) == None
    ensures Defect(env, "ls -a", ExactCommand(" ", " ")) == Some(NOT_QUOTED)
    ensures ExpectsCommand("ls -a", ExactCommand("ls", "ls")) && ExpectsCommand("ls -a", ExactCommand(" ", " "))
  {
    OccurrenceIsContained("ls -a", "ls", 0);
    OccurrenceIsContained("ls", "ls", 0);
    OccurrenceIsContained("ls -a", " ", 2);
    OccurrenceIsContained(" ", " ", 0);
    hide Find, Contains, TrimStart, TrimEnd, Trim;
    TrimOfTrimmed("ls");
    assert " " + "" + "" == " ";
    TrimPadded(" ", "", "");
  }
}
