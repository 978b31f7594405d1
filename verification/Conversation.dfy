// Messages, stored events and the handoff note text of src/agent/compaction.rs.
module Conversation {
  import opened Wrappers
  import opened Text

  datatype ChatMessage = ChatMessage(role: string, content: string)

  datatype MessageEvent = MessageEvent(id: int, eventId: string, eventType: string, role: string, content: string)

  // `serde_json::Value`; numbers are the integers the notes use.
  datatype Json =
    | Null
    | Bool(b: bool)
    | Number(n: int)
    | Str(s: string)
    | Arr(items: seq<Json>)
    | Obj(fields: map<string, Json>)
  {
    function Get(key: string): Option<Json> {
      if Obj? && key in fields then Some(fields[key]) else None
    }

    function AsU64(): Option<nat> {
      if Number? && 0 <= n <= U64_MAX then Some(n) else None
    }

    function AsI64(): Option<int> {
      if Number? && -0x8000_0000_0000_0000 <= n < 0x8000_0000_0000_0000 then Some(n) else None
    }

    function AsStr(): Option<string> {
      if Str? then Some(s) else None
    }
  }

  const U64_MAX: nat := 0xFFFF_FFFF_FFFF_FFFF

  // The library code the module calls: the JSON codec, the two redactors, the
  // hash of a byte stream and upper-casing. The theorems say which laws they need of it.
  datatype Env = Env(
    parse: string -> Option<Json>,
    render: Json -> string,
    redact: string -> string,
    sanitize: string -> string,
    hash: string -> string,
    upper: string -> string)

  // Printing an object and parsing the text gives the object back, and the
  // text carries no surrounding whitespace.
  ghost predicate LawfulCodec(env: Env) {
    forall j: Json :: j.Obj? ==> env.parse(env.render(j)) == Some(j) && IsTrimmed(env.render(j))
  }

  const TOOL_RESULTS_PREFIX: string := "[Tool results]"
  const CONTEXT_HANDOFF_START: string := "[context_handoff]"
  const CONTEXT_HANDOFF_END: string := "[/context_handoff]"

  predicate IsContextHandoff(m: ChatMessage) {
    m.role == "assistant" && CONTEXT_HANDOFF_START <= m.content
  }

  // The assistant envelope of a native tool round-trip.
  predicate IsToolCallEnvelope(env: Env, content: string) {
    && "{" <= content
    && Contains(content, "\"tool_calls\"")
    && var value := env.parse(content);
       && value.Some?
       && var calls := value.value.Get("tool_calls");
          calls.Some? && calls.value.Arr? && calls.value.items != []
  }

  // A message that lives only inside a tool round-trip and has no event of its own.
  predicate IsCompanion(env: Env, m: ChatMessage) {
    if m.role == "tool" then true
    else if m.role == "user" then TOOL_RESULTS_PREFIX <= m.content
    else if m.role == "assistant" then IsToolCallEnvelope(env, m.content)
    else false
  }

  // The three shapes the loop appends inside a tool round-trip, and no other.
  lemma {:induction false} RoundTripShapes(env: Env, m: ChatMessage)
    ensures IsCompanion(env, m) <==>
            || m.role == "tool"
            || (m.role == "user" && "[Tool results]" <= m.content)
            || (m.role == "assistant" && "{" <= m.content && Contains(m.content, "\"tool_calls\"")
                && exists fields, calls :: env.parse(m.content) == Some(Obj(fields)) && calls != []
                                           && "tool_calls" in fields && fields["tool_calls"] == Arr(calls))
  {
    hide Contains;
    if m.role == "assistant" && IsToolCallEnvelope(env, m.content) {
      var value := env.parse(m.content).value;
      assert value == Obj(value.fields) && value.fields["tool_calls"] == Arr(value.fields["tool_calls"].items);
    }
  }

  lemma {:induction false} HandoffIsDurable(env: Env, m: ChatMessage)
    requires IsContextHandoff(m)
    ensures !IsCompanion(env, m)
  {
    assert m.content[0] == CONTEXT_HANDOFF_START[0];
  }

  // Index of the first non-system message.
  function NonSystemStart(history: seq<ChatMessage>): (start: nat)
    ensures start <= |history|
  {
    if history != [] && history[0].role == "system" then 1 else 0
  }

  function HandoffText(env: Env, note: Json): (text: string)
    ensures CONTEXT_HANDOFF_START <= text
  {
    CONTEXT_HANDOFF_START + "\n" + env.render(note) + "\n" + CONTEXT_HANDOFF_END
  }

  // The note inside a handoff message, as `context_handoff_lineage` reads it.
  function ParseHandoff(env: Env, content: string): Option<Json> {
    if !(CONTEXT_HANDOFF_START <= content) then None
    else
      var rest := content[|CONTEXT_HANDOFF_START|..];
      if !EndsWith(rest, CONTEXT_HANDOFF_END) then None
      else env.parse(Trim(rest[..|rest| - |CONTEXT_HANDOFF_END|]))
  }

  // What is read: the text between the tags, trimmed, and nothing without both.
  lemma {:induction false} ReadsHandoff(env: Env, content: string)
    ensures forall body :: content == "[context_handoff]" + body + "[/context_handoff]" ==>
              ParseHandoff(env, content) == env.parse(Trim(body))
    ensures (forall body :: content != "[context_handoff]" + body + "[/context_handoff]") ==>
              ParseHandoff(env, content) == None
  {
    hide Trim;
    forall body | content == "[context_handoff]" + body + "[/context_handoff]"
      ensures ParseHandoff(env, content) == env.parse(Trim(body))
    {
      var rest := content[|CONTEXT_HANDOFF_START|..];
      assert rest == body + CONTEXT_HANDOFF_END;
      assert rest[..|rest| - |CONTEXT_HANDOFF_END|] == body;
      assert content[..|CONTEXT_HANDOFF_START|] == CONTEXT_HANDOFF_START;
    }
    if ParseHandoff(env, content).Some? {
      var rest := content[|CONTEXT_HANDOFF_START|..];
      var body := rest[..|rest| - |CONTEXT_HANDOFF_END|];
      assert rest == body + CONTEXT_HANDOFF_END && content == CONTEXT_HANDOFF_START + rest;
      assert content == "[context_handoff]" + body + "[/context_handoff]";
    }
  }

  // The text of a note: the tags on lines of their own around the JSON.
  lemma {:induction false} HandoffTextIs(env: Env, note: Json)
    ensures HandoffText(env, note) == "[context_handoff]\n" + env.render(note) + "\n[/context_handoff]"
  {
    assert "[context_handoff]" + "\n" == "[context_handoff]\n" && "\n" + "[/context_handoff]" == "\n[/context_handoff]";
  }

  lemma {:induction false} HandoffRoundTrip(env: Env, note: Json)
    requires LawfulCodec(env) && note.Obj?
    ensures ParseHandoff(env, HandoffText(env, note)) == Some(note)
  {
    var text := HandoffText(env, note);
    var rest := text[|CONTEXT_HANDOFF_START|..];
    var body := "\n" + env.render(note) + "\n";
    assert rest == body + CONTEXT_HANDOFF_END;
    assert rest[..|rest| - |CONTEXT_HANDOFF_END|] == body;
    TrimPadded("\n", env.render(note), "\n");
  }
}
