// Compaction patches: the hash guard and the splice of src/agent/compaction.rs.
module Patch {
  import opened Wrappers
  import opened Conversation

  datatype CompactionPatchGuard = CompactionPatchGuard(
    historyLen: nat,
    rangeStart: nat,
    rangeEnd: nat,
    replacedHash: string)

  datatype CompactionPatch = CompactionPatch(
    rangeStart: nat,
    rangeEnd: nat,
    replacement: seq<ChatMessage>,
    appendAfter: seq<ChatMessage>,
    guard: CompactionPatchGuard)

  const NUL: char := '\0'

  // The byte stream the hash is taken over: `role NUL content NUL` per message.
  function Frame(messages: seq<ChatMessage>): string {
    if messages == [] then ""
    else messages[0].role + [NUL] + messages[0].content + [NUL] + Frame(messages[1..])
  }

  lemma {:induction false} FrameConcat(a: seq<ChatMessage>, b: seq<ChatMessage>)
    ensures Frame(a + b) == Frame(a) + Frame(b)
  {
    if a == [] {
      assert a + b == b;
    } else {
      assert (a + b)[1..] == a[1..] + b;
      FrameConcat(a[1..], b);
    }
  }

  method HashCompactionMessages(env: Env, messages: seq<ChatMessage>) returns (digest: string)
    ensures digest == env.hash(Frame(messages))
  {
    var stream := "";
    for i := 0 to |messages|
      invariant stream == Frame(messages[..i])
    {
      FrameConcat(messages[..i], [messages[i]]);
      assert messages[..i + 1] == messages[..i] + [messages[i]];
      stream := stream + messages[i].role + [NUL] + messages[i].content + [NUL];
    }
    assert messages[..|messages|] == messages;
    digest := env.hash(stream);
  }

  function GuardFor(env: Env, history: seq<ChatMessage>, start: nat, end: nat): Option<CompactionPatchGuard> {
    if start <= end <= |history| then
      Some(CompactionPatchGuard(|history|, start, end, env.hash(Frame(history[start..end]))))
    else None
  }

  predicate GuardMatches(env: Env, history: seq<ChatMessage>, guard: CompactionPatchGuard) {
    GuardFor(env, history, guard.rangeStart, guard.rangeEnd) == Some(guard)
  }

  // ---------------------------------------------------------------- unique decoding

  predicate NulFree(s: string) {
    NUL !in s
  }

  predicate AllNulFree(messages: seq<ChatMessage>) {
    forall m :: m in messages ==> NulFree(m.role) && NulFree(m.content)
  }

  function NulCount(s: string): nat {
    if s == "" then 0 else (if s[0] == NUL then 1 else 0) + NulCount(s[1..])
  }

  lemma {:induction false} NulCountConcat(a: string, b: string)
    ensures NulCount(a + b) == NulCount(a) + NulCount(b)
  {
    if a == "" {
      assert a + b == b;
    } else {
      assert (a + b)[1..] == a[1..] + b;
      NulCountConcat(a[1..], b);
    }
  }

  lemma {:induction false} NulCountZero(s: string)
    ensures NulCount(s) == 0 <==> NulFree(s)
  {
    if s != "" {
      NulCountZero(s[1..]);
      assert s == [s[0]] + s[1..];
    }
  }

  // A frame holds two separators per message, and more only where a text does.
  lemma {:induction false} NulsInFrame(messages: seq<ChatMessage>)
    ensures NulCount(Frame(messages)) >= 2 * |messages|
    ensures NulCount(Frame(messages)) == 2 * |messages| <==> AllNulFree(messages)
  {
    if messages != [] {
      var m, rest := messages[0], Frame(messages[1..]);
      NulsInFrame(messages[1..]);
      NulCountConcat(m.role, [NUL]);
      NulCountConcat(m.role + [NUL], m.content);
      NulCountConcat(m.role + [NUL] + m.content, [NUL]);
      NulCountConcat(m.role + [NUL] + m.content + [NUL], rest);
      NulCountZero(m.role);
      NulCountZero(m.content);
      assert messages == [m] + messages[1..];
    }
  }

  lemma {:induction false} FirstFieldIsDetermined(a: string, x: string, b: string, y: string)
    requires NulFree(a) && NulFree(b) && a + [NUL] + x == b + [NUL] + y
    ensures a == b && x == y
  {
    var s := a + [NUL] + x;
    assert s[|a|] == NUL && s[|b|] == NUL;
    assert forall i :: 0 <= i < |a| ==> s[i] == a[i];
    assert forall i :: 0 <= i < |b| ==> s[i] == b[i];
    assert |a| == |b|;
    assert a == s[..|a|] && b == s[..|b|];
    assert x == s[|a| + 1..] && y == s[|b| + 1..];
  }

  lemma {:induction false} NulFreeFramesDecode(a: seq<ChatMessage>, b: seq<ChatMessage>)
    requires |a| == |b| && AllNulFree(a) && AllNulFree(b) && Frame(a) == Frame(b)
    ensures a == b
  {
    if a != [] {
      var restA := a[0].content + [NUL] + Frame(a[1..]);
      var restB := b[0].content + [NUL] + Frame(b[1..]);
      assert Frame(a) == a[0].role + [NUL] + restA;
      assert Frame(b) == b[0].role + [NUL] + restB;
      FirstFieldIsDetermined(a[0].role, restA, b[0].role, restB);
      FirstFieldIsDetermined(a[0].content, Frame(a[1..]), b[0].content, Frame(b[1..]));
      NulFreeFramesDecode(a[1..], b[1..]);
      assert a == [a[0]] + a[1..] && b == [b[0]] + b[1..];
    }
  }

  // ---------------------------------------------------------------- ranges with the program's roles

  predicate IsRole(role: string) {
    role == "system" || role == "user" || role == "assistant" || role == "tool"
  }

  predicate HasRoles(messages: seq<ChatMessage>) {
    forall m :: m in messages ==> IsRole(m.role)
  }

  lemma {:induction false} RolesAreNulFree(role: string)
    requires IsRole(role)
    ensures NulFree(role)
  {
  }

  // A field of the content, between separators, that reads as a role: one behind
  // which the next message could start, and one at which the message itself could.
  ghost predicate SplitsAt(content: string, x: string, role: string, rest: string) {
    IsRole(role) && (content == x + [NUL] + role + rest) && (rest == "" || rest[0] == NUL)
  }

  ghost predicate NextCouldStartIn(content: string) {
    exists x, role, rest :: SplitsAt(content, x, role, rest)
  }

  ghost predicate StartsAt(content: string, front: string, role: string, rest: string) {
    IsRole(role) && content == front + role + [NUL] + rest && (front == "" || front[|front| - 1] == NUL)
  }

  ghost predicate CouldStartIn(content: string) {
    exists front, role, rest :: StartsAt(content, front, role, rest)
  }

  // The boundary behind message `i` can be read elsewhere.
  ghost predicate IsLoose(messages: seq<ChatMessage>, i: nat) {
    i + 1 < |messages| && (NextCouldStartIn(messages[i].content) || CouldStartIn(messages[i + 1].content))
  }

  ghost predicate IsPinnable(messages: seq<ChatMessage>) {
    forall i: nat :: !IsLoose(messages, i)
  }

  lemma {:induction false} FrameOfTwo(a: ChatMessage, b: ChatMessage)
    ensures Frame([a, b]) == a.role + [NUL] + a.content + [NUL] + b.role + [NUL] + b.content + [NUL]
  {
    assert [a, b][1..] == [b] && [b][1..] == [];
    assert Frame([b]) == b.role + [NUL] + b.content + [NUL] + Frame([]);
  }

  lemma {:induction false} NextStartsEarlier(a: ChatMessage, b: ChatMessage) returns (c: ChatMessage, d: ChatMessage)
    requires NextCouldStartIn(a.content)
    ensures c.role == a.role && IsRole(d.role) && |c.content| < |a.content| && Frame([c, d]) == Frame([a, b])
  {
    hide IsRole, Frame;
    var x, role, rest :| SplitsAt(a.content, x, role, rest);
    var tail := b.role + [NUL] + b.content;
    var later := if rest == "" then tail else rest[1..] + [NUL] + tail;
    c, d := ChatMessage(a.role, x), ChatMessage(role, later);
    assert [NUL] + later == rest + [NUL] + tail by { assert rest != "" ==> rest == [NUL] + rest[1..]; }
    FrameOfTwo(a, b);
    FrameOfTwo(c, d);
    EarlierFields(a.role + [NUL] + x + [NUL] + role, rest, tail, later);
    assert Frame([a, b]) == (a.role + [NUL] + x + [NUL] + role) + rest + [NUL] + tail + [NUL];
    assert Frame([c, d]) == (a.role + [NUL] + x + [NUL] + role) + [NUL] + later + [NUL];
  }

  lemma {:induction false} EarlierFields(start: string, rest: string, tail: string, later: string)
    requires [NUL] + later == rest + [NUL] + tail
    ensures start + rest + [NUL] + tail + [NUL] == start + [NUL] + later + [NUL]
  {
    assert start + rest + [NUL] + tail + [NUL] == start + (rest + [NUL] + tail) + [NUL];
    assert start + [NUL] + later + [NUL] == start + ([NUL] + later) + [NUL];
  }

  lemma {:induction false} StartsLater(a: ChatMessage, b: ChatMessage) returns (c: ChatMessage, d: ChatMessage)
    requires CouldStartIn(b.content)
    ensures c.role == a.role && IsRole(d.role) && |c.content| > |a.content| && Frame([c, d]) == Frame([a, b])
  {
    hide IsRole, Frame;
    var front, role, rest :| StartsAt(b.content, front, role, rest);
    var head := a.content + [NUL] + b.role;
    var earlier := if front == "" then head else head + [NUL] + front[..|front| - 1];
    c, d := ChatMessage(a.role, earlier), ChatMessage(role, rest);
    assert earlier + [NUL] == head + [NUL] + front by {
      assert front != "" ==> front == front[..|front| - 1] + [NUL];
    }
    FrameOfTwo(a, b);
    FrameOfTwo(c, d);
    var tail := role + [NUL] + rest + [NUL];
    assert b.content + [NUL] == front + tail;
    assert Frame([a, b]) == a.role + [NUL] + head + [NUL] + (front + tail);
    assert Frame([c, d]) == a.role + [NUL] + earlier + [NUL] + tail;
    SameFields(a.role + [NUL], head, front, earlier, tail);
  }

  lemma {:induction false} SameFields(start: string, head: string, front: string, earlier: string, tail: string)
    requires earlier + [NUL] == head + [NUL] + front
    ensures start + earlier + [NUL] + tail == start + head + [NUL] + (front + tail)
  {
    assert start + earlier + [NUL] + tail == start + (earlier + [NUL]) + tail;
    assert start + head + [NUL] + (front + tail) == start + (head + [NUL] + front) + tail;
  }

  // A boundary that can be read elsewhere makes two readings of the same frame.
  lemma {:induction false} NeighboursCollide(a: ChatMessage, b: ChatMessage) returns (c: ChatMessage, d: ChatMessage)
    requires IsRole(a.role) && IsRole(b.role) && (NextCouldStartIn(a.content) || CouldStartIn(b.content))
    ensures IsRole(c.role) && IsRole(d.role) && c != a && Frame([c, d]) == Frame([a, b])
  {
    hide IsRole, Frame, NextCouldStartIn, CouldStartIn;
    if NextCouldStartIn(a.content) {
      c, d := NextStartsEarlier(a, b);
    } else {
      c, d := StartsLater(a, b);
    }
  }

  lemma {:induction false} FrameAround(prefix: seq<ChatMessage>, middle: seq<ChatMessage>, suffix: seq<ChatMessage>)
    ensures Frame(prefix + middle + suffix) == Frame(prefix) + Frame(middle) + Frame(suffix)
  {
    FrameConcat(prefix + middle, suffix);
    FrameConcat(prefix, middle);
  }

  lemma {:induction false} RangeCollides(messages: seq<ChatMessage>) returns (other: seq<ChatMessage>)
    requires HasRoles(messages) && !IsPinnable(messages)
    ensures |other| == |messages| && HasRoles(other) && Frame(other) == Frame(messages) && other != messages
  {
    hide Frame, IsRole, NextCouldStartIn, CouldStartIn;
    var i: nat :| IsLoose(messages, i);
    var c, d := NeighboursCollide(messages[i], messages[i + 1]);
    var prefix, pair, suffix := messages[..i], [messages[i], messages[i + 1]], messages[i + 2..];
    other := prefix + [c, d] + suffix;
    assert messages == prefix + pair + suffix;
    FrameAround(prefix, pair, suffix);
    FrameAround(prefix, [c, d], suffix);
    assert other[i] == c;
  }

  lemma {:induction false} NulFreeFramePins(messages: seq<ChatMessage>, other: seq<ChatMessage>)
    requires AllNulFree(messages) && |other| == |messages| && Frame(other) == Frame(messages)
    ensures other == messages
  {
    hide Frame, AllNulFree;
    NulsInFrame(messages);
    NulsInFrame(other);
    NulFreeFramesDecode(other, messages);
  }

  lemma {:induction false} UnfoldFrame(messages: seq<ChatMessage>)
    requires messages != []
    ensures Frame(messages) == messages[0].role + [NUL] + messages[0].content + [NUL] + Frame(messages[1..])
  {
  }

  // A frame ends with a separator.
  lemma {:induction false} FrameEndsWithNul(messages: seq<ChatMessage>)
    requires messages != []
    ensures Frame(messages) != "" && Frame(messages)[|Frame(messages)| - 1] == NUL
  {
    UnfoldFrame(messages);
    hide Frame;
    if |messages| > 1 { FrameEndsWithNul(messages[1..]); } else { NoFrame(messages[1..]); }
  }

  lemma {:induction false} NoFrame(messages: seq<ChatMessage>)
    ensures Frame(messages) == "" <==> messages == []
  {
  }

  // Another reading of a frame whose first message starts further behind lets a
  // message of the range start inside its own content.
  lemma {:induction false} ReadBehind(a: seq<ChatMessage>, w: string, b: seq<ChatMessage>) returns (k: nat)
    requires |a| == |b| > 0 && HasRoles(a) && HasRoles(b)
    requires Frame(a) == w + [NUL] + Frame(b)
    ensures k < |a| && CouldStartIn(a[k].content)
  {
    hide Frame, IsRole, CouldStartIn;
    UnfoldFrame(a);
    UnfoldFrame(b);
    var fa, fb := Frame(a[1..]), Frame(b[1..]);
    if |fb| < |fa| {
      var v := Between(Frame(a), fa, fb, w + [NUL] + b[0].role + [NUL] + b[0].content);
      NoFrame(a[1..]);
      var j := ReadBehind(a[1..], v, b[1..]);
      k := j + 1;
    } else {
      k := 0;
      RolesAreNulFree(a[0].role);
      BehindStartsInside(a[0], fa, w, b[0], fb, a[1..]);
    }
  }

  // Two suffixes of a text, the shorter one behind a separator.
  lemma {:induction false} Between(s: string, longer: string, shorter: string, u: string) returns (v: string)
    requires |shorter| < |longer| <= |s| && s[|s| - |longer|..] == longer
    requires s == u + [NUL] + shorter
    ensures longer == v + [NUL] + shorter
  {
    var n := |longer| - |shorter|;
    v := longer[..n - 1];
    assert longer[n..] == s[|s| - |shorter|..] == shorter;
    assert longer[n - 1] == s[|u|] == NUL;
    assert longer == longer[..n - 1] + [longer[n - 1]] + longer[n..];
  }

  lemma {:induction false} BehindStartsInside(a: ChatMessage, fa: string, w: string, b: ChatMessage, fb: string,
                                              rest: seq<ChatMessage>)
    requires NulFree(a.role) && IsRole(b.role) && fa == Frame(rest) && |fb| >= |fa|
    requires a.role + [NUL] + a.content + [NUL] + fa
             == w + [NUL] + (b.role + [NUL] + b.content + [NUL] + fb)
    ensures CouldStartIn(a.content)
  {
    hide Frame, IsRole;
    var e := CutFromEnd(a.role + [NUL] + a.content, fa, w + [NUL] + (b.role + [NUL] + b.content), fb);
    var t := b.role + [NUL] + (b.content + e);
    assert a.role + [NUL] + a.content == w + [NUL] + t;
    FieldThen(a.role, a.content, w, t);
    if a.content == t {
      assert a.content == "" + b.role + [NUL] + (b.content + e);
      assert StartsAt(a.content, "", b.role, b.content + e);
    } else {
      var y :| a.content == y + [NUL] + t;
      var front := y + [NUL];
      assert a.content == front + b.role + [NUL] + (b.content + e);
      assert StartsAt(a.content, front, b.role, b.content + e);
    }
  }

  // Both texts end alike; what the second has in front of the longer end.
  lemma {:induction false} CutFromEnd(x: string, fa: string, y: string, fb: string) returns (e: string)
    requires |fb| >= |fa| && x + [NUL] + fa == y + [NUL] + fb
    ensures x == y + e
  {
    var s := x + [NUL] + fa;
    e := x[|y|..];
    assert x == s[..|x|] && y == s[..|y|];
  }

  // A field, then what follows it, read as some text, a separator and `t`.
  lemma {:induction false} FieldThen(field: string, content: string, w: string, t: string)
    requires NulFree(field) && field + [NUL] + content == w + [NUL] + t
    ensures content == t || exists y :: content == y + [NUL] + t
  {
    var s := field + [NUL] + content;
    assert s[|w|] == NUL;
    assert forall i :: 0 <= i < |field| ==> s[i] == field[i] != NUL;
    assert |w| >= |field|;
    if |w| == |field| {
      assert content == s[|field| + 1..] == t;
    } else {
      var y := w[|field| + 1..];
      assert w == s[..|w|];
      assert s[|field| + 1..] == y + [NUL] + t;
      assert content == s[|field| + 1..];
    }
  }

  lemma {:induction false} PinnableTail(messages: seq<ChatMessage>)
    requires IsPinnable(messages) && messages != []
    ensures IsPinnable(messages[1..])
  {
    hide NextCouldStartIn, CouldStartIn;
    forall i: nat ensures !IsLoose(messages[1..], i) {
      assert !IsLoose(messages, i + 1);
    }
  }

  // Another reading with a first content of another length needs a loose boundary.
  lemma {:induction false} ReadElsewhereIsLoose(messages: seq<ChatMessage>, other: seq<ChatMessage>)
    requires |other| == |messages| > 0 && HasRoles(messages) && HasRoles(other)
    requires messages[0].content + [NUL] + Frame(messages[1..]) == other[0].content + [NUL] + Frame(other[1..])
    requires |messages[0].content| != |other[0].content|
    ensures !IsPinnable(messages)
  {
    hide Frame, IsRole, NextCouldStartIn, CouldStartIn;
    var a, b := messages[0], other[0];
    var fa, fb := Frame(messages[1..]), Frame(other[1..]);
    NoFrame(messages[1..]);
    NoFrame(other[1..]);
    if |a.content| < |b.content| {
      var t := Longer(a.content, fa, b.content, fb);
      var k := ReadBehind(messages[1..], t, other[1..]);
      assert messages[1..][k] == messages[k + 1];
      assert IsLoose(messages, k);
    } else {
      var t := Longer(b.content, fb, a.content, fa);
      NextStartsInside(a.content, b.content, t, fa, other[1..]);
      assert IsLoose(messages, 0);
    }
  }

  lemma {:induction false} PinnableIsPinned(messages: seq<ChatMessage>, other: seq<ChatMessage>)
    requires IsPinnable(messages) && HasRoles(messages) && HasRoles(other)
    requires |other| == |messages| && Frame(other) == Frame(messages)
    ensures other == messages
  {
    hide Frame, IsRole, NextCouldStartIn, CouldStartIn;
    if messages != [] {
      var a, b := messages[0], other[0];
      var fa, fb := Frame(messages[1..]), Frame(other[1..]);
      UnfoldFrame(messages);
      UnfoldFrame(other);
      RolesAreNulFree(a.role);
      RolesAreNulFree(b.role);
      FirstFieldIsDetermined(a.role, a.content + [NUL] + fa, b.role, b.content + [NUL] + fb) by {
        assert Frame(messages) == a.role + [NUL] + (a.content + [NUL] + fa);
        assert Frame(other) == b.role + [NUL] + (b.content + [NUL] + fb);
      }
      PinnableTail(messages);
      NoFrame(messages[1..]);
      NoFrame(other[1..]);
      if |a.content| != |b.content| {
        ReadElsewhereIsLoose(messages, other);
        assert false;
      } else {
        assert a.content == (a.content + [NUL] + fa)[..|a.content|];
        assert b.content == (b.content + [NUL] + fb)[..|b.content|];
        assert fa == (a.content + [NUL] + fa)[|a.content| + 1..];
        assert fb == (b.content + [NUL] + fb)[|b.content| + 1..];
        PinnableIsPinned(messages[1..], other[1..]);
        assert messages == [a] + messages[1..] && other == [b] + other[1..];
      }
    }
  }

  // The longer of two first fields reaches into what follows the shorter.
  lemma {:induction false} Longer(x: string, fx: string, y: string, fy: string) returns (t: string)
    requires |x| < |y| && x + [NUL] + fx == y + [NUL] + fy
    ensures y == x + [NUL] + t && fx == t + [NUL] + fy
  {
    var s := x + [NUL] + fx;
    t := y[|x| + 1..];
    assert y == s[..|y|] && x == s[..|x|] && s[|x|] == NUL;
    assert fx == s[|x| + 1..];
    assert s[|x| + 1..] == s[|x| + 1..|y|] + s[|y|..];
  }

  lemma {:induction false} NextStartsInside(content: string, shorter: string, t: string, rest: string,
                                            other: seq<ChatMessage>)
    requires content == shorter + [NUL] + t && HasRoles(other) && other != []
    requires Frame(other) == t + [NUL] + rest
    ensures NextCouldStartIn(content)
  {
    hide Frame, IsRole;
    UnfoldFrame(other);
    var role := other[0].role;
    RolesAreNulFree(role);
    var after := other[0].content + [NUL] + Frame(other[1..]);
    assert t + [NUL] + rest == role + [NUL] + after;
    FieldOrMore(t, rest, role, after);
    assert SplitsAt(content, shorter, role, t[|role|..]);
  }

  // Of two readings of a text the field free of separators comes first.
  lemma {:induction false} FieldOrMore(t: string, rest: string, field: string, after: string)
    requires NulFree(field) && t + [NUL] + rest == field + [NUL] + after
    ensures field <= t && (t[|field|..] == "" || t[|field|..][0] == NUL)
  {
    var s := t + [NUL] + rest;
    assert s[|t|] == NUL && s[|field|] == NUL;
    assert forall i :: 0 <= i < |field| ==> s[i] == field[i] != NUL;
    assert |t| >= |field|;
    assert t[..|field|] == s[..|field|] == field;
  }

  // The frame of a range pins it down, among ranges of the same length and with
  // the program's roles, exactly when no boundary between two of its messages can
  // be read elsewhere.
  lemma {:induction false} FramePinsRange(messages: seq<ChatMessage>)
    requires HasRoles(messages)
    ensures IsPinnable(messages) <==>
            forall other :: |other| == |messages| && HasRoles(other) && Frame(other) == Frame(messages)
                            ==> other == messages
  {
    hide Frame, IsRole, IsPinnable;
    if IsPinnable(messages) {
      forall other | |other| == |messages| && HasRoles(other) && Frame(other) == Frame(messages)
        ensures other == messages
      {
        PinnableIsPinned(messages, other);
      }
    } else {
      var other := RangeCollides(messages);
    }
  }

  // One message is always pinned, and so are contents without separators.
  lemma {:induction false} NulFreeIsPinnable(messages: seq<ChatMessage>)
    ensures |messages| <= 1 || AllNulFree(messages) ==> IsPinnable(messages)
  {
    hide IsRole;
    if AllNulFree(messages) {
      forall i: nat ensures !IsLoose(messages, i) {
        if i + 1 < |messages| {
          assert messages[i] in messages && messages[i + 1] in messages;
          NulFreeHoldsNoBoundary(messages[i].content);
          NulFreeHoldsNoBoundary(messages[i + 1].content);
        }
      }
    }
  }

  lemma {:induction false} HoldsNul(a: string, b: string)
    ensures !NulFree(a + [NUL] + b)
  {
    assert (a + [NUL] + b)[|a|] == NUL;
  }

  lemma {:induction false} NulFreeHoldsNoBoundary(content: string)
    requires NulFree(content)
    ensures !NextCouldStartIn(content) && !CouldStartIn(content)
  {
    forall x, role, rest ensures !SplitsAt(content, x, role, rest) {
      HoldsNul(x, role + rest);
      assert x + [NUL] + role + rest == x + [NUL] + (role + rest);
    }
    forall front, role, rest ensures !StartsAt(content, front, role, rest) {
      HoldsNul(front + role, rest);
      assert front + role + [NUL] + rest == (front + role) + [NUL] + rest;
    }
  }

  ghost predicate CollisionFree(env: Env) {
    forall a, b :: env.hash(a) == env.hash(b) ==> a == b
  }

  // With a collision-free hash, the guard of a separator-free range matches
  // exactly the histories of the same length that hold the same range.
  lemma {:induction false} GuardPinsRange(env: Env, source: seq<ChatMessage>, start: nat, end: nat,
                                          current: seq<ChatMessage>)
    requires CollisionFree(env) && start <= end <= |source| && AllNulFree(source[start..end])
    ensures GuardMatches(env, current, GuardFor(env, source, start, end).value) <==>
            (|current| == |source| && current[start..end] == source[start..end])
  {
    hide Frame, AllNulFree;
    if |current| == |source| && Frame(current[start..end]) == Frame(source[start..end]) {
      NulFreeFramePins(source[start..end], current[start..end]);
    }
  }

  predicate HoldsSameRange(current: seq<ChatMessage>, source: seq<ChatMessage>, start: nat, end: nat)
    requires start <= end <= |source|
  {
    |current| == |source| && current[start..end] == source[start..end]
  }

  // For histories with the program's roles the guard lets no other range pass
  // exactly when no boundary of the range can be read elsewhere.
  lemma {:induction false} GuardIsExactForPinnableRanges(env: Env, source: seq<ChatMessage>, start: nat, end: nat)
    requires CollisionFree(env) && start <= end <= |source| && HasRoles(source)
    ensures IsPinnable(source[start..end]) <==>
            forall current :: HasRoles(current)
                              && GuardMatches(env, current, GuardFor(env, source, start, end).value)
                              ==> HoldsSameRange(current, source, start, end)
  {
    hide Frame, IsRole, IsPinnable;
    var range := source[start..end];
    assert HasRoles(range);
    if IsPinnable(range) {
      forall current | HasRoles(current) && GuardMatches(env, current, GuardFor(env, source, start, end).value)
        ensures HoldsSameRange(current, source, start, end)
      {
        PinnableIsPinned(range, current[start..end]);
      }
    } else {
      var other := RangeCollides(range);
      var current := source[..start] + other + source[end..];
      assert current[start..end] == other;
      assert HasRoles(current);
      assert GuardMatches(env, current, GuardFor(env, source, start, end).value);
      assert !HoldsSameRange(current, source, start, end);
    }
  }

  // A separator inside a text lets another range of the same roles pass the guard.
  lemma {:induction false} GuardCanBePassedByAnotherRange(env: Env)
    ensures var source := [ChatMessage("user", "x\0user\0y"), ChatMessage("user", "z")];
            var current := [ChatMessage("user", "x"), ChatMessage("user", "y\0user\0z")];
            source != current && GuardMatches(env, current, GuardFor(env, source, 0, 2).value)
  {
    var source := [ChatMessage("user", "x\0user\0y"), ChatMessage("user", "z")];
    var current := [ChatMessage("user", "x"), ChatMessage("user", "y\0user\0z")];
    FrameConcat(source[..1], source[1..]);
    FrameConcat(current[..1], current[1..]);
    assert Frame(source[..1]) == "user\0x\0user\0y\0" && Frame(source[1..]) == "user\0z\0";
    assert Frame(current[..1]) == "user\0x\0" && Frame(current[1..]) == "user\0y\0user\0z\0";
    assert Frame(source[..1]) + Frame(source[1..]) == Frame(current[..1]) + Frame(current[1..]);
    assert source[..1] + source[1..] == source[0..2] && current[..1] + current[1..] == current[0..2];
    assert source[0].content[1] == NUL && |current[0].content| == 1;
  }

  // ---------------------------------------------------------------- applying a patch

  // The spliced history: prefix, replacement, appended messages, suffix.
  function Applied(history: seq<ChatMessage>, patch: CompactionPatch): seq<ChatMessage>
    requires patch.rangeStart <= patch.rangeEnd <= |history|
  {
    history[..patch.rangeStart] + patch.replacement + patch.appendAfter + history[patch.rangeEnd..]
  }

  // Applying a guarded patch to a history that passes its guard changes the very
  // range the patch was built from and nothing else.
  lemma {:induction false} GuardedPatchReplacesItsRange(env: Env,
                                                        source: seq<ChatMessage>, current: seq<ChatMessage>,
                                                        patch: CompactionPatch)
    requires CollisionFree(env)
    requires GuardFor(env, source, patch.rangeStart, patch.rangeEnd) == Some(patch.guard)
    requires AllNulFree(source[patch.rangeStart..patch.rangeEnd])
    requires GuardMatches(env, current, patch.guard)
    ensures patch.rangeStart <= patch.rangeEnd <= |current|
    ensures exists prefix, suffix ::
              && |prefix| == patch.rangeStart
              && current == prefix + source[patch.rangeStart..patch.rangeEnd] + suffix
              && Applied(current, patch) == prefix + patch.replacement + patch.appendAfter + suffix
  {
    GuardPinsRange(env, source, patch.rangeStart, patch.rangeEnd, current);
    var prefix, suffix := current[..patch.rangeStart], current[patch.rangeEnd..];
    assert current == prefix + current[patch.rangeStart..patch.rangeEnd] + suffix;
  }
}
