// Fenced code blocks, section 4.5 of the CommonMark Spec 0.31.2, as
// src/markdown.rs reads them: a line walk with one open fence at most.
module Fences {
  import opened Wrappers
  import opened Text
  import opened LineSplitting

  datatype CodeFence = CodeFence(marker: char, length: nat)

  // The length of the run of `c` a text starts with.
  function Run(s: string, c: char): (n: nat)
    ensures n <= |s|
  {
    if s != "" && s[0] == c then 1 + Run(s[1..], c) else 0
  }

  lemma {:induction false} RunIsMaximal(s: string, c: char)
    ensures forall i :: 0 <= i < Run(s, c) ==> s[i] == c
    ensures Run(s, c) < |s| ==> s[Run(s, c)] != c
  {
    if s != "" && s[0] == c {
      RunIsMaximal(s[1..], c);
      assert forall i :: 0 < i < |s| ==> s[i] == s[1..][i - 1];
    }
  }

  // The line without its indentation, unless it is indented too far.
  function Undented(line: string): (r: Option<string>) {
    var indent := Run(line, ' ');
    if indent <= 3 then Some(line[indent..]) else None
  }

  function OpenFence(line: string): (r: Option<CodeFence>)
    ensures r.Some? ==> r.value.length >= 3 && r.value.marker in {'`', '~'}
  {
    match Undented(line)
    case None => None
    case Some(body) =>
      if body == "" || (body[0] != '`' && body[0] != '~') then None
      else
        var marker := body[0];
        var length := Run(body, marker);
        if length < 3 then None
        else if marker == '`' && '`' in body[length..] then None
        else Some(CodeFence(marker, length))
  }

  predicate Closes(fence: CodeFence, line: string) {
    match Undented(line)
    case None => false
    case Some(body) =>
      var length := Run(body, fence.marker);
      length >= fence.length && Trim(body[length..]) == ""
  }

  // ---------------------------------------------------------------- the walk

  // The open fence behind a line.
  function Behind(fence: Option<CodeFence>, line: string): Option<CodeFence> {
    match fence
    case Some(f) => if Closes(f, line) then None else fence
    case None => OpenFence(line)
  }

  // Whether a line belongs to a code block.
  predicate IsCode(fence: Option<CodeFence>, line: string) {
    fence.Some? || OpenFence(line).Some?
  }

  // The open fence behind all lines, and the lines' marks.
  function BehindAll(fence: Option<CodeFence>, lines: seq<string>): Option<CodeFence>
    decreases |lines|
  {
    if lines == [] then fence else BehindAll(Behind(fence, lines[0]), lines[1..])
  }

  function Marks(fence: Option<CodeFence>, lines: seq<string>): (r: seq<bool>)
    ensures |r| == |lines|
    decreases |lines|
  {
    if lines == [] then [] else [IsCode(fence, lines[0])] + Marks(Behind(fence, lines[0]), lines[1..])
  }

  lemma {:induction false} MarksJoin(fence: Option<CodeFence>, a: seq<string>, b: seq<string>)
    ensures Marks(fence, a + b) == Marks(fence, a) + Marks(BehindAll(fence, a), b)
    ensures BehindAll(fence, a + b) == BehindAll(BehindAll(fence, a), b)
    decreases |a|
  {
    hide Behind, IsCode;
    if a == [] {
      assert a + b == b;
    } else {
      assert (a + b)[1..] == a[1..] + b && (a + b)[0] == a[0];
      MarksJoin(Behind(fence, a[0]), a[1..], b);
    }
  }

  lemma {:induction false} OneMoreLine(lines: seq<string>, n: nat)
    requires n < |lines|
    ensures var fence := BehindAll(None, lines[..n]);
            && Marks(None, lines[..n + 1]) == Marks(None, lines[..n]) + [IsCode(fence, lines[n])]
            && BehindAll(None, lines[..n + 1]) == Behind(fence, lines[n])
  {
    hide Behind, IsCode;
    assert lines[..n + 1] == lines[..n] + [lines[n]];
    MarksJoin(None, lines[..n], [lines[n]]);
    var fence := BehindAll(None, lines[..n]);
    assert Marks(fence, [lines[n]]) == [IsCode(fence, lines[n])] + Marks(Behind(fence, lines[n]), []);
    assert BehindAll(fence, [lines[n]]) == BehindAll(Behind(fence, lines[n]), []);
  }

  method WalkMarkdownLines(text: string) returns (walked: seq<(string, bool)>)
    ensures |walked| == |Lines(text)|
    ensures forall i :: 0 <= i < |walked| ==> walked[i] == (Lines(text)[i], Marks(None, Lines(text))[i])
  {
    hide Lines, OpenFence, Closes, Marks, BehindAll;
    walked := [];
    var lines := Lines(text);
    var fence: Option<CodeFence> := None;
    NothingWalked(lines);
    for i := 0 to |lines|
      invariant |walked| == i && fence == BehindAll(None, lines[..i])
      invariant forall j :: 0 <= j < i ==> walked[j] == (lines[j], Marks(None, lines[..i])[j])
    {
      var line := lines[i];
      OneMoreLine(lines, i);
      var inCode;
      if fence.Some? {
        if Closes(fence.value, line) {
          fence := None;
        }
        inCode := true;
      } else {
        fence := OpenFence(line);
        inCode := fence.Some?;
      }
      walked := walked + [(line, inCode)];
    }
    assert lines[..|lines|] == lines;
  }

  lemma {:induction false} NothingWalked(lines: seq<string>)
    ensures BehindAll(None, lines[..0]) == None
  {
  }

  // ---------------------------------------------------------------- the blocks

  // A line outside code, or a block: opener, body and, unless the text ends
  // inside it, closer.
  datatype Segment =
    | Outside(line: string)
    | Block(opener: string, body: seq<string>, closer: Option<string>)

  function LinesOf(segment: Segment): seq<string> {
    match segment
    case Outside(line) => [line]
    case Block(opener, body, closer) => [opener] + body + (if closer.Some? then [closer.value] else [])
  }

  predicate NoneCloses(fence: CodeFence, lines: seq<string>) {
    forall i :: 0 <= i < |lines| ==> !Closes(fence, lines[i])
  }

  predicate IsSegment(segment: Segment) {
    match segment
    case Outside(line) => OpenFence(line).None?
    case Block(opener, body, closer) =>
      match OpenFence(opener)
      case None => false
      case Some(fence) => NoneCloses(fence, body) && (closer.Some? ==> Closes(fence, closer.value))
  }

  predicate IsUnterminated(segment: Segment) {
    segment.Block? && segment.closer.None?
  }

  // Segments that make up a text; only the last may be unterminated.
  predicate AreSegments(segments: seq<Segment>) {
    segments == []
    || (IsSegment(segments[0])
        && (IsUnterminated(segments[0]) ==> |segments| == 1)
        && AreSegments(segments[1..]))
  }

  function Flatten(segments: seq<Segment>): seq<string> {
    if segments == [] then [] else LinesOf(segments[0]) + Flatten(segments[1..])
  }

  // Exactly the lines of blocks are code.
  function BlockMarks(segments: seq<Segment>): seq<bool> {
    if segments == [] then []
    else seq(|LinesOf(segments[0])|, _ => segments[0].Block?) + BlockMarks(segments[1..])
  }

  // The first line that closes a fence.
  function Closer(fence: CodeFence, lines: seq<string>): (r: Option<nat>)
    ensures r.Some? ==> r.value < |lines|
  {
    if lines == [] then None
    else if Closes(fence, lines[0]) then Some(0)
    else
      match Closer(fence, lines[1..])
      case None => None
      case Some(i) => Some(i + 1)
  }

  // The segment a text starts with.
  function FirstSegment(lines: seq<string>): (r: Segment)
    requires lines != []
    ensures 0 < |LinesOf(r)| <= |lines|
  {
    match OpenFence(lines[0])
    case None => Outside(lines[0])
    case Some(fence) =>
      match Closer(fence, lines[1..])
      case None => Block(lines[0], lines[1..], None)
      case Some(i) => Block(lines[0], lines[1..i + 1], Some(lines[i + 1]))
  }

  function Segments(lines: seq<string>): seq<Segment>
    decreases |lines|
  {
    if lines == [] then []
    else [FirstSegment(lines)] + Segments(lines[|LinesOf(FirstSegment(lines))|..])
  }

  lemma {:induction false} CloserFinds(fence: CodeFence, lines: seq<string>)
    ensures match Closer(fence, lines)
            case None => NoneCloses(fence, lines)
            case Some(i) => Closes(fence, lines[i]) && NoneCloses(fence, lines[..i])
  {
    hide Closes;
    if lines != [] && !Closes(fence, lines[0]) {
      CloserFinds(fence, lines[1..]);
      match Closer(fence, lines[1..])
      case None =>
      case Some(i) => assert lines[..i + 1] == [lines[0]] + lines[1..][..i];
    }
  }

  lemma {:induction false} FirstIsSegment(lines: seq<string>)
    requires lines != []
    ensures IsSegment(FirstSegment(lines)) && LinesOf(FirstSegment(lines)) <= lines
    ensures IsUnterminated(FirstSegment(lines)) ==> LinesOf(FirstSegment(lines)) == lines
  {
    hide OpenFence, Closes, Closer, NoneCloses;
    match OpenFence(lines[0])
    case None =>
    case Some(fence) =>
      CloserFinds(fence, lines[1..]);
      match Closer(fence, lines[1..])
      case None => assert [lines[0]] + lines[1..] + [] == lines;
      case Some(i) =>
        assert lines[1..][..i] == lines[1..i + 1] && lines[1..][i] == lines[i + 1];
        assert [lines[0]] + lines[1..i + 1] + [lines[i + 1]] == lines[..i + 2];
  }

  // The marks and the open fence across one segment.
  lemma {:induction false} SegmentWalks(segment: Segment)
    requires IsSegment(segment)
    ensures Marks(None, LinesOf(segment)) == seq(|LinesOf(segment)|, _ => segment.Block?)
    ensures BehindAll(None, LinesOf(segment)).Some? <==> IsUnterminated(segment)
  {
    hide OpenFence, Closes;
    match segment
    case Outside(line) =>
      assert [line][1..] == [];
    case Block(opener, body, closer) =>
      var fence := OpenFence(opener).value;
      var tail := body + (if closer.Some? then [closer.value] else []);
      assert LinesOf(segment) == [opener] + tail;
      assert ([opener] + tail)[1..] == tail;
      BodyWalks(fence, body);
      if closer.Some? {
        MarksJoin(Some(fence), body, [closer.value]);
        assert [closer.value][1..] == [];
      } else {
        assert tail == body;
      }
  }

  lemma {:induction false} BodyWalks(fence: CodeFence, body: seq<string>)
    requires NoneCloses(fence, body)
    ensures Marks(Some(fence), body) == seq(|body|, _ => true) && BehindAll(Some(fence), body) == Some(fence)
  {
    hide Closes;
    if body != [] { BodyWalks(fence, body[1..]); }
  }

  // The walk is the block decomposition: a text splits into segments, and the
  // marked lines are those of blocks.
  lemma {:induction false} WalkIsBlockDecomposition(lines: seq<string>)
    ensures AreSegments(Segments(lines)) && Flatten(Segments(lines)) == lines
    ensures BlockMarks(Segments(lines)) == Marks(None, lines)
    decreases |lines|
  {
    hide FirstSegment, IsSegment, LinesOf, BehindAll, IsUnterminated;
    if lines != [] {
      var first := FirstSegment(lines);
      var n := |LinesOf(first)|;
      var rest := lines[n..];
      FirstIsSegment(lines);
      HasLines(first);
      WalkIsBlockDecomposition(rest);
      SegmentWalks(first);
      assert lines == LinesOf(first) + rest;
      var all := [first] + Segments(rest);
      assert all[1..] == Segments(rest) && Segments(lines) == all;
      hide Marks;
      MarksJoin(None, LinesOf(first), rest);
      if IsUnterminated(first) {
        assert rest == [];
      }
      UnfoldMarks(rest);
    }
  }

  lemma {:induction false} HasLines(segment: Segment)
    ensures |LinesOf(segment)| > 0
  {
  }

  lemma {:induction false} UnfoldMarks(lines: seq<string>)
    ensures lines == [] ==> forall fence :: Marks(fence, lines) == []
  {
  }

  // And the split is unique.
  lemma {:induction false} DecompositionIsUnique(segments: seq<Segment>)
    requires AreSegments(segments)
    ensures segments == Segments(Flatten(segments))
  {
    hide IsSegment, LinesOf, FirstSegment;
    if segments != [] {
      var first, rest := segments[0], segments[1..];
      var lines := Flatten(segments);
      HasLines(first);
      DecompositionIsUnique(rest);
      assert IsUnterminated(first) ==> rest == [];
      FirstSegmentIsForced(first, Flatten(rest));
      assert lines[|LinesOf(first)|..] == Flatten(rest);
      assert segments == [first] + rest;
    }
  }

  lemma {:induction false} FirstSegmentIsForced(segment: Segment, rest: seq<string>)
    requires IsSegment(segment) && (IsUnterminated(segment) ==> rest == [])
    ensures LinesOf(segment) + rest != [] && FirstSegment(LinesOf(segment) + rest) == segment
  {
    hide OpenFence, Closes, Closer, NoneCloses;
    var lines := LinesOf(segment) + rest;
    match segment
    case Outside(line) => assert lines[0] == line;
    case Block(opener, body, closer) =>
      var fence := OpenFence(opener).value;
      assert lines[0] == opener;
      if closer.Some? {
        assert lines[1..] == body + [closer.value] + rest;
        CloserIs(fence, body, closer.value, rest);
        assert lines[1..|body| + 1] == body && lines[|body| + 1] == closer.value;
      } else {
        assert lines[1..] == body;
        NoCloserIn(fence, body);
      }
  }

  lemma {:induction false} CloserIs(fence: CodeFence, body: seq<string>, closer: string, rest: seq<string>)
    requires NoneCloses(fence, body) && Closes(fence, closer)
    ensures Closer(fence, body + [closer] + rest) == Some(|body|)
  {
    hide Closes;
    var all := body + [closer] + rest;
    if body == [] {
      assert all[0] == closer;
    } else {
      assert all[0] == body[0] && all[1..] == body[1..] + [closer] + rest;
      CloserIs(fence, body[1..], closer, rest);
    }
  }

  lemma {:induction false} NoCloserIn(fence: CodeFence, body: seq<string>)
    requires NoneCloses(fence, body)
    ensures Closer(fence, body) == None
  {
    hide Closes;
    if body != [] { NoCloserIn(fence, body[1..]); }
  }
}
