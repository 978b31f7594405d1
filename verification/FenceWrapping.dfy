// Wrapping text in a fence: when it makes the text one code block.
module FenceWrapping {
  import opened Wrappers
  import opened Text
  import opened LineSplitting
  import opened Fences

  function Repeat(c: char, n: nat): (r: string)
    ensures |r| == n && forall i :: 0 <= i < n ==> r[i] == c
  {
    if n == 0 then "" else [c] + Repeat(c, n - 1)
  }

  lemma {:induction false} RunOfRepeat(c: char, n: nat, rest: string)
    requires rest == "" || rest[0] != c
    ensures Run(Repeat(c, n) + rest, c) == n && (Repeat(c, n) + rest)[n..] == rest
  {
    if n == 0 {
      assert Repeat(c, n) + rest == rest;
    } else {
      assert (Repeat(c, n) + rest)[1..] == Repeat(c, n - 1) + rest;
      RunOfRepeat(c, n - 1, rest);
    }
  }

  // A fence line: indentation, the run, and what follows the run.
  function FenceLine(indent: nat, c: char, n: nat, after: string): string {
    Repeat(' ', indent) + (Repeat(c, n) + after)
  }

  lemma {:induction false} FenceLineUndented(indent: nat, c: char, n: nat, after: string)
    requires indent <= 3 && n > 0 && c != ' '
    ensures Undented(FenceLine(indent, c, n, after)) == Some(Repeat(c, n) + after)
  {
    RunOfRepeat(' ', indent, Repeat(c, n) + after);
  }

  // What a fence line may carry behind its run to open a block.
  predicate IsInfo(c: char, info: string) {
    (info != "" ==> info[0] != c) && (c == '`' ==> '`' !in info)
  }

  lemma {:induction false} FenceLineOpens(indent: nat, c: char, n: nat, info: string)
    requires indent <= 3 && n >= 3 && c in {'`', '~'} && IsInfo(c, info)
    ensures OpenFence(FenceLine(indent, c, n, info)) == Some(CodeFence(c, n))
  {
    FenceLineUndented(indent, c, n, info);
    RunOfRepeat(c, n, info);
  }

  lemma {:induction false} FenceLineCloses(indent: nat, fence: CodeFence, n: nat, blank: string)
    requires indent <= 3 && n >= fence.length && n > 0 && fence.marker in {'`', '~'} && AllWhitespace(blank)
    ensures Closes(fence, FenceLine(indent, fence.marker, n, blank))
  {
    FenceLineUndented(indent, fence.marker, n, blank);
    RunOfRepeat(fence.marker, n, blank);
    TrimPadded(blank, "", "");
    assert blank + "" + "" == blank;
  }

  // A line is its leading run and what follows it.
  lemma {:induction false} SplitsAtRun(s: string, c: char)
    ensures s == Repeat(c, Run(s, c)) + s[Run(s, c)..]
    ensures s[Run(s, c)..] == "" || s[Run(s, c)..][0] != c
  {
    RunIsMaximal(s, c);
  }

  lemma {:induction false} UndentedIsIndented(line: string)
    requires Undented(line).Some?
    ensures Run(line, ' ') <= 3 && line == Repeat(' ', Run(line, ' ')) + Undented(line).value
  {
    SplitsAtRun(line, ' ');
  }

  // The opening lines are exactly those of the specification: up to three
  // spaces, a run of three fence characters or more, an admissible info string.
  lemma {:induction false} OpensExactlyFenceLines(line: string, fence: CodeFence)
    ensures OpenFence(line) == Some(fence) <==>
            fence.length >= 3 && fence.marker in {'`', '~'}
            && exists indent: nat, info ::
                 && indent <= 3 && line == Repeat(' ', indent) + (Repeat(fence.marker, fence.length) + info)
                 && (info != "" ==> info[0] != fence.marker) && (fence.marker == '`' ==> '`' !in info)
  {
    var c, n := fence.marker, fence.length;
    if OpenFence(line) == Some(fence) {
      UndentedIsIndented(line);
      var body := Undented(line).value;
      SplitsAtRun(body, c);
      assert line == Repeat(' ', Run(line, ' ')) + (Repeat(c, n) + body[n..]) && IsInfo(c, body[n..]);
    }
    if n >= 3 && c in {'`', '~'} {
      forall indent: nat, info |
        indent <= 3 && IsInfo(c, info) && line == Repeat(' ', indent) + (Repeat(c, n) + info)
        ensures OpenFence(line) == Some(fence)
      {
        FenceLineOpens(indent, c, n, info);
      }
    }
  }

  // And the closing lines of a fence: up to three spaces, a run of its character
  // at least as long, whitespace.
  lemma {:induction false} ClosesExactlyFenceLines(line: string, fence: CodeFence)
    requires fence.length >= 3 && fence.marker in {'`', '~'}
    ensures Closes(fence, line) <==>
            exists indent: nat, n: nat, blank ::
              && indent <= 3 && n >= fence.length && AllWhitespace(blank)
              && line == Repeat(' ', indent) + (Repeat(fence.marker, n) + blank)
  {
    hide Trim;
    var c := fence.marker;
    if Closes(fence, line) {
      UndentedIsIndented(line);
      var body := Undented(line).value;
      SplitsAtRun(body, c);
      BlankTrimsAway(body[Run(body, c)..]);
      assert line == Repeat(' ', Run(line, ' ')) + (Repeat(c, Run(body, c)) + body[Run(body, c)..]);
    }
    forall indent: nat, n: nat, blank |
      indent <= 3 && n >= fence.length && AllWhitespace(blank) && line == Repeat(' ', indent) + (Repeat(c, n) + blank)
      ensures Closes(fence, line)
    {
      FenceLineCloses(indent, fence, n, blank);
    }
  }

  // ---------------------------------------------------------------- closers as specified

  predicate SpacesOrTabs(s: string) {
    forall i :: 0 <= i < |s| ==> s[i] == ' ' || s[i] == '\t'
  }

  // A closing line of the specification: behind the run spaces and tabs only.
  predicate ClosesAsSpecified(fence: CodeFence, line: string) {
    match Undented(line)
    case None => false
    case Some(body) =>
      var length := Run(body, fence.marker);
      length >= fence.length && SpacesOrTabs(body[length..])
  }

  // Behind a run long enough to close stands whitespace, and not only spaces and
  // tabs.
  predicate EndsInOtherWhitespace(fence: CodeFence, line: string) {
    match Undented(line)
    case None => false
    case Some(body) =>
      var length := Run(body, fence.marker);
      length >= fence.length && AllWhitespace(body[length..]) && !SpacesOrTabs(body[length..])
  }

  // The code and the specification agree on exactly the other lines.
  lemma {:induction false} ClosersAgreeWithoutOtherWhitespace(fence: CodeFence, line: string)
    ensures (Closes(fence, line) <==> ClosesAsSpecified(fence, line)) <==> !EndsInOtherWhitespace(fence, line)
  {
    hide Trim;
    if Undented(line).Some? {
      var body := Undented(line).value;
      var rest := body[Run(body, fence.marker)..];
      if Trim(rest) == "" { BlankTrimsAway(rest); }
      if AllWhitespace(rest) {
        TrimPadded(rest, "", "");
        assert rest + "" + "" == rest;
      }
    }
  }

  function BehindAsSpecified(fence: Option<CodeFence>, line: string): Option<CodeFence> {
    match fence
    case Some(f) => if ClosesAsSpecified(f, line) then None else fence
    case None => OpenFence(line)
  }

  function MarksAsSpecified(fence: Option<CodeFence>, lines: seq<string>): (r: seq<bool>)
    ensures |r| == |lines|
    decreases |lines|
  {
    if lines == [] then []
    else [IsCode(fence, lines[0])] + MarksAsSpecified(BehindAsSpecified(fence, lines[0]), lines[1..])
  }

  // No whitespace but spaces and tabs.
  predicate IsPlainlySpaced(line: string) {
    forall i :: 0 <= i < |line| && IsWhitespace(line[i]) ==> line[i] == ' ' || line[i] == '\t'
  }

  lemma {:induction false} PlainlySpacedEndsPlainly(fence: CodeFence, line: string)
    requires IsPlainlySpaced(line)
    ensures !EndsInOtherWhitespace(fence, line)
  {
    if Undented(line).Some? {
      var body := Undented(line).value;
      var rest := body[Run(body, fence.marker)..];
      assert forall i :: 0 <= i < |rest| ==> rest[i] == line[|line| - |rest| + i];
    }
  }

  // So lines spaced with spaces and tabs are marked as the specification marks them.
  lemma {:induction false} PlainlySpacedLinesAreMarkedAsSpecified(fence: Option<CodeFence>, lines: seq<string>)
    requires forall i :: 0 <= i < |lines| ==> IsPlainlySpaced(lines[i])
    ensures Marks(fence, lines) == MarksAsSpecified(fence, lines)
    decreases |lines|
  {
    hide OpenFence, Closes, ClosesAsSpecified, EndsInOtherWhitespace, IsPlainlySpaced;
    if lines != [] {
      if fence.Some? {
        PlainlySpacedEndsPlainly(fence.value, lines[0]);
        ClosersAgreeWithoutOtherWhitespace(fence.value, lines[0]);
      }
      PlainlySpacedLinesAreMarkedAsSpecified(Behind(fence, lines[0]), lines[1..]);
    }
  }

  // A run with a no-break space behind it closes a block, against the specification.
  lemma {:induction false} NoBreakSpaceCloses(c: char, n: nat)
    requires n >= 3 && c in {'`', '~'}
    ensures var fence, line := CodeFence(c, n), FenceLine(0, c, n, "\U{A0}");
            Closes(fence, line) && !ClosesAsSpecified(fence, line)
  {
    hide Closes, FenceLine, Undented, Repeat;
    var fence, line := CodeFence(c, n), FenceLine(0, c, n, "\U{A0}");
    FenceLineCloses(0, fence, n, "\U{A0}");
    FenceLineUndented(0, c, n, "\U{A0}");
    RunOfRepeat(c, n, "\U{A0}");
  }

  // The line holds a run of `n` characters `c`.
  predicate HasRun(line: string, c: char, n: nat) {
    exists i :: 0 <= i <= |line| && Run(line[i..], c) >= n
  }

  lemma {:induction false} ClosingLineHasRun(fence: CodeFence, line: string)
    requires Closes(fence, line)
    ensures HasRun(line, fence.marker, fence.length)
  {
    hide Trim;
    var indent := Run(line, ' ');
    assert Run(line[indent..], fence.marker) >= fence.length;
  }

  // A fence and its closer make one block of the lines between them exactly
  // when none of these closes the fence.
  lemma {:induction false} FenceEnclosesExactly(opener: string, body: seq<string>, closer: string, rest: seq<string>)
    requires OpenFence(opener).Some? && Closes(OpenFence(opener).value, closer)
    ensures var block := Block(opener, body, Some(closer));
            var lines := LinesOf(block) + rest;
            (lines != [] && Segments(lines) == [block] + Segments(rest)) <==> NoneCloses(OpenFence(opener).value, body)
  {
    hide OpenFence, Closes, FirstSegment, NoneCloses;
    var block := Block(opener, body, Some(closer));
    var lines := LinesOf(block) + rest;
    assert lines[0] == opener;
    if NoneCloses(OpenFence(opener).value, body) {
      FirstSegmentIsForced(block, rest);
      assert lines[|LinesOf(block)|..] == rest;
    }
    if Segments(lines) == [block] + Segments(rest) {
      FirstIsSegment(lines);
      assert FirstSegment(lines) == Segments(lines)[0] == block;
    }
  }

  predicate NoRun(body: seq<string>, c: char, n: nat) {
    forall i :: 0 <= i < |body| ==> !HasRun(body[i], c, n)
  }

  // A fence longer than every run of its character marks everything it encloses
  // as code, and what follows is walked as if alone.
  lemma {:induction false} LongFenceEncloses(opener: string, body: seq<string>, closer: string, rest: seq<string>)
    requires OpenFence(opener).Some? && Closes(OpenFence(opener).value, closer)
    requires NoRun(body, OpenFence(opener).value.marker, OpenFence(opener).value.length)
    ensures Marks(None, [opener] + body + [closer] + rest) == seq(|body| + 2, _ => true) + Marks(None, rest)
  {
    hide OpenFence, Closes, HasRun;
    var fence := OpenFence(opener).value;
    forall i | 0 <= i < |body| ensures !Closes(fence, body[i]) {
      if Closes(fence, body[i]) { ClosingLineHasRun(fence, body[i]); }
    }
    var block := Block(opener, body, Some(closer));
    SegmentWalks(block);
    assert [opener] + body + [closer] + rest == LinesOf(block) + rest;
    hide Marks, BehindAll;
    MarksJoin(None, LinesOf(block), rest);
  }

  lemma {:induction false} LineOfText(line: string)
    requires '\n' !in line && (line != "" ==> line[|line| - 1] != '\r')
    ensures Lines(line + "\n") == [line]
  {
    var piece := line + "\n";
    assert piece[..|piece| - 1] == line;
    FirstBreak(piece, "");
    assert piece + "" == piece && SplitInclusive("") == [];
    assert SplitInclusive(piece) == [piece];
    if line != "" { assert piece[|piece| - 2] == line[|line| - 1]; }
  }

  // The same for whole texts: body and following text keep their lines.
  lemma {:induction false} WrappedTextIsCode(indent: nat, c: char, n: nat, info: string, body: string, rest: string)
    requires indent <= 3 && n >= 3 && c in {'`', '~'} && IsInfo(c, info) && '\n' !in info && '\r' !in info
    requires EndsLine(body) && NoRun(Lines(body), c, n)
    ensures var opener, closer := FenceLine(indent, c, n, info), FenceLine(0, c, n, "");
            var text := opener + "\n" + body + (closer + "\n") + rest;
            && Lines(text) == [opener] + Lines(body) + [closer] + Lines(rest)
            && Marks(None, Lines(text)) == seq(|Lines(body)| + 2, _ => true) + Marks(None, Lines(rest))
  {
    hide Lines, FenceLine, OpenFence, Closes, NoRun, IsInfo, EndsLine;
    var opener, closer := FenceLine(indent, c, n, info), FenceLine(0, c, n, "");
    FenceLineOpens(indent, c, n, info);
    FenceLineCloses(0, CodeFence(c, n), n, "");
    FenceLineIsLine(indent, c, n, info);
    FenceLineIsLine(0, c, n, "");
    LineOfText(opener);
    LineOfText(closer);
    TextsJoin(opener + "\n", body, closer + "\n", rest) by { BreakEndsLine(opener); BreakEndsLine(closer); }
    LongFenceEncloses(opener, Lines(body), closer, Lines(rest));
  }

  lemma {:induction false} BreakEndsLine(s: string)
    ensures EndsLine(s + "\n")
  {
  }

  lemma {:induction false} FenceLineIsLine(indent: nat, c: char, n: nat, info: string)
    requires n > 0 && c in {'`', '~'} && '\n' !in info && '\r' !in info
    ensures var line := FenceLine(indent, c, n, info);
            '\n' !in line && line != "" && line[|line| - 1] != '\r'
  {
  }

  lemma {:induction false} TextsJoin(a: string, b: string, c: string, d: string)
    requires EndsLine(a) && EndsLine(b) && EndsLine(c)
    ensures Lines(a + b + c + d) == Lines(a) + Lines(b) + Lines(c) + Lines(d)
  {
    hide Lines;
    assert a + b + c + d == a + (b + (c + d));
    LinesJoin(a, b + (c + d));
    LinesJoin(b, c + d);
    LinesJoin(c, d);
  }
}
