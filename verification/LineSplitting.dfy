// The two line splitters of Rust's `str`: `split_inclusive('\n')` and `lines()`.
module LineSplitting {
  import opened Wrappers
  import opened Text

  // The pieces of a text, each up to and including its line break.
  function SplitInclusive(s: string): seq<string>
    decreases |s|
  {
    if s == "" then []
    else
      match IndexOf(s, '\n')
      case None => [s]
      case Some(i) => [s[..i + 1]] + SplitInclusive(s[i + 1..])
  }

  // A piece without its "\n" or "\r\n". A carriage return that no line feed
  // follows belongs to the line.
  function Stripped(piece: string): string {
    var n := |piece|;
    if n == 0 || piece[n - 1] != '\n' then piece
    else if n > 1 && piece[n - 2] == '\r' then piece[..n - 2]
    else piece[..n - 1]
  }

  function StripAll(pieces: seq<string>): (r: seq<string>)
    ensures |r| == |pieces| && forall i :: 0 <= i < |r| ==> r[i] == Stripped(pieces[i])
  {
    if pieces == [] then [] else [Stripped(pieces[0])] + StripAll(pieces[1..])
  }

  function Lines(s: string): seq<string> {
    StripAll(SplitInclusive(s))
  }

  function Concat(pieces: seq<string>): string {
    if pieces == [] then "" else pieces[0] + Concat(pieces[1..])
  }

  lemma {:induction false} ConcatJoins(a: seq<string>, b: seq<string>)
    ensures Concat(a + b) == Concat(a) + Concat(b)
  {
    if a == [] {
      assert a + b == b;
    } else {
      assert (a + b)[1..] == a[1..] + b;
      ConcatJoins(a[1..], b);
    }
  }

  // A line with its line break.
  predicate IsWholeLine(piece: string) {
    piece != "" && piece[|piece| - 1] == '\n' && '\n' !in piece[..|piece| - 1]
  }

  // The last piece of a text, which may lack the line break.
  predicate IsLastLine(piece: string) {
    piece != "" && '\n' !in piece[..|piece| - 1]
  }

  // What splitting a text gives: whole lines, and a last one.
  predicate AreLines(pieces: seq<string>) {
    && (forall i :: 0 <= i < |pieces| - 1 ==> IsWholeLine(pieces[i]))
    && (pieces != [] ==> IsLastLine(pieces[|pieces| - 1]))
  }

  lemma {:induction false} FirstBreak(piece: string, rest: string)
    requires IsWholeLine(piece)
    ensures IndexOf(piece + rest, '\n') == Some(|piece| - 1)
    ensures SplitInclusive(piece + rest) == [piece] + SplitInclusive(rest)
  {
    var s, n := piece + rest, |piece|;
    assert s[n - 1] == '\n';
    assert forall j :: 0 <= j < n - 1 ==> s[j] == piece[..n - 1][j];
    assert s[..n] == piece && s[n..] == rest;
  }

  lemma {:induction false} OneLine(piece: string)
    requires IsLastLine(piece)
    ensures SplitInclusive(piece) == [piece]
  {
    var n := |piece|;
    assert forall j :: 0 <= j < n - 1 ==> piece[j] == piece[..n - 1][j];
    if IndexOf(piece, '\n').Some? {
      assert piece[..n] == piece;
    }
  }

  // The first line of a text and what follows it.
  lemma {:induction false} CutsFirst(s: string) returns (piece: string, rest: string)
    requires '\n' in s
    ensures IsWholeLine(piece) && s == piece + rest && |rest| < |s|
    ensures SplitInclusive(s) == [piece] + SplitInclusive(rest)
  {
    var i := IndexOf(s, '\n').value;
    piece, rest := s[..i + 1], s[i + 1..];
    assert piece[..i] == s[..i] && '\n' !in s[..i];
  }

  lemma {:induction false} AreLinesBehind(piece: string, tail: seq<string>)
    requires IsWholeLine(piece) && AreLines(tail)
    ensures AreLines([piece] + tail)
  {
    hide IsWholeLine;
    var all := [piece] + tail;
    assert forall k :: 0 < k < |all| ==> all[k] == tail[k - 1];
    assert IsLastLine(piece) by { assert IsWholeLine(piece); WholeIsLast(piece); }
  }

  lemma {:induction false} WholeIsLast(piece: string)
    requires IsWholeLine(piece)
    ensures IsLastLine(piece)
  {
  }

  // Splitting cuts a text into lines and loses nothing,
  lemma {:induction false} SplittingCutsIntoLines(s: string)
    ensures Concat(SplitInclusive(s)) == s && AreLines(SplitInclusive(s))
    decreases |s|
  {
    hide AreLines;
    if '\n' in s {
      hide SplitInclusive;
      var piece, rest := CutsFirst(s);
      SplittingCutsIntoLines(rest);
      AreLinesBehind(piece, SplitInclusive(rest));
      assert ([piece] + SplitInclusive(rest))[1..] == SplitInclusive(rest);
    } else {
      SplitsNothing(s);
    }
  }

  lemma {:induction false} SplitsNothing(s: string)
    requires '\n' !in s
    ensures Concat(SplitInclusive(s)) == s && AreLines(SplitInclusive(s))
  {
    if s != "" {
      assert SplitInclusive(s) == [s];
      assert Concat([s]) == s + Concat([]) == s;
    }
  }

  lemma {:induction false} TailsAreLines(pieces: seq<string>)
    requires AreLines(pieces) && |pieces| > 1
    ensures IsWholeLine(pieces[0]) && AreLines(pieces[1..])
  {
    hide IsWholeLine, IsLastLine;
    var rest := pieces[1..];
    assert forall i :: 0 <= i < |rest| ==> rest[i] == pieces[i + 1];
  }

  // and the cut into lines is the only one.
  lemma {:induction false} LinesAreSplitAgain(pieces: seq<string>)
    requires AreLines(pieces)
    ensures SplitInclusive(Concat(pieces)) == pieces
  {
    if |pieces| == 1 {
      OneLine(pieces[0]);
      assert Concat(pieces) == pieces[0] + "" == pieces[0];
      assert pieces == [pieces[0]];
    } else if pieces != [] {
      hide AreLines, IsWholeLine, SplitInclusive;
      TailsAreLines(pieces);
      LinesAreSplitAgain(pieces[1..]);
      FirstBreak(pieces[0], Concat(pieces[1..]));
      assert pieces == [pieces[0]] + pieces[1..];
    }
  }

  predicate EndsLine(s: string) {
    s == "" || s[|s| - 1] == '\n'
  }

  lemma {:induction false} EmptySplit()
    ensures SplitInclusive("") == []
  {
  }

  lemma {:induction false} RestEndsLine(piece: string, rest: string)
    requires EndsLine(piece + rest)
    ensures EndsLine(rest)
  {
    assert rest != "" ==> (piece + rest)[|piece + rest| - 1] == rest[|rest| - 1];
  }

  // Behind a line break a text is split as if alone.
  lemma {:induction false} SplitsJoin(a: string, b: string)
    requires EndsLine(a)
    ensures SplitInclusive(a + b) == SplitInclusive(a) + SplitInclusive(b)
    decreases |a|
  {
    hide SplitInclusive, IsWholeLine, EndsLine;
    if a == "" {
      assert a + b == b;
      EmptySplit();
    } else {
      assert '\n' in a by { assert EndsLine(a); HasBreak(a); }
      var piece, rest := CutsFirst(a);
      RestEndsLine(piece, rest);
      SplitsJoin(rest, b);
      FirstBreak(piece, rest + b);
      assert a + b == piece + (rest + b);
      assert [piece] + (SplitInclusive(rest) + SplitInclusive(b)) == [piece] + SplitInclusive(rest) + SplitInclusive(b);
    }
  }

  lemma {:induction false} HasBreak(a: string)
    requires EndsLine(a) && a != ""
    ensures '\n' in a
  {
  }

  lemma {:induction false} StripJoins(a: seq<string>, b: seq<string>)
    ensures StripAll(a + b) == StripAll(a) + StripAll(b)
  {
  }

  lemma {:induction false} LinesJoin(a: string, b: string)
    requires EndsLine(a)
    ensures Lines(a + b) == Lines(a) + Lines(b)
  {
    SplitsJoin(a, b);
    StripJoins(SplitInclusive(a), SplitInclusive(b));
  }

  // What stripping takes: one line feed at the end and one carriage return before it.
  lemma {:induction false} StripsTheBreak(line: string)
    requires line == "" || line[|line| - 1] != '\n'
    ensures Stripped(line) == line && Stripped(line + "\r\n") == line
    ensures Stripped(line + "\n") == if line != "" && line[|line| - 1] == '\r' then line[..|line| - 1] else line
  {
    var a, b := line + "\n", line + "\r\n";
    assert a[..|line|] == line && b[..|line|] == line;
    assert line != "" ==> a[|a| - 2] == line[|line| - 1] && a[..|a| - 2] == line[..|line| - 1];
  }

  // ---------------------------------------------------------------- line endings

  // The text with every "\n" written as "\r\n".
  function WithCrlf(s: string): string {
    if s == "" then "" else Crlf(s[0]) + WithCrlf(s[1..])
  }

  function Crlf(c: char): string {
    if c == '\n' then "\r\n" else [c]
  }

  predicate EndsCrlf(piece: string) {
    EndsWith(piece, "\r\n")
  }

  lemma {:induction false} CrlfJoins(a: string, b: string)
    ensures WithCrlf(a + b) == WithCrlf(a) + WithCrlf(b)
  {
    if a == "" {
      assert a + b == b;
    } else {
      hide Crlf;
      assert (a + b)[1..] == a[1..] + b && (a + b)[0] == a[0];
      CrlfJoins(a[1..], b);
      var c := Crlf(a[0]);
      assert c + (WithCrlf(a[1..]) + WithCrlf(b)) == (c + WithCrlf(a[1..])) + WithCrlf(b);
    }
  }

  lemma {:induction false} CrlfWithoutBreak(s: string)
    requires '\n' !in s
    ensures WithCrlf(s) == s
  {
    if s != "" { CrlfWithoutBreak(s[1..]); }
  }

  // One line: the ending is stripped whole, unless the line ended in "\r\n".
  lemma {:induction false} CrlfOfLine(piece: string)
    requires IsWholeLine(piece)
    ensures WithCrlf(piece) == piece[..|piece| - 1] + "\r\n" && IsWholeLine(WithCrlf(piece))
    ensures Stripped(WithCrlf(piece)) == Stripped(piece) <==> !EndsCrlf(piece)
  {
    var body := piece[..|piece| - 1];
    assert piece == body + "\n";
    CrlfJoins(body, "\n");
    CrlfWithoutBreak(body);
    assert WithCrlf("\n") == "\r\n" + WithCrlf("") == "\r\n";
    var c := WithCrlf(piece);
    assert c[|c| - 1] == '\n' && c[|c| - 2] == '\r';
    assert c[..|c| - 2] == body && c[..|c| - 1] == body + "\r";
    assert EndsCrlf(piece) <==> body != "" && body[|body| - 1] == '\r' by {
      if |piece| > 1 { assert piece[|piece| - 2..] == [body[|body| - 1], '\n']; }
    }
  }

  // `lines()` gives CRLF input the lines LF input gets, exactly for a text in
  // which no line already ends in "\r\n".
  lemma {:induction false} CrlfGivesTheSameLines(s: string)
    ensures Lines(WithCrlf(s)) == Lines(s) <==> forall p :: p in SplitInclusive(s) ==> !EndsCrlf(p)
    ensures |Lines(WithCrlf(s))| == |Lines(s)|
    decreases |s|
  {
    hide Stripped, EndsCrlf, WithCrlf;
    if '\n' !in s {
      CrlfWithoutBreak(s);
      LastLineEndsPlain(s);
    } else {
      hide SplitInclusive, IsWholeLine;
      var piece, rest := CutsFirst(s);
      CrlfGivesTheSameLines(rest);
      CrlfOfLine(piece);
      CrlfJoins(piece, rest);
      FirstBreak(WithCrlf(piece), WithCrlf(rest));
      StripFirst(piece, SplitInclusive(rest));
      StripFirst(WithCrlf(piece), SplitInclusive(WithCrlf(rest)));
    }
  }

  lemma {:induction false} StripFirst(piece: string, rest: seq<string>)
    ensures StripAll([piece] + rest) == [Stripped(piece)] + StripAll(rest)
  {
  }

  lemma {:induction false} LastLineEndsPlain(s: string)
    requires '\n' !in s
    ensures forall p :: p in SplitInclusive(s) ==> !EndsCrlf(p)
  {
    if s != "" {
      assert IndexOf(s, '\n').None?;
      assert SplitInclusive(s) == [s];
      if |s| >= 2 { assert s[|s| - 2..][1] == s[|s| - 1]; }
    }
  }

  lemma {:induction false} PieceIsInside(s: string, i: nat)
    requires i < |SplitInclusive(s)|
    ensures exists a, b :: s == a + SplitInclusive(s)[i] + b
  {
    var pieces := SplitInclusive(s);
    hide SplitInclusive;
    SplittingCutsIntoLines(s);
    var piece := pieces[i];
    assert pieces == pieces[..i] + ([piece] + pieces[i + 1..]);
    ConcatJoins(pieces[..i], [piece] + pieces[i + 1..]);
    ConcatJoins([piece], pieces[i + 1..]);
    assert Concat([piece]) == piece + Concat([]) == piece;
    assert s == Concat(pieces[..i]) + piece + Concat(pieces[i + 1..]);
  }

  // Text without CRLF has the same lines either way.
  lemma {:induction false} TextWithoutCrlfHasTheSameLines(s: string)
    requires !Contains(s, "\r\n")
    ensures Lines(WithCrlf(s)) == Lines(s)
  {
    var pieces := SplitInclusive(s);
    hide Lines, WithCrlf, SplitInclusive, Contains;
    forall i | 0 <= i < |pieces| ensures !EndsCrlf(pieces[i]) {
      PieceIsInside(s, i);
      if EndsCrlf(pieces[i]) {
        var a, b :| s == a + pieces[i] + b;
        CrlfInside(s, a, pieces[i], b);
        assert false;
      }
    }
    CrlfGivesTheSameLines(s);
  }

  lemma {:induction false} CrlfInside(s: string, a: string, piece: string, b: string)
    requires s == a + piece + b && EndsCrlf(piece)
    ensures Contains(s, "\r\n")
  {
    var i := |a| + |piece| - 2;
    assert s[i..i + 2] == piece[|piece| - 2..];
    assert OccursAt(s, "\r\n", i);
    FindFinds(s, "\r\n");
    hide Find, OccursAt;
    assert i < |s| + 1;
  }

  // A text that has CRLF already has another line once its "\n" becomes "\r\n".
  lemma {:induction false} DoubledReturnStaysInTheLine()
    ensures Lines("a\r\n") == ["a"] && Lines(WithCrlf("a\r\n")) == ["a\r"]
  {
    var s := "a\r\n";
    assert s[..2] == "a\r" && IsWholeLine(s);
    CrlfOfLine(s);
    var t := WithCrlf(s);
    assert t == "a\r\r\n";
    FirstBreak(s, "");
    FirstBreak(t, "");
    assert s + "" == s && t + "" == t;
    hide SplitInclusive, WithCrlf, IsWholeLine;
    assert SplitInclusive("") == [] by { EmptySplit(); }
    assert t[..2] == "a\r" && s[..1] == "a";
    StripFirst(s, []);
    StripFirst(t, []);
    assert [s] + [] == [s] && [t] + [] == [t];
  }
}
