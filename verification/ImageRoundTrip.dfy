// Parsing a composed message gives back its text and its references.
module ImageRoundTrip {
  import opened Wrappers
  import opened Text
  import opened ImageMarkers

  // ---------------------------------------------------------------- texts laid end to end

  // A character no image prefix contains.
  predicate EndsPrefix(c: char) {
    c !in IMAGE_MARKER_PREFIX
  }

  lemma {:induction false} OccursAcross(a: string, c: char, b: string, j: nat)
    requires EndsPrefix(c)
    ensures OccursAt(a + [c] + b, IMAGE_MARKER_PREFIX, j)
            <==> if j <= |a| then OccursAt(a, IMAGE_MARKER_PREFIX, j) else OccursAt(b, IMAGE_MARKER_PREFIX, j - |a| - 1)
  {
    var s, p := a + [c] + b, IMAGE_MARKER_PREFIX;
    var n := |p|;
    if j <= |a| {
      if j + n <= |a| {
        assert s[j..j + n] == a[j..j + n];
      } else if j + n <= |s| {
        assert s[j..j + n][|a| - j] == c;
      }
    } else if j + n <= |s| {
      assert s[j..j + n] == b[j - |a| - 1..j - |a| - 1 + n];
    }
  }

  // In front of the joint the first prefix is that of `a`, behind it that of `b`.
  lemma {:induction false} FindAcross(a: string, c: char, b: string)
    requires EndsPrefix(c)
    ensures var found, later := Find(a, IMAGE_MARKER_PREFIX), Find(b, IMAGE_MARKER_PREFIX);
            Find(a + [c] + b, IMAGE_MARKER_PREFIX)
            == if found.Some? then found else if later.None? then None else Some(|a| + 1 + later.value)
  {
    hide OccursAt, Find;
    var s, p := a + [c] + b, IMAGE_MARKER_PREFIX;
    forall j: nat
      ensures OccursAt(s, p, j) <==> if j <= |a| then OccursAt(a, p, j) else OccursAt(b, p, j - |a| - 1)
    {
      OccursAcross(a, c, b, j);
    }
    FindFinds(a, p);
    FindFinds(b, p);
    if Find(a, p).Some? {
      FindIs(s, p, Find(a, p).value);
    } else if Find(b, p).Some? {
      FindIs(s, p, |a| + 1 + Find(b, p).value);
    } else {
      FindIsNone(s, p);
    }
  }

  lemma {:induction false} IndexOfIs(s: string, c: char, i: nat)
    requires i < |s| && s[i] == c && c !in s[..i]
    ensures IndexOf(s, c) == Some(i)
  {
    assert forall j :: 0 <= j < i ==> s[j] in s[..i];
  }

  // An image marker closed in `a` is the next one of any longer text.
  lemma {:induction false} ClosedInLonger(a: string, c: char, b: string)
    requires EndsPrefix(c) && NextImage(a).Some? && NextImage(a).value.1.Some?
    ensures NextImage(a + [c] + b) == NextImage(a)
    ensures var end := EndOf(NextImage(a).value.0, NextImage(a).value.1.value);
            (a + [c] + b)[end..] == a[end..] + [c] + b
  {
    hide Find, IndexOf;
    FindAcross(a, c, b);
    var start := NextImage(a).value.0 + |IMAGE_MARKER_PREFIX|;
    assert (a + [c] + b)[start..] == a[start..] + ([c] + b);
    ClosingInLonger(a[start..], [c] + b);
    ClosedEndsInside(a);
    var end := EndOf(NextImage(a).value.0, NextImage(a).value.1.value);
    assert (a + [c] + b)[end..] == a[end..] + [c] + b;
  }

  lemma {:induction false} ClosedEndsInside(a: string)
    requires NextImage(a).Some? && NextImage(a).value.1.Some?
    ensures EndOf(NextImage(a).value.0, NextImage(a).value.1.value) <= |a|
  {
    hide NextImage, EndOf;
  }

  lemma {:induction false} ClosingInLonger(x: string, y: string)
    requires IndexOf(x, ']').Some?
    ensures IndexOf(x + y, ']') == IndexOf(x, ']') && (x + y)[..IndexOf(x, ']').value] == x[..IndexOf(x, ']').value]
  {
    hide IndexOf;
    var e := IndexOf(x, ']').value;
    assert (x + y)[..e] == x[..e] && ']' !in x[..e];
    IndexOfIs(x + y, ']', e);
  }

  // Where `a` holds no prefix, the next image marker is that of `b`.
  lemma {:induction false} NextBehind(a: string, c: char, b: string)
    requires EndsPrefix(c) && NextImage(a).None?
    ensures NextImage(a + [c] + b)
            == if NextImage(b).None? then None else Some((|a| + 1 + NextImage(b).value.0, NextImage(b).value.1))
    ensures forall j :: 0 <= j <= |b| ==> (a + [c] + b)[|a| + 1 + j..] == b[j..]
  {
    hide Find, IndexOf;
    FindAcross(a, c, b);
    var s := a + [c] + b;
    forall j | 0 <= j <= |b| ensures s[|a| + 1 + j..] == b[j..] {}
    if NextImage(b).Some? {
      var i := NextImage(b).value.0 + |IMAGE_MARKER_PREFIX|;
      assert s[|a| + 1 + i..] == b[i..];
    }
  }

  // Joining texts joins what is parsed, unless `a` ends inside a marker.
  lemma {:induction false} ParsesJoin(a: string, c: char, b: string)
    requires EndsPrefix(c) && Dangling(a).None?
    ensures Refs(a + [c] + b) == Refs(a) + Refs(b)
    ensures Cleaned(a + [c] + b) == Cleaned(a) + [c] + Cleaned(b)
    ensures Dangling(a + [c] + b) == Dangling(b)
    decreases |a|
  {
    hide NextImage, EndOf, Reference, Remains;
    var s := a + [c] + b;
    if NextImage(a).None? {
      NextBehind(a, c, b);
      JoinBehind(a, c, b);
    } else {
      var i, raw := NextImage(a).value.0, NextImage(a).value.1.value;
      ClosedInLonger(a, c, b);
      ParsesJoin(a[EndOf(i, raw)..], c, b);
      hide Refs, Cleaned, Dangling;
      ParseSteps(a, i, raw);
      ParseSteps(s, i, raw);
      assert s[..i] == a[..i];
    }
  }

  lemma {:induction false} JoinBehind(a: string, c: char, b: string)
    requires EndsPrefix(c) && NextImage(a).None?
    ensures Refs(a + [c] + b) == Refs(b) && Dangling(a + [c] + b) == Dangling(b)
    ensures Cleaned(a + [c] + b) == a + [c] + Cleaned(b)
  {
    hide NextImage, Refs, Cleaned, Reference, Remains;
    var s := a + [c] + b;
    NextBehind(a, c, b);
    if NextImage(b).Some? && NextImage(b).value.1.Some? {
      var i, raw := NextImage(b).value.0, NextImage(b).value.1.value;
      ParseSteps(b, i, raw);
      ParseSteps(s, |a| + 1 + i, raw);
      assert s[EndOf(|a| + 1 + i, raw)..] == b[EndOf(i, raw)..];
      assert s[..|a| + 1 + i] == a + [c] + b[..i];
    } else {
      ParseEnds(b);
      ParseEnds(s);
    }
  }

  lemma {:induction false} OpenStays(a: string, c: char, b: string)
    requires EndsPrefix(c) && c != ']' && NextImage(a).Some? && NextImage(a).value.1.None? && ']' !in b
    ensures NextImage(a + [c] + b) == NextImage(a)
  {
    hide Find, IndexOf;
    FindAcross(a, c, b);
    var start := NextImage(a).value.0 + |IMAGE_MARKER_PREFIX|;
    assert (a + [c] + b)[start..] == a[start..] + [c] + b;
  }

  lemma {:induction false} OpenCloses(a: string, c: char, x: string, y: string)
    requires EndsPrefix(c) && c != ']' && NextImage(a).Some? && NextImage(a).value.1.None? && ']' !in x
    ensures var i := NextImage(a).value.0;
            var raw := a[i + |IMAGE_MARKER_PREFIX|..] + [c] + x;
            var s := a + [c] + (x + "]" + y);
            NextImage(s) == Some((i, Some(raw))) && s[EndOf(i, raw)..] == y
  {
    hide Find, IndexOf, EndOf;
    var i, s := NextImage(a).value.0, a + [c] + (x + "]" + y);
    var start := i + |IMAGE_MARKER_PREFIX|;
    var raw := a[start..] + [c] + x;
    FindAcross(a, c, x + "]" + y);
    assert s[start..] == raw + "]" + y;
    assert s[start..][..|raw|] == raw && s[start..][|raw|] == ']';
    IndexOfIs(s[start..], ']', |raw|);
    EndIs(i, raw);
    assert s == a[..start] + raw + "]" + y;
  }

  // A marker left open at the end of `a` stays open without a closing bracket,
  lemma {:induction false} DanglingStays(a: string, c: char, b: string)
    requires EndsPrefix(c) && c != ']' && Dangling(a).Some? && ']' !in b
    ensures Refs(a + [c] + b) == Refs(a)
    ensures Cleaned(a + [c] + b) == Cleaned(a) + [c] + b
    decreases |a|
  {
    hide EndOf, Reference, Remains, NextImage;
    var s := a + [c] + b;
    var i := NextImage(a).value.0;
    if NextImage(a).value.1.None? {
      OpenStays(a, c, b);
      ParseEnds(s);
      ParseEnds(a);
    } else {
      var raw := NextImage(a).value.1.value;
      ClosedInLonger(a, c, b);
      DanglingStays(a[EndOf(i, raw)..], c, b);
      hide Refs, Cleaned, Dangling;
      ParseSteps(a, i, raw);
      ParseSteps(s, i, raw);
      assert s[..i] == a[..i];
    }
  }

  // and takes everything up to the next closing bracket.
  lemma {:induction false} DanglingCloses(a: string, c: char, x: string, y: string)
    requires EndsPrefix(c) && c != ']' && Dangling(a).Some? && ']' !in x
    ensures Refs(a + [c] + (x + "]" + y)) == Refs(a) + Reference(Dangling(a).value + [c] + x) + Refs(y)
    decreases |a|
  {
    hide EndOf, Reference, Remains, NextImage, EndsPrefix;
    var s := a + [c] + (x + "]" + y);
    var i := NextImage(a).value.0;
    if NextImage(a).value.1.None? {
      OpenCloses(a, c, x, y);
      ParseEnds(a);
      hide Refs;
      ParseSteps(s, i, a[i + |IMAGE_MARKER_PREFIX|..] + [c] + x);
    } else {
      var raw := NextImage(a).value.1.value;
      ClosedInLonger(a, c, x + "]" + y);
      DanglingCloses(a[EndOf(i, raw)..], c, x, y);
      hide Refs, Cleaned, Dangling;
      ParseSteps(a, i, raw);
      ParseSteps(s, i, raw);
    }
  }

  // ---------------------------------------------------------------- references

  // What a parsed reference looks like.
  predicate IsReference(uri: string) {
    IsTrimmed(uri) && !NamesNothing(uri) && ']' !in uri
  }

  lemma {:induction false} TrimTakesFrom(s: string)
    ensures forall c :: c in Trim(s) ==> c in s
  {
    var r := TrimStart(s);
    assert forall c :: c in r ==> c in s;
  }

  lemma {:induction false} RefsAreReferences(s: string)
    ensures forall uri :: uri in Refs(s) ==> IsReference(uri)
    decreases |s|
  {
    hide Trim, NamesNothing, EndOf, IsTrimmed;
    if NextImage(s).Some? && NextImage(s).value.1.Some? {
      var i, raw := NextImage(s).value.0, NextImage(s).value.1.value;
      EndIs(i, raw);
      hide NextImage;
      RefsAreReferences(s[EndOf(i, raw)..]);
      TrimTakesFrom(raw);
    }
  }

  // Every reference parsed is trimmed, holds no closing bracket and is more than
  // dots and ellipses.
  lemma {:induction false} ParsedReferencesAre(s: string)
    ensures forall uri :: uri in Refs(s) ==>
              && uri == Trim(uri) && ']' !in uri
              && exists i :: 0 <= i < |uri| && uri[i] != '.' && uri[i] != '\U{2026}'
  {
    hide Refs, IsReference, Trim;
    RefsAreReferences(s);
    ReferencesLiterally(Refs(s));
  }

  lemma {:induction false} ReferenceParses(uri: string)
    requires IsReference(uri)
    ensures Reference(uri) == [uri] && Remains(uri) == ""
  {
    TrimOfTrimmed(uri);
  }

  // A written image marker is read back.
  lemma {:induction false} ImageTextParses(raw: string, rest: string)
    requires ']' !in raw
    ensures NextImage(ImageText(raw) + rest) == Some((0, Some(raw)))
    ensures Refs(ImageText(raw) + rest) == Reference(raw) + Refs(rest)
    ensures Cleaned(ImageText(raw) + rest) == Remains(raw) + Cleaned(rest)
    ensures Dangling(ImageText(raw) + rest) == Dangling(rest)
  {
    hide Reference, Remains, NextImage, EndOf, Refs, Cleaned, Dangling, ImageText;
    var s := ImageText(raw) + rest;
    ImageTextIsNext(raw, rest);
    ParseSteps(s, 0, raw);
    assert s[..0] + Remains(raw) == Remains(raw);
  }

  lemma {:induction false} ImageTextIsNext(raw: string, rest: string)
    requires ']' !in raw
    ensures NextImage(ImageText(raw) + rest) == Some((0, Some(raw)))
    ensures (ImageText(raw) + rest)[EndOf(0, raw)..] == rest
  {
    hide IndexOf;
    var s, n := ImageText(raw) + rest, |IMAGE_MARKER_PREFIX|;
    assert s[..n] == IMAGE_MARKER_PREFIX;
    assert s[n..] == raw + "]" + rest;
    assert s[n..][..|raw|] == raw;
    IndexOfIs(s[n..], ']', |raw|);
  }

  predicate AllReferences(uris: seq<string>) {
    forall uri :: uri in uris ==> IsReference(uri)
  }

  lemma {:induction false} NewlineParses(b: string)
    ensures Refs("\n" + b) == Refs(b) && Cleaned("\n" + b) == "\n" + Cleaned(b) && Dangling("\n" + b) == Dangling(b)
  {
    NothingToParse();
    hide Refs, Cleaned, Dangling;
    assert "\n" + b == "" + ['\n'] + b;
    ParsesJoin("", '\n', b);
  }

  lemma {:induction false} NothingToParse()
    ensures Refs("") == [] && Cleaned("") == "" && Dangling("").None?
  {
  }

  lemma {:induction false} LinesParse(uris: seq<string>)
    requires AllReferences(uris)
    ensures Refs(ReferenceLines(uris)) == uris
    ensures AllWhitespace(Cleaned(ReferenceLines(uris)))
  {
    hide IsReference, Refs, Cleaned, ImageText, Reference, Remains;
    NothingToParse();
    if uris != [] {
      var rest := ReferenceLines(uris[1..]);
      assert AllReferences(uris[1..]);
      LinesParse(uris[1..]);
      LineParses(uris[0], rest);
      assert uris == [uris[0]] + uris[1..];
    }
  }

  lemma {:induction false} LineParses(uri: string, rest: string)
    requires IsReference(uri)
    ensures Refs("\n" + ImageText(uri) + rest) == [uri] + Refs(rest)
    ensures Cleaned("\n" + ImageText(uri) + rest) == "\n" + Cleaned(rest)
  {
    hide Refs, Cleaned, Dangling, ImageText, IsReference;
    assert "\n" + ImageText(uri) + rest == "\n" + (ImageText(uri) + rest);
    NewlineParses(ImageText(uri) + rest);
    ReferenceTextParses(uri, rest);
  }

  lemma {:induction false} ReferenceTextParses(uri: string, rest: string)
    requires IsReference(uri)
    ensures Refs(ImageText(uri) + rest) == [uri] + Refs(rest) && Cleaned(ImageText(uri) + rest) == Cleaned(rest)
  {
    hide Refs, Cleaned, Dangling, ImageText, Reference, Remains;
    ImageTextParses(uri, rest);
    ReferenceParses(uri);
  }

  lemma {:induction false} AttachmentsParse(uris: seq<string>)
    requires AllReferences(uris)
    ensures Refs(Attachments(uris)) == uris
    ensures AllWhitespace(Cleaned(Attachments(uris)))
  {
    hide IsReference, Refs, Cleaned, ImageText, Reference, Remains;
    NothingToParse();
    if uris != [] {
      assert AllReferences(uris[1..]);
      LinesParse(uris[1..]);
      ReferenceTextParses(uris[0], ReferenceLines(uris[1..]));
      assert uris == [uris[0]] + uris[1..];
    }
  }

  // ---------------------------------------------------------------- the round trip

  function Composed(trimmed: string, uris: seq<string>): string {
    Heading(trimmed) + Attachments(uris)
  }

  // A text that holds no reference and, in front of attachments, leaves no
  // image marker open.
  predicate IsPlainText(trimmed: string, uris: seq<string>) {
    Refs(trimmed) == [] && (uris == [] || Dangling(trimmed).None?)
  }

  lemma {:induction false} TextWithoutRefsIsKept(s: string)
    requires Refs(s) == []
    ensures Cleaned(s) == s
    decreases |s|
  {
    hide Trim, NamesNothing;
    if NextImage(s).Some? && NextImage(s).value.1.Some? {
      var i, raw := NextImage(s).value.0, NextImage(s).value.1.value;
      ClosedImageIsText(s);
      hide NextImage;
      TextWithoutRefsIsKept(s[EndOf(i, raw)..]);
      assert s == s[..i] + ImageText(raw) + s[EndOf(i, raw)..];
    }
  }

  lemma {:induction false} ClosedImageIsText(s: string)
    requires NextImage(s).Some? && NextImage(s).value.1.Some?
    ensures var i, raw := NextImage(s).value.0, NextImage(s).value.1.value;
            s[i..EndOf(i, raw)] == ImageText(raw)
  {
    hide Find;
    NextImageFrom(s, 0);
    assert s[0..] == s;
  }

  // Composing opens the text with two line breaks behind it.
  lemma {:induction false} ComposedOpens(trimmed: string, uris: seq<string>)
    requires trimmed != ""
    ensures Composed(trimmed, uris) == trimmed + ['\n'] + ("\n" + Attachments(uris))
  {
  }

  lemma {:induction false} ComposedParses(trimmed: string, uris: seq<string>)
    requires Dangling(trimmed).None? && AllReferences(uris)
    ensures Refs(Composed(trimmed, uris)) == Refs(trimmed) + uris
    ensures exists pad :: AllWhitespace(pad) && Cleaned(Composed(trimmed, uris)) == Cleaned(trimmed) + pad
  {
    hide Refs, Cleaned, Dangling, AllReferences, Attachments;
    AttachmentsParse(uris);
    var tail := Attachments(uris);
    if trimmed == "" {
      NothingToParse();
      assert Composed(trimmed, uris) == tail;
      assert Cleaned(tail) == "" + Cleaned(tail);
    } else {
      ComposedOpens(trimmed, uris);
      ParsesJoin(trimmed, '\n', "\n" + tail);
      NewlineParses(tail);
      var pad := "\n" + ("\n" + Cleaned(tail));
      assert AllWhitespace(pad);
      assert Cleaned(trimmed) + ['\n'] + ("\n" + Cleaned(tail)) == Cleaned(trimmed) + pad;
    }
  }

  // Parsing undoes composing exactly for a text without references that leaves
  // no marker open in front of an attachment, and for references that are
  // trimmed, non-empty, free of `]` and no placeholder.
  lemma {:induction false} ParseUndoesCompose(text: string, uris: seq<string>)
    ensures var trimmed := Trim(text);
            var content := Composed(trimmed, uris);
            (Trim(Cleaned(content)) == trimmed && Refs(content) == uris)
            <==> (forall uri :: uri in uris ==>
                    && uri == Trim(uri) && ']' !in uri
                    && exists i :: 0 <= i < |uri| && uri[i] != '.' && uri[i] != '\U{2026}')
                 && Refs(trimmed) == [] && (uris == [] || Dangling(trimmed).None?)
  {
    hide Refs, Cleaned, Dangling, Attachments, Trim, IsReference;
    var trimmed := Trim(text);
    var content := Composed(trimmed, uris);
    ReferencesLiterally(uris);
    if AllReferences(uris) && IsPlainText(trimmed, uris) {
      ComposedIsParsed(trimmed, uris);
    }
    if Refs(content) == uris {
      RefsAreReferences(content);
      OnlyPlainTextParses(trimmed, uris);
    }
  }

  lemma {:induction false} ReferencesLiterally(uris: seq<string>)
    ensures AllReferences(uris) <==>
            forall uri :: uri in uris ==>
              && uri == Trim(uri) && ']' !in uri
              && exists i :: 0 <= i < |uri| && uri[i] != '.' && uri[i] != '\U{2026}'
  {
    hide Trim, IsTrimmed;
    forall uri ensures IsTrimmed(uri) <==> uri == Trim(uri) {
      if IsTrimmed(uri) { TrimOfTrimmed(uri); }
    }
  }

  lemma {:induction false} ComposedIsParsed(trimmed: string, uris: seq<string>)
    requires IsTrimmed(trimmed) && AllReferences(uris) && IsPlainText(trimmed, uris)
    ensures Trim(Cleaned(Composed(trimmed, uris))) == trimmed && Refs(Composed(trimmed, uris)) == uris
  {
    hide Refs, Cleaned, Dangling, Attachments, AllReferences, IsTrimmed, Composed;
    TextWithoutRefsIsKept(trimmed);
    var pad;
    if Dangling(trimmed).None? {
      ComposedParses(trimmed, uris);
      pad :| AllWhitespace(pad) && Cleaned(Composed(trimmed, uris)) == Cleaned(trimmed) + pad;
    } else {
      pad := "\n\n";
      DanglingWithoutAttachments(trimmed);
    }
    TrimPadded("", trimmed, pad);
    assert "" + trimmed + pad == trimmed + pad;
  }

  lemma {:induction false} DanglingWithoutAttachments(trimmed: string)
    requires Dangling(trimmed).Some?
    ensures Refs(Composed(trimmed, [])) == Refs(trimmed)
    ensures Cleaned(Composed(trimmed, [])) == Cleaned(trimmed) + "\n\n"
  {
    NothingToParse();
    hide Refs, Cleaned, Dangling;
    ComposedOpens(trimmed, []);
    DanglingStays(trimmed, '\n', "\n" + Attachments([]));
  }

  lemma {:induction false} OnlyPlainTextParses(trimmed: string, uris: seq<string>)
    requires AllReferences(uris) && Refs(Composed(trimmed, uris)) == uris
    ensures IsPlainText(trimmed, uris)
  {
    hide Refs, Cleaned, Dangling, Attachments, IsReference, Composed;
    if Dangling(trimmed).None? {
      ComposedParses(trimmed, uris);
    } else if uris == [] {
      DanglingWithoutAttachments(trimmed);
    } else {
      AttachmentIsSwallowed(trimmed, uris);
      assert false;
    }
  }

  // An open marker takes the first attachment with it.
  lemma {:induction false} AttachmentIsSwallowed(trimmed: string, uris: seq<string>)
    requires Dangling(trimmed).Some? && uris != [] && AllReferences(uris)
    ensures Refs(Composed(trimmed, uris)) != uris
  {
    hide Refs, Cleaned, Dangling, NamesNothing, ReferenceLines, Trim;
    var rest, uri := ReferenceLines(uris[1..]), uris[0];
    var x := "\n" + (IMAGE_MARKER_PREFIX + uri);
    NothingToParse();
    AttachmentsOpen(trimmed, uris);
    assert IsReference(uri) && AllReferences(uris[1..]);
    LinesParse(uris[1..]);
    SwallowedReference(Dangling(trimmed).value + ['\n'] + "\n", uri);
    var raw := Dangling(trimmed).value + ['\n'] + x;
    assert raw == Dangling(trimmed).value + ['\n'] + "\n" + IMAGE_MARKER_PREFIX + uri;
    assert ']' !in x;
    DanglingCloses(trimmed, '\n', x, rest);
    CannotBe(Refs(trimmed), Trim(raw), uris);
  }

  lemma {:induction false} AttachmentsOpen(trimmed: string, uris: seq<string>)
    requires trimmed != "" && uris != []
    ensures Composed(trimmed, uris)
            == trimmed + ['\n'] + ("\n" + (IMAGE_MARKER_PREFIX + uris[0]) + "]" + ReferenceLines(uris[1..]))
  {
    hide ReferenceLines;
    ComposedOpens(trimmed, uris);
    assert "\n" + Attachments(uris) == "\n" + (IMAGE_MARKER_PREFIX + uris[0]) + "]" + ReferenceLines(uris[1..]);
  }

  lemma {:induction false} CannotBe(first: seq<string>, swallowed: string, uris: seq<string>)
    requires uris != [] && |swallowed| > |uris[0]|
    ensures first + [swallowed] + uris[1..] != uris
  {
    var all := first + [swallowed] + uris[1..];
    if first == [] { assert all[0] == swallowed; } else { assert |all| > |uris|; }
  }

  lemma {:induction false} SwallowedReference(before: string, uri: string)
    requires IsReference(uri)
    ensures var raw := before + IMAGE_MARKER_PREFIX + uri;
            !NamesNothing(Trim(raw)) && |Trim(raw)| > |uri|
  {
    hide Trim;
    var inner := IMAGE_MARKER_PREFIX + uri;
    assert before + IMAGE_MARKER_PREFIX + uri == before + inner;
    TrimKeeps(before, inner);
    var r := Trim(before + inner);
    assert r[|r| - |inner|] == inner[0] == '[';
  }

  // Trimming takes nothing from a non-blank end.
  lemma {:induction false} TrimKeeps(before: string, inner: string)
    requires IsTrimmed(inner) && inner != ""
    ensures var r := Trim(before + inner);
            |inner| <= |r| && r[|r| - |inner|..] == inner
  {
    var s := before + inner;
    var r := TrimStart(s);
    var pad := s[..|s| - |r|];
    assert forall i :: 0 <= i < |pad| ==> s[i] == pad[i];
    assert s[|before|] == inner[0];
    assert r[|r| - |inner|..] == s[|before|..] == inner;
    TrimEndSkips(r, "");
    assert r + "" == r;
  }

  lemma {:induction false} PrefixFreeIsPlain(s: string)
    ensures !Contains(s, IMAGE_MARKER_PREFIX) ==> Refs(s) == [] && Dangling(s).None?
  {
  }

  // A text without any image prefix is plain.
  lemma {:induction false} TextWithoutPrefixIsPlain(text: string, uris: seq<string>)
    requires !Contains(Trim(text), IMAGE_MARKER_PREFIX) && AllReferences(uris)
    ensures Trim(Cleaned(Composed(Trim(text), uris))) == Trim(text) && Refs(Composed(Trim(text), uris)) == uris
  {
    PrefixFreeIsPlain(Trim(text));
    hide Trim, AllReferences, Composed, Refs, Dangling, Contains;
    ReferencesLiterally(uris);
    ParseUndoesCompose(text, uris);
  }
}
