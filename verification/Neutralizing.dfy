// `neutralize_media_markers`: quoted text with its media markers defanged.
module Neutralizing {
  import opened Wrappers
  import opened MediaMarkers

  // The readable form a marker is rewritten to.
  function Inert(m: Marker): string {
    "(" + m.kind + ": " + m.payload + ")"
  }

  function Neutralized(s: string): string
    decreases |s|
  {
    match First(s)
    case None => s
    case Some((i, m)) => s[..i] + Inert(m) + Neutralized(AfterFirst(s))
  }

  method NeutralizeMediaMarkers(content: string) returns (out: string)
    ensures out == Neutralized(content)
  {
    hide First, FirstFrom, Inert, MarkerText, Neutralized;
    var span := FindMediaMarker(content, 0);
    assert content[0..] == content;
    UnfoldNeutralized(content, 0);
    if span.None? {
      return content;
    }
    out := "";
    var cursor := 0;
    while span.Some?
      invariant cursor <= |content| && span == FirstFrom(content, cursor)
      invariant out + Neutralized(content[cursor..]) == Neutralized(content)
      decreases |content| - cursor
    {
      var (start, m) := span.value;
      var end := start + |MarkerText(m)|;
      UnfoldNeutralized(content, cursor);
      ConcatAssociates(out, content[cursor..start], Inert(m), Neutralized(content[end..]));
      out := out + content[cursor..start] + Inert(m);
      MarkerTextIsNotEmpty(m);
      cursor := end;
      span := FindMediaMarker(content, cursor);
    }
    UnfoldNeutralized(content, cursor);
    out := out + content[cursor..];
  }

  lemma {:induction false} MarkerTextIsNotEmpty(m: Marker)
    ensures |MarkerText(m)| > 0
  {
  }

  lemma {:induction false} ConcatAssociates(a: string, b: string, c: string, d: string)
    ensures a + (b + c + d) == a + b + c + d
  {
  }

  lemma {:induction false} UnfoldNeutralized(content: string, cursor: nat)
    requires cursor <= |content|
    ensures FirstFrom(content, cursor).None? ==> Neutralized(content[cursor..]) == content[cursor..]
    ensures FirstFrom(content, cursor).Some? ==>
            var start, m := FirstFrom(content, cursor).value.0, FirstFrom(content, cursor).value.1;
            Neutralized(content[cursor..])
            == content[cursor..start] + Inert(m) + Neutralized(content[start + |MarkerText(m)|..])
  {
    hide First, FirstFrom, AfterFirst, Inert, MarkerText;
    FirstFromSplits(content, cursor);
  }

  // ---------------------------------------------------------------- what is kept

  // A text as plain stretches and markers.
  datatype Piece = Plain(text: string) | Media(marker: Marker)

  function Pieces(s: string): seq<Piece>
    decreases |s|
  {
    match First(s)
    case None => [Plain(s)]
    case Some((i, m)) => [Plain(s[..i]), Media(m)] + Pieces(AfterFirst(s))
  }

  // The pieces written out, each marker by `show`.
  function Write(pieces: seq<Piece>, show: Marker -> string): string {
    if pieces == [] then ""
    else (match pieces[0] case Plain(t) => t case Media(m) => show(m)) + Write(pieces[1..], show)
  }

  function Medias(pieces: seq<Piece>): seq<Marker> {
    if pieces == [] then []
    else (match pieces[0] case Plain(_) => [] case Media(m) => [m]) + Medias(pieces[1..])
  }

  lemma {:induction false} WriteTwo(text: string, m: Marker, rest: seq<Piece>, show: Marker -> string)
    ensures Write([Plain(text), Media(m)] + rest, show) == text + show(m) + Write(rest, show)
    ensures Medias([Plain(text), Media(m)] + rest) == [m] + Medias(rest)
  {
    var all := [Plain(text), Media(m)] + rest;
    assert all[1..] == [Media(m)] + rest && all[1..][1..] == rest;
  }

  // Neutralising rewrites the markers and leaves every character outside them,
  // in order; each marker makes the text one character longer.
  lemma {:induction false} NeutralizingRewritesOnlyMarkers(s: string)
    ensures Write(Pieces(s), MarkerText) == s
    ensures Write(Pieces(s), Inert) == Neutralized(s)
    ensures Medias(Pieces(s)) == Markers(s)
    ensures |Neutralized(s)| == |s| + |Markers(s)|
    decreases |s|
  {
    match First(s)
    case None =>
      assert Write([], MarkerText) == "" && Write([], Inert) == "";
    case Some((i, m)) =>
      var rest := AfterFirst(s);
      NeutralizingRewritesOnlyMarkers(rest);
      FirstSplits(s);
      WriteTwo(s[..i], m, Pieces(rest), MarkerText);
      WriteTwo(s[..i], m, Pieces(rest), Inert);
      assert |Inert(m)| == |MarkerText(m)| + 1;
  }

  // ---------------------------------------------------------------- what is left

  // Characters no marker opener contains.
  predicate BreaksOpener(c: char) {
    c != '[' && c != ':' && !('A' <= c <= 'Z')
  }

  lemma {:induction false} PrefixStopsAt(pattern: string, a: string, c: char, b: string)
    requires c !in pattern
    ensures pattern <= a + [c] + b <==> pattern <= a
  {
    var s := a + [c] + b;
    assert s[|a|] == c;
    if pattern <= s {
      assert forall k :: 0 <= k < |pattern| ==> pattern[k] == s[k];
      assert |pattern| <= |a|;
    }
    if pattern <= a { assert s[..|pattern|] == a[..|pattern|]; }
  }

  lemma {:induction false} OpenerStopsAt(a: string, c: char, b: string)
    requires BreaksOpener(c) || (c == '[' && a != "")
    ensures Opens(a + [c] + b) <==> Opens(a)
  {
    var s := a + [c] + b;
    if a == "" {
      assert s[0] == c;
    } else {
      var tail := a[1..];
      assert s[1..] == tail + [c] + b && (s[0] == a[0]);
      PrefixStopsAt("IMAGE" + ":", tail, c, b);
      PrefixStopsAt("DOCUMENT" + ":", tail, c, b);
      PrefixStopsAt("AUDIO" + ":", tail, c, b);
      PrefixStopsAt("VOICE" + ":", tail, c, b);
      PrefixStopsAt("VIDEO" + ":", tail, c, b);
    }
  }

  predicate HasOpener(s: string) {
    exists i :: 0 <= i <= |s| && Opens(s[i..])
  }

  // The text holds a complete marker.
  predicate IsLive(s: string) {
    First(s).Some?
  }

  // Complete markers are openers with a closing bracket behind them.
  lemma {:induction false} LeadingIffCloses(s: string)
    ensures Leading(s).Some? <==> Opens(s) && ']' in s
  {
    if Opens(s) {
      var kind := KindOf(s[1..]).value;
      assert s == "[" + kind + ":" + s[|kind| + 2..] by {
        assert s[1..] == (kind + ":") + s[1..][|kind + ":"|..];
        assert s == "[" + s[1..];
        assert s[1..][|kind + ":"|..] == s[|kind| + 2..];
      }
      assert ']' !in kind;
      assert ']' in s <==> ']' in s[|kind| + 2..];
    }
  }

  lemma {:induction false} LiveIffOpenerCloses(s: string)
    ensures IsLive(s) <==> exists i :: 0 <= i <= |s| && Opens(s[i..]) && ']' in s[i..]
  {
    hide First, Leading, Opens;
    FirstFinds(s);
    forall i | 0 <= i <= |s| ensures Leading(s[i..]).Some? <==> Opens(s[i..]) && ']' in s[i..] {
      LeadingIffCloses(s[i..]);
    }
    if IsLive(s) { assert Leading(s[First(s).value.0..]).Some?; }
  }

  lemma {:induction false} SuffixAcross(a: string, c: char, b: string, i: nat)
    requires i <= |a| + 1 + |b|
    ensures (a + [c] + b)[i..] == if i <= |a| then a[i..] + [c] + b else b[i - |a| - 1..]
  {
  }

  lemma {:induction false} OpenersAcross(a: string, c: char, b: string, i: nat)
    requires BreaksOpener(c) && i <= |a| + 1 + |b|
    ensures Opens((a + [c] + b)[i..]) <==> if i <= |a| then Opens(a[i..]) else Opens(b[i - |a| - 1..])
  {
    SuffixAcross(a, c, b, i);
    if i <= |a| { OpenerStopsAt(a[i..], c, b); }
  }

  lemma {:induction false} HasOpenerAcross(a: string, c: char, b: string)
    requires BreaksOpener(c)
    ensures HasOpener(a + [c] + b) <==> HasOpener(a) || HasOpener(b)
  {
    hide Opens;
    var t := a + [c] + b;
    forall i | 0 <= i <= |t| ensures Opens(t[i..]) <==> if i <= |a| then Opens(a[i..]) else Opens(b[i - |a| - 1..]) {
      OpenersAcross(a, c, b, i);
    }
    if HasOpener(a) { var i :| 0 <= i <= |a| && Opens(a[i..]); assert Opens(t[i..]); }
    if HasOpener(b) { var i :| 0 <= i <= |b| && Opens(b[i..]); assert Opens(t[i + |a| + 1..]); }
  }

  // What is live in a text split at a character that breaks every opener.
  lemma {:induction false} LiveAcross(a: string, c: char, b: string)
    requires BreaksOpener(c) && c != ']'
    ensures IsLive(a + [c] + b) <==> IsLive(a) || (HasOpener(a) && ']' in b) || IsLive(b)
  {
    hide Opens, First;
    var t := a + [c] + b;
    LiveIffOpenerCloses(t);
    LiveIffOpenerCloses(a);
    LiveIffOpenerCloses(b);
    hide IsLive;
    forall i | 0 <= i <= |t|
      ensures Opens(t[i..]) <==> if i <= |a| then Opens(a[i..]) else Opens(b[i - |a| - 1..])
      ensures ']' in t[i..] <==> if i <= |a| then ']' in a[i..] || ']' in b else ']' in b[i - |a| - 1..]
    {
      OpenersAcross(a, c, b, i);
      SuffixAcross(a, c, b, i);
    }
    if i :| 0 <= i <= |a| && Opens(a[i..]) && (']' in a[i..] || ']' in b) {
      assert Opens(t[i..]) && ']' in t[i..];
    }
    if i :| 0 <= i <= |b| && Opens(b[i..]) && ']' in b[i..] {
      assert Opens(t[i + |a| + 1..]) && ']' in t[i + |a| + 1..];
    }
  }

  // The text outside the markers.
  function Outside(s: string): string
    decreases |s|
  {
    match First(s)
    case None => s
    case Some((i, _)) => s[..i] + Outside(AfterFirst(s))
  }

  // A payload holds the opening of a marker, and a closing bracket stands
  // outside the markers behind it.
  predicate PayloadReopens(s: string)
    decreases |s|
  {
    match First(s)
    case None => false
    case Some((_, m)) =>
      (HasOpener(m.payload) && ']' in Outside(AfterFirst(s))) || PayloadReopens(AfterFirst(s))
  }

  lemma {:induction false} ClosersStayOutside(s: string)
    ensures ']' in Neutralized(s) <==> ']' in Outside(s)
    decreases |s|
  {
    hide First, Leading, AfterFirst;
    match First(s)
    case None =>
    case Some((i, m)) =>
      ClosersStayOutside(AfterFirst(s));
      FirstHasNoCloser(s);
      assert ']' !in Inert(m);
  }

  lemma {:induction false} FirstHasNoCloser(s: string)
    requires First(s).Some?
    ensures ']' !in First(s).value.1.payload && ']' !in First(s).value.1.kind
    ensures First(s).value.1.kind in ACTIONABLE_MEDIA_MARKER_KINDS
  {
    hide First, Leading, MarkerText;
    FirstFinds(s);
    var (i, m) := First(s).value;
    assert Leading(s[i..]) == Some(m);
  }

  lemma {:induction false} OpensInLonger(a: string, b: string)
    requires Opens(a)
    ensures Opens(a + b)
  {
    var kind := KindOf(a[1..]).value;
    assert (a + b)[1..] == a[1..] + b;
    assert kind + ":" <= (a + b)[1..];
  }

  // Nothing opens in front of the first marker.
  lemma {:induction false} NothingOpensBeforeFirst(s: string)
    requires First(s).Some?
    ensures !HasOpener(s[..First(s).value.0]) && !IsLive(s[..First(s).value.0])
  {
    hide First, Leading, MarkerText, Opens;
    FirstFinds(s);
    var (i, m) := First(s).value;
    var gap := s[..i];
    forall j | 0 <= j <= i && Opens(gap[j..]) ensures Leading(s[j..]).Some? {
      assert s[j..] == gap[j..] + s[i..];
      OpensInLonger(gap[j..], s[i..]);
      LeadingIffCloses(s[i..]);
      LeadingIffCloses(s[j..]);
    }
    assert gap[i..] == "" && !Opens("") by { NothingOpensEmpty(); }
    LiveIffOpenerCloses(gap);
  }

  lemma {:induction false} NothingOpensEmpty()
    ensures !Opens("")
  {
  }

  lemma {:induction false} NoBracketNoOpener(s: string)
    requires '[' !in s
    ensures !HasOpener(s)
  {
    forall j | 0 <= j <= |s| ensures !Opens(s[j..]) {
      assert j < |s| ==> s[j..][0] in s;
    }
  }

  lemma {:induction false} NoCloserNotLive(s: string)
    requires ']' !in s
    ensures !IsLive(s)
  {
    hide Opens;
    LiveIffOpenerCloses(s);
  }

  // The inside of an inert marker opens exactly where its payload does.
  lemma {:induction false} InertInside(kind: string, payload: string)
    requires kind in ACTIONABLE_MEDIA_MARKER_KINDS && ']' !in payload && ']' !in kind
    ensures HasOpener(kind + ": " + payload) <==> HasOpener(payload)
    ensures !IsLive(kind + ": " + payload)
  {
    hide HasOpener, IsLive;
    var head := kind + ":";
    assert kind + ": " + payload == head + [' '] + payload;
    HasOpenerAcross(head, ' ', payload);
    NoBracketNoOpener(head);
    NoCloserNotLive(kind + ": " + payload);
  }

  lemma {:induction false} LiveAfterInert(gap: string, m: Marker, rest: string)
    requires m.kind in ACTIONABLE_MEDIA_MARKER_KINDS && ']' !in m.payload && ']' !in m.kind
    requires !HasOpener(gap) && !IsLive(gap)
    ensures IsLive(gap + Inert(m) + rest) <==> (HasOpener(m.payload) && ']' in rest) || IsLive(rest)
  {
    hide HasOpener, IsLive;
    var inside := m.kind + ": " + m.payload;
    assert gap + Inert(m) + rest == gap + ['('] + (inside + [')'] + rest);
    LiveAcross(gap, '(', inside + [')'] + rest);
    LiveAcross(inside, ')', rest);
    InertInside(m.kind, m.payload);
  }

  // A neutralised text still holds an actionable marker exactly when a payload
  // reopens one.
  lemma {:induction false} NeutralizingLeavesNoMarkerUnlessReopened(s: string)
    ensures IsLive(Neutralized(s)) <==> PayloadReopens(s)
    decreases |s|
  {
    if First(s).Some? {
      var (i, m) := First(s).value;
      var rest := AfterFirst(s);
      NeutralizingLeavesNoMarkerUnlessReopened(rest);
      NothingOpensBeforeFirst(s);
      FirstHasNoCloser(s);
      ClosersStayOutside(rest);
      hide First, Leading, IsLive, HasOpener;
      LiveAfterInert(s[..i], m, Neutralized(rest));
    }
  }

  lemma {:induction false} PlainPayloadsReopenNothing(s: string)
    requires forall m :: m in Markers(s) ==> '[' !in m.payload
    ensures !PayloadReopens(s)
    decreases |s|
  {
    if First(s).Some? {
      var (i, m) := First(s).value;
      assert m in Markers(s);
      NoBracketNoOpener(m.payload);
      PlainPayloadsReopenNothing(AfterFirst(s));
    }
  }

  // With bracket-free payloads no actionable marker is left; and a second pass
  // changes nothing exactly when none is.
  lemma {:induction false} NeutralizingDefangs(s: string)
    ensures (forall m :: m in Markers(s) ==> '[' !in m.payload) ==> !IsLive(Neutralized(s))
    ensures Neutralized(Neutralized(s)) == Neutralized(s) <==> !PayloadReopens(s)
  {
    NeutralizingLeavesNoMarkerUnlessReopened(s);
    if forall m :: m in Markers(s) ==> '[' !in m.payload { PlainPayloadsReopenNothing(s); }
    NeutralizingRewritesOnlyMarkers(Neutralized(s));
  }

  lemma {:induction false} OpenerInPayload(x: string)
    ensures HasOpener("[" + ("IMAGE" + ":" + x))
  {
    var payload := "[" + ("IMAGE" + ":" + x);
    assert payload[1..] == "IMAGE" + ":" + x && payload[0..] == payload;
    KindAtStart("IMAGE", x);
    assert Opens(payload);
  }

  // A payload can reopen a marker: a marker around a half-open one is rewritten
  // into a text whose actionable marker the input did not have.
  lemma {:induction false} NeutralizingCanForge(x: string, tail: string)
    requires ']' !in x && ']' in tail && '[' !in tail
    ensures var m := Marker("IMAGE", "[" + ("IMAGE" + ":" + x));
            Markers(MarkerText(m) + tail) == [m] && IsLive(Neutralized(MarkerText(m) + tail))
  {
    var m := Marker("IMAGE", "[" + ("IMAGE" + ":" + x));
    LeadingOfText(m, tail);
    OpenerInPayload(x);
    NoBracketNoOpener(tail);
    LiveIffOpenerCloses(tail);
    hide First, Leading, MarkerText, AfterFirst, HasOpener;
    NothingFirstIsOutside(tail);
    NeutralizingLeavesNoMarkerUnlessReopened(MarkerText(m) + tail);
  }

  lemma {:induction false} NothingFirstIsOutside(tail: string)
    requires !HasOpener(tail)
    ensures Markers(tail) == [] && Outside(tail) == tail
  {
    LiveIffOpenerCloses(tail);
  }
}
