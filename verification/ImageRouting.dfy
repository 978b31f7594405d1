// `project_image_markers_for_routing`, and how the references the parser
// extracts lie in the markers the general scanner finds.
module ImageRouting {
  import opened Wrappers
  import opened Text
  import opened MediaMarkers
  import opened Neutralizing
  import opened Truncation
  import opened ImageMarkers
  import opened ImageRoundTrip

  // ---------------------------------------------------------------- the projection

  // An image marker that names an image.
  predicate IsLiveImage(m: Marker) {
    m.kind == "IMAGE" && !NamesNothing(Trim(m.payload))
  }

  // A live image without its payload, every other marker as it is.
  function Routed(m: Marker): string {
    if IsLiveImage(m) then "(IMAGE attachment)" else MarkerText(m)
  }

  function Projected(s: string): string
    decreases |s|
  {
    match First(s)
    case None => s
    case Some((i, m)) => s[..i] + Routed(m) + Projected(AfterFirst(s))
  }

  lemma {:induction false} UnfoldProjected(content: string, cursor: nat)
    requires cursor <= |content|
    ensures FirstFrom(content, cursor).None? ==> Projected(content[cursor..]) == content[cursor..]
    ensures FirstFrom(content, cursor).Some? ==>
            var start, m := FirstFrom(content, cursor).value.0, FirstFrom(content, cursor).value.1;
            Projected(content[cursor..])
            == content[cursor..start] + Routed(m) + Projected(content[start + |MarkerText(m)|..])
  {
    hide First, FirstFrom, AfterFirst, Routed, MarkerText;
    FirstFromSplits(content, cursor);
  }

  // What the loop has settled: `output` stands for the text up to
  // `copiedThrough`, and the markers up to `searchFrom` stay as they are.
  ghost predicate ProjectedTo(content: string, output: string, copiedThrough: nat, searchFrom: nat) {
    && copiedThrough <= searchFrom <= |content|
    && output + content[copiedThrough..searchFrom] + Projected(content[searchFrom..]) == Projected(content)
  }

  lemma {:induction false} NothingProjected(content: string)
    ensures ProjectedTo(content, "", 0, 0)
  {
    assert content[0..] == content;
  }

  lemma {:induction false} ProjectsAll(content: string, output: string, copiedThrough: nat, searchFrom: nat)
    requires ProjectedTo(content, output, copiedThrough, searchFrom)
    requires FirstFrom(content, searchFrom).None?
    ensures copiedThrough <= |content| && output + content[copiedThrough..] == Projected(content)
  {
    hide FirstFrom, Projected;
    UnfoldProjected(content, searchFrom);
    assert content[copiedThrough..] == content[copiedThrough..searchFrom] + content[searchFrom..];
  }

  lemma {:induction false} ProjectsOne(content: string, output: string, copiedThrough: nat, searchFrom: nat)
    requires ProjectedTo(content, output, copiedThrough, searchFrom)
    requires FirstFrom(content, searchFrom).Some?
    ensures copiedThrough <= FirstFrom(content, searchFrom).value.0
    ensures var (start, m) := FirstFrom(content, searchFrom).value;
            var end := start + |MarkerText(m)|;
            if IsLiveImage(m)
            then ProjectedTo(content, output + content[copiedThrough..start] + "(IMAGE attachment)", end, end)
            else ProjectedTo(content, output, copiedThrough, end)
  {
    hide First, FirstFrom, Projected, MarkerText, IsLiveImage;
    UnfoldProjected(content, searchFrom);
    var (start, m) := FirstFrom(content, searchFrom).value;
    var end := start + |MarkerText(m)|;
    MarkerStands(content, searchFrom);
    var before, gap, rest := content[copiedThrough..searchFrom], content[searchFrom..start], Projected(content[end..]);
    assert content[copiedThrough..start] == before + gap;
    assert content[copiedThrough..end] == (before + gap) + MarkerText(m);
    assert content[end..end] == "";
    Regrouped(output, before, gap, Routed(m), rest);
  }

  lemma {:induction false} Regrouped(output: string, before: string, gap: string, shown: string, rest: string)
    ensures output + before + (gap + shown + rest) == output + (before + gap) + shown + "" + rest
    ensures output + before + (gap + shown + rest) == output + ((before + gap) + shown) + rest
  {
  }

  lemma {:induction false} MarkerStands(content: string, from: nat)
    requires from <= |content| && FirstFrom(content, from).Some?
    ensures var (start, m) := FirstFrom(content, from).value;
            content[start..start + |MarkerText(m)|] == MarkerText(m)
  {
    hide First, MarkerText, FirstFrom;
    AfterMarkerFrom(content, from);
    var (start, m) := FirstFrom(content, from).value;
    var rest := content[from..];
    FirstSplits(rest);
    assert rest[start - from..][..|MarkerText(m)|] == MarkerText(m);
  }

  method ProjectImageMarkersForRouting(content: string) returns (out: string)
    ensures out == Projected(content)
  {
    hide FirstFrom, Projected, MarkerText, ProjectedTo, Trim, IsPlaceholderReference;
    var searchFrom: nat, copiedThrough: nat := 0, 0;
    var projected: Option<string> := None;
    NothingProjected(content);
    var span := FindMediaMarker(content, searchFrom);
    while span.Some?
      invariant searchFrom <= |content| && span == FirstFrom(content, searchFrom)
      invariant copiedThrough <= searchFrom && (projected.None? ==> copiedThrough == 0)
      invariant ProjectedTo(content, if projected.Some? then projected.value else "", copiedThrough, searchFrom)
      decreases |content| - searchFrom
    {
      ghost var output := if projected.Some? then projected.value else "";
      ProjectsOne(content, output, copiedThrough, searchFrom);
      var (start, m) := span.value;
      MarkerTextIsNotEmpty(m);
      searchFrom := start + |MarkerText(m)|;
      var payload := Trim(m.payload);
      if !(m.kind != "IMAGE" || payload == "" || IsPlaceholderReference(payload)) {
        var soFar := if projected.Some? then projected.value else "";
        projected := Some(soFar + content[copiedThrough..start] + "(IMAGE attachment)");
        copiedThrough := searchFrom;
      }
      span := FindMediaMarker(content, searchFrom);
    }
    ProjectsAll(content, if projected.Some? then projected.value else "", copiedThrough, searchFrom);
    match projected {
      case None =>
        assert content[0..] == content && "" + content == content;
        out := content;
      case Some(output) => out := output + content[copiedThrough..];
    }
  }

  // The projection rewrites the live images and leaves everything else in order.
  lemma {:induction false} ProjectingRewritesOnlyLiveImages(s: string)
    ensures Write(Pieces(s), Routed) == Projected(s)
    ensures Write(Pieces(s), MarkerText) == s && Medias(Pieces(s)) == Markers(s)
    decreases |s|
  {
    hide MarkerText, IsLiveImage;
    NeutralizingRewritesOnlyMarkers(s);
    match First(s)
    case None =>
      assert Write([], Routed) == "";
    case Some((i, m)) =>
      ProjectingRewritesOnlyLiveImages(AfterFirst(s));
      WriteTwo(s[..i], m, Pieces(AfterFirst(s)), Routed);
  }

  // ---------------------------------------------------------------- parser and scanner

  // The references the parser reads inside one marker: that of an image marker,
  // and those a marker of another kind encloses.
  function RefsIn(m: Marker): seq<string> {
    if m.kind == "IMAGE" then Reference(m.payload) else Refs(m.payload + "]")
  }

  function RefsOf(markers: seq<Marker>): seq<string> {
    if markers == [] then [] else RefsIn(markers[0]) + RefsOf(markers[1..])
  }

  // Text in front of which no image prefix starts yields no reference.
  lemma {:induction false} SkipsToPrefix(s: string, k: nat)
    requires k <= |s| && NoneBefore(s, IMAGE_MARKER_PREFIX, k)
    ensures Refs(s) == Refs(s[k..])
  {
    hide Reference, Find, OccursAt;
    var p := IMAGE_MARKER_PREFIX;
    FindFinds(s[k..], p);
    forall j: nat ensures OccursAt(s[k..], p, j) <==> OccursAt(s, p, k + j) { OccursAtDrop(s, p, k, j); }
    if Find(s[k..], p).Some? {
      var i := Find(s[k..], p).value;
      assert NoneBefore(s, p, k + i) by {
        forall j: nat | j < k + i ensures !OccursAt(s, p, j) {
          if j >= k { assert !OccursAt(s[k..], p, j - k); }
        }
      }
      FindIs(s, p, k + i);
      NextShifts(s, k);
    } else {
      assert NoneBefore(s, p, |s| + 1) by {
        forall j: nat | j < |s| + 1 ensures !OccursAt(s, p, j) {
          if j >= k { assert !OccursAt(s[k..], p, j - k); }
        }
      }
      FindIsNone(s, p);
    }
  }

  lemma {:induction false} NextShifts(s: string, k: nat)
    requires k <= |s| && Find(s[k..], IMAGE_MARKER_PREFIX).Some?
    requires Find(s, IMAGE_MARKER_PREFIX) == Some(k + Find(s[k..], IMAGE_MARKER_PREFIX).value)
    ensures Refs(s) == Refs(s[k..])
  {
    hide Reference, Remains, Refs, Cleaned, Dangling, NextImage, EndOf, Find;
    NextImageShifts(s, k);
    if NextImage(s[k..]).value.1.None? {
      ParseEnds(s);
      ParseEnds(s[k..]);
    } else {
      var i, raw := NextImage(s[k..]).value.0, NextImage(s[k..]).value.1.value;
      ParseSteps(s, k + i, raw);
      ParseSteps(s[k..], i, raw);
      EndIs(i, raw);
      EndIs(k + i, raw);
      SlicesOfSuffix(s, k, EndOf(i, raw));
      assert s[EndOf(k + i, raw)..] == s[k..][EndOf(i, raw)..];
    }
  }

  lemma {:induction false} NextImageShifts(s: string, k: nat)
    requires k <= |s| && Find(s[k..], IMAGE_MARKER_PREFIX).Some?
    requires Find(s, IMAGE_MARKER_PREFIX) == Some(k + Find(s[k..], IMAGE_MARKER_PREFIX).value)
    ensures NextImage(s[k..]).Some?
    ensures NextImage(s) == Some((k + NextImage(s[k..]).value.0, NextImage(s[k..]).value.1))
  {
    hide Find, IndexOf;
    SlicesOfSuffix(s, k, Find(s[k..], IMAGE_MARKER_PREFIX).value + |IMAGE_MARKER_PREFIX|);
  }

  // An image prefix opens a media marker, of the image kind and no other.
  lemma {:induction false} PrefixOpens(s: string, j: nat)
    requires OccursAt(s, IMAGE_MARKER_PREFIX, j)
    ensures j < |s| && Opens(s[j..])
  {
    var n := |IMAGE_MARKER_PREFIX|;
    assert s[j..][..n] == s[j..j + n];
    assert s[j..][1..][..n - 1] == s[j..j + n][1..];
  }

  // Every closed prefix is a marker, so none lies in front of the first marker.
  lemma {:induction false} NoPrefixBeforeFirst(s: string)
    requires First(s).Some?
    ensures NoneBefore(s, IMAGE_MARKER_PREFIX, First(s).value.0)
  {
    hide First, Leading, Opens, OccursAt, MarkerText;
    FirstFinds(s);
    var i := First(s).value.0;
    forall j: nat | j < i && OccursAt(s, IMAGE_MARKER_PREFIX, j) ensures Leading(s[j..]).Some? {
      PrefixOpens(s, j);
      LeadingIffCloses(s[i..]);
      assert s[j..][i - j..] == s[i..];
      LeadingIffCloses(s[j..]);
    }
  }

  lemma {:induction false} ClosedImageIsMarker(s: string)
    requires NextImage(s).Some? && NextImage(s).value.1.Some?
    ensures NextImage(s).value.0 < |s| && Leading(s[NextImage(s).value.0..]).Some?
  {
    hide Leading, Opens, OccursAt, Find, IndexOf;
    var i := NextImage(s).value.0;
    FindFinds(s, IMAGE_MARKER_PREFIX);
    PrefixOpens(s, i);
    var n := |IMAGE_MARKER_PREFIX|;
    assert s[i + n..] == s[i..][n..];
    assert ']' in s[i + n..];
    LeadingIffCloses(s[i..]);
  }

  lemma {:induction false} NoMarkerNoRefs(s: string)
    requires First(s).None?
    ensures Refs(s) == []
  {
    hide First, Leading, NextImage;
    FirstFinds(s);
    if NextImage(s).Some? && NextImage(s).value.1.Some? {
      ClosedImageIsMarker(s);
      assert false;
    }
    ParseEnds(s);
  }

  // Inside a marker of another kind the parser may find an image marker, closed
  // by the same bracket.
  lemma {:induction false} RefsInsidePayload(payload: string, rest: string)
    requires ']' !in payload
    ensures Refs(payload + "]" + rest) == Refs(payload + "]") + Refs(rest)
  {
    hide Find, Reference, Remains, IndexOf, Refs, Cleaned, Dangling, EndOf;
    NothingToParse();
    var p := payload + "]";
    assert p + "" == p && payload + [']'] + rest == p + rest;
    var found := Find(payload, IMAGE_MARKER_PREFIX);
    if found.Some? {
      var raw := payload[found.value + |IMAGE_MARKER_PREFIX|..];
      InnerImage(payload, rest, found.value);
      InnerImage(payload, "", found.value);
      hide NextImage;
      ParseSteps(p + rest, found.value, raw);
      ParseSteps(p, found.value, raw);
    } else {
      assert NextImage(payload).None?;
      hide NextImage;
      JoinBehind(payload, ']', rest);
      JoinBehind(payload, ']', "");
    }
  }

  lemma {:induction false} InnerImage(payload: string, rest: string, i: nat)
    requires ']' !in payload && Find(payload, IMAGE_MARKER_PREFIX) == Some(i)
    ensures var raw := payload[i + |IMAGE_MARKER_PREFIX|..];
            NextImage(payload + "]" + rest) == Some((i, Some(raw)))
            && (payload + "]" + rest)[EndOf(i, raw)..] == rest
  {
    hide Find, IndexOf;
    var s, start := payload + "]" + rest, i + |IMAGE_MARKER_PREFIX|;
    var raw := payload[start..];
    FindAcross(payload, ']', rest);
    assert s[start..] == raw + "]" + rest;
    assert s[start..][..|raw|] == raw;
    IndexOfIs(s[start..], ']', |raw|);
  }

  lemma {:induction false} PrefixStarts(s: string, j: nat)
    requires OccursAt(s, IMAGE_MARKER_PREFIX, j)
    ensures s[j] == '[' && s[j + 1] == 'I'
  {
    var n := |IMAGE_MARKER_PREFIX|;
    assert s[j..j + n][0] == s[j] && s[j..j + n][1] == s[j + 1];
  }

  lemma {:induction false} OtherKindIsNoPrefix(kind: string, tail: string, j: nat)
    requires kind in ACTIONABLE_MEDIA_MARKER_KINDS && kind != "IMAGE" && j < |kind| + 2
    ensures !OccursAt("[" + (kind + ":" + tail), IMAGE_MARKER_PREFIX, j)
  {
    hide OccursAt;
    var s := "[" + (kind + ":" + tail);
    assert s[1] == kind[0] != 'I';
    assert 0 < j <= |kind| ==> s[j] == kind[j - 1] != '[';
    assert s[|kind| + 1] == ':';
    if OccursAt(s, IMAGE_MARKER_PREFIX, j) {
      PrefixStarts(s, j);
      assert false;
    }
  }

  lemma {:induction false} FirstMarkerRefs(s: string)
    requires First(s).Some?
    ensures Refs(s) == RefsIn(First(s).value.1) + Refs(AfterFirst(s))
  {
    hide First, AfterFirst, MarkerText, Refs, Reference, NoneBefore, RefsIn;
    var (i, m) := First(s).value;
    FirstSplits(s);
    FirstHasNoCloser(s);
    NoPrefixBeforeFirst(s);
    SkipsToPrefix(s, i);
    assert s[i..] == MarkerText(m) + AfterFirst(s);
    MarkerRefs(m, AfterFirst(s));
  }

  lemma {:induction false} MarkerRefs(m: Marker, rest: string)
    requires IsMarker(m)
    ensures Refs(MarkerText(m) + rest) == RefsIn(m) + Refs(rest)
  {
    hide Refs, Reference, OccursAt, NextImage, Cleaned, Dangling;
    var s := MarkerText(m) + rest;
    if m.kind == "IMAGE" {
      assert MarkerText(m) == ImageText(m.payload);
      ImageTextParses(m.payload, rest);
    } else {
      var tail := m.payload + "]" + rest;
      assert s == "[" + (m.kind + ":" + tail);
      forall j: nat | j < |m.kind| + 2 ensures !OccursAt(s, IMAGE_MARKER_PREFIX, j) {
        OtherKindIsNoPrefix(m.kind, tail, j);
      }
      assert s[|m.kind| + 2..] == tail;
      SkipsToPrefix(s, |m.kind| + 2);
      RefsInsidePayload(m.payload, rest);
    }
  }

  // Every reference the parser extracts lies in one marker of the scanner, and
  // the markers yield them in order.
  lemma {:induction false} ReferencesLieInMarkers(s: string)
    ensures Refs(s) == RefsOf(Markers(s))
    decreases |s|
  {
    hide Refs, RefsIn;
    if First(s).None? {
      NoMarkerNoRefs(s);
    } else {
      var m := First(s).value.1;
      FirstMarkerRefs(s);
      ReferencesLieInMarkers(AfterFirst(s));
      var all := Markers(s);
      assert all[0] == m && all[1..] == Markers(AfterFirst(s));
    }
  }

  // The references the routing projection stands in for.
  function RoutedRefs(markers: seq<Marker>): seq<string> {
    if markers == [] then []
    else (if IsLiveImage(markers[0]) then [Trim(markers[0].payload)] else []) + RoutedRefs(markers[1..])
  }

  // A marker of another kind whose payload holds an image prefix, with something
  // behind it that names an image.
  predicate HidesImage(m: Marker) {
    m.kind != "IMAGE"
    && match Find(m.payload, IMAGE_MARKER_PREFIX)
       case None => false
       case Some(i) => !NamesNothing(Trim(m.payload[i + |IMAGE_MARKER_PREFIX|..]))
  }

  predicate HidesNoImage(markers: seq<Marker>) {
    forall m :: m in markers ==> !HidesImage(m)
  }

  lemma {:induction false} HiddenImageIsParsed(m: Marker)
    requires IsMarker(m) && m.kind != "IMAGE"
    ensures Refs(m.payload + "]") == [] <==> !HidesImage(m)
  {
    hide Find, NamesNothing, Trim, Cleaned, Dangling, NextImage, EndOf, Refs;
    NothingToParse();
    var found := Find(m.payload, IMAGE_MARKER_PREFIX);
    assert m.payload + "]" + "" == m.payload + "]";
    if found.Some? {
      InnerImage(m.payload, "", found.value);
      ParseSteps(m.payload + "]", found.value, m.payload[found.value + |IMAGE_MARKER_PREFIX|..]);
    } else {
      assert NextImage(m.payload).None? by { NoPrefixNoImage(m.payload); }
      JoinBehind(m.payload, ']', "");
      assert m.payload + [']'] + "" == m.payload + "]";
    }
  }

  lemma {:induction false} NoPrefixNoImage(s: string)
    requires Find(s, IMAGE_MARKER_PREFIX).None?
    ensures NextImage(s).None?
  {
  }

  predicate AllMarkers(markers: seq<Marker>) {
    forall m :: m in markers ==> IsMarker(m)
  }

  lemma {:induction false} FoundMarkersAreMarkers(s: string)
    ensures AllMarkers(Markers(s))
    decreases |s|
  {
    hide First, AfterFirst;
    if First(s).Some? {
      FirstHasNoCloser(s);
      FoundMarkersAreMarkers(AfterFirst(s));
    }
  }

  lemma {:induction false} RoutedAndParsed(markers: seq<Marker>)
    requires AllMarkers(markers)
    ensures |RoutedRefs(markers)| <= |RefsOf(markers)|
    ensures RoutedRefs(markers) == RefsOf(markers) <==> HidesNoImage(markers)
    ensures |RoutedRefs(markers)| == |RefsOf(markers)| <==> HidesNoImage(markers)
  {
    hide Refs, NamesNothing, Trim, HidesImage;
    if markers != [] {
      var m, rest := markers[0], markers[1..];
      RoutedAndParsed(rest);
      assert markers == [m] + rest;
      assert HidesNoImage(markers) <==> !HidesImage(m) && HidesNoImage(rest);
      if m.kind == "IMAGE" {
        ImageHidesNone(m);
        assert RefsIn(m) == if IsLiveImage(m) then [Trim(m.payload)] else [];
      } else {
        HiddenImageIsParsed(m);
      }
    }
  }

  lemma {:induction false} ImageHidesNone(m: Marker)
    requires m.kind == "IMAGE"
    ensures !HidesImage(m)
  {
  }

  // The markers the projection leaves as they are.
  function NotLive(markers: seq<Marker>): seq<Marker> {
    if markers == [] then []
    else (if IsLiveImage(markers[0]) then [] else [markers[0]]) + NotLive(markers[1..])
  }

  // A live image leaves text that opens nothing.
  lemma {:induction false} AttachmentNoteJoins(gap: string, rest: string)
    requires !HasOpener(gap)
    ensures Markers(gap + "(IMAGE attachment)" + rest) == Markers(rest)
  {
    hide HasOpener, Markers;
    var note := "IMAGE attachment";
    NoBracketNoOpener(note);
    assert gap + "(IMAGE attachment)" + rest == gap + ['('] + (note + [')'] + rest);
    JoinShifts(gap, '(', note + [')'] + rest);
    JoinShifts(note, ')', rest);
  }

  lemma {:induction false} KeptMarkerJoins(gap: string, m: Marker, rest: string)
    requires !HasOpener(gap) && IsMarker(m)
    ensures Markers(gap + MarkerText(m) + rest) == [m] + Markers(rest)
  {
    hide First, AfterFirst, MarkerText, HasOpener, IsMarker;
    assert gap + MarkerText(m) + rest == gap + (MarkerText(m) + rest);
    MarkerBehindGap(gap, m, rest);
  }

  // Projecting takes the live images out of the marker list, and forges none.
  lemma {:induction false} ProjectingDropsLiveImages(s: string)
    ensures Markers(Projected(s)) == NotLive(Markers(s))
    decreases |s|
  {
    hide First, AfterFirst, MarkerText, HasOpener, IsLiveImage;
    if First(s).Some? {
      var (i, m) := First(s).value;
      var gap, rest := s[..i], AfterFirst(s);
      ProjectingDropsLiveImages(rest);
      NothingOpensBeforeFirst(s);
      FirstHasNoCloser(s);
      UnfoldMarkers(s);
      assert ([m] + Markers(rest))[1..] == Markers(rest);
      if IsLiveImage(m) {
        AttachmentNoteJoins(gap, Projected(rest));
      } else {
        KeptMarkerJoins(gap, m, Projected(rest));
      }
    }
  }

  lemma {:induction false} OnlyHiddenImagesRemain(markers: seq<Marker>)
    requires AllMarkers(markers)
    ensures RefsOf(NotLive(markers)) == [] <==> HidesNoImage(markers)
  {
    hide Refs, NamesNothing, Trim, HidesImage;
    if markers != [] {
      var m, rest := markers[0], markers[1..];
      OnlyHiddenImagesRemain(rest);
      assert markers == [m] + rest;
      assert HidesNoImage(markers) <==> !HidesImage(m) && HidesNoImage(rest);
      assert ([m] + NotLive(rest))[1..] == NotLive(rest) && [] + NotLive(rest) == NotLive(rest);
      if m.kind == "IMAGE" {
        ImageHidesNone(m);
        assert !IsLiveImage(m) ==> RefsIn(m) == [];
      } else {
        HiddenImageIsParsed(m);
      }
    }
  }

  lemma {:induction false} ProjectedTextHoldsNoImage(s: string)
    ensures Refs(Projected(s)) == [] <==> HidesNoImage(Markers(s))
  {
    hide Refs, Projected, HidesNoImage;
    ReferencesLieInMarkers(Projected(s));
    ProjectingDropsLiveImages(s);
    FoundMarkersAreMarkers(s);
    OnlyHiddenImagesRemain(Markers(s));
  }

  // Routing sees exactly the images the provider call resolves, and the text it
  // is given holds none of them, unless a marker of another kind encloses one.
  lemma {:induction false} RoutingSeesEveryImage(s: string)
    ensures RoutedRefs(Markers(s)) == Refs(s) <==> HidesNoImage(Markers(s))
    ensures Refs(Projected(s)) == [] <==> HidesNoImage(Markers(s))
  {
    hide Refs, Projected;
    ReferencesLieInMarkers(s);
    FoundMarkersAreMarkers(s);
    RoutedAndParsed(Markers(s));
    ProjectedTextHoldsNoImage(s);
  }

  // A document marker around an image prefix: the projection leaves it, and the
  // parser reads an image from it.
  lemma {:induction false} EnclosedImageEscapesRouting()
    ensures var s := MarkerText(Marker("DOCUMENT", IMAGE_MARKER_PREFIX + "a"));
            Refs(s) == ["a"] && RoutedRefs(Markers(s)) == [] && Projected(s) == s
  {
    var m := Marker("DOCUMENT", IMAGE_MARKER_PREFIX + "a");
    assert IsMarker(m) && m.kind != "IMAGE";
    EnclosedImage();
    hide MarkerText, Refs, Projected, IsMarker, IMAGE_MARKER_PREFIX;
    OneMarkerAlone(m);
    ReferencesLieInMarkers(MarkerText(m));
    assert [m][1..] == [] && RefsOf([]) == [] && RoutedRefs([]) == [];
    assert RefsOf([m]) == RefsIn(m) + [] == Refs(m.payload + "]");
  }

  lemma {:induction false} OneMarkerAlone(m: Marker)
    requires IsMarker(m)
    ensures Markers(MarkerText(m)) == [m] && Projected(MarkerText(m)) == Routed(m)
  {
    hide MarkerText, IsLiveImage, First, AfterFirst, Routed;
    var s := MarkerText(m);
    assert s + "" == s;
    LeadingOfText(m, "");
    UnfoldMarkers(s);
    NoCloserNoMarkers("");
    EmptyProjected();
    assert s[..0] + Routed(m) + "" == Routed(m);
  }

  lemma {:induction false} EmptyProjected()
    ensures Projected("") == ""
  {
    FirstFinds("");
  }

  lemma {:induction false} EnclosedImage()
    ensures Refs(IMAGE_MARKER_PREFIX + "a" + "]") == ["a"]
  {
    assert IMAGE_MARKER_PREFIX + "a" + "]" == ImageText("a") + "";
    assert IsReference("a") by { TrimOfTrimmed("a"); }
    hide Refs, Cleaned, ImageText, IsReference;
    NothingToParse();
    ReferenceTextParses("a", "");
  }
}
