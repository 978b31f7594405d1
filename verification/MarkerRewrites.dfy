// What the marker functions do to one written-out marker.
module MarkerRewrites {
  import opened Wrappers
  import opened Text
  import opened MediaMarkers
  import opened Neutralizing
  import opened Truncation
  import opened ImageMarkers
  import opened ImageRoundTrip
  import opened ImageRouting

  predicate IsKind(kind: string) {
    kind == "IMAGE" || kind == "DOCUMENT" || kind == "AUDIO" || kind == "VOICE" || kind == "VIDEO"
  }

  // Behind text without a bracket a written marker is the first one found.
  lemma {:induction false} WrittenMarkerIsFirst(gap: string, kind: string, payload: string, rest: string)
    requires '[' !in gap && IsKind(kind) && ']' !in payload
    ensures var s := gap + ("[" + kind + ":" + payload + "]" + rest);
            && First(s) == Some((|gap|, Marker(kind, payload))) && AfterFirst(s) == rest && s[..|gap|] == gap
  {
    var m := Marker(kind, payload);
    assert IsMarker(m);
    NoBracketNoOpener(gap);
    hide First, AfterFirst, HasOpener, IsMarker;
    assert MarkerText(m) + rest == "[" + kind + ":" + payload + "]" + rest;
    MarkerBehindGap(gap, m, rest);
  }

  lemma {:induction false} NoBracketNoMarker(s: string)
    requires '[' !in s
    ensures First(s) == None
  {
    NoBracketNoOpener(s);
    LiveIffOpenerCloses(s);
    hide First, Opens;
  }

  // Neutralising writes `[KIND:payload]` as `(KIND: payload)` and goes on behind it.
  lemma {:induction false} NeutralizesWrittenMarker(gap: string, kind: string, payload: string, rest: string)
    requires '[' !in gap && IsKind(kind) && ']' !in payload
    ensures Neutralized(gap + ("[" + kind + ":" + payload + "]" + rest))
            == gap + ("(" + kind + ": " + payload + ")") + Neutralized(rest)
    ensures Neutralized(gap) == gap
  {
    hide First, AfterFirst;
    WrittenMarkerIsFirst(gap, kind, payload, rest);
    NoBracketNoMarker(gap);
  }

  // The routing projection writes a live image as `(IMAGE attachment)`, and leaves
  // every other marker as it is.
  lemma {:induction false} ProjectsWrittenMarker(gap: string, kind: string, payload: string, rest: string)
    requires '[' !in gap && IsKind(kind) && ']' !in payload
    ensures Projected(gap + ("[" + kind + ":" + payload + "]" + rest)) ==
            gap + (if kind == "IMAGE" && exists i :: 0 <= i < |Trim(payload)| && Trim(payload)[i] != '.'
                                                     && Trim(payload)[i] != '\U{2026}'
                   then "(IMAGE attachment)" else "[" + kind + ":" + payload + "]") + Projected(rest)
    ensures Projected(gap) == gap
  {
    hide First, AfterFirst, Trim;
    WrittenMarkerIsFirst(gap, kind, payload, rest);
    NoBracketNoMarker(gap);
  }

  // Truncation carries a dropped marker over on a line of its own, if it fits.
  lemma {:induction false} ReattachesWrittenMarker(gap: string, kind: string, payload: string, rest: string,
                                                   budget: nat)
    requires '[' !in gap && IsKind(kind) && ']' !in payload
    ensures var marker := "[" + kind + ":" + payload + "]";
            Reattached(gap + (marker + rest), budget) ==
            if |marker| <= budget then "\n" + marker + Reattached(rest, budget - |marker|) else Reattached(rest, budget)
    ensures Reattached(gap, budget) == ""
  {
    hide First, AfterFirst;
    WrittenMarkerIsFirst(gap, kind, payload, rest);
    NoBracketNoMarker(gap);
  }

  // A short text is kept; a longer one is cut at most at the limit, without blanks
  // at its end, followed by an ellipsis and the markers carried over.
  lemma {:induction false} TruncatedTextIs(s: string, maxChars: nat)
    ensures |s| <= maxChars ==> Truncated(s, maxChars) == s
    ensures |s| > maxChars ==>
            exists cut: nat :: cut <= maxChars
              && Truncated(s, maxChars) == TrimEnd(s[..cut]) + "..." + Reattached(s[cut..], maxChars)
  {
    hide CutFor, TrimEnd, Reattached;
    if |s| > maxChars {
      var cut := CutFor(s, maxChars);
      assert Truncated(s, maxChars) == TrimEnd(s[..cut]) + "..." + Reattached(s[cut..], maxChars);
    }
  }

  // A written image marker yields its trimmed text as a reference, unless that is
  // empty or dots and ellipses only; then the marker stays in the text.
  lemma {:induction false} ParsesWrittenImage(gap: string, raw: string, rest: string)
    requires '[' !in gap && ']' !in raw
    ensures var s := gap + ("[IMAGE:" + raw + "]" + rest);
            if exists i :: 0 <= i < |Trim(raw)| && Trim(raw)[i] != '.' && Trim(raw)[i] != '\U{2026}'
            then Refs(s) == [Trim(raw)] + Refs(rest) && Cleaned(s) == gap + Cleaned(rest)
            else Refs(s) == Refs(rest) && Cleaned(s) == gap + ("[IMAGE:" + raw + "]") + Cleaned(rest)
    ensures Refs(gap) == [] && Cleaned(gap) == gap
  {
    hide Trim, Refs, Cleaned, Dangling, NextImage, EndOf, Reference, Remains;
    WrittenImageIsNext(gap, raw, rest);
    ParseSteps(gap + ("[IMAGE:" + raw + "]" + rest), |gap|, raw);
    ParseEnds(gap);
    ImageYields(gap, raw, Cleaned(rest));
    assert [] + Refs(rest) == Refs(rest);
  }

  lemma {:induction false} ImageYields(gap: string, raw: string, after: string)
    ensures if exists i :: 0 <= i < |Trim(raw)| && Trim(raw)[i] != '.' && Trim(raw)[i] != '\U{2026}'
            then Reference(raw) == [Trim(raw)] && gap + Remains(raw) + after == gap + after
            else Reference(raw) == [] && Remains(raw) == "[IMAGE:" + raw + "]"
  {
    hide Trim;
  }

  lemma {:induction false} WrittenImageIsNext(gap: string, raw: string, rest: string)
    requires '[' !in gap && ']' !in raw
    ensures var s := gap + ("[IMAGE:" + raw + "]" + rest);
            && NextImage(s) == Some((|gap|, Some(raw))) && s[EndOf(|gap|, raw)..] == rest && s[..|gap|] == gap
    ensures NextImage(gap) == None
  {
    hide Find, IndexOf, OccursAt;
    var s, p := gap + ("[IMAGE:" + raw + "]" + rest), IMAGE_MARKER_PREFIX;
    forall j: nat | j < |gap| ensures !OccursAt(s, p, j) && !OccursAt(gap, p, j) {
      assert s[j] == gap[j] && gap[j] in gap;
      NoBracketNoPrefix(s, j);
      NoBracketNoPrefix(gap, j);
    }
    assert OccursAt(s, p, |gap|) by { PrefixStands(gap, raw, rest); }
    FindIs(s, p, |gap|);
    forall j: nat | |gap| <= j ensures !OccursAt(gap, p, j) { TooShort(gap, j); }
    FindIsNone(gap, p);
    assert s[|gap| + 7..] == raw + "]" + rest;
    assert s[|gap| + 7..][..|raw|] == raw;
    IndexOfIs(s[|gap| + 7..], ']', |raw|);
  }

  lemma {:induction false} NoBracketNoPrefix(s: string, j: nat)
    requires j < |s| && s[j] != '['
    ensures !OccursAt(s, IMAGE_MARKER_PREFIX, j)
  {
    hide OccursAt;
    if OccursAt(s, IMAGE_MARKER_PREFIX, j) {
      PrefixStarts(s, j);
      assert false;
    }
  }

  lemma {:induction false} PrefixStands(gap: string, raw: string, rest: string)
    ensures OccursAt(gap + ("[IMAGE:" + raw + "]" + rest), IMAGE_MARKER_PREFIX, |gap|)
  {
    var s := gap + ("[IMAGE:" + raw + "]" + rest);
    assert s[|gap|..|gap| + 7] == "[IMAGE:";
  }

  lemma {:induction false} TooShort(gap: string, j: nat)
    requires |gap| <= j
    ensures !OccursAt(gap, IMAGE_MARKER_PREFIX, j)
  {
  }

  // A composed message: the text, an empty line, one marker on each line.
  lemma {:induction false} ComposedTextIs(trimmed: string, uris: seq<string>, uri: string)
    ensures Composed(trimmed, []) == if trimmed == "" then "" else trimmed + "\n\n"
    ensures Composed(trimmed, uris + [uri])
            == Composed(trimmed, uris) + (if uris == [] then "" else "\n") + ("[IMAGE:" + uri + "]")
  {
    NothingComposed(trimmed);
    hide Attachments, Heading;
    var all := uris + [uri];
    assert all[..|uris|] == uris && all[..|uris| + 1] == all;
    AttachmentsGrow(Heading(trimmed), all, |uris|);
    Bracketed(Composed(trimmed, uris) + (if uris == [] then "" else "\n"), uri);
    assert uris == [] ==> Composed(trimmed, uris) + "" == Composed(trimmed, uris);
  }

  lemma {:induction false} NothingComposed(trimmed: string)
    ensures Composed(trimmed, []) == if trimmed == "" then "" else trimmed + "\n\n"
  {
  }

  lemma {:induction false} Bracketed(before: string, uri: string)
    ensures before + IMAGE_MARKER_PREFIX + uri + "]" == before + ("[IMAGE:" + uri + "]")
  {
  }
}
