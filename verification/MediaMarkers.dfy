// The media-marker scanner of src/multimodal.rs and what it finds in a text.
module MediaMarkers {
  import opened Wrappers
  import opened Text

  const ACTIONABLE_MEDIA_MARKER_KINDS: seq<string> := ["IMAGE", "DOCUMENT", "AUDIO", "VOICE", "VIDEO"]

  // `[kind:payload]`
  datatype Marker = Marker(kind: string, payload: string)

  function MarkerText(m: Marker): string {
    "[" + m.kind + ":" + m.payload + "]"
  }

  // The kind that opens `tail`, the text after a bracket.
  function KindOf(tail: string): (r: Option<string>)
    ensures r.Some? ==> r.value in ACTIONABLE_MEDIA_MARKER_KINDS && r.value + ":" <= tail
    ensures r.None? ==> forall kind :: kind in ACTIONABLE_MEDIA_MARKER_KINDS ==> !(kind + ":" <= tail)
  {
    if "IMAGE" + ":" <= tail then Some("IMAGE")
    else if "DOCUMENT" + ":" <= tail then Some("DOCUMENT")
    else if "AUDIO" + ":" <= tail then Some("AUDIO")
    else if "VOICE" + ":" <= tail then Some("VOICE")
    else if "VIDEO" + ":" <= tail then Some("VIDEO")
    else None
  }

  // The text starts like a marker; it may lack the closing bracket.
  predicate Opens(s: string) {
    "[" <= s && KindOf(s[1..]).Some?
  }

  // The complete marker `s` starts with.
  function Leading(s: string): (r: Option<Marker>)
    ensures r.Some? ==> MarkerText(r.value) <= s && ']' !in r.value.payload
    ensures r.Some? ==> r.value.kind in ACTIONABLE_MEDIA_MARKER_KINDS
  {
    hide KindOf, IndexOf;
    if !Opens(s) then None
    else
      var kind := KindOf(s[1..]).value;
      var rest := s[|kind| + 2..];
      match IndexOf(rest, ']')
      case None => None
      case Some(e) =>
        assert s[1..][..|kind| + 1] == kind + ":";
        Some(Marker(kind, rest[..e]))
  }

  lemma {:induction false} NothingLeads()
    ensures Leading("") == None
  {
  }

  // The first complete marker and its position.
  function First(s: string): (r: Option<(nat, Marker)>)
    ensures r.Some? ==> r.value.0 + |MarkerText(r.value.1)| <= |s|
  {
    hide MarkerText;
    if s == "" then None
    else if Leading(s).Some? then Some((0, Leading(s).value))
    else
      match First(s[1..])
      case None => None
      case Some((i, m)) => Some((i + 1, m))
  }

  lemma {:induction false} SuffixesShift(s: string)
    requires s != ""
    ensures forall j :: 0 < j <= |s| ==> s[j..] == s[1..][j - 1..]
  {
  }

  // The scan's result is a marker with none in front of it.
  lemma {:induction false} FirstFinds(s: string)
    ensures First(s).Some? ==> First(s).value.0 < |s| && Leading(s[First(s).value.0..]) == Some(First(s).value.1)
                               && NoMarkerBefore(s, First(s).value.0)
    ensures First(s).None? ==> NoMarkerBefore(s, |s| + 1)
  {
    hide Leading, MarkerText;
    assert s[0..] == s;
    if s == "" {
      NothingLeads();
    } else if Leading(s).None? {
      FirstFinds(s[1..]);
      SuffixesShift(s);
    }
  }

  predicate NoMarkerBefore(s: string, n: nat) {
    n <= |s| + 1 && forall j :: 0 <= j < n ==> Leading(s[j..]) == None
  }

  // Text after the first marker.
  function AfterFirst(s: string): (rest: string)
    requires First(s).Some?
    ensures |rest| < |s|
  {
    s[First(s).value.0 + |MarkerText(First(s).value.1)|..]
  }

  lemma {:induction false} FirstSplits(s: string)
    requires First(s).Some?
    ensures s == s[..First(s).value.0] + MarkerText(First(s).value.1) + AfterFirst(s)
  {
    hide MarkerText, Leading, First, NoMarkerBefore;
    FirstFinds(s);
    var (i, m) := First(s).value;
    var text, tail := MarkerText(m), s[i..];
    assert text <= tail;
    assert tail == text + tail[|text|..];
    assert tail[|text|..] == AfterFirst(s);
  }

  // All markers of a text, in order.
  function Markers(s: string): seq<Marker>
    decreases |s|
  {
    match First(s)
    case None => []
    case Some((_, m)) => [m] + Markers(AfterFirst(s))
  }

  // A position where a marker stands, with none before it, is the first.
  lemma {:induction false} FirstIs(s: string, i: nat)
    requires i < |s| && Leading(s[i..]).Some?
    requires NoMarkerBefore(s, i)
    ensures First(s) == Some((i, Leading(s[i..]).value))
  {
    hide Leading, MarkerText, First;
    FirstFinds(s);
  }

  lemma {:induction false} FirstIsNone(s: string)
    requires NoMarkerBefore(s, |s| + 1)
    ensures First(s) == None
  {
    hide Leading, MarkerText, First;
    FirstFinds(s);
  }

  // The marker whose opening bracket is at `start`, read in place.
  function MarkerAt(content: string, start: nat): (r: Option<Marker>)
    requires start < |content| && content[start] == '['
    ensures r == Leading(content[start..])
  {
    var s := content[start..];
    assert content[start + 1..] == s[1..];
    match KindOf(content[start + 1..])
    case None => None
    case Some(kind) =>
      var payloadStart := start + 1 + |kind| + 1;
      assert content[payloadStart..] == s[|kind| + 2..];
      match IndexOf(content[payloadStart..], ']')
      case None => None
      case Some(relEnd) =>
        assert content[payloadStart..][..relEnd] == content[payloadStart..payloadStart + relEnd];
        Some(Marker(kind, content[payloadStart..payloadStart + relEnd]))
  }

  // The first marker at or after `from`, at its position in the whole text.
  function FirstFrom(content: string, from: nat): (r: Option<(nat, Marker)>)
    ensures r.Some? ==> from <= r.value.0 && r.value.0 + |MarkerText(r.value.1)| <= |content|
  {
    if from > |content| then None
    else
      match First(content[from..])
      case None => None
      case Some((i, m)) => Some((from + i, m))
  }

  lemma {:induction false} FirstFromSplits(content: string, from: nat)
    requires from <= |content|
    ensures FirstFrom(content, from).None? <==> First(content[from..]).None?
    ensures FirstFrom(content, from).Some? ==>
            var start, m := FirstFrom(content, from).value.0, FirstFrom(content, from).value.1;
            && First(content[from..]).value.1 == m
            && content[from..][..First(content[from..]).value.0] == content[from..start]
            && AfterFirst(content[from..]) == content[start + |MarkerText(m)|..]
  {
    hide First, MarkerText;
    if First(content[from..]).Some? {
      var (i, m) := First(content[from..]).value;
      SlicesOfSuffix(content, from, i);
      SlicesOfSuffix(content, from, i + |MarkerText(m)|);
    }
  }

  // The scan has found nothing in front of `cursor`.
  ghost predicate ScannedTo(content: string, from: nat, cursor: nat) {
    from <= cursor <= |content| && NoMarkerBefore(content[from..], cursor - from)
  }

  // `find_media_marker`: the first marker at or after `from`.
  method FindMediaMarker(content: string, from: nat) returns (r: Option<(nat, Marker)>)
    ensures r == FirstFrom(content, from)
  {
    hide First, FirstFrom, Leading, MarkerAt, MarkerText, ScannedTo;
    if from > |content| {
      PastTheEnd(content, from);
      return None;
    }
    var cursor := from;
    ScanStarts(content, from);
    while true
      invariant from <= cursor <= |content|
      invariant ScannedTo(content, from, cursor)
      decreases |content| - cursor
    {
      var bracket := IndexOf(content[cursor..], '[');
      if bracket.None? {
        ScanEnds(content, from, cursor);
        return None;
      }
      var start := cursor + bracket.value;
      assert content[start] == content[cursor..][bracket.value];
      var marker := MarkerAt(content, start);
      ScanStops(content, from, cursor, bracket.value);
      if marker.Some? {
        return Some((start, marker.value));
      }
      cursor := start + 1;
    }
  }

  lemma {:induction false} PastTheEnd(content: string, from: nat)
    requires from > |content|
    ensures FirstFrom(content, from) == None
  {
  }

  lemma {:induction false} ScanStarts(content: string, from: nat)
    requires from <= |content|
    ensures ScannedTo(content, from, from)
  {
  }

  lemma {:induction false} ScanEnds(content: string, from: nat, cursor: nat)
    requires ScannedTo(content, from, cursor)
    requires forall j :: 0 <= j < |content[cursor..]| ==> content[cursor..][j] != '['
    ensures FirstFrom(content, from) == None
  {
    hide First, Leading, NoMarkerBefore;
    SlicesOfSuffix(content, from, cursor - from);
    NothingFrom(content[from..], cursor - from);
  }

  // The next bracket either starts the marker sought or moves the scan on.
  lemma {:induction false} ScanStops(content: string, from: nat, cursor: nat, skip: nat)
    requires ScannedTo(content, from, cursor) && cursor + skip < |content|
    requires forall j :: 0 <= j < skip ==> content[cursor..][j] != '['
    ensures var start := cursor + skip;
            var marker := Leading(content[start..]);
            && (marker.Some? ==> FirstFrom(content, from) == Some((start, marker.value)))
            && (marker.None? ==> ScannedTo(content, from, start + 1))
  {
    hide First, Leading, NoMarkerBefore, MarkerText;
    var s, start := content[from..], cursor + skip;
    SlicesOfSuffix(content, from, cursor - from);
    SkipTo(s, cursor - from, start - from);
    SlicesOfSuffix(content, from, start - from);
    if Leading(content[start..]).Some? {
      FirstIs(s, start - from);
    } else {
      PastNoMarker(s, start - from);
    }
  }

  lemma {:induction false} PastNoMarker(s: string, i: nat)
    requires i < |s| && NoMarkerBefore(s, i) && Leading(s[i..]) == None
    ensures NoMarkerBefore(s, i + 1)
  {
  }

  // Text without a bracket between two positions holds no marker there.
  lemma {:induction false} SkipTo(s: string, from: nat, to: nat)
    requires from <= to <= |s|
    requires NoMarkerBefore(s, from)
    requires forall j :: 0 <= j < to - from ==> s[from..][j] != '['
    ensures NoMarkerBefore(s, to)
  {
    forall j | from <= j < to ensures Leading(s[j..]) == None {
      assert s[j..][0] == s[from..][j - from];
    }
  }

  lemma {:induction false} NothingFrom(s: string, from: nat)
    requires from <= |s|
    requires NoMarkerBefore(s, from)
    requires forall j :: 0 <= j < |s| - from ==> s[from..][j] != '['
    ensures First(s) == None
  {
    SkipTo(s, from, |s|);
    assert s[|s|..] == "";
    FirstIsNone(s);
  }

  predicate IsMarker(m: Marker) {
    m.kind in ACTIONABLE_MEDIA_MARKER_KINDS && ']' !in m.payload
  }

  lemma {:induction false} KindAtStart(kind: string, rest: string)
    requires kind in ACTIONABLE_MEDIA_MARKER_KINDS
    ensures KindOf(kind + ":" + rest) == Some(kind)
  {
    var tail := kind + ":" + rest;
    assert tail[0] == kind[0] && tail[1] == kind[1] && tail[2] == kind[2];
    assert kind + ":" <= tail;
  }

  // A marker written out is read back whole, whatever follows.
  lemma {:induction false} LeadingOfText(m: Marker, rest: string)
    requires IsMarker(m)
    ensures First(MarkerText(m) + rest) == Some((0, m))
    ensures AfterFirst(MarkerText(m) + rest) == rest
  {
    var s := MarkerText(m) + rest;
    hide First, Leading, MarkerText;
    LeadingReadsText(m, rest);
    assert s[0..] == s && s[|MarkerText(m)|..] == rest;
    FirstIs(s, 0);
  }

  // A text starts with a marker exactly when it starts with its written form.
  lemma {:induction false} LeadingReadsExactlyMarkers(s: string, m: Marker)
    ensures Leading(s) == Some(m) <==>
            && (m.kind == "IMAGE" || m.kind == "DOCUMENT" || m.kind == "AUDIO" || m.kind == "VOICE"
                || m.kind == "VIDEO")
            && ']' !in m.payload && "[" + m.kind + ":" + m.payload + "]" <= s
  {
    hide Leading;
    if IsMarker(m) && MarkerText(m) <= s {
      assert s == MarkerText(m) + s[|MarkerText(m)|..];
      LeadingReadsText(m, s[|MarkerText(m)|..]);
    }
  }

  lemma {:induction false} LeadingReadsText(m: Marker, rest: string)
    requires IsMarker(m)
    ensures Leading(MarkerText(m) + rest) == Some(m) && |MarkerText(m) + rest| > 0
  {
    hide KindOf, IndexOf;
    var s := MarkerText(m) + rest;
    var tail := m.payload + "]" + rest;
    assert s == "[" + (m.kind + ":" + tail);
    assert s[1..] == m.kind + ":" + tail;
    KindAtStart(m.kind, tail);
    assert s[|m.kind| + 2..] == tail;
    FirstClosing(m.payload, rest);
    assert tail[..|m.payload|] == m.payload;
  }

  lemma {:induction false} FirstClosing(payload: string, rest: string)
    requires ']' !in payload
    ensures IndexOf(payload + "]" + rest, ']') == Some(|payload|)
  {
    var s := payload + "]" + rest;
    assert s[|payload|] == ']';
    assert forall j :: 0 <= j < |payload| ==> s[j] == payload[j];
  }
}
