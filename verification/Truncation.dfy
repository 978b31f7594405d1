// `truncate_preserving_media_markers`: cutting a text without cutting a marker.
module Truncation {
  import opened Wrappers
  import opened Text
  import opened MediaMarkers
  import opened Neutralizing

  // ---------------------------------------------------------------- markers of joined texts

  // The text after the last marker.
  function Tail(s: string): string
    decreases |s|
  {
    if First(s).None? then s else Tail(AfterFirst(s))
  }

  lemma {:induction false} LeadingInLonger(a: string, b: string)
    requires Leading(a).Some?
    ensures Leading(a + b).Some?
  {
    LeadingIffCloses(a);
    LeadingIffCloses(a + b);
    OpensInLonger(a, b);
  }

  // Where nothing stands before `k`, the first marker is the first from `k` on.
  lemma {:induction false} FirstShifts(s: string, k: nat)
    requires k <= |s| && NoMarkerBefore(s, k)
    ensures First(s).Some? <==> First(s[k..]).Some?
    ensures First(s).Some? ==> First(s) == Some((k + First(s[k..]).value.0, First(s[k..]).value.1))
                               && AfterFirst(s) == AfterFirst(s[k..])
    ensures Markers(s) == Markers(s[k..])
  {
    hide First, Leading, MarkerText;
    FirstFinds(s[k..]);
    assert forall j :: 0 <= j <= |s| - k ==> s[k..][j..] == s[k + j..];
    if First(s[k..]).Some? {
      var (i, m) := First(s[k..]).value;
      assert NoMarkerBefore(s, k + i) by {
        forall j | k <= j < k + i ensures Leading(s[j..]) == None { assert s[j..] == s[k..][j - k..]; }
      }
      FirstIs(s, k + i);
    } else {
      forall j | k <= j <= |s| ensures Leading(s[j..]) == None { assert s[j..] == s[k..][j - k..]; }
      FirstIsNone(s);
    }
  }

  lemma {:induction false} NoOpenerNoMarker(s: string, k: nat)
    requires k <= |s| && forall j :: 0 <= j < k ==> !Opens(s[j..])
    ensures NoMarkerBefore(s, k)
  {
  }

  lemma {:induction false} GapHoldsNoMarker(gap: string, rest: string)
    requires !HasOpener(gap)
    ensures NoMarkerBefore(gap + (['['] + rest), |gap|)
  {
    var s := gap + (['['] + rest);
    forall j | 0 <= j < |gap| ensures !Opens(s[j..]) {
      assert s[j..] == gap[j..] + ['['] + rest;
      OpenerStopsAt(gap[j..], '[', rest);
    }
    NoOpenerNoMarker(s, |gap|);
  }

  lemma {:induction false} TextStartsWithBracket(m: Marker, rest: string)
    ensures MarkerText(m) + rest == ['['] + (m.kind + ":" + m.payload + "]" + rest)
  {
  }

  // A marker behind text that opens nothing is the first.
  lemma {:induction false} MarkerBehindGap(gap: string, m: Marker, rest: string)
    requires !HasOpener(gap) && IsMarker(m)
    ensures First(gap + (MarkerText(m) + rest)) == Some((|gap|, m))
    ensures AfterFirst(gap + (MarkerText(m) + rest)) == rest
  {
    hide First, Leading, AfterFirst, MarkerText, HasOpener, NoMarkerBefore;
    var s := gap + (MarkerText(m) + rest);
    TextStartsWithBracket(m, rest);
    GapHoldsNoMarker(gap, m.kind + ":" + m.payload + "]" + rest);
    LeadingOfText(m, rest);
    assert s[|gap|..] == MarkerText(m) + rest;
    FirstShifts(s, |gap|);
  }

  // A text's first marker is still the first when more text follows.
  lemma {:induction false} FirstInLonger(u: string, v: string)
    requires First(u).Some?
    ensures First(u + v) == First(u) && AfterFirst(u + v) == AfterFirst(u) + v
  {
    hide First, Leading, AfterFirst, MarkerText, HasOpener;
    var (i, m) := First(u).value;
    FirstSplits(u);
    FirstHasNoCloser(u);
    NothingOpensBeforeFirst(u);
    assert u + v == u[..i] + (MarkerText(m) + (AfterFirst(u) + v));
    MarkerBehindGap(u[..i], m, AfterFirst(u) + v);
  }

  // Joining at a character that breaks openers joins the marker lists, unless an
  // opener left dangling finds a closing bracket.
  lemma {:induction false} MarkersJoin(u: string, c: char, b: string)
    requires BreaksOpener(c) && c != ']'
    requires HasOpener(Tail(u)) ==> ']' !in b
    ensures Markers(u + [c] + b) == Markers(u) + Markers(b)
    ensures ']' !in b ==> Tail(u + [c] + b) == Tail(u) + [c] + b
    decreases |u|
  {
    var s := u + [c] + b;
    hide First, AfterFirst, HasOpener, BreaksOpener;
    if First(u).Some? {
      FirstBeforeJoint(u, c, b);
      MarkersJoin(AfterFirst(u), c, b);
    } else if ']' in b {
      JoinShifts(u, c, b);
    } else {
      LiveAcross(u, c, b);
      NoCloserNotLive(b);
    }
  }

  lemma {:induction false} FirstBeforeJoint(u: string, c: char, b: string)
    requires First(u).Some?
    ensures First(u + [c] + b) == First(u) && AfterFirst(u + [c] + b) == AfterFirst(u) + [c] + b
  {
    hide First, AfterFirst;
    FirstInLonger(u, [c] + b);
    assert u + [c] + b == u + ([c] + b);
    assert AfterFirst(u) + ([c] + b) == AfterFirst(u) + [c] + b;
  }

  lemma {:induction false} JoinShifts(u: string, c: char, b: string)
    requires BreaksOpener(c) && !HasOpener(u)
    ensures Markers(u + [c] + b) == Markers(b)
  {
    hide First, Leading, Markers;
    var s := u + [c] + b;
    forall j | 0 <= j < |u| + 1 ensures !Opens(s[j..]) { OpenersAcross(u, c, b, j); }
    NoOpenerNoMarker(s, |u| + 1);
    FirstShifts(s, |u| + 1);
    assert s[|u| + 1..] == b;
  }

  // ---------------------------------------------------------------- the cut

  // The cut pulled back to the opening bracket of a marker it would slice.
  function CutFor(s: string, cut: nat): (r: nat)
    ensures r <= cut
    decreases |s|
  {
    match First(s)
    case None => cut
    case Some((i, m)) =>
      var end := i + |MarkerText(m)|;
      if i >= cut then cut
      else if end > cut then i
      else end + CutFor(AfterFirst(s), cut - end)
  }

  lemma {:induction false} CutForSteps(s: string, cut: nat)
    ensures CutFor(s, cut) ==
            if First(s).None? || First(s).value.0 >= cut then cut
            else if First(s).value.0 + |MarkerText(First(s).value.1)| > cut then First(s).value.0
            else
              var end := First(s).value.0 + |MarkerText(First(s).value.1)|;
              end + CutFor(AfterFirst(s), cut - end)
  {
    hide First, MarkerText, AfterFirst, Leading;
  }

  lemma {:induction false} OpensInPrefix(s: string, n: nat, j: nat)
    requires j <= n <= |s| && Opens(s[..n][j..])
    ensures Opens(s[j..])
  {
    assert s[j..] == s[..n][j..] + s[n..];
    OpensInLonger(s[..n][j..], s[n..]);
  }

  // A cut at `k` splits the marker list, and an opener left dangling finds no
  // closing bracket behind the cut.
  ghost predicate SplitsMarkers(s: string, k: nat) {
    && k <= |s|
    && Markers(s) == Markers(s[..k]) + Markers(s[k..])
    && (HasOpener(Tail(s[..k])) ==> ']' !in s[k..])
  }

  // A cut in front of the first marker: no marker before it, all behind it.
  lemma {:induction false} CutBeforeFirst(s: string, k: nat)
    requires k <= |s| && (First(s).Some? ==> k <= First(s).value.0)
    ensures SplitsMarkers(s, k)
  {
    hide First, Leading, Opens, Markers, HasOpener;
    NothingBeforeFirst(s, k);
    FirstShifts(s, k);
    if HasOpener(s[..k]) { DanglingOpenerFindsNoCloser(s, k); }
    FirstOfPrefix(s, k);
    NothingMarked(s[..k]);
  }

  lemma {:induction false} NothingBeforeFirst(s: string, k: nat)
    requires k <= |s| && (First(s).Some? ==> k <= First(s).value.0)
    ensures NoMarkerBefore(s, k)
  {
    hide First, Leading, MarkerText;
    FirstFinds(s);
  }

  lemma {:induction false} NothingMarked(s: string)
    requires First(s).None?
    ensures Markers(s) == [] && Tail(s) == s
  {
  }

  lemma {:induction false} FirstOfPrefix(s: string, k: nat)
    requires k <= |s| && NoMarkerBefore(s, k)
    ensures First(s[..k]).None?
  {
    hide First, Leading, Opens, MarkerText;
    if First(s[..k]).Some? {
      FirstFinds(s[..k]);
      var i := First(s[..k]).value.0;
      assert s[i..] == s[..k][i..] + s[k..];
      LeadingInLonger(s[..k][i..], s[k..]);
    }
  }

  lemma {:induction false} DanglingOpenerFindsNoCloser(s: string, k: nat)
    requires k <= |s| && NoMarkerBefore(s, k) && HasOpener(s[..k])
    ensures ']' !in s[k..]
  {
    hide Opens, Leading;
    var j :| 0 <= j <= k && Opens(s[..k][j..]);
    NothingOpensEmpty();
    assert s[..k][k..] == "";
    OpensInPrefix(s, k, j);
    LeadingIffCloses(s[j..]);
    assert s[j..] == s[..k][j..] + s[k..];
  }

  // Cutting behind the first marker keeps it first.
  lemma {:induction false} FirstInPrefix(s: string, n: nat)
    requires First(s).Some? && First(s).value.0 + |MarkerText(First(s).value.1)| <= n <= |s|
    ensures First(s[..n]) == First(s)
    ensures var end := First(s).value.0 + |MarkerText(First(s).value.1)|;
            AfterFirst(s[..n]) == AfterFirst(s)[..n - end] && s[n..] == AfterFirst(s)[n - end..]
  {
    hide First, Leading, AfterFirst, MarkerText, HasOpener;
    var (i, m) := First(s).value;
    FirstSplits(s);
    FirstHasNoCloser(s);
    NothingOpensBeforeFirst(s);
    var rest := AfterFirst(s)[..n - i - |MarkerText(m)|];
    assert s[..n] == s[..i] + (MarkerText(m) + rest);
    MarkerBehindGap(s[..i], m, rest);
  }

  lemma {:induction false} PrefixUnfolds(s: string, n: nat)
    requires First(s).Some? && n <= |AfterFirst(s)|
    ensures var k := First(s).value.0 + |MarkerText(First(s).value.1)| + n;
            && k <= |s| && s[k..] == AfterFirst(s)[n..]
            && Markers(s[..k]) == [First(s).value.1] + Markers(AfterFirst(s)[..n])
            && Tail(s[..k]) == Tail(AfterFirst(s)[..n])
  {
    hide First, MarkerText, HasOpener, Markers, Tail;
    var k := First(s).value.0 + |MarkerText(First(s).value.1)| + n;
    FirstInPrefix(s, k);
    hide AfterFirst;
    UnfoldMarkers(s[..k]);
  }

  lemma {:induction false} SplitsAfterFirst(s: string, n: nat)
    requires First(s).Some? && SplitsMarkers(AfterFirst(s), n)
    ensures SplitsMarkers(s, First(s).value.0 + |MarkerText(First(s).value.1)| + n)
  {
    hide First, AfterFirst, MarkerText, HasOpener, Markers, Tail;
    PrefixUnfolds(s, n);
    UnfoldMarkers(s);
    var rest := AfterFirst(s);
    assert [First(s).value.1] + Markers(rest) == [First(s).value.1] + Markers(rest[..n]) + Markers(rest[n..]);
  }

  lemma {:induction false} UnfoldMarkers(s: string)
    requires First(s).Some?
    ensures Markers(s) == [First(s).value.1] + Markers(AfterFirst(s)) && Tail(s) == Tail(AfterFirst(s))
  {
  }

  // The pulled cut splits the marker list, and an opener it leaves dangling
  // finds no closing bracket behind it.
  lemma {:induction false} CutSplitsMarkers(s: string, cut: nat)
    requires cut <= |s|
    ensures SplitsMarkers(s, CutFor(s, cut))
    decreases |s|
  {
    hide First, MarkerText, AfterFirst, SplitsMarkers, CutFor;
    CutForSteps(s, cut);
    if First(s).None? || First(s).value.0 >= cut || First(s).value.0 + |MarkerText(First(s).value.1)| > cut {
      CutBeforeFirst(s, CutFor(s, cut));
    } else {
      var end := First(s).value.0 + |MarkerText(First(s).value.1)|;
      FirstSplits(s);
      CutSplitsMarkers(AfterFirst(s), cut - end);
      SplitsAfterFirst(s, CutFor(AfterFirst(s), cut - end));
    }
  }

  // The cut only moves to keep a marker whole.
  lemma {:induction false} CutMovesForAMarker(s: string, cut: nat)
    requires cut <= |s| && CutFor(s, cut) < cut
    ensures var k := CutFor(s, cut);
            First(s[k..]).Some? && First(s[k..]).value.0 == 0 && k + |MarkerText(First(s[k..]).value.1)| > cut
    decreases |s|
  {
    hide First, MarkerText, AfterFirst, Leading;
    var (i, m) := First(s).value;
    var end := i + |MarkerText(m)|;
    if end > cut {
      FirstFinds(s);
      FirstShifts(s, i);
    } else {
      FirstSplits(s);
      CutMovesForAMarker(AfterFirst(s), cut - end);
      assert s[CutFor(s, cut)..] == AfterFirst(s)[CutFor(AfterFirst(s), cut - end)..];
    }
  }

  // ---------------------------------------------------------------- the markers carried over

  // The markers that fit the budget, first come first served.
  function Fitting(markers: seq<Marker>, budget: nat): seq<Marker> {
    if markers == [] then []
    else
      var size := |MarkerText(markers[0])|;
      if size > budget then Fitting(markers[1..], budget)
      else [markers[0]] + Fitting(markers[1..], budget - size)
  }

  // The markers of `s` that fit the budget, each on a line of its own.
  function Reattached(s: string, budget: nat): string
    decreases |s|
  {
    match First(s)
    case None => ""
    case Some((_, m)) =>
      var text := MarkerText(m);
      if |text| > budget then Reattached(AfterFirst(s), budget)
      else "\n" + text + Reattached(AfterFirst(s), budget - |text|)
  }

  lemma {:induction false} MarkersOfLine(m: Marker, rest: string)
    requires IsMarker(m)
    ensures Markers("\n" + MarkerText(m) + rest) == [m] + Markers(rest)
  {
    hide First, MarkerText, AfterFirst;
    assert "\n" + MarkerText(m) + rest == "" + ['\n'] + (MarkerText(m) + rest);
    NoBracketNoOpener("");
    JoinShifts("", '\n', MarkerText(m) + rest);
    LeadingOfText(m, rest);
  }

  lemma {:induction false} ReattachedMarkers(s: string, budget: nat)
    ensures Markers(Reattached(s, budget)) == Fitting(Markers(s), budget)
    decreases |s|
  {
    hide First, MarkerText, AfterFirst;
    if First(s).None? {
      NoCloserNotLive("");
    } else {
      var (_, m) := First(s).value;
      FirstHasNoCloser(s);
      var text := MarkerText(m);
      if |text| > budget {
        ReattachedMarkers(AfterFirst(s), budget);
      } else {
        ReattachedMarkers(AfterFirst(s), budget - |text|);
        MarkersOfLine(m, Reattached(AfterFirst(s), budget - |text|));
      }
    }
  }

  // A marker takes eight characters at least, so the line breaks add an eighth.
  lemma {:induction false} ReattachedLength(s: string, budget: nat)
    ensures |Reattached(s, budget)| <= budget + budget / 8
    decreases |s|
  {
    hide First, MarkerText, AfterFirst;
    if First(s).Some? {
      var m := First(s).value.1;
      FirstHasNoCloser(s);
      MarkerTakesEight(m);
      var size := |MarkerText(m)|;
      if size > budget {
        ReattachedLength(AfterFirst(s), budget);
      } else {
        ReattachedLength(AfterFirst(s), budget - size);
        assert budget / 8 >= (budget - size) / 8 + 1;
      }
    }
  }

  lemma {:induction false} MarkerTakesEight(m: Marker)
    requires m.kind in ACTIONABLE_MEDIA_MARKER_KINDS
    ensures |MarkerText(m)| >= 8
  {
  }

  // ---------------------------------------------------------------- the truncated text

  function Truncated(s: string, maxChars: nat): string {
    if |s| <= maxChars then s
    else
      var cut := CutFor(s, maxChars);
      TrimEnd(s[..cut]) + ELLIPSIS + Reattached(s[cut..], maxChars)
  }

  // Trailing whitespace holds no marker and closes none.
  lemma {:induction false} MarkersOfTrimmed(s: string)
    ensures Markers(TrimEnd(s)) == Markers(s)
    ensures HasOpener(Tail(TrimEnd(s))) ==> HasOpener(Tail(s))
  {
    hide TrimEnd, HasOpener, Markers, Tail, First;
    var kept := TrimEnd(s);
    if |kept| < |s| {
      var c, b := s[|kept|], s[|kept| + 1..];
      assert s == kept + [c] + b;
      assert s[|kept|..] == [c] + b;
      WhitespaceClosesNothing(s[|kept|..]);
      assert c in s[|kept|..] && forall x :: x in b ==> x in s[|kept|..];
      MarkersJoin(kept, c, b);
      NoCloserNoMarkers(b);
      HasOpenerAcross(Tail(kept), c, b);
    } else {
      assert kept == s;
    }
  }

  lemma {:induction false} WhitespaceClosesNothing(s: string)
    requires AllWhitespace(s)
    ensures forall x :: x in s ==> BreaksOpener(x) && x != ']'
  {
  }

  lemma {:induction false} NoCloserNoMarkers(s: string)
    requires ']' !in s
    ensures Markers(s) == []
  {
    NoCloserNotLive(s);
  }

  lemma {:induction false} MarkersOfEllipsisAnd(rest: string)
    ensures Markers(".." + rest) == Markers(rest)
  {
    NoBracketNoOpener("");
    assert ".." + rest == "" + ['.'] + ("." + rest) && "." + rest == "" + ['.'] + rest;
    JoinShifts("", '.', "." + rest);
    JoinShifts("", '.', rest);
  }

  // Truncation never slices and never forges a marker: the markers of the result
  // are the whole markers of the kept prefix, followed by the dropped ones that
  // fit the budget.
  lemma {:induction false} TruncationKeepsMarkersWhole(s: string, maxChars: nat)
    requires maxChars < |s|
    ensures var cut := CutFor(s, maxChars);
            && Markers(s) == Markers(s[..cut]) + Markers(s[cut..])
            && Markers(Truncated(s, maxChars)) == Markers(s[..cut]) + Fitting(Markers(s[cut..]), maxChars)
  {
    hide First, HasOpener, TrimEnd, CutFor, Reattached, Tail, Markers;
    var cut := CutFor(s, maxChars);
    CutSplitsMarkers(s, maxChars);
    MarkersOfTrimmed(s[..cut]);
    ReattachedMarkers(s[cut..], maxChars);
    NothingReattached(s[cut..], maxChars);
    MarkersAcrossEllipsis(TrimEnd(s[..cut]), Reattached(s[cut..], maxChars));
  }

  lemma {:induction false} MarkersAcrossEllipsis(kept: string, more: string)
    requires HasOpener(Tail(kept)) ==> ']' !in more
    ensures Markers(kept + ELLIPSIS + more) == Markers(kept) + Markers(more)
  {
    hide First, HasOpener, Tail, Markers;
    assert kept + ELLIPSIS + more == kept + ['.'] + (".." + more);
    MarkersOfEllipsisAnd(more);
    MarkersJoin(kept, '.', ".." + more);
  }

  lemma {:induction false} NothingReattached(s: string, budget: nat)
    ensures ']' !in s ==> Reattached(s, budget) == ""
  {
    if ']' !in s { NoCloserNotLive(s); }
  }

  lemma {:induction false} TruncationIsBounded(s: string, maxChars: nat)
    requires maxChars < |s|
    ensures |Truncated(s, maxChars)| <= 2 * maxChars + maxChars / 8 + 3
  {
    hide CutFor, TrimEnd;
    ReattachedLength(s[CutFor(s, maxChars)..], maxChars);
  }

  // The loop that pulls the cut back.
  method PullCut(content: string, charCut: nat) returns (cut: nat)
    requires charCut <= |content|
    ensures cut == CutFor(content, charCut)
  {
    hide First, FirstFrom, MarkerText, AfterFirst, CutFor;
    var scan := 0;
    assert content[0..] == content;
    while true
      invariant scan <= charCut
      invariant scan + CutFor(content[scan..], charCut - scan) == CutFor(content, charCut)
      decreases |content| - scan
    {
      var span := FindMediaMarker(content, scan);
      if span.None? || span.value.0 >= charCut {
        CutStays(content, scan, charCut);
        return charCut;
      }
      var (start, m) := span.value;
      MarkerTextIsNotEmpty(m);
      if start + |MarkerText(m)| > charCut {
        CutPulled(content, scan, charCut);
        return start;
      }
      CutSkips(content, scan, charCut);
      scan := start + |MarkerText(m)|;
    }
  }

  lemma {:induction false} NoMarkerFrom(content: string, scan: nat)
    requires scan <= |content| && FirstFrom(content, scan).None?
    ensures First(content[scan..]).None?
  {
    hide First;
  }

  lemma {:induction false} MarkerFrom(content: string, scan: nat)
    requires scan <= |content| && FirstFrom(content, scan).Some?
    ensures First(content[scan..])
            == Some((FirstFrom(content, scan).value.0 - scan, FirstFrom(content, scan).value.1))
  {
    hide First, MarkerText;
  }

  lemma {:induction false} AfterMarkerFrom(content: string, scan: nat)
    requires scan <= |content| && FirstFrom(content, scan).Some?
    ensures var (start, m) := FirstFrom(content, scan).value;
            && First(content[scan..]) == Some((start - scan, m))
            && AfterFirst(content[scan..]) == content[start + |MarkerText(m)|..]
  {
    hide First, MarkerText, FirstFrom;
    MarkerFrom(content, scan);
    var (start, m) := FirstFrom(content, scan).value;
    SlicesOfSuffix(content, scan, start - scan + |MarkerText(m)|);
  }

  // The rest of the pull when the next marker lies behind the cut, straddles it
  // or ends before it.
  lemma {:induction false} CutStays(content: string, scan: nat, cut: nat)
    requires scan <= cut <= |content|
    requires FirstFrom(content, scan).None? || FirstFrom(content, scan).value.0 >= cut
    ensures CutFor(content[scan..], cut - scan) == cut - scan
  {
    hide First, MarkerText, AfterFirst, FirstFrom, CutFor;
    if FirstFrom(content, scan).None? { NoMarkerFrom(content, scan); } else { MarkerFrom(content, scan); }
    CutForSteps(content[scan..], cut - scan);
  }

  lemma {:induction false} CutPulled(content: string, scan: nat, cut: nat)
    requires scan <= cut <= |content| && FirstFrom(content, scan).Some?
    requires var (start, m) := FirstFrom(content, scan).value; start < cut < start + |MarkerText(m)|
    ensures CutFor(content[scan..], cut - scan) == FirstFrom(content, scan).value.0 - scan
  {
    hide First, MarkerText, AfterFirst, FirstFrom, CutFor;
    MarkerFrom(content, scan);
    CutForSteps(content[scan..], cut - scan);
  }

  lemma {:induction false} CutSkips(content: string, scan: nat, cut: nat)
    requires scan <= cut <= |content| && FirstFrom(content, scan).Some?
    requires var (start, m) := FirstFrom(content, scan).value; start < cut && start + |MarkerText(m)| <= cut
    ensures var (start, m) := FirstFrom(content, scan).value;
            var end := start + |MarkerText(m)|;
            scan + CutFor(content[scan..], cut - scan) == end + CutFor(content[end..], cut - end)
  {
    hide First, MarkerText, AfterFirst, FirstFrom, CutFor;
    AfterMarkerFrom(content, scan);
    CutForSteps(content[scan..], cut - scan);
  }

  lemma {:induction false} UnfoldReattached(content: string, scan: nat, budget: nat)
    requires scan <= |content|
    ensures var span := FirstFrom(content, scan);
            Reattached(content[scan..], budget) ==
            if span.None? then ""
            else
              var text := MarkerText(span.value.1);
              var rest := content[span.value.0 + |text|..];
              if |text| > budget then Reattached(rest, budget)
              else "\n" + text + Reattached(rest, budget - |text|)
  {
    hide First, FirstFrom, MarkerText, AfterFirst, Reattached;
    if FirstFrom(content, scan).None? { NoMarkerFrom(content, scan); } else { AfterMarkerFrom(content, scan); }
    ReattachedSteps(content[scan..], budget);
  }

  lemma {:induction false} ReattachedSteps(s: string, budget: nat)
    ensures Reattached(s, budget) ==
            if First(s).None? then ""
            else
              var text := MarkerText(First(s).value.1);
              if |text| > budget then Reattached(AfterFirst(s), budget)
              else "\n" + text + Reattached(AfterFirst(s), budget - |text|)
  {
    hide First, MarkerText, AfterFirst;
  }

  method TruncatePreservingMediaMarkers(content: string, maxChars: nat) returns (out: string)
    ensures out == Truncated(content, maxChars)
  {
    hide First, FirstFrom, MarkerText, AfterFirst, Reattached, CutFor;
    if |content| <= maxChars {
      return content;
    }
    var cut := PullCut(content, maxChars);
    out := TrimEnd(content[..cut]) + ELLIPSIS;
    var budget: nat := maxChars;
    var scan: nat := cut;
    var span := FindMediaMarker(content, scan);
    while span.Some?
      invariant scan <= |content| && span == FirstFrom(content, scan)
      invariant out + Reattached(content[scan..], budget) == Truncated(content, maxChars)
      decreases |content| - scan
    {
      UnfoldReattached(content, scan, budget);
      var (start, m) := span.value;
      var marker := MarkerText(m);
      MarkerTextIsNotEmpty(m);
      scan := start + |marker|;
      if |marker| <= budget {
        budget := budget - |marker|;
        ConcatAssociates(out, "\n", marker, Reattached(content[scan..], budget));
        out := out + "\n" + marker;
      }
      span := FindMediaMarker(content, scan);
    }
    UnfoldReattached(content, scan, budget);
  }
}
