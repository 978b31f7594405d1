// Image references: parsing them out of a text and composing them back.
module ImageMarkers {
  import opened Wrappers
  import opened Text
  import opened Neutralizing

  const IMAGE_MARKER_PREFIX: string := "[" + ("IMAGE" + ":")

  // What an ellipsis leaves behind in place of a reference.
  predicate IsPlaceholderReference(candidate: string) {
    candidate != "" && forall i :: 0 <= i < |candidate| ==> candidate[i] == '.' || candidate[i] == '\U{2026}'
  }

  // A candidate that names no image.
  predicate NamesNothing(candidate: string) {
    candidate == "" || IsPlaceholderReference(candidate)
  }

  // ---------------------------------------------------------------- what the parser reads

  // The next image marker: its position and, when it is closed, what it encloses.
  function NextImage(s: string): (r: Option<(nat, Option<string>)>)
    ensures r.Some? ==> r.value.0 + |IMAGE_MARKER_PREFIX| <= |s|
    ensures r.Some? && r.value.1.Some? ==> ']' !in r.value.1.value && EndOf(r.value.0, r.value.1.value) <= |s|
  {
    match Find(s, IMAGE_MARKER_PREFIX)
    case None => None
    case Some(i) =>
      var rest := s[i + |IMAGE_MARKER_PREFIX|..];
      match IndexOf(rest, ']')
      case None => Some((i, None))
      case Some(e) => Some((i, Some(rest[..e])))
  }

  // The position behind a closed image marker.
  function EndOf(start: nat, raw: string): (end: nat)
    ensures end > start
  {
    start + |IMAGE_MARKER_PREFIX| + |raw| + 1
  }

  function ImageText(raw: string): string {
    IMAGE_MARKER_PREFIX + raw + "]"
  }

  // The reference a closed image marker yields.
  function Reference(raw: string): seq<string> {
    if NamesNothing(Trim(raw)) then [] else [Trim(raw)]
  }

  // What stays in the text in place of a closed image marker.
  function Remains(raw: string): string {
    if NamesNothing(Trim(raw)) then ImageText(raw) else ""
  }

  function Refs(s: string): seq<string>
    decreases |s|
  {
    match NextImage(s)
    case None => []
    case Some((_, None)) => []
    case Some((i, Some(raw))) => Reference(raw) + Refs(s[EndOf(i, raw)..])
  }

  function Cleaned(s: string): string
    decreases |s|
  {
    match NextImage(s)
    case None => s
    case Some((_, None)) => s
    case Some((i, Some(raw))) => s[..i] + Remains(raw) + Cleaned(s[EndOf(i, raw)..])
  }

  // What follows an image prefix that is never closed.
  function Dangling(s: string): Option<string>
    decreases |s|
  {
    match NextImage(s)
    case None => None
    case Some((i, None)) => Some(s[i + |IMAGE_MARKER_PREFIX|..])
    case Some((i, Some(raw))) => Dangling(s[EndOf(i, raw)..])
  }

  lemma {:induction false} ParseEnds(s: string)
    requires NextImage(s).None? || NextImage(s).value.1.None?
    ensures Refs(s) == [] && Cleaned(s) == s
  {
  }

  lemma {:induction false} ParseSteps(s: string, i: nat, raw: string)
    requires NextImage(s) == Some((i, Some(raw)))
    ensures Refs(s) == Reference(raw) + Refs(s[EndOf(i, raw)..])
    ensures Cleaned(s) == s[..i] + Remains(raw) + Cleaned(s[EndOf(i, raw)..])
    ensures Dangling(s) == Dangling(s[EndOf(i, raw)..])
  {
    hide NextImage, Reference, Remains;
  }

  // The next image marker, at its position in the whole text.
  lemma {:induction false} NextImageFrom(content: string, cursor: nat)
    requires cursor <= |content|
    ensures var ahead := content[cursor..];
            match Find(ahead, IMAGE_MARKER_PREFIX)
            case None => NextImage(ahead) == None
            case Some(i) =>
              var markerStart := cursor + i + |IMAGE_MARKER_PREFIX|;
              match IndexOf(content[markerStart..], ']')
              case None => NextImage(ahead) == Some((i, None))
              case Some(e) =>
                var raw := content[markerStart..markerStart + e];
                && NextImage(ahead) == Some((i, Some(raw)))
                && ahead[..i] == content[cursor..cursor + i]
                && content[cursor + i..markerStart + e + 1] == ImageText(raw)
                && ahead[EndOf(i, raw)..] == content[markerStart + e + 1..]
  {
    hide Find, IndexOf;
    var ahead := content[cursor..];
    var found := Find(ahead, IMAGE_MARKER_PREFIX);
    if found.Some? {
      var i := found.value;
      FindFinds(ahead, IMAGE_MARKER_PREFIX);
      var markerStart := cursor + i + |IMAGE_MARKER_PREFIX|;
      SlicesOfSuffix(content, cursor, i);
      SlicesOfSuffix(content, cursor, i + |IMAGE_MARKER_PREFIX|);
      var closing := IndexOf(content[markerStart..], ']');
      if closing.Some? {
        var e := closing.value;
        SlicesOfSuffix(content, markerStart, e);
        SlicesOfSuffix(content, cursor, i + |IMAGE_MARKER_PREFIX| + e + 1);
        assert content[cursor + i..markerStart] == ahead[i..i + |IMAGE_MARKER_PREFIX|];
        assert content[cursor + i..markerStart + e + 1]
            == content[cursor + i..markerStart] + content[markerStart..markerStart + e] + [content[markerStart + e]];
        assert content[markerStart + e] == content[markerStart..][e];
      }
    }
  }

  // What the parser has read in front of `cursor`.
  ghost predicate ParsedTo(content: string, cursor: nat, cleaned: string, refs: seq<string>) {
    && cursor <= |content|
    && cleaned + Cleaned(content[cursor..]) == Cleaned(content)
    && refs + Refs(content[cursor..]) == Refs(content)
  }

  lemma {:induction false} ParsedNothing(content: string)
    ensures ParsedTo(content, 0, "", [])
  {
    assert content[0..] == content;
  }

  lemma {:induction false} ParsedAll(content: string, cursor: nat, cleaned: string, refs: seq<string>)
    requires ParsedTo(content, cursor, cleaned, refs)
    requires NextImage(content[cursor..]).None? || NextImage(content[cursor..]).value.1.None?
    ensures cleaned + content[cursor..] == Cleaned(content) && refs == Refs(content)
  {
    hide NextImage;
    ParseEnds(content[cursor..]);
  }

  lemma {:induction false} ParsedOneMore(content: string, cursor: nat, cleaned: string, refs: seq<string>,
                                         i: nat, raw: string)
    requires ParsedTo(content, cursor, cleaned, refs)
    requires NextImage(content[cursor..]) == Some((i, Some(raw)))
    ensures ParsedTo(content, cursor + EndOf(i, raw), cleaned + content[cursor..cursor + i] + Remains(raw),
                     refs + Reference(raw))
  {
    hide NextImage, EndOf, Refs, Cleaned, Remains, Reference;
    var ahead := content[cursor..];
    ParseSteps(ahead, i, raw);
    SlicesOfSuffix(content, cursor, EndOf(i, raw));
    SlicesOfSuffix(content, cursor, i);
    ConcatAssociates(cleaned, ahead[..i], Remains(raw), Cleaned(ahead[EndOf(i, raw)..]));
  }

  lemma {:induction false} EndIs(i: nat, raw: string)
    ensures EndOf(i, raw) == i + |IMAGE_MARKER_PREFIX| + |raw| + 1
  {
  }

  lemma {:induction false} NothingAtTheEnd(cleaned: string, content: string)
    ensures cleaned + content[|content|..] == cleaned
  {
  }

  lemma {:induction false} PiecesJoin(cleaned: string, content: string, cursor: nat, start: nat)
    requires cursor <= start <= |content|
    ensures cleaned + content[cursor..start] + content[start..] == cleaned + content[cursor..]
  {
  }

  lemma {:induction false} ClosedImage(cleaned: string, refs: seq<string>, raw: string)
    ensures NamesNothing(Trim(raw)) ==> Remains(raw) == ImageText(raw) && refs + Reference(raw) == refs
    ensures !NamesNothing(Trim(raw)) ==> cleaned + Remains(raw) == cleaned && Reference(raw) == [Trim(raw)]
  {
  }

  // One turn of the parser's loop.
  lemma {:induction false} ParsesOne(content: string, cursor: nat, cleaned: string, refs: seq<string>)
    requires cursor <= |content| && ParsedTo(content, cursor, cleaned, refs)
    ensures match Find(content[cursor..], IMAGE_MARKER_PREFIX)
            case None => cleaned + content[cursor..] == Cleaned(content) && refs == Refs(content)
            case Some(i) =>
              var start := cursor + i;
              var markerStart := start + |IMAGE_MARKER_PREFIX|;
              match IndexOf(content[markerStart..], ']')
              case None =>
                cleaned + content[cursor..start] + content[start..] == Cleaned(content) && refs == Refs(content)
              case Some(e) =>
                var candidate := Trim(content[markerStart..markerStart + e]);
                var before := cleaned + content[cursor..start];
                if NamesNothing(candidate)
                then ParsedTo(content, markerStart + e + 1, before + content[start..markerStart + e + 1], refs)
                else ParsedTo(content, markerStart + e + 1, before, refs + [candidate])
  {
    hide NextImage, Refs, Cleaned, Trim, NamesNothing, ImageText, ParsedTo, Remains, Reference, EndOf, Find, IndexOf;
    NextImageFrom(content, cursor);
    match Find(content[cursor..], IMAGE_MARKER_PREFIX)
    case None => ParsedAll(content, cursor, cleaned, refs);
    case Some(i) =>
      var start := cursor + i;
      var markerStart := start + |IMAGE_MARKER_PREFIX|;
      match IndexOf(content[markerStart..], ']')
      case None =>
        ParsedAll(content, cursor, cleaned, refs);
        PiecesJoin(cleaned, content, cursor, start);
      case Some(e) =>
        var raw := content[markerStart..markerStart + e];
        EndIs(i, raw);
        ClosedImage(cleaned + content[cursor..start], refs, raw);
        ParsedOneMore(content, cursor, cleaned, refs, i, raw);
  }

  method ParseImageMarkers(content: string) returns (text: string, refs: seq<string>)
    ensures text == Trim(Cleaned(content)) && refs == Refs(content)
  {
    hide Refs, Cleaned, Trim, IsPlaceholderReference, ParsedTo, Find, IndexOf;
    refs := [];
    var cleaned := "";
    var cursor: nat := 0;
    ParsedNothing(content);
    while true
      invariant cursor <= |content| && ParsedTo(content, cursor, cleaned, refs)
      decreases |content| - cursor
    {
      ParsesOne(content, cursor, cleaned, refs);
      var relStart := Find(content[cursor..], IMAGE_MARKER_PREFIX);
      if relStart.None? {
        break;
      }
      var start := cursor + relStart.value;
      cleaned := cleaned + content[cursor..start];
      var markerStart := start + |IMAGE_MARKER_PREFIX|;
      var relEnd := IndexOf(content[markerStart..], ']');
      if relEnd.None? {
        cleaned := cleaned + content[start..];
        cursor := |content|;
        NothingAtTheEnd(cleaned, content);
        break;
      }
      var end := markerStart + relEnd.value;
      var candidate := Trim(content[markerStart..end]);
      if candidate == "" || IsPlaceholderReference(candidate) {
        cleaned := cleaned + content[start..end + 1];
      } else {
        refs := refs + [candidate];
      }
      cursor := end + 1;
    }
    assert cleaned + content[cursor..] == Cleaned(content);
    NothingAtTheEnd(cleaned, content);
    if cursor < |content| {
      cleaned := cleaned + content[cursor..];
    }
    text := Trim(cleaned);
  }

  // ---------------------------------------------------------------- composing

  // One line per reference, each led by its line break.
  function ReferenceLines(uris: seq<string>): string {
    if uris == [] then "" else "\n" + ImageText(uris[0]) + ReferenceLines(uris[1..])
  }

  function Attachments(uris: seq<string>): string {
    if uris == [] then "" else ImageText(uris[0]) + ReferenceLines(uris[1..])
  }

  function Heading(trimmed: string): string {
    if trimmed == "" then "" else trimmed + "\n\n"
  }

  method ComposeMultimodalMessage(text: string, dataUris: seq<string>) returns (content: string)
    ensures content == Heading(Trim(text)) + Attachments(dataUris)
  {
    hide Attachments, ImageText, Trim;
    content := "";
    var trimmed := Trim(text);
    if trimmed != "" {
      content := content + trimmed;
      content := content + "\n\n";
    }
    ghost var head := content;
    NoAttachments(head, dataUris);
    for index := 0 to |dataUris|
      invariant content == head + Attachments(dataUris[..index])
    {
      AttachmentsGrow(head, dataUris, index);
      if index > 0 {
        content := content + "\n";
      }
      content := content + IMAGE_MARKER_PREFIX;
      content := content + dataUris[index];
      content := content + "]";
    }
    assert dataUris[..|dataUris|] == dataUris;
  }

  lemma {:induction false} LinesGrow(uris: seq<string>, uri: string)
    ensures ReferenceLines(uris + [uri]) == ReferenceLines(uris) + "\n" + ImageText(uri)
  {
    hide ImageText;
    if uris == [] {
      assert [uri][1..] == [];
    } else {
      assert (uris + [uri])[1..] == uris[1..] + [uri];
      LinesGrow(uris[1..], uri);
    }
  }

  lemma {:induction false} NoAttachments(head: string, uris: seq<string>)
    ensures head + Attachments(uris[..0]) == head
  {
  }

  lemma {:induction false} AttachmentsGrow(head: string, uris: seq<string>, index: nat)
    requires index < |uris|
    ensures var before := head + Attachments(uris[..index]);
            head + Attachments(uris[..index + 1])
            == (if index > 0 then before + "\n" else before) + IMAGE_MARKER_PREFIX + uris[index] + "]"
  {
    hide ImageText;
    var before := uris[..index];
    assert uris[..index + 1] == before + [uris[index]];
    if index > 0 {
      assert (before + [uris[index]])[1..] == before[1..] + [uris[index]];
      LinesGrow(before[1..], uris[index]);
      ImageTextAppended(head + Attachments(before) + "\n", uris[index]);
      assert head + (Attachments(before) + "\n" + ImageText(uris[index]))
          == head + Attachments(before) + "\n" + ImageText(uris[index]);
    } else {
      ImageTextAppended(head, uris[index]);
      assert uris[..1][1..] == [];
      assert Attachments(uris[..1]) == ImageText(uris[0]) + "" == ImageText(uris[0]);
      assert head + Attachments(before) == head;
    }
  }

  lemma {:induction false} ImageTextAppended(before: string, uri: string)
    ensures before + ImageText(uri) == before + IMAGE_MARKER_PREFIX + uri + "]"
  {
  }
}
