# Verified models of the OpenPRX agent core

This project models, in Dafny, the parts of the agent runtime whose correctness
rests on list and string algorithms, and proves what they are for.

**Conversation compaction** (`src/agent/compaction.rs`,
`src/agent/context_paging.rs`). A history of messages grows until a cold stretch
of it is replaced: by a handoff note that points at stored events (a *switch*),
by a summary, or by a breadcrumb for a page written to the page store.
`Sessions` is the state machine over history, append-only event store and page
store; `Session` is the class whose methods update the history in place, each
proved to be one of its steps. Over all runs: no durable message is lost
(`Durability`), the notes form one numbered chain (`Lineage`) and the one note
expands to everything folded (`Expansion`; with a stored event per message, to
exactly those: `OwnEvents`, `Repetition`), no tool result is stranded
(`ToolOrder`), and the page texts (`Pages`) make up with the history all that
was appended (`Paging`). Below them: the choice of the cut (`Boundary`), the
placement of the window on stored events (`Provenance`, `Accounting`, `RowOrder`,
and `Resolution` for windows of one message), the note and the lookup that undoes
it (`Handoff`), the guarded splice (`Patch`) and the bounded view for the
summariser (`Projection`).

**Media markers** (`src/multimodal.rs`): the scanner (`MediaMarkers`), the
rewriters (`Neutralizing`, `Truncation`, `ImageRouting`), the image-reference
parser and composer (`ImageMarkers`), their round trip (`ImageRoundTrip`), and what
each does to one marker written out (`MarkerRewrites`).

**Fenced code blocks** (`src/markdown.rs`, section 4.5 of the CommonMark Spec
0.31.2): the line walk and the block decomposition it computes (`Fences`,
`FenceWrapping`), on the standard library's line splitters (`LineSplitting`).

**Completion evidence** (`src/agent/completion_review.rs`): the ring and counters
that stand for the whole trace of a turn (`CompletionReview`), the verdict
defined on the trace itself (`Evidence`), and the verdict on each single kind of
constraint (`Verdicts`).

**Smaller cores**: the projection rewriters and their counters
(`FitnessProjections`, `src/fitness_cli.rs`), the approval grants (`Grants`,
`src/acl/approval_grant.rs`), the priority classifiers (`Classifier`,
`src/agent/classifier.rs`) and the circuit state (`Circuit`,
`src/evolution_cli.rs`).

## Conventions

Text is `seq<char>`; every delimiter searched for is ASCII, so character and byte
positions pick out the same pieces. Byte lengths that matter are computed
(`Text.Utf8Len`). Library code the modules call is a parameter: `Conversation.Env`
(JSON codec, redaction, hash, upper-casing), `Evidence.ReviewEnv` (digest, argument
excerpts, lower-casing), `Grants.Crypto` (signature and digest). A theorem names the
laws it needs: a JSON codec whose printing parses back, a collision-free hash, sound or
unforgeable signatures. Clocks, fresh ids, token estimates and the success of
I/O are arguments of the methods.

## Where the code differs from what is said of it

The code is modelled as it is; these statements are proved about the difference.

- The hash guard frames a message as `role NUL content NUL`. A content that holds a
  role between NULs lets another range pass: `Patch.GuardCanBePassedByAnotherRange`.
  With the four roles the program writes, the guard is exact when, and only when,
  no boundary of the range can be read elsewhere:
  `Patch.GuardIsExactForPinnableRanges`.
- Paging promises the full content of every message, verbatim
  (`src/agent/context_paging.rs:40-42`), and stores it trimmed:
  `Pages.PaddedContentIsNotKept`. The exact condition is
  `Pages.PageIsVerbatimIffTrimmed`.
- Neutralising promises inert text, but a payload that itself opens a marker can
  be closed by a bracket behind it: `Neutralizing.NeutralizingCanForge`. The exact
  condition is `Neutralizing.NeutralizingLeavesNoMarkerUnlessReopened`.
- Routing is meant to see the live images; an image prefix inside a marker of
  another kind is resolved by the parser and not seen by routing:
  `ImageRouting.EnclosedImageEscapesRouting`. The exact condition is
  `ImageRouting.RoutingSeesEveryImage`.
- A snapshot heading with whitespace behind its backtick is removed by the
  rewriter but not counted: `FitnessProjections.CounterMissesPaddedHeading`.
- "Invalid extractions cannot expand the set of permitted commands"
  (`src/agent/completion_review.rs:163`): a blank quote does, because it is
  rejected only after the commands are collected: `Evidence.BlankQuoteWidensCommands`.
  It allows whitespace commands only, `Evidence.InvalidExtractionAllowsOnlyBlanks`,
  and `Evidence.ExpectedOfValidAlone` says exactly when the set is not expanded.
- `src/markdown.rs:92-93` says CRLF input gets exactly the lines LF input gets. This
  holds for every text without CRLF, `LineSplitting.TextWithoutCrlfHasTheSameLines`,
  and in general exactly when no line already ends in a carriage return,
  `LineSplitting.CrlfGivesTheSameLines`; it fails for `a` CR LF,
  `LineSplitting.DoubledReturnStaysInTheLine`.
- The length limits of a classification rule are documented in characters and
  compared in bytes: `Classifier.OneCharacterPassesMinimumOfTwo`. They agree for
  every rule exactly on ASCII messages: `Classifier.LimitsAreCharactersOnAscii`.
- The bound verifier is documented to skip the caller check when no principal is
  named (`src/acl/approval_grant.rs:496-498`) and refuses instead:
  `Grants.CallerFaultsAreNamed`. It grants exactly to the named, non-empty subject:
  `Grants.BoundVerifierNeedsThePrincipal`.
- The cooldown of the circuit is multiplied in 64 bits. From 2^63 seconds on it
  wraps: `Circuit.LeastWrappedCooldownIsOverAtOnce`. Within the reach of a clock it
  is kept exactly below that, and where the wrapped value lies beyond the clock's
  reach: `Circuit.CooldownIsKeptWithin`.
- A closing fence may carry any Unicode whitespace, where section 4.5 allows spaces
  and tabs: `FenceWrapping.NoBreakSpaceCloses`; they agree on every other line:
  `FenceWrapping.ClosersAgreeWithoutOtherWhitespace`.

## Model

| member | source | states |
|---|---|---|
| OwnEvents.NoteExpandsToOwnEvents | src/agent/compaction.rs:468-583 | if every durable message brings its own event and every switch finds the events of its window, one after the other, then over any run of switches and ordinary appends the note expands to exactly the events of the messages gone from the history, in order, with pairwise distinct ids; no assumption on redaction is needed |
| OwnEvents.FirstSwitchNamesOwn | src/agent/compaction.rs:508-563 | the first switch names exactly the own events of the window's messages |
| OwnEvents.LaterSwitchNamesOwn | src/agent/compaction.rs:508-563 | a later switch names the event of the folded note and exactly the own events of the messages behind it |
| Repetition.UnstoredMessageIsNamedTwice | src/agent/compaction.rs:544-563 | a run in which the second of two equal messages was never stored: two switches name the one event, and the last note expands to it twice |
| Expansion.NoteExpandsToEverything | src/agent/compaction.rs:975-1053 | after any run of switches and ordinary appends from a handoff-free history, the durable messages in front of the one note, those the note expands to (earlier notes among its events expanded in turn, one level per switch) and those behind it are the durable messages ever appended, in order and as often, each expanded event the stored form of its message |
| Expansion.FirstSwitchCompletes | src/agent/compaction.rs:975-1053 | the first switch leaves a note that expands to one stored event per durable message of the window |
| Expansion.LaterSwitchCompletes | src/agent/compaction.rs:1005-1053 | a switch that folds the earlier note expands to what that note expanded to, followed by the window's further messages |
| Expansion.AppendKeepsComplete | src/agent/compaction.rs:609-662 | appending a message and events under new ids changes no expansion |
| Durability.NothingDurableIsLost | src/agent/compaction.rs:975-1053 | over every run of appends and switches, appended handoff texts included, each value of a durable message ever appended is in the history or is found by following lookups of stored handoff notes from a note in the history |
| Durability.SwitchIsLossless | src/agent/compaction.rs:1005-1053 | the lookup named in a new note returns one stored event per durable message of the folded window, in window order, each the stored form of its message |
| Durability.SwitchKeepsHeld | src/agent/compaction.rs:1045-1053 | a switch keeps reachable whatever was present or reachable before, folding an earlier note included |
| Durability.AppendKeepsHeld | src/agent/compaction.rs:609-662 | appending a message and events under new ids keeps everything reachable and makes the new message present |
| Lineage.HandoffsFormOneChain | src/agent/compaction.rs:443-466 | from a handoff-free history, after any run at most one note is present, right after any system message, numbered by the count of switches up to u64 saturation, with the previous handoff as parent |
| Lineage.ChainLineage | src/agent/compaction.rs:443-466 | reading the lineage off such a history yields the number of handoffs so far and the last one's id |
| Lineage.NextNote | src/agent/compaction.rs:1005-1021 | the note of the next switch continues the chain by one generation |
| Lineage.OneNoteLeadsToEverything | src/agent/compaction.rs:975-1053 | after any run of switches and ordinary appends a durable message gone from the history is reached from the single note present |
| ToolOrder.RunsKeepToolsAnswered | src/agent/compaction.rs:948-958 | over every run of appends, switches, summaries, evictions and recalls, for every retention setting: if the messages as appended answer each tool result, then in the rewritten history each tool message follows an assistant envelope with only tool messages between, wherever the rewrites fall |
| ToolOrder.RewriteKeepsRoundTrips | src/agent/compaction.rs:948-958 | no rewrite comes between an open round-trip and the results still to be appended |
| ToolOrder.StepKeepsToolsAnswered | src/agent/compaction.rs:948-958 | each single rewrite of the history keeps tool results answered |
| ToolOrder.SpliceKeepsToolsAnswered | src/agent/compaction.rs:112-116 | replacing a stretch that does not end in front of a tool result by other messages strands none |
| ToolOrder.AnsweredIsLinked | src/agent/compaction.rs:290-308 | answered tool results, stated over whole round-trips, amount to a condition on neighbouring messages |
| ToolOrder.HotWindowHead | src/agent/compaction.rs:401-441 | after a switch or summary the hot window starts with a durable message, after an eviction with no tool result |
| ToolOrder.FirstOrphanToolIndex | src/agent/turn_tests/mod.rs:430-442 | the scan returns the first tool result no envelope answers, and nothing exactly when all are answered |
| Paging.PagingIsNonDestructive | src/agent/context_paging.rs:43-204 | over every run of appends and evictions, the stored page texts without the breadcrumb lines they open with, put where the breadcrumb stands, make up with the history the page text of every message ever appended, in order; this is the text with contents as appended exactly when all of them are trimmed |
| Paging.PageOutKeepsPages | src/agent/context_paging.rs:112-201 | one eviction stores the text of a stretch and keeps that reconstruction |
| Pages.BuildPageTranscript | src/agent/context_paging.rs:43-51 | the loop writes one line per message, role in capitals and content trimmed |
| Pages.PageOfOneMessage | src/agent/context_paging.rs:43-51 | a message is stored as its role in capitals, a colon, its trimmed content and a line feed |
| Pages.PageIsVerbatimIffTrimmed | src/agent/context_paging.rs:40-51 | a page keeps the contents of its messages verbatim exactly when each is trimmed |
| Pages.PaddedContentIsNotKept | src/agent/context_paging.rs:40-51 | content with surrounding whitespace is stored without it |
| Pages.PagesRunTogether | src/agent/context_paging.rs:43-51 | two messages and one message whose content looks like both are stored as the same page |
| Session.Session.ApplyCompactionPatchExact | src/agent/compaction.rs:112-116 | two in-place splices leave prefix, replacement, appended messages, suffix |
| Session.Session.FindCutPoint | src/agent/compaction.rs:935-961 | with `max(1, keep_recent)` messages to stay, the cut is where they start unless a companion stands there; it lies further right only behind nothing but companions; there is none exactly when no more messages follow any system message or nothing but companions does |
| Session.Session.BuildSwitchPatch | src/agent/compaction.rs:975-1053 | a patch is built exactly when the trigger, session, load, provenance limits and event write allow; the event is stored first, the patch carries the note and a matching guard; otherwise the store is unchanged |
| Session.Session.ApplySwitch | src/agent/compaction.rs:975-1053 | a switch that goes ahead is the switch step of the state machine with the given setting, events and ids; one that does not changes nothing |
| Session.Session.ApplySummary | src/agent/compaction.rs:1056-1202 | a lossy compaction is the summary step with the given setting and texts, and happens exactly when there is a cut and the first role of the window leaves room under the projection cap; otherwise nothing changes |
| Session.Session.DropOrphanToolResultsAt | src/agent/history.rs:47-51 | removes exactly the tool results standing at the position, and nothing else |
| Session.Session.FindEvictEnd | src/agent/context_paging.rs:92-110 | the eviction ends at the first message that is no tool result from where `max(1, keep_recent)` messages start, and is refused exactly when no more messages are there or only tool results |
| Session.Session.ApplyOsPaging | src/agent/context_paging.rs:63-204 | evicts exactly when over the limit, supported, stored and not consuming the hot window; then it is the page-out step with the given setting and breadcrumb, storing the transcript of the window, otherwise nothing changes |
| Session.Session.InjectRecalledContext | src/agent/context_paging.rs:297-301 | the recalled message goes right after any system message and nothing else moves |
| Provenance.ResolveProvenance | src/agent/compaction.rs:468-583 | answers with the only placement of the handoff-delimited runs on disjoint windows of stored events when every prefix of them has exactly one, and with nothing otherwise |
| Provenance.PlaceRuns | src/agent/compaction.rs:500-563 | the greedy loop reads the events of the only placement, or stops exactly at an ambiguous or impossible prefix |
| Provenance.SingleCandidate | src/agent/compaction.rs:533-556 | a single matching window extends the only placement to the only one of one run more |
| Provenance.OtherCandidates | src/agent/compaction.rs:533-556 | no window or several mean that the runs so far have no placement or several |
| Accounting.ResolutionAccounts | src/agent/compaction.rs:562-583 | each durable message gets its own event, of its role, with its text as is, redacted or sanitised, and of its type, with pairwise distinct ids; ids plus companions make up the window; the row range bounds every matched row and is attained |
| Resolution.SoleMessageResolves | src/agent/compaction.rs:270-275 | a window of one durable message resolves to the only loaded event of its type with its role and its text as is, redacted or sanitised |
| Resolution.UnstoredMessageResolvesToNothing | src/agent/compaction.rs:555-557 | without such an event it resolves to nothing |
| Resolution.AmbiguousMessageResolvesToNothing | src/agent/compaction.rs:555-557 | with two such events it resolves to nothing |
| Resolution.OtherRolesResolveToNothing | src/agent/compaction.rs:488-495 | a window with a durable message that is neither user nor assistant resolves to nothing |
| Resolution.RoundTripPartIsFolded | src/agent/compaction.rs:290-308 | a tool result, result block or tool-call envelope inserted anywhere in a window leaves the resolved events as they are and adds one to the companions counted |
| RowOrder.NeighboursAreNeighbours | src/agent/compaction.rs:506-560 | two durable messages next to each other, neither a handoff note, resolve to two events in row order with no stored message between them |
| Accounting.ResolutionIsForced | src/agent/compaction.rs:500-563 | any way of placing the runs names the same events in the same order |
| Accounting.ResolutionIsUnique | src/agent/compaction.rs:468-583 | the answer is determined by window and events |
| Accounting.PlacementAccounts | src/agent/compaction.rs:270-275 | a placement of runs assigns distinct matching events message by message |
| Accounting.CompanionSplit | src/agent/compaction.rs:481-487 | durable messages and companions partition the window |
| Sessions.CutPointIsExact | src/agent/compaction.rs:935-961 | a position is the cut exactly when it holds the last message up to the requested one that is no companion, or the first behind nothing but companions |
| Sessions.NoCutPoint | src/agent/compaction.rs:935-961 | there is no cut exactly when at most the messages to keep follow any system message, or nothing but companions follow the first |
| Sessions.EvictEndIsExact | src/agent/context_paging.rs:90-110 | an eviction ends exactly at the first message that is no tool result, counted from where the messages to keep start |
| Sessions.SwitchLimits | src/agent/compaction.rs:983-1002 | a switch is allowed exactly at the cut, for a resolved window of at most 500 events in at most 20,000 rows |
| Boundary.BoundaryWithoutOrphanToolResults | src/agent/compaction.rs:407-441 | returns the greatest durable position in (start, end], else the least from end on, else start; a boundary returned never holds a tool result, a `[Tool results]` block or a tool-call envelope, and any other message at the requested end is the boundary |
| Boundary.BoundaryIsUnique | src/agent/compaction.rs:407-441 | that position is unique |
| Boundary.BoundaryHead | src/agent/compaction.rs:401-441 | a proper cut has a durable message behind it; there is none exactly when only companions follow start |
| Conversation.RoundTripShapes | src/agent/compaction.rs:290-308 | the companions are exactly tool messages, user texts opening with `[Tool results]`, and assistant texts opening with `{` that mention `"tool_calls"` and parse to an object with a non-empty array of that name |
| Conversation.HandoffRoundTrip | src/agent/compaction.rs:443-466 | reading a handoff text gives back the note it was printed from |
| Conversation.HandoffIsDurable | src/agent/compaction.rs:277-308 | a handoff note is never taken for part of a tool round-trip |
| Conversation.HandoffTextIs | src/agent/compaction.rs:1045-1045 | a handoff text is the note's JSON between the two tags, each on its line |
| Conversation.ReadsHandoff | src/agent/compaction.rs:443-466 | what is read is the text between the tags, trimmed, and nothing without both |
| Lineage.ReadableLineage | src/agent/compaction.rs:443-466 | the lineage is read off the last note field by field: a generation that is no u64 counts as 0, an id that is no string as none |
| Lineage.UnreadableLineage | src/agent/compaction.rs:443-466 | behind an unreadable last note the lineage starts anew |
| Handoff.LookupRecoversMatched | src/tools/transcript_history_lookup.rs:98-200 | the lookup tool run on a note's arguments returns the very events the window was matched with, in order |
| Handoff.LookupInLongerStore | src/tools/transcript_history_lookup.rs:138-163 | appending events under new ids never changes a lookup that succeeded |
| Handoff.NoteFields | src/agent/compaction.rs:1005-1043 | the note carries its id, its parent, both generations, saturating at the largest u64, the event ids and the row range |
| Handoff.LookupAnswers | src/tools/transcript_history_lookup.rs:98-176 | a lookup that answers was asked for one to 500 distinct ids in at most 20,000 rows and answers with a stored event in them for each, in order |
| Handoff.NoteCarriesArguments | src/agent/compaction.rs:1012-1043 | the lookup arguments survive printing and reading the note |
| Patch.FramePinsRange | src/agent/compaction.rs:78-87 | among ranges of its length with the four roles the program writes, the framed bytes determine a range exactly when no boundary between two of its messages can be read elsewhere: no content holds a NUL-separated role at which the next message, or with something behind it the message itself, could start |
| Patch.NulFreeIsPinnable | src/agent/compaction.rs:78-87 | one message, and any messages with NUL-free texts, have no such boundary |
| Patch.GuardIsExactForPinnableRanges | src/agent/compaction.rs:89-110 | with a collision-free hash and the program's roles, a matching guard means the same range exactly for the ranges without such a boundary |
| Patch.GuardPinsRange | src/agent/compaction.rs:89-110 | with a collision-free hash the guard of a NUL-free range matches exactly the histories of the same length holding the same range |
| Patch.GuardedPatchReplacesItsRange | src/agent/compaction.rs:89-116 | applying a patch whose guard matches replaces the range it was built from, prefix and suffix untouched |
| Patch.GuardCanBePassedByAnotherRange | src/agent/compaction.rs:78-110 | with NULs in texts a different range of the same roles passes the guard |
| Patch.HashCompactionMessages | src/agent/compaction.rs:78-87 | the loop hashes the framing of all messages in order |
| Projection.CostOfOneMore | src/agent/compaction.rs:60-66 | a message costs its role, its content and four characters |
| Projection.BoundedCompactionProjection | src/agent/compaction.rs:44-70 | the projection shows a prefix of the messages, roles kept, each whole when role, content and four more fit what the ones before it left of 12,000 characters and cut to that rest with an ellipsis otherwise; it exceeds the cap by an ellipsis at most and stops only where nothing more fits |
| MediaMarkers.FindMediaMarker | src/multimodal.rs:79-110 | the cursor loop finds the first complete marker from a position on |
| MediaMarkers.FirstFinds | src/multimodal.rs:79-110 | what is found is a complete marker with none in front of it |
| MediaMarkers.LeadingReadsExactlyMarkers | src/multimodal.rs:83-110 | a text starts with a marker exactly when it starts with `[`, one of the five kinds, a colon, a payload free of `]` and `]` |
| MediaMarkers.LeadingOfText | src/multimodal.rs:83-110 | a marker written out is read back whole, whatever follows |
| MediaMarkers.FirstSplits | src/multimodal.rs:83-110 | the text is what precedes the first marker, the marker, and the rest |
| Neutralizing.NeutralizeMediaMarkers | src/multimodal.rs:124-146 | the loop rewrites each marker of the text in turn |
| MarkerRewrites.NeutralizesWrittenMarker | src/multimodal.rs:124-146 | `[KIND:payload]` behind bracket-free text is written `(KIND: payload)`, and the rest is neutralised |
| Neutralizing.NeutralizingRewritesOnlyMarkers | src/multimodal.rs:112-146 | every character outside markers is kept in order, and the result is one character longer per marker |
| Neutralizing.NeutralizingLeavesNoMarkerUnlessReopened | src/multimodal.rs:112-146 | the result holds an actionable marker exactly when a payload opens one and a closing bracket stands outside the markers behind it |
| Neutralizing.NeutralizingDefangs | src/multimodal.rs:112-146 | with bracket-free payloads no actionable marker is left; a second pass changes nothing exactly when no payload reopens one |
| Neutralizing.NeutralizingCanForge | src/multimodal.rs:124-146 | a marker around a half-open one is rewritten into a text with a marker the input did not have |
| Truncation.TruncatePreservingMediaMarkers | src/multimodal.rs:191-230 | the cut, the ellipsis and the re-attached markers make up the truncated text |
| MarkerRewrites.TruncatedTextIs | src/multimodal.rs:191-230 | a short text is kept; a longer one is cut at most at the limit, trimmed at its end, followed by three dots and the markers carried over |
| MarkerRewrites.ReattachesWrittenMarker | src/multimodal.rs:214-227 | a dropped marker is carried over on a line of its own exactly when it fits what is left of the budget |
| Truncation.TruncationKeepsMarkersWhole | src/multimodal.rs:180-230 | the markers of the result are the whole markers of the kept prefix followed by exactly the dropped ones that fit the budget |
| Truncation.TruncationIsBounded | src/multimodal.rs:191-230 | a truncated text has at most 2 max + max/8 + 3 characters |
| Truncation.CutSplitsMarkers | src/multimodal.rs:196-209 | the pulled cut splits the marker list, and an opener it leaves dangling finds no closing bracket |
| Truncation.CutMovesForAMarker | src/multimodal.rs:196-209 | the cut moves only to the start of a marker it would have sliced |
| Truncation.PullCut | src/multimodal.rs:196-209 | the loop pulls the cut back to that place |
| Truncation.MarkersJoin | src/multimodal.rs:180-190 | joining texts at a character no opener contains joins their marker lists unless a dangling opener gets closed |
| Truncation.ReattachedMarkers | src/multimodal.rs:214-227 | the re-attached lines carry exactly the markers that fit, first come first served |
| ImageMarkers.ParseImageMarkers | src/multimodal.rs:259-295 | the cursor loop yields the references and the trimmed text without them, fossils kept as text |
| ImageMarkers.ComposeMultimodalMessage | src/multimodal.rs:390-409 | the loop writes the trimmed text and one marker per reference, on lines of their own |
| MarkerRewrites.ParsesWrittenImage | src/multimodal.rs:259-295 | a written image marker yields its trimmed text as a reference and is taken out, unless that text is empty or dots and ellipses only; then it stays |
| MarkerRewrites.ComposedTextIs | src/multimodal.rs:390-409 | a composed message is the text, an empty line, and one marker per line |
| ImageRoundTrip.ParseUndoesCompose | src/multimodal.rs:259-295 | parsing a composed message gives back text and references exactly when each reference is trimmed, free of `]` and more than dots and ellipses, and the text holds no reference and leaves no marker open in front of an attachment |
| ImageRoundTrip.TextWithoutPrefixIsPlain | src/multimodal.rs:390-409 | the round trip holds for every text without an image prefix |
| ImageRoundTrip.ParsesJoin | src/multimodal.rs:259-295 | joining texts at a character outside the image prefix joins what is parsed, unless the first ends inside a marker |
| ImageRoundTrip.DanglingCloses | src/multimodal.rs:263-279 | a marker left open takes everything up to the next closing bracket as its reference |
| ImageRoundTrip.ParsedReferencesAre | src/multimodal.rs:237-286 | every parsed reference is trimmed, free of `]` and more than dots and ellipses |
| ImageRouting.ProjectImageMarkersForRouting | src/multimodal.rs:152-178 | the two-cursor loop replaces each live image marker and keeps every other marker |
| MarkerRewrites.ProjectsWrittenMarker | src/multimodal.rs:152-178 | an image marker whose trimmed payload is more than dots and ellipses is written `(IMAGE attachment)`; every other marker stays |
| ImageRouting.ProjectingRewritesOnlyLiveImages | src/multimodal.rs:148-178 | everything but the live images is kept in order |
| ImageRouting.ReferencesLieInMarkers | src/multimodal.rs:83-110 | every reference the parser extracts lies in one marker of the general scanner, and the markers yield them in order |
| ImageRouting.RoutingSeesEveryImage | src/multimodal.rs:148-178 | the images routing stands in for are the references parsed, and the projected text holds no reference, each exactly when no marker of another kind has an image prefix in its payload with something behind it that names an image |
| ImageRouting.ProjectingDropsLiveImages | src/multimodal.rs:152-178 | the markers of the projected text are those of the text without the live images; none is forged |
| ImageRouting.EnclosedImageEscapesRouting | src/multimodal.rs:148-178 | a document marker around an image prefix is left as it is and yields a reference |
| Text.ContainsWherever | src/agent/completion_review.rs:183-183 | a text contains another exactly when it is some text, that one, and some text |
| Text.WhitespaceCharacters | src/multimodal.rs:237-239 | the whitespace characters are the twenty-five of Unicode |
| Text.Utf8LenIsBytes | src/agent/classifier.rs:37-37 | a length in bytes counts each character once, and once more from U+0080, U+0800 and U+10000 on |
| LineSplitting.SplittingCutsIntoLines | src/fitness_cli.rs:243-243 | splitting after line breaks gives lines that join back to the text |
| LineSplitting.LinesAreSplitAgain | src/fitness_cli.rs:243-243 | the cut of a text into such lines is unique |
| LineSplitting.LinesJoin | src/markdown.rs:94-96 | behind a line break a text has its own lines |
| LineSplitting.StripsTheBreak | src/markdown.rs:91-96 | a line loses one line feed at its end and one carriage return before it, and nothing else |
| LineSplitting.CrlfGivesTheSameLines | src/markdown.rs:91-96 | CRLF and LF input have the same lines exactly when no line already ends in a carriage return, and always equally many |
| LineSplitting.TextWithoutCrlfHasTheSameLines | src/markdown.rs:91-96 | every text without CRLF has the same lines with its line feeds written as CRLF |
| LineSplitting.DoubledReturnStaysInTheLine | src/markdown.rs:91-96 | `a` CR LF has the line `a`, and with its line feed written as CRLF the line `a` CR |
| Fences.WalkMarkdownLines | src/markdown.rs:94-111 | the loop marks each line as the fold of the open fence over all lines before it |
| Fences.WalkIsBlockDecomposition | src/markdown.rs:86-111 | lines split into outside lines that open nothing and blocks of opener, non-closing body and closer, only the last possibly unterminated, and exactly block lines are marked |
| Fences.DecompositionIsUnique | src/markdown.rs:86-111 | no other split of the lines satisfies this |
| Fences.SegmentWalks | src/markdown.rs:96-110 | a block is marked throughout and leaves a fence open exactly when it lacks its closer |
| Fences.MarksJoin | src/markdown.rs:94-111 | a walk continues from the fence left open by the lines before |
| Fences.RunIsMaximal | src/markdown.rs:45-45 | the measured run is the maximal one |
| FenceWrapping.WrappedTextIsCode | src/markdown.rs:40-65 | a text wrapped in a fence longer than every run of its character is all code, and what follows is walked as if alone |
| FenceWrapping.LongFenceEncloses | src/markdown.rs:40-65 | the same for any lines, any opener and any closer of it |
| FenceWrapping.FenceEnclosesExactly | src/markdown.rs:57-65 | opener, body and closer form one block exactly when no body line closes the fence |
| FenceWrapping.OpensExactlyFenceLines | src/markdown.rs:33-55 | the opening lines are exactly those of section 4.5: up to three spaces, three fence characters or more, an info string without backticks behind backticks |
| FenceWrapping.ClosesExactlyFenceLines | src/markdown.rs:57-65 | the closing lines of a fence in the code are exactly up to three spaces, a run of its character at least as long, and Unicode whitespace |
| FenceWrapping.ClosersAgreeWithoutOtherWhitespace | src/markdown.rs:57-65 | the code and section 4.5 agree on a closing line unless behind a long enough run stands whitespace other than spaces and tabs |
| FenceWrapping.PlainlySpacedLinesAreMarkedAsSpecified | src/markdown.rs:94-111 | lines whose only whitespace is spaces and tabs are marked as with the closers of section 4.5 |
| FenceWrapping.NoBreakSpaceCloses | src/markdown.rs:57-65 | a run with a no-break space behind it closes in the code and not in section 4.5 |
| FenceWrapping.FenceLineOpens | src/markdown.rs:33-55 | up to three spaces, a run of three or more and an admissible info string open a fence of that character and length |
| FenceWrapping.FenceLineCloses | src/markdown.rs:57-65 | an indented run at least as long with only whitespace behind it closes the fence |
| FenceWrapping.ClosingLineHasRun | src/markdown.rs:57-65 | a closing line holds a run at least as long as the opener's |
| CompletionReview.CompletionEvidence.Record | src/agent/completion_review.rs:116-141 | after any record the ring is the last min(n, 24) calls, ring and omitted count n, and every counter and hash set agrees with the whole trace |
| CompletionReview.CompletionEvidence.ExecutedCountOf | src/agent/completion_review.rs:143-151 | the larger of the two overlapping counts of the whole trace |
| CompletionReview.CompletionEvidence.ExecutedTotal | src/agent/completion_review.rs:198-200 | the sum of the counters is the number of executed calls of the trace |
| CompletionReview.CompletionEvidence.Expected | src/agent/completion_review.rs:163-175 | the digests of all commands named by an exact-command constraint of the request |
| CompletionReview.CompletionEvidence.ValidateReview | src/agent/completion_review.rs:155-219 | the verdict computed from the ledger is the verdict defined on the whole trace, despite eviction |
| CompletionReview.SumOfBumped | src/agent/completion_review.rs:117-118 | counting one more call raises the sum over all tools by one |
| Verdicts.RecordKeeps | src/agent/completion_review.rs:133-140 | a record keeps tool, backend, status, executed flag, argument excerpts and the first 4000 characters of the result, marked when cut |
| CompletionReview.RingTurns | src/agent/completion_review.rs:129-140 | the ring holds the last 24 records at most, and drops its oldest only when it holds 24 |
| Verdicts.LimitVerdict | src/agent/completion_review.rs:196-216 | a quoted limit on all calls is violated exactly when more calls than the limit were executed |
| Verdicts.ToolLimitVerdict | src/agent/completion_review.rs:143-151 | a quoted limit on a tool is violated exactly when more than the limit were executed under its name, or more on it as a backend |
| Verdicts.BanVerdict | src/agent/completion_review.rs:189-195 | a quoted ban naming its tool, whatever the case, is violated exactly when an executed call ran under that name or on that backend; one that does not name it is invalid |
| Verdicts.CommandVerdict | src/agent/completion_review.rs:202-211 | a quoted exact command is violated exactly when an executed shell call, by name or backend, ran another command; one not in its quote is invalid |
| Verdicts.SemanticIsAccepted | src/agent/completion_review.rs:188-188 | a quoted semantic constraint is never violated |
| Verdicts.UnquotedConstraintIsInvalid | src/agent/completion_review.rs:183-186 | a constraint whose quote is blank or not in the request is invalid, whatever it restricts |
| Verdicts.TooManyConstraints | src/agent/completion_review.rs:161-162 | more than 32 constraints are invalid, up to 32 are not for their number |
| Evidence.VerdictMeans | src/agent/completion_review.rs:155-219 | a violation is a valid constraint broken by the trace and beats every defect; invalid is a defect or too many constraints without a violation |
| Evidence.VerdictReports | src/agent/completion_review.rs:178-219 | the violation reported is the first in the review; the defect reported is the last, the excess of constraints only when there is no other |
| Evidence.ViolationStands | src/agent/completion_review.rs:210-214 | a violation stays one after any further records |
| Evidence.OrderDoesNotMatter | src/agent/completion_review.rs:174-219 | the kind of verdict is invariant under reordering of constraints |
| Evidence.RanIffCounted | src/agent/completion_review.rs:143-151 | a tool ban is broken exactly when an executed call ran under that name or on that backend |
| Evidence.ExactCommandMeans | src/agent/completion_review.rs:202-209 | with a collision-free digest an exact command is broken exactly when a shell command ran that no expecting constraint names |
| Evidence.InvalidExtractionAllowsOnlyBlanks | src/agent/completion_review.rs:163-190 | an invalid extraction that allows a command allows only a whitespace command |
| Evidence.ExpectedOfValidAlone | src/agent/completion_review.rs:163-175 | with a collision-free digest, the commands allowed are those of the valid constraints alone exactly when each command quoted blank is also named under a quote that is not |
| Evidence.BlanksForgiveOnlyBlanks | src/agent/completion_review.rs:163-218 | a violation of what the valid constraints allow goes unreported only if a whitespace command ran, and then the review is invalid, never accepted |
| Evidence.BlankQuoteWidensCommands | src/agent/completion_review.rs:163-185 | a blank quote turns a violation into a mere defect |
| Verdicts.LastUserTextIsTheRequest | src/agent/completion_review.rs:61-68 | the last user text that opens with none of the three reserved markers is the current request, behind any messages of other roles and such notes |
| Verdicts.NotesAloneAreNoRequest | src/agent/completion_review.rs:61-68 | a history of other roles and such notes alone has the empty request |
| Verdicts.OnlyMarkersAreEscaped | src/agent/turn_contracts.rs:155-184 | inbound text gets a zero-width space in front exactly when it opens with a reserved marker |
| Evidence.RequestOutlastsNotes | src/agent/completion_review.rs:61-68 | the current request is the last inbound user text, whatever notes and replies the loop has added |
| Evidence.NeutralizedIsNoNote | src/agent/turn_contracts.rs:170-184 | inbound text is never taken for a note of the loop |
| FitnessProjections.RewriteCoreProjection | src/fitness_cli.rs:239-256 | the block list loop keeps exactly the lines outside removed entries |
| FitnessProjections.RewriteSnapshotProjection | src/fitness_cli.rs:258-278 | the skip-flag loop keeps exactly the lines outside removed sections |
| FitnessProjections.CoreKeepsExactly | src/fitness_cli.rs:239-256 | a line goes exactly with an entry at or above it whose key has the prefix and no entry of another key between |
| FitnessProjections.SnapshotKeepsExactly | src/fitness_cli.rs:258-278 | a line goes exactly with a heading at or above it whose key has the prefix, no heading of another key down to it and no `---` line from the heading up to it |
| FitnessProjections.CountsTheLines | src/fitness_cli.rs:221-237 | a counter gives the number of lines whose key has the prefix |
| FitnessProjections.KeepsLinesOutsideSections | src/fitness_cli.rs:239-278 | a line is dropped exactly when a heading to remove stands at or above it with no other heading and no ending between |
| FitnessProjections.RewriteClearsAndSettles | src/fitness_cli.rs:221-278 | after a rewrite the counter is zero, and a second rewrite changes nothing, for any text |
| FitnessProjections.RewrittenLines | src/fitness_cli.rs:239-278 | the rewritten text splits into the kept lines, unchanged and in order |
| FitnessProjections.CounterAgrees | src/fitness_cli.rs:221-237 | the counter, which splits lines its own way, counts a line exactly when the rewriter removes it as a heading and nothing follows the backtick |
| FitnessProjections.CounterMissesPaddedHeading | src/fitness_cli.rs:230-237 | a heading with whitespace behind the backtick is removed and not counted |
| FitnessProjections.BackupKeyReadsEntries | src/fitness_cli.rs:299-304 | the keyed lines are exactly `- [stamp] **key**:rest` with a non-empty key between the first delimiters |
| FitnessProjections.SnapshotKeyReadsHeadings | src/fitness_cli.rs:263-266 | the headings are exactly the heading mark, the key, a backtick and whitespace |
| FitnessProjections.BackupKeyIgnoresBreak | src/fitness_cli.rs:299-304 | the entry key is the same with and without the line break |
| Grants.OperationGrantedExactly | src/acl/approval_grant.rs:453-488 | an operation is granted exactly by an unbound, unrevoked grant with a valid signature, in its window, with uses left, for the operation, at a risk no lower than asked |
| Grants.SignatureFaultsAreNamed | src/acl/approval_grant.rs:688-715 | a verified grant with one thing wrong in version, algorithm, key id, digest or signature is refused for just that |
| Grants.OperationFaultsAreNamed | src/acl/approval_grant.rs:453-488 | a signed grant that passes is refused for just that when revoked, out of its window, used up, bound to a decision or asked for something it does not cover |
| Grants.BoundVerifierNeedsThePrincipal | src/acl/approval_grant.rs:499-527 | the bound verifier grants exactly what the operation verifier grants, to the one named, non-empty subject of the grant |
| Grants.CallerFaultsAreNamed | src/acl/approval_grant.rs:499-527 | and refused to no caller, an empty one, any when its subject is empty, and any other than its subject |
| Grants.DecisionGrantedExactly | src/acl/approval_grant.rs:406-430 | a decision is granted exactly by an unrevoked, human-reviewed, unused one-shot grant with a valid signature, in its window, bound to that decision of that subject, for the very operation at a risk no lower than asked |
| Grants.DecisionGrantIsIssuedExactly | src/acl/approval_grant.rs:370-404 | a decision grant is issued exactly for a complete scope and an expiry within the next five minutes |
| Grants.VerifiesExactly | src/acl/approval_grant.rs:688-715 | a grant verifies exactly in version 2, with an Ed25519 signature by the keyring's key over its unsigned form and the digest of that |
| Grants.RevokedNeverVerifies | src/acl/approval_grant.rs:406-531 | a grant revoked before or during any sequence of touch, revoke and re-sign is refused by all three verifiers, for every caller and at every time |
| Grants.DecisionBoundStaysBound | src/acl/approval_grant.rs:453-464 | over any such sequence a decision-bound grant never passes the operation verifier |
| Grants.SignatureStandsForTheLastSigning | src/acl/approval_grant.rs:528-715 | under ideal signatures, over any such sequence, the signature verifies exactly when the grant is as it was last signed |
| Grants.VerifiersStayDisjoint | src/acl/approval_grant.rs:406-464 | a grant that passes the decision verifier at one point of its life passes the operation verifier at none |
| Grants.LifecycleKeepsTheScope | src/acl/approval_grant.rs:638-648 | no call changes subject, capability, binding, start or uses, and a grant is revoked exactly when it was or a call revoked it |
| Grants.TouchRefreshes | src/acl/approval_grant.rs:629-648 | a touched grant verifies for an operation exactly when unbound, matching, with uses left and within [not_before, now + ttl) |
| Grants.IssuedGrantVerifies | src/acl/approval_grant.rs:324-368 | a fresh grant verifies exactly for its operations, no riskier, for sixty seconds |
| Grants.DecisionGrantVerifies | src/acl/approval_grant.rs:370-430 | a decision grant verifies exactly for its subject, binding and operation, no riskier, in its window, and never as an unbound grant |
| Grants.SignatureCoversEveryField | src/acl/approval_grant.rs:688-715 | under ideal signatures two verified grants with one signature are equal in every field |
| Grants.ApprovalGrantV2.SignGrant | src/acl/approval_grant.rs:672-686 | signing in place sets version, key id and signature and nothing else |
| Grants.ApprovalGrantV2.TouchGrant | src/acl/approval_grant.rs:638-648 | a touch succeeds exactly with a positive ttl on an unrevoked grant, and a refused one changes nothing |
| Grants.ApprovalGrantV2.RevokeGrant | src/acl/approval_grant.rs:528-531 | revoking sets time and reason and nothing else |
| Grants.GlobMatchesExtensions | src/acl/approval_grant.rs:651-670 | a scope matches exactly itself when it has no star, and exactly the extensions of its prefix when it is `prefix*` with a colon and three bytes or more; no other scope matches |
| Classifier.Classify | src/agent/classifier.rs:31-68 | the rule chosen applies, no applying rule has higher priority and none of equal priority comes earlier; none is chosen exactly when none applies |
| Classifier.ClassifyIntent | src/agent/classifier.rs:70-122 | the same for routing rules, with the chosen rule's decision, and the default exactly when no keyword hits |
| Classifier.AppliesMeans | src/agent/classifier.rs:43-65 | a rule applies exactly when the bytes of the message are within its limits and a keyword occurs whatever the case or a pattern as written |
| Classifier.KeywordsHit | src/agent/classifier.rs:76-83 | a routing rule is hit exactly when a keyword that is not blank occurs trimmed, whatever the case |
| Classifier.DecisionNames | src/agent/classifier.rs:88-114 | a delegation names its own model unless blank, any other rule and a delegation without one the hint unless blank |
| Classifier.SortedScanFindsBest | src/agent/classifier.rs:43-46 | the first match of the stably sorted rules is the best match of the rules as configured |
| Classifier.BestIsUnique | src/agent/classifier.rs:43-46 | the choice is determined by the configuration |
| Classifier.LimitsAreCharactersOnAscii | src/config/schema/routing.rs:100-105 | whether a rule applies agrees with its limits read in characters, for every rule, exactly on ASCII messages |
| Classifier.OneCharacterPassesMinimumOfTwo | src/agent/classifier.rs:37-53 | a rule with a minimum of two applies to a message of one two-byte character |
| Circuit.NotClosedExactly | src/evolution_cli.rs:494-517 | the state is not closed exactly when at some position of the log, itself not deferred, every cycle so far was deferred, regressed or rejected and so many as the threshold, at least one, were not deferred |
| Circuit.HalfOpenExactly | src/evolution_cli.rs:519-530 | from there it is half open exactly when that cycle's time is readable and the hours, at least one, have passed since |
| Circuit.NotClosedIffTripped | src/evolution_cli.rs:494-517 | the state is not closed exactly when the newest threshold cycles that were not deferred all failed |
| Circuit.DeferredIsIgnored | src/evolution_cli.rs:502-513 | inserting deferred cycles anywhere changes nothing |
| Circuit.TimeOnlyHalfOpens | src/evolution_cli.rs:519-530 | moving the clock forward can only turn open into half open, whatever the timestamps |
| Circuit.HalfOpensAfterCooldown | src/evolution_cli.rs:519-530 | a tripped breaker whose cooldown is below 2^63 seconds is half open exactly when the oldest counted failure has a readable time at least the cooldown ago |
| Circuit.CooldownIsKeptWithin | src/evolution_cli.rs:499-530 | with a readable time and a clock within a span of it, this holds at every moment exactly when the cooldown is below 2^63 seconds or its wrapped value lies beyond the span |
| Circuit.LeastWrappedCooldownIsOverAtOnce | src/evolution_cli.rs:499-530 | the least cooldown of 2^63 seconds or more is over at the moment of the failure |
| Circuit.CooldownIsExactIffItFits | src/evolution_cli.rs:500-500 | the 64-bit product read as signed equals the configured cooldown exactly when that is below 2^63 seconds |

## Left out

- Provider calls and the text of summaries, breadcrumbs and refresh asides: any text, so lossy compaction promises tool order and the cut, not content.
- Token estimation and budget planning: a flag says whether the history is over the limit.
- The JSON printer and parser, SHA-256, redaction and lower-casing: parameters with the laws named above.
- Errors of storage calls: a failed read or write is a flag of the method; the error value returned to the caller is not modelled.
- The event-store queries behind provenance (visibility, paging by row id, session filter): the loaded events are an argument, assumed part of the store.
- The paging loop of the history lookup tool: the lookup searches the session's events at once.
- Recall of pages by similarity search, and the document records around a page: the page store is the list of page texts.
- Durability.NothingDurableIsLost: speaks of message values and makes the assumption on redaction named in the next line; order and multiplicity are in Expansion.NoteExpandsToEverything, for runs that append no handoff text of their own.
- Expansion.NoteExpandsToEverything: assumes that no stored handoff note is the redacted or capped form of a different one, which the redaction rules outside the modelled files provide; without an own event per message one event may stand for two messages, see OwnEvents.NoteExpandsToOwnEvents and Repetition.UnstoredMessageIsNamedTwice.
- Paging.PagingIsNonDestructive: speaks of appends and evictions only; a summary in between is lossy by design.
- CompletionReview.CompletionEvidence.Record: the argument excerpts of a record are a function of the arguments, whose field limits are not modelled; counters are unbounded.
- Grants.DecisionGrantVerifies: whether a decision id is a UUID other than nil is a predicate parameter; times count seconds without overflow.
- Grants.SignatureCoversEveryField: base64 and the canonical byte encoding are part of the signature functions; encoding errors are left out.
- Circuit.CooldownIsKeptWithin: a product of hours and 3600 beyond 64 bits wraps; a build with overflow checks would stop instead.
- The `info` accessor of a fence, the W3C export of a grant, key files, the serving-model record and the review prompt: formatting around the modelled state.
- MIME detection, artifact loading, remote fetch, file locking, backups, databases and the command-line front ends: input and output around the modelled functions.
