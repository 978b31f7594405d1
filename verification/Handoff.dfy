// Handoff notes: what a note says, the lineage the next one continues, and the
// lookup that recovers the events a note points at.
module Handoff {
  import opened Wrappers
  import opened Text
  import opened Conversation
  import opened Provenance
  import opened Accounting

  const MAX_REFERENCED_EVENTS: nat := 500
  const MAX_ROW_SPAN: nat := 20_000
  const I64_MAX: nat := 0x7FFF_FFFF_FFFF_FFFF

  // ---------------------------------------------------------------- lineage

  // The handoff note closest to the end of the history.
  function LatestHandoff(history: seq<ChatMessage>): Option<ChatMessage> {
    if history == [] then None
    else
      var last := history[|history| - 1];
      if IsContextHandoff(last) then Some(last) else LatestHandoff(history[..|history| - 1])
  }

  // Generation and event id of the latest handoff; (0, none) when there is no
  // readable note.
  function Lineage(env: Env, history: seq<ChatMessage>): (nat, Option<string>) {
    match LatestHandoff(history)
    case None => (0, None)
    case Some(m) =>
      match ParseHandoff(env, m.content)
      case None => (0, None)
      case Some(note) =>
        var generation := note.Get("to_generation");
        var id := note.Get("handoff_event_id");
        (if generation.Some? && generation.value.AsU64().Some? then generation.value.AsU64().value else 0,
         if id.Some? then id.value.AsStr() else None)
  }

  lemma {:induction false} LatestHandoffOfNone(history: seq<ChatMessage>)
    requires forall i :: 0 <= i < |history| ==> !IsContextHandoff(history[i])
    ensures LatestHandoff(history) == None
  {
    if history != [] { LatestHandoffOfNone(history[..|history| - 1]); }
  }

  lemma {:induction false} LatestHandoffOfOne(history: seq<ChatMessage>, k: nat)
    requires k < |history| && IsContextHandoff(history[k])
    requires forall i :: k < i < |history| ==> !IsContextHandoff(history[i])
    ensures LatestHandoff(history) == Some(history[k])
  {
    if k < |history| - 1 { LatestHandoffOfOne(history[..|history| - 1], k); }
  }

  function SaturatingAdd(n: nat, k: nat): nat {
    if n + k <= U64_MAX then n + k else U64_MAX
  }

  // ---------------------------------------------------------------- the note

  function StrArray(ids: seq<string>): Json {
    Arr(seq(|ids|, i requires 0 <= i < |ids| => Str(ids[i])))
  }

  // `extras` stands for the informational fields (timestamps, counts, notices).
  function HandoffNote(prov: Provenance, handoffId: string, parent: Option<string>, fromGeneration: nat,
                       extras: map<string, Json>): Json
  {
    Obj(extras + map[
          "handoff_event_id" := Str(handoffId),
          "parent_handoff_event_id" := if parent.Some? then Str(parent.value) else Null,
          "from_generation" := Number(fromGeneration),
          "to_generation" := Number(SaturatingAdd(fromGeneration, 1)),
          "lookup" := Obj(map["arguments" := LookupArguments(prov)])])
  }

  function LookupArguments(prov: Provenance): Json {
    Obj(map[
          "event_ids" := StrArray(prov.sourceEventIds),
          "first_row_id" := Number(prov.firstRowId),
          "last_row_id" := Number(prov.lastRowId)])
  }

  // The lookup arguments a handoff text carries.
  function NoteArguments(env: Env, content: string): Option<Json> {
    match ParseHandoff(env, content)
    case None => None
    case Some(note) =>
      match note.Get("lookup")
      case None => None
      case Some(lookup) => lookup.Get("arguments")
  }

  // ---------------------------------------------------------------- transcript_history_lookup

  // The requested ids, trimmed; none when an entry is no non-empty string.
  function RequestedIds(items: seq<Json>): (r: Option<seq<string>>)
    ensures r.Some? ==> |r.value| == |items|
  {
    if items == [] then Some([])
    else if !items[0].Str? || Trim(items[0].s) == "" then None
    else
      match RequestedIds(items[1..])
      case None => None
      case Some(rest) => Some([Trim(items[0].s)] + rest)
  }

  predicate Unique(ids: seq<string>) {
    forall i, j :: 0 <= i < j < |ids| ==> ids[i] != ids[j]
  }

  // The stored event with this id in the row range, the latest if several.
  function FindEvent(store: seq<MessageEvent>, id: string, first: int, last: int): (r: Option<MessageEvent>)
    ensures r.Some? ==> r.value in store && r.value.eventId == id && first <= r.value.id <= last
    ensures r.None? ==> forall e :: e in store && e.eventId == id ==> !(first <= e.id <= last)
  {
    if store == [] then None
    else
      var e := store[|store| - 1];
      if e.eventId == id && first <= e.id <= last then Some(e)
      else FindEvent(store[..|store| - 1], id, first, last)
  }

  // The events for `ids` in their order; none when one of them is missing.
  function FindAll(store: seq<MessageEvent>, ids: seq<string>, first: int, last: int): (r: Option<seq<MessageEvent>>) {
    if ids == [] then Some([])
    else
      match FindEvent(store, ids[0], first, last)
      case None => None
      case Some(e) =>
        match FindAll(store, ids[1..], first, last)
        case None => None
        case Some(rest) => Some([e] + rest)
  }

  // The tool a handoff note names, run on the session's stored events.
  function Lookup(store: seq<MessageEvent>, args: Json): Option<seq<MessageEvent>> {
    var items, first, last := args.Get("event_ids"), args.Get("first_row_id"), args.Get("last_row_id");
    if items.None? || !items.value.Arr? then None
    else
      var ids := RequestedIds(items.value.items);
      if ids.None? || ids.value == [] || |ids.value| > MAX_REFERENCED_EVENTS || !Unique(ids.value) then None
      else if first.None? || first.value.AsI64().None? || last.None? || last.value.AsI64().None? then None
      else
        var f, l := first.value.AsI64().value, last.value.AsI64().value;
        if f <= 0 || l < f || l - f > MAX_ROW_SPAN then None
        else FindAll(store, ids.value, f, l)
  }

  lemma {:induction false} RequestedIdsOfStrings(ids: seq<string>)
    requires forall i :: 0 <= i < |ids| ==> ids[i] != "" && IsTrimmed(ids[i])
    ensures RequestedIds(StrArray(ids).items) == Some(ids)
  {
    hide Trim, IsTrimmed;
    if ids != [] {
      assert StrArray(ids).items[1..] == StrArray(ids[1..]).items;
      TrimOfTrimmed(ids[0]);
      RequestedIdsOfStrings(ids[1..]);
      assert ids == [ids[0]] + ids[1..];
    }
  }

  lemma {:induction false} FindEventIsTheEvent(store: seq<MessageEvent>, e: MessageEvent, first: int, last: int)
    requires DistinctIds(store) && e in store && first <= e.id <= last
    ensures FindEvent(store, e.eventId, first, last) == Some(e)
  {
    var i :| 0 <= i < |store| && store[i] == e;
    var found := FindEvent(store, e.eventId, first, last).value;
    var j :| 0 <= j < |store| && store[j] == found;
    assert i == j;
  }

  lemma {:induction false} FindAllOfEvents(store: seq<MessageEvent>, events: seq<MessageEvent>, first: int, last: int)
    requires DistinctIds(store)
    requires forall e :: e in events ==> e in store && first <= e.id <= last
    ensures FindAll(store, Ids(events), first, last) == Some(events)
  {
    if events != [] {
      FindEventIsTheEvent(store, events[0], first, last);
      FindAllOfEvents(store, events[1..], first, last);
      assert Ids(events)[1..] == Ids(events[1..]);
      assert events == [events[0]] + events[1..];
    }
  }

  // Appending events under new ids does not change what a lookup returns.
  lemma {:induction false} FindAllInLongerStore(store: seq<MessageEvent>, more: seq<MessageEvent>,
                                                ids: seq<string>, first: int, last: int)
    requires DistinctIds(store + more) && FindAll(store, ids, first, last).Some?
    ensures FindAll(store + more, ids, first, last) == FindAll(store, ids, first, last)
  {
    if ids != [] {
      FindEventIsTheEvent(store + more, FindEvent(store, ids[0], first, last).value, first, last);
      FindAllInLongerStore(store, more, ids[1..], first, last);
    }
  }

  lemma {:induction false} LookupInLongerStore(store: seq<MessageEvent>, more: seq<MessageEvent>, args: Json)
    requires DistinctIds(store + more) && Lookup(store, args).Some?
    ensures Lookup(store + more, args) == Lookup(store, args)
  {
    FindAllInLongerStore(store, more, RequestedIds(args.Get("event_ids").value.items).value,
                         args.Get("first_row_id").value.AsI64().value, args.Get("last_row_id").value.AsI64().value);
  }

  ghost predicate WellFormedEvent(e: MessageEvent) {
    1 <= e.id <= I64_MAX && e.eventId != "" && IsTrimmed(e.eventId)
  }

  // The lookup undoes the note: run with the arguments of a note, it returns the
  // very events the cold window was matched with, in window order.
  lemma {:induction false} LookupRecoversMatched(store: seq<MessageEvent>, matched: seq<MessageEvent>, prov: Provenance,
                                                companions: nat)
    requires DistinctIds(store) && forall e :: e in store ==> WellFormedEvent(e)
    requires matched != [] && DistinctIds(matched) && forall e :: e in matched ==> e in store
    requires prov == Describe(matched, companions)
    requires |matched| <= MAX_REFERENCED_EVENTS && prov.lastRowId - prov.firstRowId <= MAX_ROW_SPAN
    ensures Lookup(store, LookupArguments(prov)) == Some(matched)
  {
    hide RequestedIds, FindAll, MinById, MaxById, IsTrimmed;
    var ids := Ids(matched);
    forall i | 0 <= i < |ids| ensures ids[i] != "" && IsTrimmed(ids[i]) {
      assert matched[i] in store;
    }
    RequestedIdsOfStrings(ids);
    FindAllOfEvents(store, matched, prov.firstRowId, prov.lastRowId);
    assert MinById(matched) in store && MaxById(matched) in store;
  }

  // The fields that later handoffs and lookups read, whatever else a note says.
  lemma {:induction false} NoteFields(prov: Provenance, handoffId: string, parent: Option<string>, fromGeneration: nat,
                                      extras: map<string, Json>)
    requires fromGeneration <= 0xFFFF_FFFF_FFFF_FFFF
    ensures var note := HandoffNote(prov, handoffId, parent, fromGeneration, extras);
            && note.Get("handoff_event_id") == Some(Str(handoffId))
            && note.Get("parent_handoff_event_id") == Some(if parent.Some? then Str(parent.value) else Null)
            && note.Get("from_generation") == Some(Number(fromGeneration))
            && note.Get("to_generation") == Some(Number(if fromGeneration == 0xFFFF_FFFF_FFFF_FFFF then fromGeneration
                                                        else fromGeneration + 1))
    ensures var args := LookupArguments(prov);
            && args.Get("first_row_id") == Some(Number(prov.firstRowId))
            && args.Get("last_row_id") == Some(Number(prov.lastRowId))
            && exists ids :: args.Get("event_ids") == Some(Arr(ids)) && |ids| == |prov.sourceEventIds|
                             && forall i :: 0 <= i < |ids| ==> ids[i] == Str(prov.sourceEventIds[i])
  {
    var ids := StrArray(prov.sourceEventIds).items;
    assert LookupArguments(prov).Get("event_ids") == Some(Arr(ids));
  }

  // A lookup that answers was asked for one to 500 distinct ids in at most 20,000
  // rows, and answers with a stored event in those rows for each, in order.
  lemma {:induction false} LookupAnswers(store: seq<MessageEvent>, args: Json)
      returns (items: seq<Json>, ids: seq<string>, first: int, last: int)
    requires Lookup(store, args).Some?
    ensures args.Get("event_ids") == Some(Arr(items)) && |items| == |ids|
    ensures forall i :: 0 <= i < |ids| ==> items[i].Str? && Trim(items[i].s) == ids[i] != ""
    ensures args.Get("first_row_id") == Some(Number(first)) && args.Get("last_row_id") == Some(Number(last))
    ensures 0 < |ids| <= 500 && forall i, j :: 0 <= i < j < |ids| ==> ids[i] != ids[j]
    ensures 0 < first <= last <= first + 20_000 && last < 0x8000_0000_0000_0000
    ensures var events := Lookup(store, args).value;
            && |events| == |ids|
            && forall i :: 0 <= i < |ids| ==>
                 events[i] in store && events[i].eventId == ids[i] && first <= events[i].id <= last
  {
    hide Trim, FindEvent;
    items := args.Get("event_ids").value.items;
    ids := RequestedIds(items).value;
    first, last := args.Get("first_row_id").value.n, args.Get("last_row_id").value.n;
    RequestedAreTrimmed(items);
    FoundInOrder(store, ids, first, last);
  }

  lemma {:induction false} RequestedAreTrimmed(items: seq<Json>)
    requires RequestedIds(items).Some?
    ensures var ids := RequestedIds(items).value;
            forall i :: 0 <= i < |ids| ==> items[i].Str? && Trim(items[i].s) == ids[i] != ""
  {
    hide Trim;
    if items != [] {
      RequestedAreTrimmed(items[1..]);
      var ids := RequestedIds(items).value;
      forall i | 0 < i < |ids| ensures items[i].Str? && Trim(items[i].s) == ids[i] != "" {
        assert items[i] == items[1..][i - 1] && ids[i] == ids[1..][i - 1];
      }
    }
  }

  lemma {:induction false} FoundInOrder(store: seq<MessageEvent>, ids: seq<string>, first: int, last: int)
    requires FindAll(store, ids, first, last).Some?
    ensures var events := FindAll(store, ids, first, last).value;
            && |events| == |ids|
            && forall i :: 0 <= i < |ids| ==>
                 events[i] in store && events[i].eventId == ids[i] && first <= events[i].id <= last
  {
    hide FindEvent;
    if ids != [] {
      FoundInOrder(store, ids[1..], first, last);
      var events := FindAll(store, ids, first, last).value;
      forall i | 0 < i < |ids| ensures events[i] == events[1..][i - 1] && ids[i] == ids[1..][i - 1] {}
    }
  }

  lemma {:induction false} NoteCarriesArguments(env: Env, prov: Provenance, handoffId: string, parent: Option<string>,
                                                fromGeneration: nat, extras: map<string, Json>)
    requires LawfulCodec(env)
    ensures NoteArguments(env, HandoffText(env, HandoffNote(prov, handoffId, parent, fromGeneration, extras)))
         == Some(LookupArguments(prov))
  {
    HandoffRoundTrip(env, HandoffNote(prov, handoffId, parent, fromGeneration, extras));
  }
}
