// The priority classifiers of src/agent/classifier.rs: a stable sort and a scan
// that stops at the first match, proved to pick the best rule of the configuration.
module Classifier {
  import opened Wrappers
  import opened Text
  import opened Lists

  // ---------------------------------------------------------------- sorted scan

  function FirstMatch<T>(ok: T -> bool, s: seq<T>): Option<T> {
    if s == [] then None else if ok(s[0]) then Some(s[0]) else FirstMatch(ok, s[1..])
  }

  // Position `i` holds a match, of the smallest key, and the first of that key.
  ghost predicate IsBest<T>(key: T -> int, ok: T -> bool, s: seq<T>, i: nat) {
    && i < |s| && ok(s[i])
    && forall j :: 0 <= j < |s| && ok(s[j]) ==> key(s[i]) < key(s[j]) || (key(s[i]) == key(s[j]) && i <= j)
  }

  ghost predicate IsBestElement<T(!new)>(key: T -> int, ok: T -> bool, s: seq<T>, x: T) {
    exists i: nat :: IsBest(key, ok, s, i) && s[i] == x
  }

  lemma {:induction false} BestMatches<T(!new)>(key: T -> int, ok: T -> bool, s: seq<T>, x: T)
    requires IsBestElement(key, ok, s, x)
    ensures ok(x) && exists i :: 0 <= i < |s| && ok(s[i])
  {
  }

  lemma {:induction false} FirstOfInsert<T(!new)>(key: T -> int, ok: T -> bool, x: T, s: seq<T>)
    requires SortedBy(key, s)
    ensures var later := FirstMatch(ok, s);
            FirstMatch(ok, Insert(key, x, s))
            == if ok(x) && (later.None? || key(x) <= key(later.value)) then Some(x) else later
  {
    if s == [] || key(x) <= key(s[0]) {
      assert ([x] + s)[1..] == s;
      FirstMatchIsLater(key, ok, s);
    } else {
      var r := Insert(key, x, s[1..]);
      assert ([s[0]] + r)[1..] == r;
      FirstOfInsert(key, ok, x, s[1..]);
    }
  }

  lemma {:induction false} FirstMatchIsLater<T>(key: T -> int, ok: T -> bool, s: seq<T>)
    requires SortedBy(key, s)
    ensures FirstMatch(ok, s).Some? ==> s != [] && key(s[0]) <= key(FirstMatch(ok, s).value)
  {
    if s != [] && !ok(s[0]) {
      assert forall i :: 0 <= i < |s| - 1 ==> s[1..][i] == s[i + 1];
      FirstMatchIsLater(key, ok, s[1..]);
    }
  }

  // Scanning the sorted list finds the best match of the list as it was, and
  // nothing exactly when nothing matches.
  lemma {:induction false} SortedScanFindsBest<T(!new)>(key: T -> int, ok: T -> bool, s: seq<T>)
    ensures match FirstMatch(ok, StableSort(key, s))
            case None => forall i :: 0 <= i < |s| ==> !ok(s[i])
            case Some(x) => IsBestElement(key, ok, s, x)
  {
    if s != [] {
      var rest := s[1..];
      SortedScanFindsBest(key, ok, rest);
      FirstOfInsert(key, ok, s[0], StableSort(key, rest));
      assert forall i :: 0 < i < |s| ==> s[i] == rest[i - 1];
      match FirstMatch(ok, StableSort(key, rest))
      case None =>
        if ok(s[0]) { assert IsBest(key, ok, s, 0); }
      case Some(x) => BestOfLonger(key, ok, s, x);
    }
  }

  lemma {:induction false} BestOfLonger<T(!new)>(key: T -> int, ok: T -> bool, s: seq<T>, x: T)
    requires s != [] && IsBestElement(key, ok, s[1..], x)
    ensures IsBestElement(key, ok, s, if ok(s[0]) && key(s[0]) <= key(x) then s[0] else x)
  {
    var rest := s[1..];
    assert forall i :: 0 < i < |s| ==> s[i] == rest[i - 1];
    var i: nat :| IsBest(key, ok, rest, i) && rest[i] == x;
    if ok(s[0]) && key(s[0]) <= key(x) {
      assert IsBest(key, ok, s, 0);
    } else {
      assert IsBest(key, ok, s, i + 1);
    }
  }

  // The best position is unique, so the choice is determined by the configuration.
  lemma {:induction false} BestIsUnique<T>(key: T -> int, ok: T -> bool, s: seq<T>, i: nat, j: nat)
    requires IsBest(key, ok, s, i) && IsBest(key, ok, s, j)
    ensures i == j
  {
    assert ok(s[i]) && ok(s[j]);
  }

  // ---------------------------------------------------------------- classify

  datatype ClassificationRule = ClassificationRule(
    hint: string,
    keywords: seq<string>,
    patterns: seq<string>,
    minLength: Option<nat>,
    maxLength: Option<nat>,
    priority: int)

  predicate AnyContained(text: string, pieces: seq<string>) {
    exists i :: 0 <= i < |pieces| && Contains(text, pieces[i])
  }

  // A rule applies to a message: the length in bytes is in range, and a keyword
  // occurs whatever its case or a pattern occurs as written.
  predicate Applies(lower: string -> string, message: string, rule: ClassificationRule) {
    && (rule.minLength.Some? ==> rule.minLength.value <= Utf8Len(message))
    && (rule.maxLength.Some? ==> Utf8Len(message) <= rule.maxLength.value)
    && ((exists i :: 0 <= i < |rule.keywords| && Contains(lower(message), lower(rule.keywords[i])))
        || AnyContained(message, rule.patterns))
  }

  function ByPriority(rule: ClassificationRule): int {
    -rule.priority
  }

  function Applying(lower: string -> string, message: string): ClassificationRule -> bool {
    rule => Applies(lower, message, rule)
  }

  method Classify(lower: string -> string, rules: seq<ClassificationRule>, message: string)
      returns (hint: Option<string>)
    ensures hint.None? <==> forall i :: 0 <= i < |rules| ==> !Applies(lower, message, rules[i])
    ensures hint.Some? ==>
            exists rule :: IsBestElement(ByPriority, Applying(lower, message), rules, rule) && hint.value == rule.hint
    // No rule that applies has a higher priority, none of the same comes earlier.
    ensures hint.Some? ==>
            exists i: nat :: i < |rules| && hint.value == rules[i].hint && Applies(lower, message, rules[i])
              && forall j :: 0 <= j < |rules| && Applies(lower, message, rules[j]) ==>
                   rules[j].priority < rules[i].priority || (rules[j].priority == rules[i].priority && i <= j)
  {
    hide Applies, Contains, Utf8Len, IsBestElement, StableSort;
    if rules == [] {
      return None;
    }
    var len := Utf8Len(message);
    var sorted := StableSort(ByPriority, rules);
    ghost var ok := Applying(lower, message);
    SortedScanFindsBest(ByPriority, ok, rules);
    assert sorted[0..] == sorted;
    for i := 0 to |sorted|
      invariant FirstMatch(ok, sorted) == FirstMatch(ok, sorted[i..])
    {
      var rule := sorted[i];
      assert sorted[i..][0] == rule && sorted[i..][1..] == sorted[i + 1..];
      AppliesMeans(lower, message, rule);
      if rule.minLength.Some? && len < rule.minLength.value {
        continue;
      }
      if rule.maxLength.Some? && len > rule.maxLength.value {
        continue;
      }
      var keywordHit := exists k :: 0 <= k < |rule.keywords| && Contains(lower(message), lower(rule.keywords[k]));
      var patternHit := AnyContained(message, rule.patterns);
      if keywordHit || patternHit {
        BestMatches(ByPriority, ok, rules, rule);
        BestHasHighestPriority(lower, rules, message, rule);
        return Some(rule.hint);
      }
    }
    assert sorted[|sorted|..] == [];
    hint := None;
  }

  lemma {:induction false} BestHasHighestPriority(lower: string -> string, rules: seq<ClassificationRule>,
                                                  message: string, rule: ClassificationRule)
    requires IsBestElement(ByPriority, Applying(lower, message), rules, rule)
    ensures exists i: nat :: i < |rules| && rule == rules[i] && Applies(lower, message, rules[i])
              && forall j :: 0 <= j < |rules| && Applies(lower, message, rules[j]) ==>
                   rules[j].priority < rules[i].priority || (rules[j].priority == rules[i].priority && i <= j)
  {
    hide Applies;
    var i: nat :| IsBest(ByPriority, Applying(lower, message), rules, i) && rules[i] == rule;
  }

  lemma {:induction false} AppliesMeans(lower: string -> string, message: string, rule: ClassificationRule)
    ensures Applies(lower, message, rule)
            <==> !(rule.minLength.Some? && Utf8Len(message) < rule.minLength.value)
                 && !(rule.maxLength.Some? && Utf8Len(message) > rule.maxLength.value)
                 && ((exists k :: 0 <= k < |rule.keywords| && Contains(lower(message), lower(rule.keywords[k])))
                     || (exists k :: 0 <= k < |rule.patterns| && Contains(message, rule.patterns[k])))
  {
  }

  // The length limits count bytes, not the characters their documentation
  // speaks of; the two agree exactly on ASCII text.
  lemma {:induction false} BytesAreCharactersOnAscii(s: string)
    ensures Utf8Len(s) == |s| <==> forall i :: 0 <= i < |s| ==> s[i] < '\U{80}'
  {
    if s != "" {
      BytesAreCharactersOnAscii(s[1..]);
      assert forall i :: 0 < i < |s| ==> s[i] == s[1..][i - 1];
    }
  }

  // The same with the length in characters, as the limits are documented.
  predicate AppliesByCharacters(lower: string -> string, message: string, rule: ClassificationRule) {
    && (rule.minLength.Some? ==> rule.minLength.value <= |message|)
    && (rule.maxLength.Some? ==> |message| <= rule.maxLength.value)
    && ((exists i :: 0 <= i < |rule.keywords| && Contains(lower(message), lower(rule.keywords[i])))
        || AnyContained(message, rule.patterns))
  }

  predicate IsAscii(s: string) {
    forall i :: 0 <= i < |s| ==> s[i] < '\U{80}'
  }

  // A rule any message of `n` bytes or more falls under.
  function LongerThan(n: nat): ClassificationRule {
    ClassificationRule("", [], [""], Some(n), None, 0)
  }

  lemma {:induction false} EmptyIsContained(s: string)
    ensures AnyContained(s, [""])
  {
    assert "" <= s && Find(s, "") == Some(0);
    assert [""][0] == "";
  }

  // The documented limits hold for every rule exactly on ASCII messages.
  lemma {:induction false} LimitsAreCharactersOnAscii(lower: string -> string, message: string)
    ensures IsAscii(message) <==>
            forall rule :: Applies(lower, message, rule) == AppliesByCharacters(lower, message, rule)
  {
    BytesAreCharactersOnAscii(message);
    if !IsAscii(message) {
      var rule := LongerThan(|message| + 1);
      EmptyIsContained(message);
      assert Applies(lower, message, rule) != AppliesByCharacters(lower, message, rule);
    }
  }

  // One character of two bytes passes a minimum of two.
  lemma {:induction false} OneCharacterPassesMinimumOfTwo(lower: string -> string)
    ensures var message, rule := "\U{E9}", LongerThan(2);
            Applies(lower, message, rule) && !AppliesByCharacters(lower, message, rule)
  {
    var message := "\U{E9}";
    EmptyIsContained(message);
    assert message[1..] == "" && Utf8Len(message) == 2;
  }

  // ---------------------------------------------------------------- classify_intent

  datatype TaskIntent = Simple | Delegate | Stream

  datatype TaskRoutingRule = TaskRoutingRule(
    keywords: seq<string>,
    intent: TaskIntent,
    modelHint: Option<string>,
    subAgentModel: Option<string>,
    priority: int)

  datatype TaskRoutingConfig = TaskRoutingConfig(defaultIntent: TaskIntent, rules: seq<TaskRoutingRule>)

  datatype ClassifyResult = ClassifyResult(intent: TaskIntent, modelHint: Option<string>, reason: string)

  const NO_RULE_MATCHED: string := "no task_routing rule matched; using default intent"

  predicate HitsKeyword(lower: string -> string, message: string, rule: TaskRoutingRule) {
    exists i :: 0 <= i < |rule.keywords| && Trim(rule.keywords[i]) != ""
                && Contains(lower(message), lower(Trim(rule.keywords[i])))
  }

  function ByRoutingPriority(rule: TaskRoutingRule): int {
    -rule.priority
  }

  // A configured model name, unless it is blank.
  function Named(model: Option<string>): Option<string> {
    if model.Some? && Trim(model.value) != "" then Some(Trim(model.value)) else None
  }

  // What a rule decides; delegation prefers its own model.
  function Decision(describe: TaskRoutingRule -> string, rule: TaskRoutingRule): ClassifyResult {
    var hint := if rule.intent == Delegate && Named(rule.subAgentModel).Some? then Named(rule.subAgentModel)
                else Named(rule.modelHint);
    ClassifyResult(rule.intent, hint, describe(rule))
  }

  function Hitting(lower: string -> string, message: string): TaskRoutingRule -> bool {
    rule => HitsKeyword(lower, message, rule)
  }

  lemma {:induction false} BestRoutesFirst(lower: string -> string, rules: seq<TaskRoutingRule>, message: string,
                                           rule: TaskRoutingRule)
    requires IsBestElement(ByRoutingPriority, Hitting(lower, message), rules, rule)
    ensures exists i: nat :: i < |rules| && rule == rules[i] && HitsKeyword(lower, message, rules[i])
              && forall j :: 0 <= j < |rules| && HitsKeyword(lower, message, rules[j]) ==>
                   rules[j].priority < rules[i].priority || (rules[j].priority == rules[i].priority && i <= j)
  {
    hide HitsKeyword;
    var i: nat :| IsBest(ByRoutingPriority, Hitting(lower, message), rules, i) && rules[i] == rule;
  }

  // A keyword hits trimmed and whatever its case, and a blank one never.
  lemma {:induction false} KeywordsHit(lower: string -> string, message: string, rule: TaskRoutingRule)
    ensures HitsKeyword(lower, message, rule) <==>
            exists k :: 0 <= k < |rule.keywords| && Trim(rule.keywords[k]) != ""
                        && Contains(lower(message), lower(Trim(rule.keywords[k])))
  {
  }

  // What a rule hit decides: its intent, and of the model names that are not blank
  // the delegate's own for a delegation, and the hint otherwise.
  lemma {:induction false} DecisionNames(describe: TaskRoutingRule -> string, rule: TaskRoutingRule)
    ensures var d := Decision(describe, rule);
            && d.intent == rule.intent && d.reason == describe(rule)
            && (d.modelHint == None <==>
                (rule.modelHint == None || Trim(rule.modelHint.value) == "")
                && (rule.intent != Delegate || rule.subAgentModel == None || Trim(rule.subAgentModel.value) == ""))
            && (d.modelHint.Some? ==>
                if rule.intent == Delegate && rule.subAgentModel.Some? && Trim(rule.subAgentModel.value) != ""
                then d.modelHint.value == Trim(rule.subAgentModel.value)
                else rule.modelHint.Some? && d.modelHint.value == Trim(rule.modelHint.value))
  {
    hide Trim;
  }

  method ClassifyIntent(lower: string -> string, describe: TaskRoutingRule -> string, config: TaskRoutingConfig,
                        message: string) returns (result: ClassifyResult)
    ensures (forall i :: 0 <= i < |config.rules| ==> !HitsKeyword(lower, message, config.rules[i])) ==>
            result == ClassifyResult(config.defaultIntent, None, NO_RULE_MATCHED)
    ensures (exists i :: 0 <= i < |config.rules| && HitsKeyword(lower, message, config.rules[i])) ==>
            exists rule :: IsBestElement(ByRoutingPriority, Hitting(lower, message), config.rules, rule)
                           && result == Decision(describe, rule)
    // No rule that is hit has a higher priority, none of the same comes earlier.
    ensures (exists i :: 0 <= i < |config.rules| && HitsKeyword(lower, message, config.rules[i])) ==>
            exists i: nat ::
              && i < |config.rules| && HitsKeyword(lower, message, config.rules[i])
              && result == Decision(describe, config.rules[i])
              && forall j :: 0 <= j < |config.rules| && HitsKeyword(lower, message, config.rules[j]) ==>
                   || config.rules[j].priority < config.rules[i].priority
                   || (config.rules[j].priority == config.rules[i].priority && i <= j)
  {
    hide HitsKeyword, Trim, IsBestElement, StableSort;
    var sorted := StableSort(ByRoutingPriority, config.rules);
    ghost var ok := Hitting(lower, message);
    SortedScanFindsBest(ByRoutingPriority, ok, config.rules);
    assert sorted[0..] == sorted;
    for i := 0 to |sorted|
      invariant FirstMatch(ok, sorted) == FirstMatch(ok, sorted[i..])
    {
      var rule := sorted[i];
      assert sorted[i..][0] == rule && sorted[i..][1..] == sorted[i + 1..];
      if !HitsKeyword(lower, message, rule) {
        continue;
      }
      var modelHint := Named(rule.modelHint);
      if rule.intent == Delegate {
        var own := Named(rule.subAgentModel);
        if own.Some? {
          modelHint := own;
        }
      }
      BestMatches(ByRoutingPriority, ok, config.rules, rule);
      BestRoutesFirst(lower, config.rules, message, rule);
      assert Decision(describe, rule) == ClassifyResult(rule.intent, modelHint, describe(rule));
      return ClassifyResult(rule.intent, modelHint, describe(rule));
    }
    assert sorted[|sorted|..] == [];
    result := ClassifyResult(config.defaultIntent, None, NO_RULE_MATCHED);
  }
}
