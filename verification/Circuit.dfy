// `infer_circuit_state` of src/evolution_cli.rs: a breaker's state read off the
// log of evolution cycles, newest first.
module Circuit {
  import opened Wrappers
  import opened Lists

  datatype EvolutionResult = Improved | Neutral | Regressed | Rejected | Deferred

  datatype EvolutionLog = EvolutionLog(result: Option<EvolutionResult>, timestamp: string)

  datatype CircuitBreakerState = Closed | Open | HalfOpen

  const NANOS: int := 1_000_000_000
  const U64_SIZE: int := 0x1_0000_0000_0000_0000
  const I64_MAX: int := 0x7FFF_FFFF_FFFF_FFFF

  predicate Counts(log: EvolutionLog) {
    log.result != Some(Deferred)
  }

  predicate Failed(log: EvolutionLog) {
    log.result == Some(Regressed) || log.result == Some(Rejected)
  }

  function TakeWhileFailed(logs: seq<EvolutionLog>): (r: seq<EvolutionLog>)
    ensures r <= logs
  {
    if logs == [] || !Failed(logs[0]) then [] else [logs[0]] + TakeWhileFailed(logs[1..])
  }

  function Take(logs: seq<EvolutionLog>, n: nat): seq<EvolutionLog> {
    if n <= |logs| then logs[..n] else logs
  }

  function AtLeastOne(n: nat): (r: nat)
    ensures r >= 1
  {
    if n == 0 then 1 else n
  }

  // Hours as seconds: multiplied in 64 bits and read as a signed number.
  function CooldownSecs(hours: nat): int {
    var secs := AtLeastOne(hours) * 3600 % U64_SIZE;
    if secs <= I64_MAX then secs else secs - U64_SIZE
  }

  // Whole seconds between two times in nanoseconds, cut towards zero.
  function NumSeconds(nanos: int): int {
    if nanos >= 0 then nanos / NANOS else -(-nanos / NANOS)
  }

  // The streak of failures that counts, newest first.
  function Streak(logs: seq<EvolutionLog>, threshold: nat): seq<EvolutionLog> {
    Take(TakeWhileFailed(Filter(Counts, logs)), AtLeastOne(threshold))
  }

  function InferCircuitState(parse: string -> Option<int>, logs: seq<EvolutionLog>, threshold: nat, hours: nat,
                             now: int)
    : CircuitBreakerState
  {
    var failures := Streak(logs, threshold);
    if |failures| < AtLeastOne(threshold) then Closed
    else
      var parsed := parse(failures[|failures| - 1].timestamp);
      var openedAt := if parsed.Some? then parsed.value else now;
      if NumSeconds(now - openedAt) < CooldownSecs(hours) then Open else HalfOpen
  }

  lemma {:induction false} TakesWhileFailed(logs: seq<EvolutionLog>, n: nat)
    ensures n <= |TakeWhileFailed(logs)| <==> n <= |logs| && forall i :: 0 <= i < n ==> Failed(logs[i])
  {
    if logs != [] && n > 0 {
      TakesWhileFailed(logs[1..], n - 1);
      assert forall i :: 0 < i < |logs| ==> logs[i] == logs[1..][i - 1];
    }
  }

  // The newest `threshold` cycles that were not deferred all failed.
  predicate IsTripped(logs: seq<EvolutionLog>, threshold: nat) {
    var counted := Filter(Counts, logs);
    var n := AtLeastOne(threshold);
    n <= |counted| && forall i :: 0 <= i < n ==> Failed(counted[i])
  }

  // The breaker is open or half open exactly when it is tripped,
  lemma {:induction false} NotClosedIffTripped(parse: string -> Option<int>, logs: seq<EvolutionLog>, threshold: nat,
                                               hours: nat, now: int)
    ensures InferCircuitState(parse, logs, threshold, hours, now) != Closed <==> IsTripped(logs, threshold)
    ensures IsTripped(logs, threshold) ==> Streak(logs, threshold) == Filter(Counts, logs)[..AtLeastOne(threshold)]
  {
    hide Failed;
    TakesWhileFailed(Filter(Counts, logs), AtLeastOne(threshold));
    assert TakeWhileFailed(Filter(Counts, logs)) <= Filter(Counts, logs);
  }

  // The cooldown in 64 bits is the configured one as long as it is below 2^63
  // seconds, and no longer.
  predicate CooldownFits(hours: nat) {
    AtLeastOne(hours) * 3600 <= I64_MAX
  }

  lemma {:induction false} CooldownIsExactIffItFits(hours: nat)
    requires hours < U64_SIZE
    ensures CooldownSecs(hours) == AtLeastOne(hours) * 3600 <==> CooldownFits(hours)
    ensures CooldownSecs(hours) <= I64_MAX
  {
  }

  // The time the breaker opened: that of the oldest failure needed to trip it.
  function StartedAt(parse: string -> Option<int>, logs: seq<EvolutionLog>, threshold: nat): Option<int>
    requires IsTripped(logs, threshold)
  {
    parse(Filter(Counts, logs)[AtLeastOne(threshold) - 1].timestamp)
  }

  lemma {:induction false} TrippedState(parse: string -> Option<int>, logs: seq<EvolutionLog>, threshold: nat,
                                        hours: nat, now: int)
    requires IsTripped(logs, threshold)
    ensures var started := StartedAt(parse, logs, threshold);
            InferCircuitState(parse, logs, threshold, hours, now)
            == if NumSeconds(now - (if started.Some? then started.value else now)) < CooldownSecs(hours) then Open
               else HalfOpen
  {
    NotClosedIffTripped(parse, logs, threshold, hours, now);
    var n := AtLeastOne(threshold);
    assert n <= |Filter(Counts, logs)|;
    hide Streak, Filter, Failed;
    assert Filter(Counts, logs)[..n][n - 1] == Filter(Counts, logs)[n - 1];
  }

  // and a tripped breaker is half open exactly when its opening time is known and
  // the cooldown has passed since.
  lemma {:induction false} HalfOpensAfterCooldown(parse: string -> Option<int>, logs: seq<EvolutionLog>, threshold: nat,
                                                  hours: nat, now: int)
    requires IsTripped(logs, threshold) && CooldownFits(hours)
    ensures InferCircuitState(parse, logs, threshold, hours, now) == HalfOpen
            <==> IsOver(StartedAt(parse, logs, threshold), hours, now)
  {
    TrippedState(parse, logs, threshold, hours, now);
    hide IsTripped, InferCircuitState, NumSeconds;
    CooldownIsExactIffItFits(hours);
    var started := StartedAt(parse, logs, threshold);
    if started.Some? {
      SecondsReached(now - started.value, CooldownSecs(hours));
    } else {
      NoSeconds();
    }
  }

  // The configured cooldown has passed since `started`.
  predicate IsOver(started: Option<int>, hours: nat, now: int) {
    started.Some? && now - started.value >= AtLeastOne(hours) * 3600 * NANOS
  }

  // The clock is within `span` seconds of `started`.
  predicate IsNear(started: int, now: int, span: int) {
    -span * NANOS <= now - started <= span * NANOS
  }

  // With a known opening time and a clock that stays within a span of it, this
  // holds at every moment exactly for the cooldowns that fit and for those whose
  // wrapped value lies beyond the span.
  lemma {:induction false} CooldownIsKeptWithin(parse: string -> Option<int>, logs: seq<EvolutionLog>, threshold: nat,
                                                hours: nat, span: int)
    requires IsTripped(logs, threshold) && hours < U64_SIZE && StartedAt(parse, logs, threshold).Some?
    requires 0 < span < I64_MAX
    ensures CooldownFits(hours) || CooldownSecs(hours) > span <==>
            forall now :: IsNear(StartedAt(parse, logs, threshold).value, now, span) ==>
                            (InferCircuitState(parse, logs, threshold, hours, now) == HalfOpen
                             <==> IsOver(StartedAt(parse, logs, threshold), hours, now))
  {
    hide IsTripped, InferCircuitState, CooldownSecs;
    if CooldownFits(hours) {
      forall now
        ensures InferCircuitState(parse, logs, threshold, hours, now) == HalfOpen
                <==> IsOver(StartedAt(parse, logs, threshold), hours, now)
      {
        HalfOpensAfterCooldown(parse, logs, threshold, hours, now);
      }
    } else if CooldownSecs(hours) > span {
      forall now | IsNear(StartedAt(parse, logs, threshold).value, now, span)
        ensures InferCircuitState(parse, logs, threshold, hours, now) == Open
        ensures !IsOver(StartedAt(parse, logs, threshold), hours, now)
      {
        WrappedBeyondTheClock(parse, logs, threshold, hours, span, now);
      }
    } else {
      WrappedEndsEarly(parse, logs, threshold, hours, span);
    }
  }

  lemma {:induction false} WrappedBeyondTheClock(parse: string -> Option<int>, logs: seq<EvolutionLog>, threshold: nat,
                                                 hours: nat, span: int, now: int)
    requires IsTripped(logs, threshold) && !CooldownFits(hours) && StartedAt(parse, logs, threshold).Some?
    requires 0 < span < I64_MAX && CooldownSecs(hours) > span
    requires IsNear(StartedAt(parse, logs, threshold).value, now, span)
    ensures InferCircuitState(parse, logs, threshold, hours, now) == Open
    ensures !IsOver(StartedAt(parse, logs, threshold), hours, now)
  {
    TrippedState(parse, logs, threshold, hours, now);
    hide IsTripped, InferCircuitState, CooldownSecs, NumSeconds;
    SecondsReached(now - StartedAt(parse, logs, threshold).value, CooldownSecs(hours));
  }

  // A cooldown that does not fit ends when its wrapped value has passed.
  lemma {:induction false} WrappedEndsEarly(parse: string -> Option<int>, logs: seq<EvolutionLog>, threshold: nat,
                                            hours: nat, span: int)
    requires IsTripped(logs, threshold) && hours < U64_SIZE && !CooldownFits(hours)
    requires StartedAt(parse, logs, threshold).Some? && 0 < span < I64_MAX && CooldownSecs(hours) <= span
    ensures var started := StartedAt(parse, logs, threshold);
            var now := started.value + (if CooldownSecs(hours) < 0 then 0 else CooldownSecs(hours)) * NANOS;
            && IsNear(started.value, now, span)
            && InferCircuitState(parse, logs, threshold, hours, now) == HalfOpen && !IsOver(started, hours, now)
  {
    var secs := if CooldownSecs(hours) < 0 then 0 else CooldownSecs(hours);
    TrippedState(parse, logs, threshold, hours, StartedAt(parse, logs, threshold).value + secs * NANOS);
    hide IsTripped, InferCircuitState, CooldownSecs;
    assert NumSeconds(secs * NANOS) == secs;
  }

  // The least cooldown that does not fit is over at once.
  lemma {:induction false} LeastWrappedCooldownIsOverAtOnce(parse: string -> Option<int>, logs: seq<EvolutionLog>,
                                                            threshold: nat)
    requires IsTripped(logs, threshold) && StartedAt(parse, logs, threshold).Some?
    ensures var started := StartedAt(parse, logs, threshold);
            var hours := I64_MAX / 3600 + 1;
            && InferCircuitState(parse, logs, threshold, hours, started.value) == HalfOpen
            && !IsOver(started, hours, started.value)
  {
    var hours := I64_MAX / 3600 + 1;
    TrippedState(parse, logs, threshold, hours, StartedAt(parse, logs, threshold).value);
    hide IsTripped, InferCircuitState;
    assert CooldownSecs(hours) < 0;
    NoSeconds();
  }

  lemma {:induction false} NoSeconds()
    ensures NumSeconds(0) == 0
  {
  }

  lemma {:induction false} SecondsReached(nanos: int, secs: int)
    requires secs > 0
    ensures NumSeconds(nanos) >= secs <==> nanos >= secs * NANOS
  {
  }

  // Deferred cycles leave no trace, wherever they stand in the log.
  lemma {:induction false} DeferredIsIgnored(parse: string -> Option<int>, before: seq<EvolutionLog>,
                                             deferred: seq<EvolutionLog>, after: seq<EvolutionLog>, threshold: nat,
                                             hours: nat, now: int)
    requires forall i :: 0 <= i < |deferred| ==> deferred[i].result == Some(Deferred)
    ensures InferCircuitState(parse, before + deferred + after, threshold, hours, now)
            == InferCircuitState(parse, before + after, threshold, hours, now)
  {
    hide TakeWhileFailed, Filter;
    DeferredIsFiltered(before, deferred, after);
  }

  lemma {:induction false} DeferredIsFiltered(before: seq<EvolutionLog>, deferred: seq<EvolutionLog>,
                                              after: seq<EvolutionLog>)
    requires forall i :: 0 <= i < |deferred| ==> deferred[i].result == Some(Deferred)
    ensures Filter(Counts, before + deferred + after) == Filter(Counts, before + after)
  {
    NothingCounts(deferred);
    hide Filter;
    FilterConcat(Counts, before + deferred, after);
    FilterConcat(Counts, before, deferred);
    FilterConcat(Counts, before, after);
    assert Filter(Counts, before) + [] == Filter(Counts, before);
  }

  lemma {:induction false} NothingCounts(logs: seq<EvolutionLog>)
    requires forall i :: 0 <= i < |logs| ==> !Counts(logs[i])
    ensures Filter(Counts, logs) == []
  {
    if logs != [] { NothingCounts(logs[1..]); }
  }

  lemma {:induction false} SecondsGrow(a: int, b: int)
    requires a <= b
    ensures NumSeconds(a) <= NumSeconds(b)
  {
  }

  // As time passes a breaker whose opening time is known can only go from open
  // to half open; one whose opening time cannot be read keeps its state.
  lemma {:induction false} TimeOnlyHalfOpens(parse: string -> Option<int>, logs: seq<EvolutionLog>, threshold: nat,
                                             hours: nat, now: int, later: int)
    requires now <= later
    ensures var before := InferCircuitState(parse, logs, threshold, hours, now);
            var after := InferCircuitState(parse, logs, threshold, hours, later);
            after == before || (before == Open && after == HalfOpen)
  {
    hide Streak, CooldownSecs, NumSeconds;
    var failures := Streak(logs, threshold);
    if failures != [] {
      var parsed := parse(failures[|failures| - 1].timestamp);
      if parsed.Some? { SecondsGrow(now - parsed.value, later - parsed.value); }
    }
  }

  // ---------------------------------------------------------------- read off the log

  function CountedAt(logs: seq<EvolutionLog>): set<int> {
    set i | 0 <= i < |logs| && logs[i].result != Some(Deferred)
  }

  lemma {:induction false} NoneCountedAt()
    ensures CountedAt([]) == {} && Filter(Counts, []) == []
  {
  }

  lemma {:induction false} OneMoreCountedAt(logs: seq<EvolutionLog>)
    requires logs != []
    ensures var n := |logs| - 1;
            && n !in CountedAt(logs[..n])
            && CountedAt(logs) == CountedAt(logs[..n]) + if Counts(logs[n]) then {n} else {}
  {
    var n := |logs| - 1;
    assert forall i :: 0 <= i < n ==> logs[..n][i] == logs[i];
  }

  lemma {:induction false} CountedIsSize(logs: seq<EvolutionLog>)
    ensures |Filter(Counts, logs)| == |CountedAt(logs)|
  {
    hide CountedAt, Filter, Counts;
    if logs == [] {
      NoneCountedAt();
    } else {
      var n := |logs| - 1;
      CountedIsSize(logs[..n]);
      OneMoreCountedAt(logs);
      OneMoreLog(logs, n);
      assert logs[..n + 1] == logs;
    }
  }

  // The same for the newest cycles up to position `p`.
  lemma {:induction false} CountedUpTo(logs: seq<EvolutionLog>, p: nat)
    requires p < |logs|
    ensures |Filter(Counts, logs[..p + 1])| == |set i | 0 <= i <= p && logs[i].result != Some(Deferred)|
  {
    CountedIsSize(logs[..p + 1]);
    assert CountedAt(logs[..p + 1]) == (set i | 0 <= i <= p && logs[i].result != Some(Deferred));
  }

  lemma {:induction false} OneMoreLog(logs: seq<EvolutionLog>, p: nat)
    requires p < |logs|
    ensures Filter(Counts, logs[..p + 1]) == Filter(Counts, logs[..p]) + if Counts(logs[p]) then [logs[p]] else []
    ensures Filter(Counts, logs) == Filter(Counts, logs[..p + 1]) + Filter(Counts, logs[p + 1..])
  {
    hide Counts;
    assert logs[..p + 1] == logs[..p] + [logs[p]] && logs == logs[..p + 1] + logs[p + 1..];
    FilterConcat(Counts, logs[..p], [logs[p]]);
    FilterConcat(Counts, logs[..p + 1], logs[p + 1..]);
    assert [logs[p]][1..] == [];
  }

  // The `n`-th cycle that counts, from the newest on.
  lemma {:induction false} NthCounted(logs: seq<EvolutionLog>, n: nat) returns (p: nat)
    requires 0 < n <= |Filter(Counts, logs)|
    ensures p < |logs| && Counts(logs[p]) && |Filter(Counts, logs[..p + 1])| == n
  {
    hide Counts, Filter;
    NoneCountedAt();
    var last := |logs| - 1;
    OneMoreLog(logs, last);
    assert logs[..last + 1] == logs;
    if n == |Filter(Counts, logs)| && Counts(logs[last]) {
      p := last;
    } else {
      p := NthCounted(logs[..last], n);
      assert logs[..last][..p + 1] == logs[..p + 1];
    }
  }

  // `p` is where the failures reach the threshold: up to it every cycle failed or
  // was deferred, it was not deferred itself, and so many were not.
  lemma {:induction false} TripsAt(logs: seq<EvolutionLog>, threshold: nat, p: nat)
    requires p < |logs| && logs[p].result != Some(Deferred)
    requires forall i :: 0 <= i <= p ==> logs[i].result == Some(Deferred) || logs[i].result == Some(Regressed)
                                         || logs[i].result == Some(Rejected)
    requires |set i | 0 <= i <= p && logs[i].result != Some(Deferred)| == if threshold == 0 then 1 else threshold
    ensures IsTripped(logs, threshold)
    ensures Filter(Counts, logs)[AtLeastOne(threshold) - 1] == logs[p]
  {
    var head := logs[..p + 1];
    CountedUpTo(logs, p);
    OneMoreLog(logs, p);
    var counted, first := Filter(Counts, logs), Filter(Counts, head);
    forall i | 0 <= i < |first| ensures Failed(counted[i]) {
      assert counted[i] == first[i] && first[i] in head;
    }
  }

  // The breaker is not closed exactly when the log holds such a cycle,
  lemma {:induction false} NotClosedExactly(parse: string -> Option<int>, logs: seq<EvolutionLog>, threshold: nat,
                                            hours: nat, now: int)
    ensures InferCircuitState(parse, logs, threshold, hours, now) != Closed <==>
            exists p :: 0 <= p < |logs| && logs[p].result != Some(Deferred)
              && (forall i :: 0 <= i <= p ==> logs[i].result == Some(Deferred) || logs[i].result == Some(Regressed)
                                              || logs[i].result == Some(Rejected))
              && |set i | 0 <= i <= p && logs[i].result != Some(Deferred)| == if threshold == 0 then 1 else threshold
  {
    NotClosedIffTripped(parse, logs, threshold, hours, now);
    hide InferCircuitState;
    if IsTripped(logs, threshold) {
      var p := TrippedAt(logs, threshold);
    }
    if p :| 0 <= p < |logs| && logs[p].result != Some(Deferred)
            && (forall i :: 0 <= i <= p ==> logs[i].result == Some(Deferred) || logs[i].result == Some(Regressed)
                                            || logs[i].result == Some(Rejected))
            && |set i | 0 <= i <= p && logs[i].result != Some(Deferred)| == if threshold == 0 then 1 else threshold {
      TripsAt(logs, threshold, p);
    }
  }

  lemma {:induction false} TrippedAt(logs: seq<EvolutionLog>, threshold: nat) returns (p: nat)
    requires IsTripped(logs, threshold)
    ensures p < |logs| && logs[p].result != Some(Deferred)
    ensures forall i :: 0 <= i <= p ==> logs[i].result == Some(Deferred) || logs[i].result == Some(Regressed)
                                        || logs[i].result == Some(Rejected)
    ensures |set i | 0 <= i <= p && logs[i].result != Some(Deferred)| == if threshold == 0 then 1 else threshold
  {
    p := NthCounted(logs, AtLeastOne(threshold));
    CountedUpTo(logs, p);
    OneMoreLog(logs, p);
    forall i | 0 <= i <= p && Counts(logs[i]) ensures Failed(logs[i]) {
      CountedIsAmong(logs, threshold, p, i);
    }
  }

  lemma {:induction false} CountedIsAmong(logs: seq<EvolutionLog>, threshold: nat, p: nat, i: nat)
    requires IsTripped(logs, threshold) && i <= p < |logs| && Counts(logs[i])
    requires |Filter(Counts, logs[..p + 1])| == AtLeastOne(threshold)
    requires Filter(Counts, logs) == Filter(Counts, logs[..p + 1]) + Filter(Counts, logs[p + 1..])
    ensures Failed(logs[i])
  {
    hide Failed, Counts;
    var head := logs[..p + 1];
    var counted, first := Filter(Counts, logs), Filter(Counts, head);
    assert head[i] in head && logs[i] in first;
    var k :| 0 <= k < |first| && first[k] == logs[i];
    assert counted[k] == first[k];
  }

  // and is half open from then exactly when the time of that cycle is readable and
  // the configured hours have passed since.
  lemma {:induction false} HalfOpenExactly(parse: string -> Option<int>, logs: seq<EvolutionLog>, threshold: nat,
                                           hours: nat, now: int, p: nat)
    requires p < |logs| && logs[p].result != Some(Deferred)
    requires forall i :: 0 <= i <= p ==> logs[i].result == Some(Deferred) || logs[i].result == Some(Regressed)
                                         || logs[i].result == Some(Rejected)
    requires |set i | 0 <= i <= p && logs[i].result != Some(Deferred)| == if threshold == 0 then 1 else threshold
    requires hours * 3600 <= 0x7FFF_FFFF_FFFF_FFFF
    ensures InferCircuitState(parse, logs, threshold, hours, now) ==
            if parse(logs[p].timestamp).Some?
               && now - parse(logs[p].timestamp).value >= (if hours == 0 then 1 else hours) * 3600 * 1_000_000_000
            then HalfOpen else Open
  {
    TripsAt(logs, threshold, p);
    hide IsTripped, InferCircuitState, Filter;
    NotClosedIffTripped(parse, logs, threshold, hours, now);
    HalfOpensAfterCooldown(parse, logs, threshold, hours, now);
  }
}
