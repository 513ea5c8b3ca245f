/** Network time attempts (main/src/clock_manager.cpp): generation numbers keep an answer
    that arrives late from being applied. Each event is one section under the locks; the
    SNTP callback, the clock loop and whoever requests, cancels or sets the time by
    hand interleave freely, and the loop holds a taken answer outside the locks. */
module Ntp {
  import opened Bytes
  import opened ClockMath
  import opened Generations

  /** An answer and the generation stamped on it; `at` counts the generation changes seen
      when the callback ran, which the program does not know. */
  datatype Answer = Answer(epoch: u64, generation: u32, at: nat)

  datatype Source = FALLBACK | RESTORED | MANUAL | NTP

  /** `changes` counts generation changes; `corrections` lists the clock corrections, each
      with the change count at that moment. */
  datatype Clock = Clock(
    pending: bool, generation: u32, active: u32, ready: Option<Answer>, held: Option<Answer>,
    changes: nat, byRequest: bool, corrections: seq<(Source, nat)>)

  const BOOT := Clock(false, 0, 0, None, None, 0, false, [])

  datatype Event =
    | Request(connected: bool)   // clockRequestNtpSync
    | Callback(epoch: u64)       // ntpTimeAvailable
    | Take                       // takeNtpCallback in the loop
    | Apply                      // the loop with the answer it took
    | Expire                     // deadline passed or WiFi lost
    | Cancel                     // cancelNtpAttempt
    | Manual(source: Source)     // applyEpochCorrection by hand or reset

  predicate Enabled(c: Clock, e: Event) {
    match e
    case Take => c.held.None?
    case Apply => c.held.Some?
    case Manual(source) => source != NTP
    case _ => true
  }

  function NewGeneration(c: Clock): Clock {
    c.(generation := Bump(c.generation), active := Bump(c.generation), ready := None, changes := c.changes + 1)
  }

  function Correct(c: Clock, source: Source): Clock {
    c.(corrections := c.corrections + [(source, c.changes)])
  }

  function Step(c: Clock, e: Event): Clock
    requires Enabled(c, e)
  {
    match e
    case Request(connected) =>
      if !connected || c.pending then c else NewGeneration(c).(pending := true, byRequest := true)
    case Callback(epoch) => if epoch == 0 then c else c.(ready := Some(Answer(epoch, c.active, c.changes)))
    case Take => c.(held := c.ready, ready := None)
    case Apply =>
      var a, t := c.held.value, c.(held := None);
      if NtpEpochIsSane(a.epoch) then
        if a.generation != 0 && (!c.pending || c.generation != a.generation) then t
        else Correct(t, NTP).(pending := if a.generation != 0 then false else c.pending)
      else if c.pending && c.generation == a.generation then t.(pending := false)
      else t
    case Expire => c.(pending := false)
    case Cancel => NewGeneration(c).(pending := false, byRequest := false)
    case Manual(source) => Correct(c, source)
  }

  ghost predicate Possible(c: Clock, es: seq<Event>)
    decreases |es|
  {
    es == [] || (Enabled(c, es[0]) && Possible(Step(c, es[0]), es[1..]))
  }

  ghost function Run(c: Clock, es: seq<Event>): Clock
    requires Possible(c, es)
    decreases |es|
  {
    if es == [] then c else Run(Step(c, es[0]), es[1..])
  }

  /** SNTP is started by the first request, so no callback runs before it. */
  predicate CallbacksAfterRequest(c: Clock, es: seq<Event>)
    requires Possible(c, es)
    decreases |es|
  {
    es == [] || ((es[0].Callback? ==> c.active != 0) && CallbacksAfterRequest(Step(c, es[0]), es[1..]))
  }

  predicate Stamped(a: Option<Answer>) {
    a.Some? ==> a.value.generation != 0
  }

  predicate AllStamped(c: Clock) {
    Stamped(c.ready) && Stamped(c.held)
  }

  function NtpCount(cs: seq<(Source, nat)>): nat {
    if cs == [] then 0 else NtpCount(cs[..|cs| - 1]) + (if cs[|cs| - 1].0 == NTP then 1 else 0)
  }

  lemma NtpCountMore(cs: seq<(Source, nat)>, source: Source, at: nat)
    ensures NtpCount(cs + [(source, at)]) == NtpCount(cs) + (if source == NTP then 1 else 0)
  {
  }

  /** A request that takes effect: with WiFi, and none pending. */
  predicate Starts(c: Clock, e: Event) {
    e.Request? && e.connected && !c.pending
  }

  ghost predicate NoRequest(c: Clock, es: seq<Event>)
    requires Possible(c, es)
    decreases |es|
  {
    es == [] || (!Starts(c, es[0]) && NoRequest(Step(c, es[0]), es[1..]))
  }

  // After a cancel, a time-out or a lost connection, and after an answer was applied.

  /** While no attempt is pending and none is requested, no answer is applied, whatever is
      still on its way: a time set by hand stays. */
  lemma {:induction false} NoneWithoutRequest(c: Clock, es: seq<Event>)
    requires Possible(c, es) && CallbacksAfterRequest(c, es) && NoRequest(c, es)
    requires !c.pending && AllStamped(c)
    ensures NtpCount(Run(c, es).corrections) == NtpCount(c.corrections) && !Run(c, es).pending
    decreases |es|
  {
    if es != [] {
      if es[0].Manual? { NtpCountMore(c.corrections, es[0].source, c.changes); }
      NoneWithoutRequest(Step(c, es[0]), es[1..]);
    }
  }

  lemma CancelledStaysCancelled(c: Clock, end: Event, es: seq<Event>)
    requires end == Cancel || end == Expire
    requires Possible(c, [end] + es) && CallbacksAfterRequest(c, [end] + es) && AllStamped(c)
    requires Possible(Step(c, end), es) && NoRequest(Step(c, end), es)
    ensures NtpCount(Run(c, [end] + es).corrections) == NtpCount(c.corrections)
  {
    assert ([end] + es)[1..] == es;
    NoneWithoutRequest(Step(c, end), es);
  }

  // Each request brings at most one correction.

  /** Requests that take effect in a run. */
  ghost function Requests(c: Clock, es: seq<Event>): nat
    requires Possible(c, es)
    decreases |es|
  {
    if es == [] then 0 else (if Starts(c, es[0]) then 1 else 0) + Requests(Step(c, es[0]), es[1..])
  }

  /** Network corrections never outnumber requests: each request yields at most one. */
  lemma {:induction false} OneCorrectionPerRequest(c: Clock, es: seq<Event>)
    requires Possible(c, es) && CallbacksAfterRequest(c, es) && AllStamped(c)
    ensures NtpCount(Run(c, es).corrections) + (if Run(c, es).pending then 1 else 0)
            <= NtpCount(c.corrections) + Requests(c, es) + (if c.pending then 1 else 0)
    decreases |es|
  {
    if es != [] {
      NtpCountMore(c.corrections, if es[0].Manual? then es[0].source else NTP, c.changes);
      OneCorrectionPerRequest(Step(c, es[0]), es[1..]);
    }
  }

  // An applied answer belongs to the pending attempt.

  predicate AnswerOk(a: Option<Answer>, changes: nat) {
    a.Some? ==> a.value.at <= changes && a.value.generation == GenerationAfter(a.value.at)
  }

  predicate Numbered(c: Clock) {
    && c.generation == c.active == GenerationAfter(c.changes)
    && AnswerOk(c.ready, c.changes) && AnswerOk(c.held, c.changes)
    && (c.pending ==> c.byRequest && c.changes > 0)
    && (c.ready.Some? ==> c.ready.value.at == c.changes)
  }

  lemma {:induction false} NumberedAlways(c: Clock, es: seq<Event>)
    requires Numbered(c) && Possible(c, es)
    ensures Numbered(Run(c, es))
    decreases |es|
  {
    hide GenerationAfter, Bump;
    if es != [] {
      BumpFollows(c.changes);
      NumberedAlways(Step(c, es[0]), es[1..]);
    }
  }

  /** When the loop applies an answer, its callback ran after the request that is pending
      now (unless the generation wrapped around while the answer was held): an answer to an
      earlier attempt is never taken for the current one. */
  lemma AppliedIsCurrent(es: seq<Event>)
    requires Possible(BOOT, es) && Run(BOOT, es).held.Some?
    ensures var c := Run(BOOT, es);
            var a := c.held.value;
            Step(c, Apply).corrections != c.corrections && a.generation != 0 && c.changes - a.at < GENERATIONS
            ==> c.pending && c.byRequest && a.at == c.changes
  {
    hide Run, GenerationAfter;
    ZeroGeneration(0);
    NumberedAlways(BOOT, es);
    var c := Run(BOOT, es);
    var a := c.held.value;
    if c.pending && a.generation == c.generation && a.generation != 0 && c.changes - a.at < GENERATIONS {
      assert a.at > 0 by { ZeroGeneration(a.at); }
      GenerationsDiffer(a.at, c.changes);
    }
  }

  /** Exactly which answers are applied, in every run: plausible ones whose callback ran
      during the pending attempt, or before any request or cancel. So the current answer to
      a pending request is applied, and ends the attempt. */
  lemma AppliedIff(es: seq<Event>)
    requires Possible(BOOT, es) && Run(BOOT, es).held.Some?
    requires Run(BOOT, es).changes - Run(BOOT, es).held.value.at < GENERATIONS
    ensures var c := Run(BOOT, es);
            var (a, t) := (c.held.value, Step(c, Apply));
            if NtpEpochIsSane(a.epoch) && (a.at == 0 || (c.pending && a.at == c.changes))
            then t.corrections == c.corrections + [(NTP, c.changes)] && (a.at != 0 ==> !t.pending)
            else t.corrections == c.corrections
  {
    hide Run, GenerationAfter;
    ZeroGeneration(0);
    NumberedAlways(BOOT, es);
    var c := Run(BOOT, es);
    var a := c.held.value;
    ZeroGeneration(a.at);
    if c.pending && a.generation == c.generation && a.generation != 0 { GenerationsDiffer(a.at, c.changes); }
  }

  /** Why callbacks before the first request are excluded: their generation is zero, which
      applyEpochCorrection takes for a correction by hand. While no attempt is pending, a
      plausible answer is applied exactly when its callback ran before the first request or
      cancel. */
  lemma UnrequestedIsAppliedIff(es: seq<Event>)
    requires Possible(BOOT, es) && Run(BOOT, es).held.Some? && !Run(BOOT, es).pending
    ensures var c := Run(BOOT, es);
            Step(c, Apply).corrections != c.corrections <==> NtpEpochIsSane(c.held.value.epoch) && c.held.value.at == 0
  {
    hide Run, GenerationAfter;
    ZeroGeneration(0);
    NumberedAlways(BOOT, es);
    ZeroGeneration(Run(BOOT, es).held.value.at);
  }

  /** Such a run. */
  lemma UnrequestedCallbackIsApplied(epoch: u64)
    requires NtpEpochIsSane(epoch)
    ensures var es := [Callback(epoch), Take, Apply];
            Possible(BOOT, es) && Run(BOOT, es).corrections == [(NTP, 0)]
  {
    var a := Step(BOOT, Callback(epoch));
    var b := Step(a, Take);
    var c := Step(b, Apply);
    assert [Callback(epoch), Take, Apply][1..] == [Take, Apply] && [Take, Apply][1..] == [Apply] && [Apply][1..] == [];
    assert Possible(c, []) && Possible(b, [Apply]) && Possible(a, [Take, Apply]);
    assert Run(b, [Apply]) == c && Run(a, [Take, Apply]) == c;
  }

  /** An answer is kept, with the generation then active, until it is taken or overwritten;
      an answer from before 1970 is not. */
  lemma CallbackIsKept(c: Clock, epoch: u64)
    ensures var t := Step(c, Callback(epoch));
            if epoch == 0 then t == c
            else t == c.(ready := t.ready) && t.ready.Some? && t.ready.value.epoch == epoch && t.ready.value.generation == c.active
  {
  }

  /** A request on a connected gateway whose answer arrives, is plausible and is taken
      before anything else happens sets the clock, once. */
  lemma AnsweredRequestSetsClock(es: seq<Event>, epoch: u64)
    requires Possible(BOOT, es) && !Run(BOOT, es).pending && Run(BOOT, es).held.None? && NtpEpochIsSane(epoch)
    ensures var c := Run(BOOT, es);
            var t := Step(Step(Step(Step(c, Request(true)), Callback(epoch)), Take), Apply);
            t.corrections == c.corrections + [(NTP, c.changes + 1)] && !t.pending && t.held.None?
  {
    hide Run;
    ZeroGeneration(0);
    NumberedAlways(BOOT, es);
  }
}
