/** Watering cooldowns across clock corrections: main/include/AutoWateringPolicy.h, the
    clock base of main/src/clock_manager.cpp, and the rebasing of the watering history. */
module Cooldown {
  import opened Bytes
  import opened ClockMath
  import PM = PotMask

  const SECOND := 1_000_000
  const WATER_INTERVAL_MIN := 60
  const WATER_INTERVAL_MAX := 2_419_200

  predicate CooldownComplete(now: u32, last: u32, interval: u32) {
    last == 0 || (now >= last && now - last >= interval)
  }

  predicate PotEligible(now: u32, last: u32, interval: u32, rawSoil: u16, correctedSoil: u16, threshold: u16) {
    CooldownComplete(now, last, interval) && rawSoil > 200 && correctedSoil > threshold
  }

  // One pot and the clock it is judged by, within one boot.

  /** The clock's base, and the reading that the watering task took last: before it looks
      for due pots, and again before it records what it completed. Between the reading and
      its use, other tasks may correct the clock. */
  datatype Clock = Clock(nowUs: int, baseUtc: int, baseUs: int, readUtc: int, readUs: int)

  /** When a recorded completion was read off the timer, and how far its stamp was ahead of
      the clock, as it stood when the stamp was recorded. */
  datatype Completion = Completion(us: int, lead: int)

  /** A pot's stamp, and beside it the truth: the completion behind it, the corrections
      since then, and whether one of them could not reach back far enough. */
  datatype Pot = Pot(clock: Clock, last: u32, done: Option<Completion>, corrections: nat, saturated: bool)

  datatype Event = Tick(us: nat) | Correct(epoch: u64) | Read | Record

  /** currentEpochLocked on a started clock. */
  function Now(c: Clock): int {
    c.baseUtc + (if c.nowUs < c.baseUs then 0 else (c.nowUs - c.baseUs) / SECOND)
  }

  /** Microseconds by which the reading is ahead of the clock as it is based now. */
  function Lead(c: Clock): int {
    c.baseUs - c.readUs + SECOND * (c.readUtc - c.baseUtc)
  }

  function AgeOrZero(now: int, last: int): int {
    if now >= last then now - last else 0
  }

  /** A clock outside its C type, which a started clock never is, is left alone. */
  predicate Accepts(c: Clock, epoch: u64) {
    EpochIsSane(epoch) && 0 <= Now(c) <= 0xFFFF_FFFF_FFFF_FFFF
  }

  function ClockStep(c: Clock, e: Event): Clock {
    match e
    case Tick(us) => c.(nowUs := c.nowUs + us)
    case Correct(epoch) => if Accepts(c, epoch) then c.(baseUtc := epoch, baseUs := c.nowUs) else c
    case Read => c.(readUtc := Now(c), readUs := c.nowUs)
    case Record => c
  }

  /** What corrections and completions do to the stamp. */
  function Step(p: Pot, e: Event): Pot {
    var t := p.(clock := ClockStep(p.clock, e));
    match e
    case Tick(_) => t
    case Correct(epoch) =>
      if !Accepts(p.clock, epoch) then t
      else
        t.(last := RebasedStamp(Now(p.clock), epoch, p.last), corrections := p.corrections + 1,
           saturated := p.saturated || epoch <= AgeOrZero(Now(p.clock), p.last))
    case Read => t
    case Record =>
      if !(0 < p.clock.readUtc <= U32_MAX) then t
      else
        t.(last := p.clock.readUtc, done := Some(Completion(p.clock.readUs, Lead(p.clock))), corrections := 0,
           saturated := false)
  }

  function Run(p: Pot, es: seq<Event>): Pot
    decreases |es|
  {
    if es == [] then p else Run(Step(p, es[0]), es[1..])
  }

  predicate Started(c: Clock) {
    c.baseUtc >= CLOCK_DEFAULT_EPOCH_SEC && 0 <= c.baseUs <= c.nowUs && c.readUs <= c.nowUs
  }

  /** The clock has not been corrected since the reading. */
  predicate Current(c: Clock) {
    c.baseUs <= c.readUs && c.readUtc == c.baseUtc + (c.readUs - c.baseUs) / SECOND
  }

  /** True microseconds since the completion, minus the recorded age at the last base. */
  function Drift(p: Pot): int
    requires p.done.Some?
  {
    p.clock.baseUs - p.done.value.us - SECOND * (p.clock.baseUtc - p.last)
  }

  /** A stamp that was not behind the clock by a second when it was recorded never makes the
      pot older than it is; one that was not ahead never makes it look much younger. */
  predicate Inv(p: Pot) {
    && Started(p.clock)
    && (p.done.Some? ==>
          var done := p.done.value;
          && p.last != 0 && done.us <= p.clock.readUs
          && (p.saturated ==> p.clock.baseUtc - p.last >= CLOCK_DEFAULT_EPOCH_SEC - 1)
          && (done.lead > -SECOND ==>
                if p.saturated then p.clock.nowUs - done.us > SECOND * (CLOCK_DEFAULT_EPOCH_SEC - 1) else Drift(p) > -SECOND)
          && (done.lead <= 0 && !p.saturated ==> p.last <= Now(p.clock) && Drift(p) <= p.corrections * SECOND))
  }

  lemma StepKeepsInv(p: Pot, e: Event)
    requires Inv(p)
    ensures Inv(Step(p, e))
  {
  }

  lemma {:induction false} InvAlways(p: Pot, es: seq<Event>)
    requires Inv(p)
    ensures Inv(Run(p, es))
    decreases |es|
  {
    hide Inv, Step;
    if es != [] {
      StepKeepsInv(p, es[0]);
      InvAlways(Step(p, es[0]), es[1..]);
    }
  }

  /** The recorded age never runs ahead of the true elapsed time by a second, and falls
      behind it by less than one second more than there were corrections. Only a correction
      that cannot reach back breaks this, and then the cooldown is complete for every
      allowed interval. */
  lemma DriftIsBounded(start: Pot, es: seq<Event>)
    requires Inv(start)
    ensures var p := Run(start, es);
            p.done.Some? && -SECOND < p.done.value.lead <= 0 ==>
              var elapsedUs, age := p.clock.nowUs - p.done.value.us, Now(p.clock) - p.last;
              if p.saturated then age >= CLOCK_DEFAULT_EPOCH_SEC - 1 > WATER_INTERVAL_MAX
              else -SECOND < elapsedUs - SECOND * age < (p.corrections + 1) * SECOND
  {
    hide Run;
    InvAlways(start, es);
  }

  /** A pot found eligible by a reading that is not ahead of the clock was last watered, in
      true time, more than its interval less one second ago, whatever the clock was set to
      in between ... */
  lemma CooldownIsHonest(start: Pot, es: seq<Event>, interval: u32)
    requires Inv(start) && interval <= WATER_INTERVAL_MAX
    ensures var p := Run(start, es);
            var c := p.clock;
            p.done.Some? && p.done.value.lead > -SECOND && Lead(c) <= 0
            && 0 <= c.readUtc <= U32_MAX && CooldownComplete(c.readUtc, p.last, interval)
            ==> c.nowUs - p.done.value.us > SECOND * (interval - 1)
  {
    hide Run;
    InvAlways(start, es);
  }

  /** ... and it is found so at the latest once that interval and a second for each
      correction and one more have passed. */
  lemma CooldownEnds(start: Pot, es: seq<Event>, interval: u32)
    requires Inv(start) && interval <= WATER_INTERVAL_MAX
    ensures var p := Run(start, es);
            p.done.Some? && p.done.value.lead <= 0 && 0 <= Now(p.clock) <= U32_MAX
            && p.clock.nowUs - p.done.value.us >= SECOND * (interval + p.corrections + 1)
            ==> CooldownComplete(Now(p.clock), p.last, interval)
  {
    hide Run;
    InvAlways(start, es);
  }

  /** At the correction that saturates, the cooldown is complete both before and after. */
  lemma SaturationIsHarmless(start: Pot, es: seq<Event>, epoch: u64, interval: u32)
    requires Inv(start) && interval <= WATER_INTERVAL_MAX
    ensures var p := Run(start, es);
            var t := Step(p, Correct(epoch));
            p.done.Some? && t.saturated && !p.saturated
            && 0 <= Now(p.clock) <= U32_MAX && 0 <= Now(t.clock) <= U32_MAX
            ==> CooldownComplete(Now(p.clock), p.last, interval) && CooldownComplete(Now(t.clock), t.last, interval)
  {
    hide Run;
    InvAlways(start, es);
  }

  /** A recorded completion is never forgotten. */
  lemma {:induction false} SetStaysSet(p: Pot, es: seq<Event>)
    requires p.last != 0 && Started(p.clock)
    ensures Run(p, es).last != 0
    decreases |es|
  {
    if es != [] {
      SetStaysSet(Step(p, es[0]), es[1..]);
    }
  }

  /** A reading is never ahead of the clock, nor a second behind it, until somebody
      corrects the clock. */
  lemma CurrentIsClose(c: Clock)
    requires Started(c) && Current(c)
    ensures -SECOND < Lead(c) <= 0
  {
  }

  /** By this reading the pot is found eligible too early for this interval. (A saturated
      pot was watered decades ago.) */
  predicate JudgedEarly(p: Pot, interval: u32) {
    && p.done.Some? && !p.saturated && p.done.value.lead > -SECOND && 0 <= p.clock.readUtc <= U32_MAX
    && CooldownComplete(p.clock.readUtc, p.last, interval)
    && p.clock.readUs - p.done.value.us <= SECOND * (interval - 1)
  }

  /** What a correction between reading the clock and judging by the reading can do: every
      pot is judged honestly exactly when it did not leave the reading ahead of the clock. */
  lemma ReadingIsHonestIff(c: Clock)
    requires Started(c) && 0 <= c.readUs && WATER_INTERVAL_MIN < c.readUtc <= U32_MAX
    ensures (exists p: Pot, interval: u32 ::
               p.clock == c && Inv(p) && WATER_INTERVAL_MIN <= interval <= WATER_INTERVAL_MAX && JudgedEarly(p, interval))
            <==> Lead(c) > 0
  {
    if Lead(c) > 0 {
      var last := c.readUtc - WATER_INTERVAL_MIN;
      var drifted := c.baseUs - SECOND * (c.baseUtc - last) + SECOND - 1;
      var us := if drifted < c.readUs then drifted else c.readUs;
      var p := Pot(c, last, Some(Completion(us, 1)), 0, false);
      assert Inv(p) && JudgedEarly(p, WATER_INTERVAL_MIN);
    }
  }

  /** Within `us` microseconds after the record, the pot can be found eligible too early for
      this interval. */
  predicate Premature(p: Pot, us: nat, interval: u32) {
    var t := Step(Step(p, Record), Tick(us));
    && t.done.Some? && 0 <= Now(t.clock) <= U32_MAX
    && CooldownComplete(Now(t.clock), t.last, interval)
    && t.clock.nowUs - t.done.value.us <= SECOND * (interval - 1)
  }

  /** What a correction between reading the clock and recording the completion can do: the
      pot is judged by the clock alone from then on, and that is honest for every allowed
      interval exactly when the correction left the reading less than a second behind, or
      the reading is older than all intervals. */
  lemma RecordIsHonestIff(p: Pot)
    requires Inv(p) && 0 < p.clock.readUtc <= U32_MAX && Now(p.clock) + WATER_INTERVAL_MAX <= U32_MAX
    ensures (exists us: nat, interval: u32 :: WATER_INTERVAL_MIN <= interval <= WATER_INTERVAL_MAX && Premature(p, us, interval))
            <==> Lead(p.clock) <= -SECOND && p.clock.nowUs - p.clock.readUs <= SECOND * (WATER_INTERVAL_MAX - 1)
  {
    var c := p.clock;
    if Lead(c) <= -SECOND && c.nowUs - c.readUs <= SECOND * (WATER_INTERVAL_MAX - 1) {
      // ready once the clock has moved on to a whole second at which the age is an interval
      var age := Now(c) - c.readUtc;
      var interval: u32 := if age >= WATER_INTERVAL_MAX then WATER_INTERVAL_MAX else if age + 1 < WATER_INTERVAL_MIN then WATER_INTERVAL_MIN else age + 1;
      var us := if age >= WATER_INTERVAL_MAX then 0 else SECOND * (interval - age) - (c.nowUs - c.baseUs) % SECOND;
      assert Premature(p, us, interval);
    } else {
      forall us: nat, interval: u32 | WATER_INTERVAL_MIN <= interval <= WATER_INTERVAL_MAX ensures !Premature(p, us, interval) {
      }
    }
  }

  // The loops over the history.

  /** applyCompletedAutoWatering: exactly the pots in the mask are stamped. */
  method ApplyCompleted(last: array<u32>, potCount: nat, potMask: u16, completed: u32) returns (changed: bool)
    requires potCount <= last.Length
    modifies last
    ensures completed == 0 ==> last[..] == old(last[..]) && !changed
    ensures completed != 0 ==>
              forall pot :: 0 <= pot < last.Length ==>
                last[pot] == if pot < potCount && pot < 16 && PM.Bit(potMask, pot) then completed else old(last[pot])
    ensures changed <==> last[..] != old(last[..])
  {
    if completed == 0 { return false; }
    changed := false;
    var pot := 0;
    while pot < potCount && pot < 16
      invariant 0 <= pot <= potCount && pot <= 16
      invariant forall p :: 0 <= p < last.Length ==>
                  last[p] == if p < pot && PM.Bit(potMask, p) then completed else old(last[p])
      invariant changed <==> exists p :: 0 <= p < pot && last[p] != old(last[p])
    {
      if PM.Bit(potMask, pot) && last[pot] != completed {
        last[pot] := completed;
        changed := true;
      }
      pot := pot + 1;
    }
    if changed {
      ghost var p :| 0 <= p < pot && last[p] != old(last[p]);
      assert last[..][p] != old(last[..])[p];
    }
  }

  /** The inner loop of rebaseLastAutoWateringTimestamps. */
  method RebasePots(last: array<u32>, potCount: nat, oldNow: u64, newNow: u64) returns (changed: bool)
    requires potCount <= last.Length && 0 < newNow <= U32_MAX
    modifies last
    ensures forall pot :: 0 <= pot < last.Length ==>
              last[pot] as int == if pot < potCount then Rebase(oldNow, newNow, old(last[pot])) else old(last[pot])
    ensures changed <==> last[..] != old(last[..])
  {
    changed := false;
    var pot := 0;
    while pot < potCount
      invariant 0 <= pot <= potCount
      invariant forall p :: 0 <= p < last.Length ==>
                  last[p] as int == if p < pot then Rebase(oldNow, newNow, old(last[p])) else old(last[p])
      invariant changed <==> exists p :: 0 <= p < pot && last[p] != old(last[p])
    {
      var previous := last[pot];
      if previous != 0 { RebaseKeepsAge(oldNow, newNow, previous); }
      var next := Rebase(oldNow, newNow, previous);
      if next != previous {
        last[pot] := next;
        changed := true;
      }
      pot := pot + 1;
    }
    if changed {
      ghost var p :| 0 <= p < pot && last[p] != old(last[p]);
      assert last[..][p] != old(last[..])[p];
    }
  }
}
