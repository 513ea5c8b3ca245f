/** The manual pump (main/src/webui.cpp): a one-shot software timer re-armed by its own
    callback checks the tank and the deadline. Time is in microseconds; the scheduler's
    tick is a parameter of at least one millisecond. */
module ManualPump {
  import opened Bytes

  const TANK_CHECK_MS := 100
  const TANK_CHECK_US := 100_000

  /** pdMS_TO_TICKS, at least one. */
  function Ticks(ms: nat, tickUs: nat): nat
    requires tickUs > 0
  {
    if ms * 1000 / tickUs == 0 then 1 else ms * 1000 / tickUs
  }

  /** When a timer armed now for `n` ticks expires: on a tick. */
  function Expiry(nowUs: nat, n: nat, tickUs: nat): int
    requires tickUs > 0
  {
    (nowUs / tickUs + n) * tickUs
  }

  lemma QuotientBound(x: nat, d: nat)
    requires d > 0
    ensures x / d * d <= x < (x / d + 1) * d
  {
  }

  /** A timer for `ms` milliseconds expires after now, and not later than that many
      milliseconds or one tick, whichever is longer. */
  lemma ExpiryBounds(nowUs: nat, ms: nat, tickUs: nat)
    requires tickUs > 0
    ensures var e := Expiry(nowUs, Ticks(ms, tickUs), tickUs);
            nowUs < e && (e <= nowUs + ms * 1000 || e <= nowUs + tickUs)
  {
    var q, n := nowUs / tickUs, Ticks(ms, tickUs);
    QuotientBound(nowUs, tickUs);
    QuotientBound(ms * 1000, tickUs);
    assert (q + n) * tickUs == q * tickUs + n * tickUs;
    assert n >= 1 && n * tickUs >= tickUs by { Multiples(n, tickUs); }
    assert (q + 1) * tickUs == q * tickUs + tickUs;
  }

  lemma Multiples(n: nat, d: nat)
    requires n >= 1
    ensures n * d >= d
  {
  }

  // The step system.

  /** `timer` is the armed expiry; `unsafeSince` when the tank stopped being safe. */
  datatype Pump = Pump(nowUs: nat, on: bool, active: bool, deadlineUs: nat, timer: Option<int>,
                       tankSafe: bool, unsafeSince: nat)

  /** `armed` tells whether the timer command could be queued. */
  datatype Event =
    | Advance(us: nat)
    | Tank(safe: bool)
    | Start(timeoutSeconds: byte, armed: bool)
    | Stop                          // stopManualPump under the mutex
    | StopTimer(queued: bool)       // its xTimerStop afterwards
    | Expire(armed: bool)           // the timer expires and its callback runs
    | LateCallback(armed: bool)     // a callback that was already on its way

  const IDLE := Pump(0, false, false, 0, None, false, 0)

  /** Expiries are served when due, and the configured timeout is at least a second. */
  predicate Enabled(p: Pump, e: Event) {
    match e
    case Advance(us) => p.timer.Some? ==> p.nowUs + us <= p.timer.value
    case Start(timeout, _) => timeout >= 1
    case StopTimer(_) => !p.active
    case Expire(_) => p.timer == Some(p.nowUs)
    case _ => true
  }

  function Off(p: Pump): Pump {
    p.(active := false, deadlineUs := 0, on := false)
  }

  /** pumpOffTimerCallback. */
  function Callback(p: Pump, armed: bool, tickUs: nat): Pump
    requires tickUs > 0
  {
    if !p.active then p
    else if !p.tankSafe then Off(p)
    else if p.nowUs < p.deadlineUs && armed then
      var remainingMs := (p.deadlineUs - p.nowUs + 999) / 1000;
      p.(timer := Some(Expiry(p.nowUs, Ticks(if remainingMs < TANK_CHECK_MS then remainingMs else TANK_CHECK_MS, tickUs), tickUs)))
    else Off(p)
  }

  function Step(p: Pump, e: Event, tickUs: nat): Pump
    requires tickUs > 0 && Enabled(p, e)
  {
    match e
    case Advance(us) => p.(nowUs := p.nowUs + us)
    case Tank(safe) => p.(tankSafe := safe, unsafeSince := if p.tankSafe && !safe then p.nowUs else p.unsafeSince)
    case Start(timeout, armed) =>
      if !p.tankSafe then p
      else if !armed then Off(p)
      else p.(on := true, active := true, deadlineUs := p.nowUs + timeout as int * 1_000_000,
              timer := Some(Expiry(p.nowUs, Ticks(TANK_CHECK_MS, tickUs), tickUs)))
    case Stop => p.(active := false, deadlineUs := 0, on := if p.active then false else p.on)
    case StopTimer(queued) => if queued then p.(timer := None) else p
    case Expire(armed) => Callback(p.(timer := None), armed, tickUs)
    case LateCallback(armed) => Callback(p, armed, tickUs)
  }

  predicate Possible(p: Pump, es: seq<Event>, tickUs: nat)
    requires tickUs > 0
    decreases |es|
  {
    es == [] || (Enabled(p, es[0]) && Possible(Step(p, es[0], tickUs), es[1..], tickUs))
  }

  function Run(p: Pump, es: seq<Event>, tickUs: nat): Pump
    requires tickUs > 0 && Possible(p, es, tickUs)
    decreases |es|
  {
    if es == [] then p else Run(Step(p, es[0], tickUs), es[1..], tickUs)
  }

  function Longer(a: nat, b: nat): nat {
    if a < b then b else a
  }

  predicate Inv(p: Pump, tickUs: nat) {
    && p.on == p.active
    && (p.timer.Some? ==> p.nowUs <= p.timer.value)
    && p.unsafeSince <= p.nowUs
    && (p.active ==>
          && p.timer.Some? && p.timer.value < p.deadlineUs + tickUs
          && p.timer.value <= (if p.tankSafe then p.nowUs else p.unsafeSince) + Longer(TANK_CHECK_US, tickUs))
  }

  lemma CallbackKeepsInv(p: Pump, armed: bool, tickUs: nat)
    requires tickUs >= 1000 && p.on == p.active && p.unsafeSince <= p.nowUs && (p.timer.Some? ==> p.nowUs <= p.timer.value)
    ensures Inv(Callback(p, armed, tickUs), tickUs)
  {
    hide Expiry, Ticks;
    if p.active && p.tankSafe && p.nowUs < p.deadlineUs && armed {
      var remainingMs := (p.deadlineUs - p.nowUs + 999) / 1000;
      ExpiryBounds(p.nowUs, if remainingMs < TANK_CHECK_MS then remainingMs else TANK_CHECK_MS, tickUs);
    }
  }

  lemma StepKeepsInv(p: Pump, e: Event, tickUs: nat)
    requires tickUs >= 1000 && Inv(p, tickUs) && Enabled(p, e)
    ensures Inv(Step(p, e, tickUs), tickUs)
  {
    hide Expiry, Ticks, Callback;
    match e
    case Start(_, _) => ExpiryBounds(p.nowUs, TANK_CHECK_MS, tickUs);
    case Expire(armed) => CallbackKeepsInv(p.(timer := None), armed, tickUs);
    case LateCallback(armed) => CallbackKeepsInv(p, armed, tickUs);
    case _ =>
  }

  lemma {:induction false} InvAlways(p: Pump, es: seq<Event>, tickUs: nat)
    requires tickUs >= 1000 && Inv(p, tickUs) && Possible(p, es, tickUs)
    ensures Inv(Run(p, es, tickUs), tickUs)
    decreases |es|
  {
    hide Step, Inv, Enabled;
    if es != [] {
      StepKeepsInv(p, es[0], tickUs);
      InvAlways(Step(p, es[0], tickUs), es[1..], tickUs);
    }
  }

  /** When the pump was last switched on, and for how many seconds. */
  datatype Switch = Switch(us: nat, seconds: byte)

  /** The last start that took effect: with a safe tank and an armed timer. */
  function LastSwitch(p: Pump, es: seq<Event>, tickUs: nat, last: Option<Switch>): Option<Switch>
    requires tickUs > 0 && Possible(p, es, tickUs)
    decreases |es|
  {
    if es == [] then last
    else
      LastSwitch(Step(p, es[0], tickUs), es[1..], tickUs,
                 if es[0].Start? && es[0].armed && p.tankSafe then Some(Switch(p.nowUs, es[0].timeoutSeconds)) else last)
  }

  /** The deadline is the configured timeout after the last switching on. */
  predicate Timed(p: Pump, last: Option<Switch>) {
    p.active ==> last.Some? && last.value.us <= p.nowUs && p.deadlineUs == last.value.us + last.value.seconds as int * 1_000_000
  }

  lemma {:induction false} TimedAlways(p: Pump, es: seq<Event>, tickUs: nat, last: Option<Switch>)
    requires tickUs > 0 && Possible(p, es, tickUs) && Timed(p, last)
    ensures Timed(Run(p, es, tickUs), LastSwitch(p, es, tickUs, last))
    decreases |es|
  {
    hide Expiry, Ticks;
    if es != [] {
      TimedAlways(Step(p, es[0], tickUs), es[1..], tickUs,
                  if es[0].Start? && es[0].armed && p.tankSafe then Some(Switch(p.nowUs, es[0].timeoutSeconds)) else last);
    }
  }

  /** A running pump was switched on, and less than one tick more than the configured
      seconds ago; and the tank has been unsafe for no longer than one check (or one tick,
      if that is longer). */
  lemma PumpStopsInTime(es: seq<Event>, tickUs: nat)
    requires tickUs >= 1000 && Possible(IDLE, es, tickUs)
    ensures var p := Run(IDLE, es, tickUs);
            var last := LastSwitch(IDLE, es, tickUs, None);
            p.on ==>
              && p.active && last.Some?
              && last.value.us <= p.nowUs < last.value.us + last.value.seconds as int * 1_000_000 + tickUs
              && (!p.tankSafe ==> p.nowUs <= p.unsafeSince + Longer(TANK_CHECK_US, tickUs))
  {
    hide Run, LastSwitch;
    InvAlways(IDLE, es, tickUs);
    TimedAlways(IDLE, es, tickUs, None);
  }

  /** Nobody stops the pump, the tank stays safe and the timer can be armed. */
  predicate Calm(es: seq<Event>) {
    forall i :: 0 <= i < |es| ==>
      && es[i] != Stop && es[i] != Tank(false)
      && (es[i].Start? || es[i].Expire? || es[i].LateCallback? ==> es[i].armed)
  }

  /** On until the last switching on is the configured time ago. */
  predicate OnInTime(p: Pump, last: Switch) {
    p.tankSafe && (p.nowUs < last.us + last.seconds as int * 1_000_000 ==>
                     p.on && p.active && p.deadlineUs == last.us + last.seconds as int * 1_000_000)
  }

  /** The other half: left alone, the pump runs for the whole configured time. */
  lemma {:induction false} PumpRunsItsTime(p: Pump, es: seq<Event>, tickUs: nat, last: Switch)
    requires tickUs > 0 && Possible(p, es, tickUs) && Calm(es) && OnInTime(p, last)
    ensures var (q, now) := (Run(p, es, tickUs), LastSwitch(p, es, tickUs, Some(last)));
            now.Some? && (q.nowUs < now.value.us + now.value.seconds as int * 1_000_000 ==> q.on && q.active)
    decreases |es|
  {
    hide Expiry, Ticks;
    if es != [] {
      var e := es[0];
      assert Calm(es[1..]);
      PumpRunsItsTime(Step(p, e, tickUs), es[1..], tickUs, if e.Start? && e.armed && p.tankSafe then Switch(p.nowUs, e.timeoutSeconds) else last);
    }
  }

  /** A start with a safe tank and an armed timer begins such a time, whatever was before. */
  lemma StartRunsItsTime(p: Pump, timeoutSeconds: byte, es: seq<Event>, tickUs: nat)
    requires tickUs > 0 && timeoutSeconds >= 1 && p.tankSafe && Calm(es)
    requires Possible(Step(p, Start(timeoutSeconds, true), tickUs), es, tickUs) && forall i :: 0 <= i < |es| ==> !es[i].Start?
    ensures var q := Run(Step(p, Start(timeoutSeconds, true), tickUs), es, tickUs);
            q.nowUs < p.nowUs + timeoutSeconds as int * 1_000_000 ==> q.on && q.active
  {
    hide Expiry, Ticks, Run, LastSwitch;
    var t := Step(p, Start(timeoutSeconds, true), tickUs);
    var last := Switch(p.nowUs, timeoutSeconds);
    PumpRunsItsTime(t, es, tickUs, last);
    SameSwitch(t, es, tickUs, Some(last));
  }

  lemma {:induction false} SameSwitch(p: Pump, es: seq<Event>, tickUs: nat, last: Option<Switch>)
    requires tickUs > 0 && Possible(p, es, tickUs) && forall i :: 0 <= i < |es| ==> !es[i].Start?
    ensures LastSwitch(p, es, tickUs, last) == last
    decreases |es|
  {
    hide Step, Enabled;
    if es != [] { SameSwitch(Step(p, es[0], tickUs), es[1..], tickUs, last); }
  }

  /** A callback that comes after a stop changes nothing. */
  lemma LateCallbackIsIgnored(es: seq<Event>, armed: bool, tickUs: nat)
    requires tickUs >= 1000 && Possible(IDLE, es, tickUs)
    ensures var p := Step(Run(IDLE, es, tickUs), Stop, tickUs);
            !p.on && Step(p, LateCallback(armed), tickUs) == p
  {
    hide Run;
    InvAlways(IDLE, es, tickUs);
  }

  // The code.

  class Controller {
    const tickUs: nat
    var sManualPumpActive: bool
    var sManualPumpDeadlineUs: nat
    var timer: Option<int>
    var pumpIsOn: bool
    // What the code reads
    var nowUs: nat
    var tankSafe: bool
    ghost var unsafeSince: nat

    ghost function View(): Pump
      reads this
    {
      Pump(nowUs, pumpIsOn, sManualPumpActive, sManualPumpDeadlineUs, timer, tankSafe, unsafeSince)
    }

    /** What every run keeps, so PumpStopsInTime's bounds hold of the object. */
    ghost predicate Valid()
      reads this
    {
      tickUs >= 1000 && Inv(View(), tickUs)
    }

    /** The same while the timer service is inside the callback: the timer that expired is
        not armed any more. */
    ghost predicate InCallback()
      reads this
    {
      && tickUs >= 1000 && pumpIsOn == sManualPumpActive && unsafeSince <= nowUs
      && (timer.Some? ==> nowUs <= timer.value)
    }

    constructor (tickUs: nat)
      requires tickUs >= 1000
      ensures this.tickUs == tickUs && View() == IDLE && Valid()
    {
      this.tickUs := tickUs;
      sManualPumpActive, sManualPumpDeadlineUs, timer, pumpIsOn := false, 0, None, false;
      nowUs, tankSafe, unsafeSince := 0, false, 0;
    }

    /** xTimerChangePeriod, when it can be queued. */
    method ChangePeriod(n: nat, armed: bool)
      requires tickUs > 0
      modifies this`timer
      ensures timer == if armed then Some(Expiry(nowUs, n, tickUs)) else old(timer)
    {
      if armed { timer := Some((nowUs / tickUs + n) * tickUs); }
    }

    method StartManualPump(timeoutSeconds: byte, armed: bool) returns (ok: bool)
      requires Valid() && timeoutSeconds >= 1
      modifies this`sManualPumpActive, this`sManualPumpDeadlineUs, this`timer, this`pumpIsOn
      ensures Valid()
      ensures ok ==> pumpIsOn && sManualPumpActive && sManualPumpDeadlineUs == nowUs + timeoutSeconds as int * 1_000_000
      ensures ok ==> timer.Some? && nowUs < timer.value && (timer.value <= nowUs + TANK_CHECK_US || timer.value <= nowUs + tickUs)
      ensures !ok ==> pumpIsOn == (old(pumpIsOn) && !tankSafe)
      ensures View() == Step(old(View()), Start(timeoutSeconds, armed), tickUs)
      ensures ok == (tankSafe && armed)
    {
      StepKeepsInv(View(), Start(timeoutSeconds, armed), tickUs);
      ExpiryBounds(nowUs, TANK_CHECK_MS, tickUs);
      if !tankSafe { return false; }
      var firstCheckTicks := TANK_CHECK_MS * 1000 / tickUs;
      if firstCheckTicks == 0 { firstCheckTicks := 1; }
      sManualPumpDeadlineUs := nowUs + timeoutSeconds as int * 1_000_000;
      ChangePeriod(firstCheckTicks, armed);
      if !armed {
        sManualPumpDeadlineUs := 0;
        sManualPumpActive := false;
        pumpIsOn := false;
        return false;
      }
      sManualPumpActive := true;
      pumpIsOn := true;
      return true;
    }

    method StopManualPump()
      requires Valid()
      modifies this`sManualPumpActive, this`sManualPumpDeadlineUs, this`pumpIsOn
      ensures Valid() && !pumpIsOn && !sManualPumpActive
      ensures View() == Step(old(View()), Stop, tickUs)
    {
      var wasActive := sManualPumpActive;
      sManualPumpActive := false;
      sManualPumpDeadlineUs := 0;
      if wasActive { pumpIsOn := false; }
    }

    method PumpOffTimerCallback(armed: bool)
      requires InCallback()
      modifies this`sManualPumpActive, this`sManualPumpDeadlineUs, this`timer, this`pumpIsOn
      ensures Valid()
      ensures pumpIsOn <==> old(pumpIsOn) && tankSafe && nowUs < old(sManualPumpDeadlineUs) && armed
      ensures View() == Callback(old(View()), armed, tickUs)
    {
      CallbackKeepsInv(View(), armed, tickUs);
      if !sManualPumpActive { return; }
      if !tankSafe {
        sManualPumpActive, sManualPumpDeadlineUs, pumpIsOn := false, 0, false;
        return;
      }
      if nowUs < sManualPumpDeadlineUs {
        var remainingMs := (sManualPumpDeadlineUs - nowUs + 999) / 1000;
        var nextCheckMs := if remainingMs < TANK_CHECK_MS then remainingMs else TANK_CHECK_MS;
        var remainingTicks := nextCheckMs * 1000 / tickUs;
        if remainingTicks == 0 { remainingTicks := 1; }
        ChangePeriod(remainingTicks, armed);
        if armed { return; }
      }
      sManualPumpActive, sManualPumpDeadlineUs, pumpIsOn := false, 0, false;
    }
  }
}
