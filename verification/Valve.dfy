/** The worker's valves (worker/src/valve.cpp): the current mask, and the lock that keeps
    battery sampling away from open valves and from the five seconds after they close. */
module Valve {
  import opened Bytes
  import opened PotMask

  const BATTERY_RECOVERY_US := 5_000_000

  // What a sequence of valve operations does to each pot.

  datatype Step = Set(mask: nat) | Wait(ms: nat)

  /** The mask left behind. */
  function After(state: nat, steps: seq<Step>): nat {
    if steps == [] then state
    else if steps[|steps| - 1].Set? then steps[|steps| - 1].mask
    else After(state, steps[..|steps| - 1])
  }

  /** How long pot `p` is open. */
  function OpenMs(state: nat, steps: seq<Step>, p: nat): nat {
    if steps == [] then 0
    else
      var init, last := steps[..|steps| - 1], steps[|steps| - 1];
      OpenMs(state, init, p) + (if last.Wait? && Bit(After(state, init), p) then last.ms else 0)
  }

  /** How often pot `p` is opened. */
  function Openings(state: nat, steps: seq<Step>, p: nat): nat {
    if steps == [] then 0
    else
      var init, last := steps[..|steps| - 1], steps[|steps| - 1];
      Openings(state, init, p) + (if last.Set? && Bit(last.mask, p) && !Bit(After(state, init), p) then 1 else 0)
  }

  /** The nonzero masks in the order in which they are set. */
  function Opened(steps: seq<Step>): seq<nat> {
    if steps == [] then []
    else
      var init, last := steps[..|steps| - 1], steps[|steps| - 1];
      Opened(init) + (if last.Set? && last.mask != 0 then [last.mask] else [])
  }

  class Valves {
    const potCount: nat
    var gValveState: nat
    var gBatteryBlockedUntilUs: int
    /** What was sent to the hardware, and the delays in between. */
    var steps: seq<Step>

    constructor (potCount: nat)
      ensures this.potCount == potCount && gValveState == 0 && gBatteryBlockedUntilUs == 0 && steps == []
    {
      this.potCount := potCount;
      gValveState, gBatteryBlockedUntilUs, steps := 0, 0, [];
    }

    method SetMask(mask: nat, nowUs: int)
      modifies this
      ensures gValveState == LowBits(mask, potCount) && steps == old(steps) + [Set(gValveState)]
      ensures gBatteryBlockedUntilUs
              == if old(gValveState) != 0 && gValveState == 0 then nowUs + BATTERY_RECOVERY_US else old(gBatteryBlockedUntilUs)
    {
      var previousState := gValveState;
      gValveState := LowBits(mask, potCount);
      if previousState != 0 && gValveState == 0 {
        gBatteryBlockedUntilUs := nowUs + BATTERY_RECOVERY_US;
      }
      steps := steps + [Set(gValveState)];
    }

    /** valveBeginBatterySampling: whether the lock is kept. */
    method BeginBatterySampling(nowUs: int) returns (allowed: bool)
      ensures allowed <==> gValveState == 0 && nowUs >= gBatteryBlockedUntilUs
    {
      allowed := gValveState == 0 && nowUs >= gBatteryBlockedUntilUs;
    }

    method Delay(ms: nat)
      modifies this`steps
      ensures steps == old(steps) + [Wait(ms)]
    {
      steps := steps + [Wait(ms)];
    }
  }

  // The valve and battery lock, with clock readings taken before the lock is.

  type Task = nat

  /** `readings` holds each task's own clock reading, however old; `closeRead` is the reading
      of the last writer that closed the valves, which the program does not keep. */
  datatype Lock = Lock(now: nat, state: nat, blockedUntil: int, sampling: bool,
                       readings: map<Task, nat>, closeRead: Option<nat>)

  datatype LockEvent =
    | Tick(us: nat)
    | ReadsClock(task: Task)
    | SetState(task: Task, mask: nat)    // setValveState and updateValveBit
    | BeginSampling(task: Task)
    | EndSampling
    | ResetState                        // resetValveState, from valveBegin

  /** Whoever wants the mutex waits while the sampler holds it. */
  predicate Enabled(l: Lock, e: LockEvent) {
    match e
    case SetState(task, _) => !l.sampling && task in l.readings
    case BeginSampling(task) => !l.sampling && task in l.readings
    case EndSampling => l.sampling
    case ResetState => !l.sampling
    case _ => true
  }

  function Next(l: Lock, e: LockEvent): Lock
    requires Enabled(l, e)
  {
    match e
    case Tick(us) => l.(now := l.now + us)
    case ReadsClock(task) => l.(readings := l.readings[task := l.now])
    case SetState(task, mask) =>
      if l.state != 0 && mask == 0
      then l.(state := mask, blockedUntil := l.readings[task] + BATTERY_RECOVERY_US, closeRead := Some(l.readings[task]))
      else l.(state := mask)
    case BeginSampling(task) => l.(sampling := l.state == 0 && l.readings[task] >= l.blockedUntil)
    case EndSampling => l.(sampling := false)
    case ResetState => l.(state := 0, blockedUntil := 0, closeRead := None)
  }

  const BOOT := Lock(0, 0, 0, false, map[], None)

  predicate Possible(l: Lock, es: seq<LockEvent>)
    decreases |es|
  {
    es == [] || (Enabled(l, es[0]) && Possible(Next(l, es[0]), es[1..]))
  }

  function Run(l: Lock, es: seq<LockEvent>): Lock
    requires Possible(l, es)
    decreases |es|
  {
    if es == [] then l else Run(Next(l, es[0]), es[1..])
  }

  predicate LockInv(l: Lock) {
    && (forall task <- l.readings :: l.readings[task] <= l.now)
    && (l.closeRead.Some? ==> l.blockedUntil == l.closeRead.value + BATTERY_RECOVERY_US)
    && (l.sampling ==> l.state == 0 && l.blockedUntil <= l.now)
  }

  lemma {:induction false} RunKeepsLockInv(l: Lock, es: seq<LockEvent>)
    requires LockInv(l) && Possible(l, es)
    ensures LockInv(Run(l, es))
    decreases |es|
  {
    if es != [] { RunKeepsLockInv(Next(l, es[0]), es[1..]); }
  }

  /** Throughout every battery sampling, in every interleaving of tasks that each hold a
      reading of their own, all valves are shut, and at least five seconds have passed
      since the last writer to shut them read its clock. */
  lemma SamplingOnlyWhenShut(es: seq<LockEvent>)
    requires Possible(BOOT, es)
    ensures var l := Run(BOOT, es);
            l.sampling ==> l.state == 0 && (l.closeRead.Some? ==> l.now >= l.closeRead.value + BATTERY_RECOVERY_US)
  {
    RunKeepsLockInv(BOOT, es);
  }

  /** What the locked sections do, on the fields of the lock. */
  lemma SectionsMean(l: Lock, task: Task, mask: nat)
    requires task in l.readings && !l.sampling
    ensures var t := Next(l, SetState(task, mask));
            && t.state == mask && !t.sampling && t.now == l.now && t.readings == l.readings
            && t.blockedUntil == (if l.state != 0 && mask == 0 then l.readings[task] + 5_000_000 else l.blockedUntil)
    ensures Next(l, BeginSampling(task)).sampling <==> l.state == 0 && l.readings[task] >= l.blockedUntil
    ensures Next(l, BeginSampling(task)) == l.(sampling := Next(l, BeginSampling(task)).sampling)
    ensures Next(l, ResetState).state == 0 && Next(l, ResetState).blockedUntil == 0
  {
  }

  /** And sampling is possible again: with the valves shut, whoever reads the clock five
      seconds after the reading of the last writer to shut them may sample. */
  lemma SamplingPossibleAgain(es: seq<LockEvent>, task: Task)
    requires Possible(BOOT, es) && !Run(BOOT, es).sampling && task in Run(BOOT, es).readings
    requires var l := Run(BOOT, es);
             l.state == 0 && l.closeRead.Some? && l.readings[task] >= l.closeRead.value + 5_000_000
    ensures Next(Run(BOOT, es), BeginSampling(task)).sampling
  {
    hide Run;
    RunKeepsLockInv(BOOT, es);
  }
}
