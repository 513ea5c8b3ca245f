/** The sender task of main/src/bluetooth_common.cpp as a step system. One task works the
    bounded queue; other tasks put jobs in, and the radio callback marks acknowledgements,
    between any two of its steps. */
module TxSpec {
  import opened Bytes
  import opened MessageIds

  type Mac = m: int | 0 <= m < 0x1_0000_0000_0000

  const BROADCAST_MAC: Mac := 0xFFFF_FFFF_FFFF
  const TX_QUEUE_LEN := 6
  const MAX_RETRIES := 10

  datatype Kind = COMMAND | ACK

  datatype Status = TRANSMIT_FAILED | SENT | ACKED

  /** The call that a job answers to: the n-th command, the n-th waiting
      acknowledgement, or nobody. */
  datatype Waiter = Nobody | CommandCall(n: nat) | AckCall(n: nat)

  datatype Job = Job(kind: Kind, mac: Mac, messageId: MessageId, payload: seq<byte>, retries: nat, waiter: Waiter)

  datatype Pending = Pending(active: bool, acked: bool, targetMac: Mac, messageId: MessageId, ackMac: Mac)

  datatype Result = Result(status: Status, messageId: MessageId, transmissionStarted: bool, ackMac: Mac)

  /** Where the sender is inside processCommandJob. */
  datatype Phase =
    | Broadcasting         // about to start the attempt's broadcast
    | Guard                // at the deadline test of the waiting loop
    | Peeking              // at the peek of processUrgentAcks
    | Peeked               // the peek saw an acknowledgement; it has not been received yet
    | Acking(ack: Job)     // transmitting it
    | Checking             // about to look at gPending.acked
    | Finishing            // out of the loop
    | Closing              // gPending released, result not handed back yet

  datatype Control =
    | Idle
    | AckingIdle(ack: Job)
    | Opening(job: Job)    // a command taken, its packet not encoded yet
    | Sending(job: Job, attempt: nat, result: Result, phase: Phase, heardFrom: nat)

  /** A job handed back, with what its command heard meanwhile. */
  datatype Completion = Completion(job: Job, result: Result, attempts: nat, heardFrom: nat, heardTo: nat)

  /** A command broadcast that started; `position` counts commands in sending order. */
  datatype Broadcast = Broadcast(position: nat, job: Job)

  /** What happened so far; the program keeps only the counter. */
  datatype Log = Log(
    numbered: nat,                  // commands numbered so far
    reserved: set<nat>,              // numbered but not yet queued
    ackCalls: nat,
    accepted: multiset<Waiter>,      // waiters whose job was queued
    done: seq<Completion>,
    commandsIn: seq<nat>, commandsOut: seq<nat>,
    air: seq<Broadcast>,
    heard: seq<(Mac, MessageId)>)

  datatype Radio = Radio(first: MessageId, queue: seq<Job>, pending: Pending, control: Control, log: Log)

  function EmptyResult(job: Job): Result {
    Result(TRANSMIT_FAILED, job.messageId, false, 0)
  }

  function Start(first: MessageId): Radio {
    Radio(first, [], Pending(false, false, 0, NO_ID, 0), Idle, Log(0, {}, 0, multiset{}, [], [], [], [], []))
  }

  datatype Event =
    // Other tasks and the radio callback
    | Allocate
    | EnqueueCommand(n: nat, mac: Mac, payload: seq<byte>, retries: int)
    | EnqueueAck(ackMac: Mac, messageId: MessageId, waits: bool)
    | Hear(source: Mac, id: MessageId)
    // The sender task
    | Receive
    | Open(encodes: bool)
    | AckSent(started: bool)
    | Broadcasts(started: bool)
    | EnterLoop
    | LeaveLoop
    | Peek
    | ReceivePeeked
    | Check
    | Release
    | Complete

  predicate InPhase(c: Control, p: Phase) {
    c.Sending? && c.phase == p
  }

  predicate Enabled(r: Radio, e: Event) {
    match e
    case Allocate => Proper(r.first)
    case EnqueueCommand(n, _, payload, _) =>
      Proper(r.first) && n in r.log.reserved && 0 < |payload| <= 64
    case EnqueueAck(_, _, _) => true
    case Hear(_, _) => true
    case Receive => r.control.Idle? && r.queue != []
    case Open(_) => r.control.Opening?
    case AckSent(_) => r.control.AckingIdle? || (r.control.Sending? && r.control.phase.Acking?)
    case Broadcasts(_) => InPhase(r.control, Broadcasting)
    case EnterLoop => InPhase(r.control, Guard)
    case LeaveLoop => InPhase(r.control, Guard)
    case Peek => InPhase(r.control, Peeking)
    case ReceivePeeked => InPhase(r.control, Peeked)
    case Check => InPhase(r.control, Checking)
    case Release => InPhase(r.control, Finishing)
    case Complete => InPhase(r.control, Closing)
  }

  /** constrain(retries, 0, 10) */
  function Clamp(retries: int): nat {
    if retries < 0 then 0 else if retries > MAX_RETRIES then MAX_RETRIES else retries
  }

  function AddWaiter(m: multiset<Waiter>, w: Waiter): multiset<Waiter> {
    if w == Nobody then m else m + multiset{w}
  }

  // The steps of other tasks.

  /** xQueueSendToBack. */
  function QueueCommand(r: Radio, job: Job): Radio {
    if |r.queue| >= TX_QUEUE_LEN then r
    else
      r.(queue := r.queue + [job],
         log := r.log.(accepted := AddWaiter(r.log.accepted, job.waiter),
                       commandsIn := if job.waiter.CommandCall? then r.log.commandsIn + [job.waiter.n] else r.log.commandsIn))
  }

  /** xQueueSendToFront. */
  function QueueAck(r: Radio, job: Job): Radio {
    if |r.queue| >= TX_QUEUE_LEN then r
    else r.(queue := [job] + r.queue, log := r.log.(accepted := AddWaiter(r.log.accepted, job.waiter)))
  }

  /** btCommonMarkAck. */
  function Mark(p: Pending, source: Mac, id: MessageId): Pending {
    if p.active && p.messageId == id && (p.targetMac == BROADCAST_MAC || p.targetMac == source)
    then p.(acked := true, ackMac := source) else p
  }

  // The steps of the sender.

  /** completeJob: only a job with a waiter is handed back. */
  function Hand(log: Log, job: Job, result: Result, attempts: nat, heardFrom: nat): Log {
    if job.waiter == Nobody then log
    else log.(done := log.done + [Completion(job, result, attempts, heardFrom, |log.heard|)])
  }

  function TakeFront(r: Radio): Radio
    requires r.queue != []
  {
    var job, rest := r.queue[0], r.queue[1..];
    if job.kind == ACK then r.(queue := rest, control := AckingIdle(job))
    else
      r.(queue := rest, control := Opening(job),
         log := r.log.(commandsOut := if job.waiter.CommandCall? then r.log.commandsOut + [job.waiter.n] else r.log.commandsOut))
  }

  /** processAckJob's result. */
  function AckResult(ack: Job, started: bool): Result {
    if started then EmptyResult(ack).(status := SENT, transmissionStarted := true) else EmptyResult(ack)
  }

  /** After an attempt that brought no acknowledgement. */
  function NextAttempt(c: Control): Control
    requires c.Sending?
  {
    if c.attempt < c.job.retries then c.(attempt := c.attempt + 1, phase := Broadcasting) else c.(phase := Finishing)
  }

  function SenderStep(r: Radio, e: Event): Radio
    requires Enabled(r, e)
  {
    var c := r.control;
    match e
    case Receive => TakeFront(r)
    case Open(encodes) =>
      if !encodes then r.(control := Idle, log := Hand(r.log, c.job, EmptyResult(c.job), 0, |r.log.heard|))
      else
        r.(pending := Pending(true, false, c.job.mac, c.job.messageId, 0),
           control := Sending(c.job, 0, EmptyResult(c.job), Broadcasting, |r.log.heard|))
    case AckSent(started) =>
      if c.AckingIdle?
      then r.(control := Idle, log := Hand(r.log, c.ack, AckResult(c.ack, started), 0, |r.log.heard|))
      else r.(control := c.(phase := Peeking),
              log := Hand(r.log, c.phase.ack, AckResult(c.phase.ack, started), 0, |r.log.heard|))
    case Broadcasts(started) =>
      if !started then r.(control := NextAttempt(c))
      else
        var result := if c.result.transmissionStarted then c.result
                      else c.result.(transmissionStarted := true, status := SENT);
        r.(control := c.(result := result, phase := Guard),
           log := r.log.(air := r.log.air + [Broadcast(|r.log.commandsOut|, c.job)]))
    case EnterLoop => r.(control := c.(phase := Peeking))
    case LeaveLoop => r.(control := NextAttempt(c))
    case Peek => r.(control := c.(phase := if r.queue != [] && r.queue[0].kind == ACK then Peeked else Checking))
    case ReceivePeeked =>
      if r.queue == [] then r.(control := c.(phase := Peeking))
      else r.(queue := r.queue[1..], control := c.(phase := Acking(r.queue[0])))
    case Check =>
      if r.pending.acked
      then r.(control := c.(result := c.result.(status := ACKED, ackMac := r.pending.ackMac), phase := Finishing))
      else r.(control := c.(phase := Guard))
    case Release => r.(pending := r.pending.(active := false), control := c.(phase := Closing))
    case Complete =>
      r.(control := Idle,
         log := Hand(r.log, c.job, c.result, c.attempt + 1, c.heardFrom))
    case _ => r
  }

  function Step(r: Radio, e: Event): Radio
    requires Enabled(r, e)
  {
    match e
    case Allocate =>
      r.(log := r.log.(numbered := r.log.numbered + 1, reserved := r.log.reserved + {r.log.numbered}))
    case EnqueueCommand(n, mac, payload, retries) =>
      QueueCommand(r.(log := r.log.(reserved := r.log.reserved - {n})),
                   Job(COMMAND, mac, Nth(r.first, n), payload, Clamp(retries), CommandCall(n)))
    case EnqueueAck(mac, id, waits) =>
      if waits then
        QueueAck(r.(log := r.log.(ackCalls := r.log.ackCalls + 1)), Job(ACK, mac, id, [], 0, AckCall(r.log.ackCalls)))
      else QueueAck(r, Job(ACK, mac, id, [], 0, Nobody))
    case Hear(source, id) =>
      r.(pending := Mark(r.pending, source, id), log := r.log.(heard := r.log.heard + [(source, id)]))
    case _ => SenderStep(r, e)
  }

  predicate Possible(r: Radio, es: seq<Event>)
    decreases |es|
  {
    es == [] || (Enabled(r, es[0]) && Possible(Step(r, es[0]), es[1..]))
  }

  function Run(r: Radio, es: seq<Event>): Radio
    requires Possible(r, es)
    decreases |es|
  {
    if es == [] then r else Run(Step(r, es[0]), es[1..])
  }

  lemma {:induction false} RunAppend(r: Radio, es: seq<Event>, e: Event)
    requires Possible(r, es) && Enabled(Run(r, es), e)
    ensures Possible(r, es + [e]) && Run(r, es + [e]) == Step(Run(r, es), e)
    decreases |es|
  {
    hide Step, Enabled;
    if es == [] {
      assert es + [e] == [e];
      assert Possible(Step(r, e), [e][1..]);
    } else {
      RunAppend(Step(r, es[0]), es[1..], e);
      assert (es + [e])[1..] == es[1..] + [e] && (es + [e])[0] == es[0];
    }
  }
}
