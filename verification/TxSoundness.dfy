/** What every interleaving of the sender with its callers keeps. */
module TxSoundness {
  import opened MessageIds
  import opened TxSpec

  // The queue and who owns gPending.

  /** All acknowledgements, then all commands. */
  ghost predicate AcksFirst(q: seq<Job>) {
    forall i, j :: 0 <= i < j < |q| && q[j].kind == ACK ==> q[i].kind == ACK
  }

  ghost predicate JobOk(first: MessageId, job: Job) {
    && (job.kind == COMMAND <==> job.waiter.CommandCall?)
    && (job.kind == COMMAND ==>
          Proper(first) && job.messageId == Nth(first, job.waiter.n) && 0 < |job.payload| <= 64 && job.retries <= MAX_RETRIES)
  }

  ghost predicate QueueOk(r: Radio) {
    && |r.queue| <= TX_QUEUE_LEN && AcksFirst(r.queue)
    && forall i :: 0 <= i < |r.queue| ==> JobOk(r.first, r.queue[i])
  }

  ghost predicate ControlOk(r: Radio) {
    match r.control
    case Idle => true
    case AckingIdle(ack) => ack.kind == ACK && JobOk(r.first, ack)
    case Opening(job) => job.kind == COMMAND && JobOk(r.first, job)
    case Sending(job, attempt, _, phase, _) =>
      && job.kind == COMMAND && JobOk(r.first, job) && attempt <= job.retries
      && (phase.Peeked? ==> r.queue != [] && r.queue[0].kind == ACK)
      && (phase.Acking? ==> phase.ack.kind == ACK && JobOk(r.first, phase.ack))
  }

  /** gPending belongs to the one command in the sender's hands. */
  ghost predicate Owned(r: Radio) {
    && (r.pending.active <==> r.control.Sending? && !r.control.phase.Closing?)
    && (r.control.Sending? ==> r.pending.messageId == r.control.job.messageId && r.pending.targetMac == r.control.job.mac)
  }

  ghost predicate Shape(r: Radio) {
    QueueOk(r) && ControlOk(r) && Owned(r)
  }

  lemma ShapeOfQueueing(r: Radio, job: Job)
    requires Shape(r) && JobOk(r.first, job)
    ensures job.kind == COMMAND ==> Shape(QueueCommand(r, job))
    ensures job.kind == ACK ==> Shape(QueueAck(r, job))
  {
  }

  lemma ShapeOfDropFront(r: Radio)
    requires QueueOk(r) && r.queue != []
    ensures QueueOk(r.(queue := r.queue[1..])) && JobOk(r.first, r.queue[0])
  {
  }

  lemma ShapeStep(r: Radio, e: Event)
    requires Shape(r) && Enabled(r, e)
    ensures Shape(Step(r, e))
  {
    hide Nth, QueueCommand, QueueAck;
    match e
    case EnqueueCommand(n, mac, payload, retries) =>
      ShapeOfQueueing(r.(log := r.log.(reserved := r.log.reserved - {n})),
                      Job(COMMAND, mac, Nth(r.first, n), payload, Clamp(retries), CommandCall(n)));
    case EnqueueAck(mac, id, waits) =>
      if waits {
        ShapeOfQueueing(r.(log := r.log.(ackCalls := r.log.ackCalls + 1)), Job(ACK, mac, id, [], 0, AckCall(r.log.ackCalls)));
      } else {
        ShapeOfQueueing(r, Job(ACK, mac, id, [], 0, Nobody));
      }
    case Receive =>
      ShapeOfDropFront(r);
    case ReceivePeeked =>
      ShapeOfDropFront(r);
    case _ =>
  }

  lemma {:induction false} ShapeAlways(r: Radio, es: seq<Event>)
    requires Shape(r) && Possible(r, es)
    ensures Shape(Run(r, es))
    decreases |es|
  {
    hide Step, Shape, Enabled;
    if es != [] {
      ShapeStep(r, es[0]);
      ShapeAlways(Step(r, es[0]), es[1..]);
    }
  }

  /** In every interleaving the queue holds at most six jobs, acknowledgements before
      commands; the item received after a peek that saw an acknowledgement is one; and so
      no second command starts while one owns gPending. */
  lemma QueueShape(first: MessageId, es: seq<Event>)
    requires Possible(Start(first), es)
    ensures var r := Run(Start(first), es);
            && |r.queue| <= TX_QUEUE_LEN && AcksFirst(r.queue)
            && (InPhase(r.control, Peeked) ==> r.queue != [] && r.queue[0].kind == ACK)
            && (r.pending.active <==> r.control.Sending? && !r.control.phase.Closing?)
            && (r.control.Sending? ==> r.pending.messageId == r.control.job.messageId && r.control.job.kind == COMMAND)
  {
    hide Run;
    ShapeAlways(Start(first), es);
  }

  // Commands leave in the order they came.

  function NumberOf(job: Job): seq<nat> {
    if job.waiter.CommandCall? then [job.waiter.n] else []
  }

  function CommandNumbers(q: seq<Job>): seq<nat> {
    if q == [] then [] else NumberOf(q[0]) + CommandNumbers(q[1..])
  }

  lemma {:induction false} CommandNumbersAppend(q: seq<Job>, job: Job)
    ensures CommandNumbers(q + [job]) == CommandNumbers(q) + NumberOf(job)
  {
    hide NumberOf;
    if q == [] {
      assert q + [job] == [job] && [job][1..] == [];
    } else {
      assert (q + [job])[1..] == q[1..] + [job] && (q + [job])[0] == q[0];
      CommandNumbersAppend(q[1..], job);
      assert (NumberOf(q[0]) + CommandNumbers(q[1..])) + NumberOf(job) == NumberOf(q[0]) + (CommandNumbers(q[1..]) + NumberOf(job));
    }
  }

  ghost predicate Fifo(r: Radio) {
    r.log.commandsIn == r.log.commandsOut + CommandNumbers(r.queue)
  }

  lemma FifoOfQueueing(r: Radio, job: Job)
    requires Fifo(r) && JobOk(r.first, job)
    ensures job.kind == COMMAND ==> Fifo(QueueCommand(r, job))
    ensures job.kind == ACK ==> Fifo(QueueAck(r, job))
  {
    CommandNumbersAppend(r.queue, job);
    assert ([job] + r.queue)[1..] == r.queue;
  }

  lemma FifoOfSender(r: Radio, e: Event)
    requires Shape(r) && Fifo(r) && Enabled(r, e)
    ensures Fifo(SenderStep(r, e))
  {
    hide Nth, AcksFirst, Owned;
    if r.queue != [] {
      assert JobOk(r.first, r.queue[0]);
    }
  }

  lemma FifoStep(r: Radio, e: Event)
    requires Shape(r) && Fifo(r) && Enabled(r, e)
    ensures Fifo(Step(r, e))
  {
    hide Nth, QueueCommand, QueueAck, SenderStep, Shape;
    FifoOfSender(r, e);
    match e
    case EnqueueCommand(n, mac, payload, retries) =>
      FifoOfQueueing(r.(log := r.log.(reserved := r.log.reserved - {n})),
                     Job(COMMAND, mac, Nth(r.first, n), payload, Clamp(retries), CommandCall(n)));
    case EnqueueAck(mac, id, waits) =>
      if waits {
        FifoOfQueueing(r.(log := r.log.(ackCalls := r.log.ackCalls + 1)), Job(ACK, mac, id, [], 0, AckCall(r.log.ackCalls)));
      } else {
        FifoOfQueueing(r, Job(ACK, mac, id, [], 0, Nobody));
      }
    case _ =>
  }

  lemma {:induction false} FifoAlways(r: Radio, es: seq<Event>)
    requires Shape(r) && Fifo(r) && Possible(r, es)
    ensures Fifo(Run(r, es))
    decreases |es|
  {
    hide Step, Shape, Enabled, Fifo;
    if es != [] {
      ShapeStep(r, es[0]);
      FifoStep(r, es[0]);
      FifoAlways(Step(r, es[0]), es[1..]);
    }
  }

  /** The commands taken so far are, in order, the first ones queued. */
  lemma CommandsLeaveInOrder(first: MessageId, es: seq<Event>)
    requires Possible(Start(first), es)
    ensures var log := Run(Start(first), es).log; log.commandsOut <= log.commandsIn
  {
    hide Run;
    FifoAlways(Start(first), es);
  }

  // Every accepted job with a waiter is handed back exactly once.

  function Is(job: Job, w: Waiter): nat {
    if job.waiter == w then 1 else 0
  }

  function Queued(q: seq<Job>, w: Waiter): nat {
    if q == [] then 0 else Is(q[0], w) + Queued(q[1..], w)
  }

  function Answered(cs: seq<Completion>, w: Waiter): nat {
    if cs == [] then 0 else Answered(cs[..|cs| - 1], w) + Is(cs[|cs| - 1].job, w)
  }

  function InHand(c: Control, w: Waiter): nat {
    match c
    case Idle => 0
    case AckingIdle(ack) => Is(ack, w)
    case Opening(job) => Is(job, w)
    case Sending(job, _, _, phase, _) => Is(job, w) + (if phase.Acking? then Is(phase.ack, w) else 0)
  }

  ghost predicate Conserved(r: Radio, w: Waiter) {
    r.log.accepted[w] == Queued(r.queue, w) + InHand(r.control, w) + Answered(r.log.done, w)
  }

  lemma {:induction false} QueuedAppend(q: seq<Job>, job: Job, w: Waiter)
    ensures Queued(q + [job], w) == Queued(q, w) + Is(job, w)
  {
    if q == [] {
      assert q + [job] == [job];
    } else {
      assert (q + [job])[1..] == q[1..] + [job];
      QueuedAppend(q[1..], job, w);
    }
  }

  lemma ConservedByQueueing(r: Radio, job: Job, w: Waiter)
    requires Conserved(r, w) && w != Nobody
    ensures Conserved(QueueCommand(r, job), w) && Conserved(QueueAck(r, job), w)
  {
    hide InHand, Answered;
    QueuedAppend(r.queue, job, w);
    assert ([job] + r.queue)[1..] == r.queue;
  }

  lemma HandAnswers(log: Log, job: Job, result: Result, attempts: nat, heardFrom: nat, w: Waiter)
    requires w != Nobody
    ensures var t := Hand(log, job, result, attempts, heardFrom);
            Answered(t.done, w) == Answered(log.done, w) + Is(job, w) && t.accepted == log.accepted
  {
  }

  lemma ConservedBySender(r: Radio, e: Event, w: Waiter)
    requires Conserved(r, w) && Enabled(r, e) && w != Nobody
    ensures Conserved(SenderStep(r, e), w)
  {
    hide Answered, Hand;
    var c := r.control;
    match e
    case Open(encodes) => HandAnswers(r.log, c.job, EmptyResult(c.job), 0, |r.log.heard|, w);
    case AckSent(started) =>
      var ack := if c.AckingIdle? then c.ack else c.phase.ack;
      HandAnswers(r.log, ack, AckResult(ack, started), 0, |r.log.heard|, w);
    case Complete => HandAnswers(r.log, c.job, c.result, c.attempt + 1, c.heardFrom, w);
    case _ =>
  }

  lemma ConservedStep(r: Radio, e: Event, w: Waiter)
    requires Conserved(r, w) && Enabled(r, e) && w != Nobody
    ensures Conserved(Step(r, e), w)
  {
    hide Nth, QueueCommand, QueueAck, SenderStep, Queued, InHand, Answered;
    ConservedBySender(r, e, w);
    match e
    case EnqueueCommand(n, mac, payload, retries) =>
      ConservedByQueueing(r.(log := r.log.(reserved := r.log.reserved - {n})),
                          Job(COMMAND, mac, Nth(r.first, n), payload, Clamp(retries), CommandCall(n)), w);
    case EnqueueAck(mac, id, waits) =>
      if waits {
        ConservedByQueueing(r.(log := r.log.(ackCalls := r.log.ackCalls + 1)), Job(ACK, mac, id, [], 0, AckCall(r.log.ackCalls)), w);
      } else {
        ConservedByQueueing(r, Job(ACK, mac, id, [], 0, Nobody), w);
      }
    case _ =>
  }

  /** No call is accepted twice: a numbered command is queued once, and a waiting
      acknowledgement gets a number of its own. */
  ghost predicate Single(log: Log) {
    && (forall n <- log.reserved :: n < log.numbered && CommandCall(n) !in log.accepted)
    && (forall w <- log.accepted :: log.accepted[w] == 1)
    && (forall n: nat :: CommandCall(n) in log.accepted ==> n < log.numbered)
    && (forall n: nat :: AckCall(n) in log.accepted ==> n < log.ackCalls)
    && Nobody !in log.accepted
  }

  lemma SingleStep(r: Radio, e: Event)
    requires Single(r.log) && Enabled(r, e)
    ensures Single(Step(r, e).log)
  {
    hide Nth, SenderStep;
    if !e.Allocate? && !e.EnqueueCommand? && !e.EnqueueAck? && !e.Hear? { SenderAccepts(r, e); }
  }

  lemma SenderAccepts(r: Radio, e: Event)
    requires Enabled(r, e)
    ensures var t := SenderStep(r, e).log;
            t.accepted == r.log.accepted && t.numbered == r.log.numbered && t.reserved == r.log.reserved && t.ackCalls == r.log.ackCalls
  {
  }

  lemma {:induction false} ConservedAlways(r: Radio, es: seq<Event>, w: Waiter)
    requires Conserved(r, w) && Single(r.log) && Possible(r, es) && w != Nobody
    ensures Conserved(Run(r, es), w) && Single(Run(r, es).log)
    decreases |es|
  {
    hide Step, Conserved, Single, Enabled;
    if es != [] {
      ConservedStep(r, es[0], w);
      SingleStep(r, es[0]);
      ConservedAlways(Step(r, es[0]), es[1..], w);
    }
  }

  /** Each accepted call is, at every moment, in exactly one place: queued, in the
      sender's hands, or answered. So it is never answered twice, and once the sender is
      idle with nothing queued it has been answered. */
  lemma AnsweredExactlyOnce(first: MessageId, es: seq<Event>, w: Waiter)
    requires Possible(Start(first), es) && w != Nobody
    ensures var r := Run(Start(first), es);
            && Queued(r.queue, w) + InHand(r.control, w) + Answered(r.log.done, w) == (if w in r.log.accepted then 1 else 0)
            && (r.control.Idle? && r.queue == [] ==> Answered(r.log.done, w) == (if w in r.log.accepted then 1 else 0))
  {
    hide Run;
    ConservedAlways(Start(first), es, w);
  }
}
