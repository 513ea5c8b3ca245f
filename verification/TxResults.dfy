/** What a finished command reports, and the order of what goes on the air. */
module TxResults {
  import opened Bytes
  import opened MessageIds
  import opened TxSpec
  import opened TxSoundness

  // An acknowledgement that counted was heard while its command was in hand.

  predicate Answers(job: Job, source: Mac, h: (Mac, MessageId)) {
    h == (source, job.messageId) && (job.mac == BROADCAST_MAC || job.mac == source)
  }

  /** Some acknowledgement of `job` by `source` among heard[from..to]. */
  ghost predicate HeardBy(heard: seq<(Mac, MessageId)>, from: nat, to: nat, job: Job, source: Mac) {
    exists k :: from <= k < to <= |heard| && Answers(job, source, heard[k])
  }

  ghost predicate InFlight(r: Radio) {
    r.control.Sending? ==>
      var (job, result, phase) := (r.control.job, r.control.result, r.control.phase);
      && result.messageId == job.messageId
      && (result.transmissionStarted <==> result.status != TRANSMIT_FAILED)
      && (result.status == ACKED ==> phase.Finishing? || phase.Closing?)
      && (phase.Broadcasting? || phase.Finishing? || phase.Closing? || result.transmissionStarted)
      && r.control.heardFrom <= |r.log.heard|
      && (r.pending.acked ==> HeardBy(r.log.heard, r.control.heardFrom, |r.log.heard|, job, r.pending.ackMac))
      && (result.status == ACKED ==> HeardBy(r.log.heard, r.control.heardFrom, |r.log.heard|, job, result.ackMac))
  }

  /** What is handed back to the caller of a command. */
  ghost predicate Reported(heard: seq<(Mac, MessageId)>, c: Completion) {
    && c.result.messageId == c.job.messageId
    && (c.result.transmissionStarted <==> c.result.status != TRANSMIT_FAILED)
    && (c.job.kind == COMMAND <==> c.job.waiter.CommandCall?)
    && (c.job.kind == COMMAND ==>
          && c.attempts <= c.job.retries + 1
          && (c.result.status == ACKED ==> HeardBy(heard, c.heardFrom, c.heardTo, c.job, c.result.ackMac)))
    && (c.job.kind == ACK ==> c.result.status != ACKED)
  }

  ghost predicate AllReported(r: Radio) {
    forall i :: 0 <= i < |r.log.done| ==> Reported(r.log.heard, r.log.done[i])
  }

  lemma HeardMore(heard: seq<(Mac, MessageId)>, h: (Mac, MessageId), from: nat, to: nat, to': nat, job: Job, source: Mac)
    requires HeardBy(heard, from, to, job, source) && to <= to' <= |heard| + 1
    ensures HeardBy(heard + [h], from, to', job, source)
  {
    var k :| from <= k < to <= |heard| && Answers(job, source, heard[k]);
    assert (heard + [h])[k] == heard[k];
  }

  lemma ReportedLater(heard: seq<(Mac, MessageId)>, h: (Mac, MessageId), c: Completion)
    requires Reported(heard, c)
    ensures Reported(heard + [h], c)
  {
    if c.job.kind == COMMAND && c.result.status == ACKED {
      HeardMore(heard, h, c.heardFrom, c.heardTo, c.heardTo, c.job, c.result.ackMac);
    }
  }

  lemma HearStep(r: Radio, source: Mac, id: MessageId)
    requires Shape(r) && InFlight(r) && AllReported(r)
    ensures InFlight(Step(r, Hear(source, id))) && AllReported(Step(r, Hear(source, id)))
  {
    hide HeardBy, Reported, QueueOk, ControlOk;
    var t := Step(r, Hear(source, id));
    var h := (source, id);
    forall i | 0 <= i < |t.log.done| ensures Reported(t.log.heard, t.log.done[i]) {
      ReportedLater(r.log.heard, h, r.log.done[i]);
    }
    if r.control.Sending? {
      var job, from, n := r.control.job, r.control.heardFrom, |r.log.heard|;
      if r.control.result.status == ACKED {
        HeardMore(r.log.heard, h, from, n, n + 1, job, r.control.result.ackMac);
      }
      if r.pending.acked { HeardMore(r.log.heard, h, from, n, n + 1, job, r.pending.ackMac); }
      if t.pending != r.pending { JustHeard(r, source, id); }
    }
  }

  lemma JustHeard(r: Radio, source: Mac, id: MessageId)
    requires Owned(r) && r.control.Sending? && r.control.heardFrom <= |r.log.heard|
    requires Mark(r.pending, source, id) != r.pending
    ensures HeardBy(r.log.heard + [(source, id)], r.control.heardFrom, |r.log.heard| + 1, r.control.job, source)
  {
    assert Answers(r.control.job, source, (r.log.heard + [(source, id)])[|r.log.heard|]);
  }

  lemma SenderReports(r: Radio, e: Event)
    requires Shape(r) && InFlight(r) && AllReported(r) && Enabled(r, e)
    ensures InFlight(SenderStep(r, e)) && AllReported(SenderStep(r, e))
  {
    hide HeardBy, QueueOk, AcksFirst, Nth;
    if r.queue != [] { FrontOk(r); }
  }

  lemma FrontOk(r: Radio)
    requires QueueOk(r) && r.queue != []
    ensures JobOk(r.first, r.queue[0])
  {
  }

  lemma ReportsStep(r: Radio, e: Event)
    requires Shape(r) && InFlight(r) && AllReported(r) && Enabled(r, e)
    ensures InFlight(Step(r, e)) && AllReported(Step(r, e))
  {
    hide SenderStep, HeardBy, Reported, Shape, Nth;
    match e
    case Hear(source, id) => HearStep(r, source, id);
    case Allocate =>
    case EnqueueCommand(n, _, _, _) =>
    case EnqueueAck(_, _, _) =>
    case _ => SenderReports(r, e);
  }

  lemma {:induction false} ReportsAlways(r: Radio, es: seq<Event>)
    requires Shape(r) && InFlight(r) && AllReported(r) && Possible(r, es)
    ensures InFlight(Run(r, es)) && AllReported(Run(r, es))
    decreases |es|
  {
    hide Step, Shape, InFlight, AllReported, Enabled;
    if es != [] {
      ShapeStep(r, es[0]);
      ReportsStep(r, es[0]);
      ReportsAlways(Step(r, es[0]), es[1..]);
    }
  }

  /** Every finished job reports its own identifier, and SENT or ACKED exactly when a
      transmission started. A command is attempted at most retries + 1 times, and is ACKED
      only if an acknowledgement of its identifier was heard, while it was in hand, from
      its target (from anyone, for a broadcast). */
  lemma ResultsAreSound(first: MessageId, es: seq<Event>, i: nat)
    requires Possible(Start(first), es) && i < |Run(Start(first), es).log.done|
    ensures var log := Run(Start(first), es).log;
            Reported(log.heard, log.done[i])
  {
    hide Run, Reported;
    ReportsAlways(Start(first), es);
  }

  // The order of what goes on the air.

  function Count(ns: seq<nat>, n: nat): nat {
    if ns == [] then 0 else Count(ns[..|ns| - 1], n) + (if ns[|ns| - 1] == n then 1 else 0)
  }

  /** Call `n` as seen by its command number: taken once it is in hand or answered. */
  ghost predicate Taken(r: Radio, n: nat) {
    Count(r.log.commandsOut, n) == InHand(r.control, CommandCall(n)) + Answered(r.log.done, CommandCall(n))
  }

  lemma TakenBySender(r: Radio, e: Event, n: nat)
    requires Shape(r) && Taken(r, n) && Enabled(r, e)
    ensures Taken(SenderStep(r, e), n)
  {
    hide Answered, Hand, TakeFront, Count, Nth, AcksFirst;
    var c, w := r.control, CommandCall(n);
    match e
    case Receive => TakenByTakeFront(r, n);
    case Open(encodes) =>
      HandAnswers(r.log, c.job, EmptyResult(c.job), 0, |r.log.heard|, w);
      HandKeeps(r.log, c.job, EmptyResult(c.job), 0, |r.log.heard|);
    case AckSent(started) =>
      var ack := if c.AckingIdle? then c.ack else c.phase.ack;
      HandAnswers(r.log, ack, AckResult(ack, started), 0, |r.log.heard|, w);
      HandKeeps(r.log, ack, AckResult(ack, started), 0, |r.log.heard|);
    case Complete =>
      HandAnswers(r.log, c.job, c.result, c.attempt + 1, c.heardFrom, w);
      HandKeeps(r.log, c.job, c.result, c.attempt + 1, c.heardFrom);
    case ReceivePeeked => FrontOk(r);
    case _ =>
  }

  lemma HandKeeps(log: Log, job: Job, result: Result, attempts: nat, heardFrom: nat)
    ensures var t := Hand(log, job, result, attempts, heardFrom);
            t.commandsOut == log.commandsOut && t.air == log.air && t.numbered == log.numbered
  {
  }

  lemma TakenByTakeFront(r: Radio, n: nat)
    requires Shape(r) && Taken(r, n) && r.control.Idle? && r.queue != []
    ensures Taken(TakeFront(r), n)
  {
  }

  lemma TakenStep(r: Radio, e: Event, n: nat)
    requires Shape(r) && Taken(r, n) && Enabled(r, e)
    ensures Taken(Step(r, e), n)
  {
    hide SenderStep, Answered, Count, Nth, Shape, InHand;
    match e
    case Hear(_, _) =>
    case Allocate =>
    case EnqueueCommand(_, _, _, _) =>
    case EnqueueAck(_, _, _) =>
    case _ => TakenBySender(r, e, n);
  }

  /** Broadcasts carry the command that was current at their position, in order. */
  ghost predicate AirOk(r: Radio) {
    && (forall i :: 0 <= i < |r.log.air| ==> AirEntryOk(r, r.log.air[i]))
    && (forall i, j :: 0 <= i < j < |r.log.air| ==> r.log.air[i].position <= r.log.air[j].position)
    && (r.control.Sending? || r.control.Opening? ==>
          |r.log.commandsOut| > 0 && r.control.job.waiter == CommandCall(r.log.commandsOut[|r.log.commandsOut| - 1]))
  }

  ghost predicate AirEntryOk(r: Radio, b: Broadcast) {
    && 1 <= b.position <= |r.log.commandsOut|
    && b.job.waiter == CommandCall(r.log.commandsOut[b.position - 1])
    && b.job.kind == COMMAND && JobOk(r.first, b.job)
  }

  lemma AirBySender(r: Radio, e: Event)
    requires Shape(r) && AirOk(r) && Enabled(r, e)
    ensures AirOk(SenderStep(r, e))
  {
    hide Nth, AcksFirst, Owned, JobOk, Hand;
    var c := r.control;
    match e
    case Receive =>
      FrontOk(r);
      CommandsHaveNumbers(r.first, r.queue[0]);
    case Open(encodes) => HandKeeps(r.log, c.job, EmptyResult(c.job), 0, |r.log.heard|);
    case AckSent(started) =>
      var ack := if c.AckingIdle? then c.ack else c.phase.ack;
      HandKeeps(r.log, ack, AckResult(ack, started), 0, |r.log.heard|);
    case Complete => HandKeeps(r.log, c.job, c.result, c.attempt + 1, c.heardFrom);
    case _ =>
  }

  lemma CommandsHaveNumbers(first: MessageId, job: Job)
    requires JobOk(first, job)
    ensures job.kind == COMMAND <==> job.waiter.CommandCall?
  {
  }

  lemma AirStep(r: Radio, e: Event)
    requires Shape(r) && AirOk(r) && Enabled(r, e)
    ensures AirOk(Step(r, e))
  {
    hide SenderStep, Nth, Shape, JobOk;
    match e
    case Hear(_, _) =>
    case Allocate =>
    case EnqueueCommand(_, _, _, _) =>
    case EnqueueAck(_, _, _) =>
    case _ => AirBySender(r, e);
  }

  lemma {:induction false} CountPositive(ns: seq<nat>, i: nat)
    requires i < |ns|
    ensures Count(ns, ns[i]) >= 1
  {
    if i < |ns| - 1 { CountPositive(ns[..|ns| - 1], i); }
  }

  lemma {:induction false} CountTwice(ns: seq<nat>, i: nat, j: nat)
    requires i < j < |ns| && ns[i] == ns[j]
    ensures Count(ns, ns[i]) >= 2
  {
    if j < |ns| - 1 { CountTwice(ns[..|ns| - 1], i, j); } else { CountPositive(ns[..|ns| - 1], i); }
  }

  ghost predicate OnAir(air: seq<Broadcast>, n: nat) {
    exists i :: 0 <= i < |air| && air[i].job.waiter == CommandCall(n)
  }

  lemma {:induction false} AnsweredMember(cs: seq<Completion>, i: nat)
    requires i < |cs|
    ensures Answered(cs, cs[i].job.waiter) >= 1
  {
    if i < |cs| - 1 { AnsweredMember(cs[..|cs| - 1], i); }
  }

  /** Everything about the calls that the run keeps. */
  ghost predicate Books(r: Radio, n: nat) {
    Shape(r) && AirOk(r) && Single(r.log) && Conserved(r, CommandCall(n)) && Taken(r, n)
  }

  lemma BooksStep(r: Radio, e: Event, n: nat)
    requires Books(r, n) && Enabled(r, e)
    ensures Books(Step(r, e), n)
  {
    hide Shape, AirOk, Single, Conserved, Taken, Step, Enabled;
    ShapeStep(r, e);
    AirStep(r, e);
    SingleStep(r, e);
    ConservedStep(r, e, CommandCall(n));
    TakenStep(r, e, n);
  }

  lemma {:induction false} BooksAlways(r: Radio, es: seq<Event>, n: nat)
    requires Books(r, n) && Possible(r, es)
    ensures Books(Run(r, es), n)
    decreases |es|
  {
    hide Step, Books, Enabled;
    if es != [] {
      BooksStep(r, es[0], n);
      BooksAlways(Step(r, es[0]), es[1..], n);
    }
  }

  lemma StartBooks(first: MessageId, n: nat)
    ensures Books(Start(first), n)
  {
  }

  /** A command is taken at most once, was numbered by the allocator, and once taken is no
      longer queued. */
  lemma TakenOnce(r: Radio, n: nat)
    requires Books(r, n)
    ensures Count(r.log.commandsOut, n) + Queued(r.queue, CommandCall(n)) <= 1
    ensures Count(r.log.commandsOut, n) >= 1 ==> n < r.log.numbered
  {
  }

  lemma OnAirMeansTaken(r: Radio, n: nat)
    requires AirOk(r) && OnAir(r.log.air, n)
    ensures Count(r.log.commandsOut, n) >= 1
  {
    hide JobOk;
    var i :| 0 <= i < |r.log.air| && r.log.air[i].job.waiter == CommandCall(n);
    assert AirEntryOk(r, r.log.air[i]);
    CountPositive(r.log.commandsOut, r.log.air[i].position - 1);
  }

  /** The air carries the commands in the order in which they were taken. While fewer
      commands than identifiers have been numbered, two broadcasts carry the same
      identifier exactly when they are attempts of the same command. */
  lemma AirOrder(first: MessageId, es: seq<Event>, i: nat, j: nat)
    requires Possible(Start(first), es)
    requires Run(Start(first), es).log.numbered <= PERIOD
    requires i <= j < |Run(Start(first), es).log.air|
    ensures var air := Run(Start(first), es).log.air;
            && air[i].position <= air[j].position
            && (air[i].job.messageId == air[j].job.messageId <==> air[i].position == air[j].position)
            && air[i].job.messageId != NO_ID
  {
    hide Run, Shape, Single, Conserved, Taken, Count;
    var r := Run(Start(first), es);
    var a, b := r.log.air[i], r.log.air[j];
    var m := NumberAt(first, es, i);
    var n := NumberAt(first, es, j);
    RunKeepsFirst(Start(first), es);
    assert AirEntryOk(r, a) && AirEntryOk(r, b);
    NthProper(first, m);
    if a.position != b.position {
      if m == n {
        CountTwice(r.log.commandsOut, a.position - 1, b.position - 1);
        TakenOnce(r, n);
      }
      if m < n { AllocationsDistinct(first, m, n); } else { AllocationsDistinct(first, n, m); }
    }
  }

  lemma NthProper(first: MessageId, n: nat)
    requires Proper(first)
    ensures Nth(first, n) != NO_ID
  {
  }

  /** The command number behind a broadcast. */
  lemma NumberAt(first: MessageId, es: seq<Event>, i: nat) returns (n: nat)
    requires Possible(Start(first), es) && i < |Run(Start(first), es).log.air|
    ensures var r := Run(Start(first), es);
            && r.log.air[i].job.waiter == CommandCall(n) && n < r.log.numbered
            && Books(r, n) && Proper(r.first) && r.log.air[i].job.messageId == Nth(r.first, n)
            && AirEntryOk(r, r.log.air[i]) && n == r.log.commandsOut[r.log.air[i].position - 1]
  {
    hide Run, Shape, Single, Conserved, Taken, Count, Nth;
    var r := Run(Start(first), es);
    StartBooks(first, 0);
    BooksAlways(Start(first), es, 0);
    assert AirEntryOk(r, r.log.air[i]);
    n := r.log.air[i].job.waiter.n;
    StartBooks(first, n);
    BooksAlways(Start(first), es, n);
    OnAirMeansTaken(r, n);
    TakenOnce(r, n);
  }

  lemma {:induction false} RunKeepsFirst(r: Radio, es: seq<Event>)
    requires Possible(r, es)
    ensures Run(r, es).first == r.first
    decreases |es|
  {
    hide Nth;
    if es != [] { RunKeepsFirst(Step(r, es[0]), es[1..]); }
  }

  // Reporting a started transmission.

  /** Every broadcast under this number is of this job. */
  ghost predicate AirIs(air: seq<Broadcast>, n: nat, job: Job) {
    forall i :: 0 <= i < |air| && air[i].job.waiter == CommandCall(n) ==> air[i].job == job
  }

  ghost predicate Tracked(r: Radio, n: nat) {
    && (r.control.Opening? && r.control.job.waiter == CommandCall(n) ==> !OnAir(r.log.air, n))
    && (r.control.Sending? && r.control.job.waiter == CommandCall(n) ==>
          && (r.control.result.transmissionStarted <==> OnAir(r.log.air, n))
          && AirIs(r.log.air, n, r.control.job))
    && (forall i :: 0 <= i < |r.log.done| && r.log.done[i].job.waiter == CommandCall(n) ==>
          && (r.log.done[i].result.transmissionStarted <==> OnAir(r.log.air, n))
          && AirIs(r.log.air, n, r.log.done[i].job))
  }

  lemma NotOnAir(air: seq<Broadcast>, n: nat, job: Job)
    requires !OnAir(air, n)
    ensures AirIs(air, n, job)
  {
  }

  lemma TrackedBroadcast(r: Radio, n: nat)
    requires Books(r, n) && Tracked(r, n) && InPhase(r.control, Broadcasting)
    ensures Tracked(SenderStep(r, Broadcasts(true)), n)
  {
    hide Shape, AirOk, Single, Queued, Answered, Count;
    var t := SenderStep(r, Broadcasts(true));
    assert t.log.air[..|r.log.air|] == r.log.air;
    if r.control.job.waiter == CommandCall(n) {
      assert t.log.air[|r.log.air|].job.waiter == CommandCall(n);
      TakenOnce(r, n);
      forall i | 0 <= i < |r.log.done| ensures r.log.done[i].job.waiter != CommandCall(n) {
        AnsweredMember(r.log.done, i);
      }
    } else if OnAir(t.log.air, n) {
      var i :| 0 <= i < |t.log.air| && t.log.air[i].job.waiter == CommandCall(n);
      assert t.log.air[i] == r.log.air[i];
    }
  }

  lemma TrackedTake(r: Radio, n: nat)
    requires Books(r, n) && Tracked(r, n) && r.control.Idle? && r.queue != []
    ensures Tracked(TakeFront(r), n)
  {
    hide Shape, AirOk, Single, Conserved, Taken, Answered, Count, OnAir, AirIs;
    if r.queue[0].waiter == CommandCall(n) {
      TakenOnce(r, n);
      if OnAir(r.log.air, n) { OnAirMeansTaken(r, n); }
    }
  }

  lemma TrackedHand(r: Radio, job: Job, result: Result, attempts: nat, heardFrom: nat, c: Control, n: nat)
    requires Tracked(r, n) && !c.Opening? && !c.Sending?
    requires job.waiter == CommandCall(n) ==>
               (result.transmissionStarted <==> OnAir(r.log.air, n)) && AirIs(r.log.air, n, job)
    ensures Tracked(r.(control := c, log := Hand(r.log, job, result, attempts, heardFrom)), n)
  {
  }

  lemma TrackedSender(r: Radio, e: Event, n: nat)
    requires Books(r, n) && Tracked(r, n) && Enabled(r, e)
    ensures Tracked(SenderStep(r, e), n)
  {
    hide QueueOk, Owned, AirOk, Single, Conserved, Taken, OnAir, AirIs, TakeFront, Hand, Nth;
    var c := r.control;
    if !OnAir(r.log.air, n) && c.Opening? { NotOnAir(r.log.air, n, c.job); }
    match e
    case Receive => TrackedTake(r, n);
    case Broadcasts(started) => if started { TrackedBroadcast(r, n); }
    case Open(encodes) => TrackedHand(r, c.job, EmptyResult(c.job), 0, |r.log.heard|, Idle, n);
    case Complete => TrackedHand(r, c.job, c.result, c.attempt + 1, c.heardFrom, Idle, n);
    case AckSent(started) =>
      var ack := if c.AckingIdle? then c.ack else c.phase.ack;
      TrackedHand(r, ack, AckResult(ack, started), 0, |r.log.heard|, Idle, n);
      HandKeeps(r.log, ack, AckResult(ack, started), 0, |r.log.heard|);
    case _ =>
  }

  lemma TrackedStep(r: Radio, e: Event, n: nat)
    requires Books(r, n) && Tracked(r, n) && Enabled(r, e)
    ensures Tracked(Step(r, e), n)
  {
    hide SenderStep, Books, OnAir, AirIs, Nth;
    match e
    case Hear(_, _) =>
    case Allocate =>
    case EnqueueCommand(_, _, _, _) =>
    case EnqueueAck(_, _, _) =>
    case _ => TrackedSender(r, e, n);
  }

  lemma {:induction false} TrackedAlways(r: Radio, es: seq<Event>, n: nat)
    requires Books(r, n) && Tracked(r, n) && Possible(r, es)
    ensures Tracked(Run(r, es), n)
    decreases |es|
  {
    hide Step, Books, Tracked, Enabled;
    if es != [] {
      BooksStep(r, es[0], n);
      TrackedStep(r, es[0], n);
      TrackedAlways(Step(r, es[0]), es[1..], n);
    }
  }

  /** A command reports a started transmission exactly when it was put on the air, and
      whatever was put on the air under its number is that command. */
  lemma StartedIffOnAir(first: MessageId, es: seq<Event>, i: nat)
    requires Possible(Start(first), es) && i < |Run(Start(first), es).log.done|
    requires Run(Start(first), es).log.done[i].job.waiter.CommandCall?
    ensures var log := Run(Start(first), es).log;
            var n := log.done[i].job.waiter.n;
            && (log.done[i].result.status != TRANSMIT_FAILED <==> OnAir(log.air, n))
            && AirIs(log.air, n, log.done[i].job)
  {
    hide Run, OnAir, AirIs;
    var n := Run(Start(first), es).log.done[i].job.waiter.n;
    StartBooks(first, n);
    TrackedAlways(Start(first), es, n);
    ReportsAlways(Start(first), es);
    assert Reported(Run(Start(first), es).log.heard, Run(Start(first), es).log.done[i]);
  }

  /** Two broadcasts at one position are attempts of one command. */
  lemma SamePositionSameCommand(first: MessageId, es: seq<Event>, i: nat, j: nat)
    requires Possible(Start(first), es) && i < |Run(Start(first), es).log.air| && j < |Run(Start(first), es).log.air|
    requires Run(Start(first), es).log.air[i].position == Run(Start(first), es).log.air[j].position
    ensures Run(Start(first), es).log.air[i].job.waiter == Run(Start(first), es).log.air[j].job.waiter
  {
    hide Run, Shape, Single, Conserved, Taken, Count, Nth;
    var r := Run(Start(first), es);
    StartBooks(first, 0);
    BooksAlways(Start(first), es, 0);
    assert AirEntryOk(r, r.log.air[i]) && AirEntryOk(r, r.log.air[j]);
  }

  // What is queued.

  /** A command goes to the back of the queue, with the identifier of its number, up to ten
      retries and everything else as given, unless six jobs wait already. */
  lemma CommandQueuedAsGiven(r: Radio, n: nat, mac: Mac, payload: seq<byte>, retries: int)
    requires Enabled(r, EnqueueCommand(n, mac, payload, retries))
    ensures var t := Step(r, EnqueueCommand(n, mac, payload, retries));
            && n !in t.log.reserved && t.pending == r.pending && t.control == r.control
            && if |r.queue| >= 6 then t.queue == r.queue && t.log.accepted == r.log.accepted
               else
                 && |t.queue| == |r.queue| + 1 && t.queue[..|r.queue|] == r.queue
                 && var job := t.queue[|r.queue|];
                    && job.kind == COMMAND && job.mac == mac && job.payload == payload && job.messageId == Nth(r.first, n)
                    && job.retries == (if retries < 0 then 0 else if retries > 10 then 10 else retries)
                    && job.waiter == CommandCall(n) && t.log.accepted == r.log.accepted + multiset{job.waiter}
  {
    hide Nth;
  }

  /** An acknowledgement goes to the front, so that it overtakes every waiting command. */
  lemma AckQueuedAtFront(r: Radio, mac: Mac, id: MessageId, waits: bool)
    ensures var t := Step(r, EnqueueAck(mac, id, waits));
            && t.pending == r.pending && t.control == r.control
            && if |r.queue| >= 6 then t.queue == r.queue && t.log.accepted == r.log.accepted
               else
                 && |t.queue| == |r.queue| + 1 && t.queue[1..] == r.queue
                 && t.queue[0].kind == ACK && t.queue[0].mac == mac && t.queue[0].messageId == id
                 && (t.queue[0].waiter != Nobody <==> waits)
                 && t.log.accepted == if waits then r.log.accepted + multiset{t.queue[0].waiter} else r.log.accepted
  {
  }
}
