/** The sender task in the form of main/src/bluetooth_common.cpp: the queue and gPending
    updated in place, the retry loop, the waiting loop and the urgent-acknowledgement loop.
    Other tasks and the radio callback run at every point where it can be preempted,
    as a given script says. Whatever the script, the code only takes steps of TxSpec, so
    everything proved about its runs holds of the code. */
module TxSender {
  import opened Bytes
  import opened MessageIds
  import opened TxSpec
  import opened TxSoundness
  import opened TxResults
  import opened TxAnswers

  /** The steps that other tasks and the radio callback take. */
  predicate Foreign(e: Event) {
    e.Allocate? || e.EnqueueCommand? || e.EnqueueAck? || e.Hear?
  }

  /** The trace after others have done what they can of a batch, in order. */
  ghost function Played(first: MessageId, trace: seq<Event>, batch: seq<Event>): (t: seq<Event>)
    requires Possible(Start(first), trace)
    ensures Possible(Start(first), t) && trace <= t
    decreases |batch|
  {
    if batch == [] then trace
    else
      var t, e := Played(first, trace, batch[..|batch| - 1]), batch[|batch| - 1];
      if Foreign(e) && Enabled(Run(Start(first), t), e) then
        RunAppend(Start(first), t, e);
        t + [e]
      else t
  }

  /** The job was handed back last, with this result. */
  predicate Completed(done: seq<Completion>, before: seq<Completion>, job: Job, result: Result) {
    |done| == |before| + 1 && done[..|before|] == before && done[|before|].job == job && done[|before|].result == result
  }

  class Sender {
    const first: MessageId
    var gTxQueue: seq<Job>
    var gPending: Pending
    var log: Log
    var nowUs: nat

    /** What the others do at successive preemption points. */
    const script: seq<seq<Event>>
    var played: nat
    /** Whether the n-th broadcast starts and the n-th packet encodes. */
    const radioOk: nat -> bool
    const encodeOk: nat -> bool
    /** The acknowledgement timeout of the n-th wait, and how late the n-th delay ends. */
    const timeoutMs: nat -> nat
    const lateUs: nat -> nat
    var broadcasts: nat
    var packets: nat
    var waits: nat
    var delays: nat
    var attempts: nat

    ghost var control: Control
    ghost var trace: seq<Event>

    ghost function View(): Radio
      reads this
    {
      Radio(first, gTxQueue, gPending, control, log)
    }

    ghost predicate Valid()
      reads this
    {
      played <= |script| && Possible(Start(first), trace) && View() == Run(Start(first), trace)
    }

    constructor (first: MessageId, script: seq<seq<Event>>, radioOk: nat -> bool, encodeOk: nat -> bool,
                 timeoutMs: nat -> nat, lateUs: nat -> nat)
      ensures Valid() && trace == [] && control == Idle && played == 0
      ensures this.first == first && this.script == script
    {
      this.first, this.script, this.radioOk, this.encodeOk := first, script, radioOk, encodeOk;
      this.timeoutMs, this.lateUs := timeoutMs, lateUs;
      gTxQueue, gPending := [], Pending(false, false, 0, NO_ID, 0);
      log := Log(0, {}, 0, multiset{}, [], [], [], [], []);
      nowUs, played, broadcasts, packets, waits, delays, attempts := 0, 0, 0, 0, 0, 0, 0;
      control, trace := Idle, [];
    }

    /** The bookkeeping after the program has taken the step `e` from state `before`. */
    ghost method Took(before: Radio, e: Event)
      requires played <= |script| && Possible(Start(first), trace) && before == Run(Start(first), trace)
      requires Enabled(before, e) && View() == Step(before, e)
      modifies this`trace
      ensures Valid() && trace == old(trace) + [e]
    {
      hide Step, Enabled;
      RunAppend(Start(first), trace, e);
      trace := trace + [e];
    }

    /** Others run: one script entry, leaving out what is not theirs to do or not possible
        in the present state. */
    method Preempt()
      requires Valid()
      modifies this`gTxQueue, this`gPending, this`log, this`played, this`trace
      ensures Valid() && control == old(control) && old(trace) <= trace
      ensures if old(played) < |script| then played == old(played) + 1 else played == old(played) && gTxQueue == old(gTxQueue)
      ensures trace == if old(played) < |script| then Played(first, old(trace), script[old(played)]) else old(trace)
      ensures old(gTxQueue) != [] && old(gTxQueue)[0].kind == ACK ==> gTxQueue != [] && gTxQueue[0].kind == ACK
      ensures log.done == old(log.done)
    {
      hide Run, Possible;
      if played == |script| { return; }
      var batch := script[played];
      played := played + 1;
      var k := 0;
      while k < |batch|
        invariant 0 <= k <= |batch| && Valid() && control == old(control) && old(trace) <= trace
        invariant played == old(played) + 1 && trace == Played(first, old(trace), batch[..k]) && log.done == old(log.done)
        invariant old(gTxQueue) != [] && old(gTxQueue)[0].kind == ACK ==> gTxQueue != [] && gTxQueue[0].kind == ACK
      {
        assert batch[..k + 1][..k] == batch[..k];
        OtherTask(batch[k]);
        k := k + 1;
      }
      assert batch[..k] == batch;
    }

    method OtherTask(e: Event)
      requires Valid()
      modifies this`gTxQueue, this`gPending, this`log, this`trace
      ensures Valid()
      ensures trace == if Foreign(e) && Enabled(old(View()), e) then old(trace) + [e] else old(trace)
      ensures old(gTxQueue) != [] && old(gTxQueue)[0].kind == ACK ==> gTxQueue != [] && gTxQueue[0].kind == ACK
      ensures log.done == old(log.done)
    {
      hide Run, Possible, Nth;
      ghost var before := View();
      match e {
        case Allocate =>
          if !Proper(first) { return; }
          log := log.(numbered := log.numbered + 1, reserved := log.reserved + {log.numbered});
        case EnqueueCommand(n, mac, payload, retries) =>
          if !Proper(first) || n !in log.reserved || |payload| == 0 || |payload| > 64 { return; }
          log := log.(reserved := log.reserved - {n});
          if |gTxQueue| < TX_QUEUE_LEN {
            gTxQueue := gTxQueue + [Job(COMMAND, mac, Nth(first, n), payload, Clamp(retries), CommandCall(n))];
            log := log.(accepted := log.accepted + multiset{CommandCall(n)}, commandsIn := log.commandsIn + [n]);
          }
        case EnqueueAck(mac, id, waits) =>
          var job := Job(ACK, mac, id, [], 0, if waits then AckCall(log.ackCalls) else Nobody);
          if waits { log := log.(ackCalls := log.ackCalls + 1); }
          if |gTxQueue| < TX_QUEUE_LEN {
            gTxQueue := [job] + gTxQueue;
            log := log.(accepted := AddWaiter(log.accepted, job.waiter));
          }
        case Hear(source, id) =>
          if gPending.active && gPending.messageId == id
             && (gPending.targetMac == BROADCAST_MAC || gPending.targetMac == source) {
            gPending := gPending.(acked := true, ackMac := source);
          }
          log := log.(heard := log.heard + [(source, id)]);
        case _ => return;
      }
      Took(before, e);
    }

    // The sender task.

    /** broadcastPacket: whether it started; others run while it is on the air. */
    method BroadcastPacket() returns (started: bool)
      modifies this`broadcasts
      ensures started == radioOk(old(broadcasts)) && broadcasts == old(broadcasts) + 1
    {
      started := radioOk(broadcasts);
      broadcasts := broadcasts + 1;
    }

    method MakePacket() returns (encodes: bool)
      modifies this`packets
      ensures encodes == encodeOk(old(packets)) && packets == old(packets) + 1
    {
      encodes := encodeOk(packets);
      packets := packets + 1;
    }

    method CompleteJob(job: Job, result: Result, attempts: nat, heardFrom: nat)
      modifies this`log
      ensures log == Hand(old(log), job, result, attempts, heardFrom)
    {
      if job.waiter == Nobody { return; }
      log := log.(done := log.done + [Completion(job, result, attempts, heardFrom, |log.heard|)]);
    }

    method ProcessAckJob(job: Job)
      requires Valid() && (control == AckingIdle(job) || (control.Sending? && control.phase == Acking(job)))
      modifies this`gTxQueue, this`gPending, this`log, this`played, this`broadcasts, this`packets, this`control, this`trace
      ensures Valid() && old(trace) <= trace
      ensures control == if old(control).AckingIdle? then Idle else old(control).(phase := Peeking)
      ensures played > old(played) || (played == old(played) && gTxQueue == old(gTxQueue))
      ensures var started := encodeOk(old(packets)) && radioOk(old(broadcasts));
              if job.waiter == Nobody then log.done == old(log.done)
              else Completed(log.done, old(log.done), job,
                             Result(if started then SENT else TRANSMIT_FAILED, job.messageId, started, 0))
    {
      hide Run, Possible, Step, Enabled;
      var result := EmptyResult(job);
      var encodes := MakePacket();
      if encodes {
        var started := BroadcastPacket();
        Preempt();
        if started { result := result.(status := SENT, transmissionStarted := true); }
      }
      HandBackAck(job, result.transmissionStarted);
    }

    method HandBackAck(job: Job, started: bool)
      requires Valid() && (control == AckingIdle(job) || (control.Sending? && control.phase == Acking(job)))
      modifies this`log, this`control, this`trace
      ensures Valid() && old(trace) <= trace
      ensures control == if old(control).AckingIdle? then Idle else old(control).(phase := Peeking)
      ensures if job.waiter == Nobody then log.done == old(log.done)
              else Completed(log.done, old(log.done), job,
                             Result(if started then SENT else TRANSMIT_FAILED, job.messageId, started, 0))
    {
      hide Run, Possible, TakeFront, QueueCommand, QueueAck, Mark, Nth, Clamp;
      ghost var before := View();
      CompleteJob(job, AckResult(job, started), 0, |log.heard|);
      control := if control.AckingIdle? then Idle else control.(phase := Peeking);
      Took(before, AckSent(started));
    }

    /** xQueuePeek. */
    method PeekAck() returns (isAck: bool)
      requires Valid() && InPhase(control, Peeking)
      modifies this`control, this`trace
      ensures Valid() && old(trace) <= trace
      ensures isAck <==> gTxQueue != [] && gTxQueue[0].kind == ACK
      ensures control == old(control).(phase := if isAck then Peeked else Checking)
    {
      hide Run, Possible;
      ghost var before := View();
      isAck := gTxQueue != [] && gTxQueue[0].kind == ACK;
      control := control.(phase := if isAck then Peeked else Checking);
      Took(before, Peek);
    }

    /** The receive after the peek. */
    method ReceivePeekedAck() returns (queued: Job)
      requires Valid() && InPhase(control, Peeked) && gTxQueue != []
      modifies this`gTxQueue, this`control, this`trace
      ensures Valid() && old(trace) <= trace
      ensures queued == old(gTxQueue)[0] && gTxQueue == old(gTxQueue)[1..]
      ensures control == old(control).(phase := Acking(queued))
    {
      hide Run, Possible;
      ghost var before := View();
      queued := gTxQueue[0];
      gTxQueue := gTxQueue[1..];
      control := control.(phase := Acking(queued));
      Took(before, ReceivePeeked);
    }

    method ProcessUrgentAcks()
      requires Valid() && InPhase(control, Peeking)
      modifies this`gTxQueue, this`gPending, this`log, this`played, this`broadcasts, this`packets, this`control, this`trace
      ensures Valid() && old(trace) <= trace && control == old(control).(phase := Checking)
      ensures !(gTxQueue != [] && gTxQueue[0].kind == ACK)
      ensures played >= old(played) && (old(played) == |script| ==> |gTxQueue| <= |old(gTxQueue)|)
    {
      hide Run, Possible, Step, Enabled, AckResult, Completed;
      var more := true;
      while more
        invariant Valid() && old(trace) <= trace && played >= old(played)
        invariant old(played) == |script| ==> |gTxQueue| <= |old(gTxQueue)|
        invariant more || !(gTxQueue != [] && gTxQueue[0].kind == ACK)
        invariant control == old(control).(phase := if more then Peeking else Checking)
        decreases |script| - played, |gTxQueue|, more
      {
        more := ServeUrgentAck();
      }
    }

    /** One round of that loop. */
    method ServeUrgentAck() returns (more: bool)
      requires Valid() && InPhase(control, Peeking)
      modifies this`gTxQueue, this`gPending, this`log, this`played, this`broadcasts, this`packets, this`control, this`trace
      ensures Valid() && old(trace) <= trace && control == old(control).(phase := if more then Peeking else Checking)
      ensures !more ==> !(gTxQueue != [] && gTxQueue[0].kind == ACK)
      ensures old(played) <= played <= |script|
      ensures old(played) == |script| ==> |gTxQueue| <= |old(gTxQueue)| && (more ==> |gTxQueue| < |old(gTxQueue)|)
      ensures old(played) < |script| ==> played > old(played)
    {
      hide Run, Possible, Step, Enabled, AckResult, Completed;
      Preempt();
      more := PeekAck();
      if more {
        Preempt();
        var queued := ReceivePeekedAck();
        ProcessAckJob(queued);
      }
    }

    /** One round of the waiting loop, up to its delay. */
    method PollAck(result: Result) returns (r: Result)
      requires Valid() && InPhase(control, Guard) && control.result == result && result.status == SENT
      modifies this`gTxQueue, this`gPending, this`log, this`played, this`broadcasts, this`packets, this`control, this`trace
      ensures Valid() && old(trace) <= trace && (r.status == SENT || r.status == ACKED)
      ensures r.transmissionStarted == result.transmissionStarted
      ensures control == old(control).(result := r, phase := if r.status == ACKED then Finishing else Guard)
      ensures r == var answer := LastAnswer(log.heard, control.heardFrom, control.job);
                   if answer.Some? then result.(status := ACKED, ackMac := answer.value) else result
      ensures old(log.heard) <= log.heard
      ensures played >= old(played) && (old(played) == |script| ==> |gTxQueue| <= |old(gTxQueue)|)
    {
      hide Run, Possible;
      r := result;
      ghost var before := View();
      ghost var start := trace;
      control := control.(phase := Peeking);
      Took(before, EnterLoop);
      ProcessUrgentAcks();
      before := View();
      PendingRemembers(this);
      TraceHeard(Start(first), start, trace);
      if gPending.acked {
        r := r.(status := ACKED, ackMac := gPending.ackMac);
      }
      control := control.(result := r, phase := if r.status == ACKED then Finishing else Guard);
      Took(before, Check);
    }

    /** One round of the waiting loop with its delay. */
    method WaitOnce(result: Result) returns (r: Result)
      requires Valid() && InPhase(control, Guard) && control.result == result && result.status == SENT
      modifies this`gTxQueue, this`gPending, this`log, this`played, this`broadcasts, this`packets, this`control, this`trace,
               this`nowUs, this`delays
      ensures Valid() && old(trace) <= trace && (r.status == SENT || r.status == ACKED)
      ensures r.transmissionStarted == result.transmissionStarted
      ensures control == old(control).(result := r, phase := if r.status == ACKED then Finishing else Guard)
      ensures r.status == ACKED ==> LastAnswer(log.heard, control.heardFrom, control.job) == Some(r.ackMac)
      ensures LastAnswer(old(log.heard), old(control).heardFrom, old(control).job).Some? ==> r.status == ACKED
      ensures if r.status == ACKED then nowUs == old(nowUs) && delays == old(delays)
              else nowUs == old(nowUs) + 10_000 + lateUs(old(delays)) && delays == old(delays) + 1
      ensures played >= old(played) && (old(played) == |script| ==> |gTxQueue| <= |old(gTxQueue)|)
    {
      hide Run, Possible, Step, Enabled, LastAnswer;
      ghost var heard, from, job := log.heard, control.heardFrom, control.job;
      r := PollAck(result);
      if LastAnswer(heard, from, job).Some? { AnswerStays(heard, log.heard, from, job); }
      if r.status == ACKED { return; }
      Preempt();
      nowUs := nowUs + 10_000 + lateUs(delays);
      delays := delays + 1;
    }

    /** One attempt's wait: until the deadline or an acknowledgement, looking every ten
        milliseconds. */
    method AwaitAck(result: Result) returns (r: Result)
      requires Valid() && InPhase(control, Guard) && control.result == result && result.status == SENT
      modifies this`gTxQueue, this`gPending, this`log, this`played, this`broadcasts, this`packets, this`control, this`trace,
               this`nowUs, this`waits, this`delays
      ensures Valid() && old(trace) <= trace && (r.status == SENT || r.status == ACKED)
      ensures r.transmissionStarted == result.transmissionStarted
      ensures control == old(control).(result := r, phase := if r.status == ACKED then Finishing else Guard)
      ensures r.status == ACKED || nowUs >= old(nowUs) + timeoutMs(old(waits)) * 1000
      ensures delays >= old(delays) && nowUs == old(nowUs) + Slept(lateUs, old(delays), delays)
      ensures delays > old(delays) ==> Slept(lateUs, old(delays), delays - 1) < timeoutMs(old(waits)) * 1000
      ensures r.status == ACKED ==> LastAnswer(log.heard, control.heardFrom, control.job) == Some(r.ackMac)
      ensures timeoutMs(old(waits)) > 0 && LastAnswer(old(log.heard), old(control).heardFrom, old(control).job).Some? ==> r.status == ACKED
      ensures played >= old(played) && (old(played) == |script| ==> |gTxQueue| <= |old(gTxQueue)|)
    {
      hide Run, Possible, Step, Enabled, LastAnswer, Slept;
      SleptMore(lateUs, delays, delays);
      r := result;
      ghost var start, from, job := trace, control.heardFrom, control.job;
      var deadlineUs := nowUs + timeoutMs(waits) * 1000;
      waits := waits + 1;
      while nowUs < deadlineUs
        invariant Valid() && old(trace) <= trace && r.status == SENT
        invariant r.transmissionStarted == result.transmissionStarted
        invariant control == old(control).(result := r, phase := Guard)
        invariant played >= old(played) && (old(played) == |script| ==> |gTxQueue| <= |old(gTxQueue)|)
        invariant delays >= old(delays) && nowUs == old(nowUs) + Slept(lateUs, old(delays), delays)
        invariant delays > old(delays) ==> old(nowUs) + Slept(lateUs, old(delays), delays - 1) < deadlineUs
        invariant delays == old(delays) ==> log.heard == old(log.heard)
        invariant delays > old(delays) ==> LastAnswer(old(log.heard), from, job).None?
        decreases deadlineUs - nowUs
      {
        SleptMore(lateUs, old(delays), delays);
        r := WaitOnce(r);
        if r.status == ACKED { break; }
      }
    }

    /** The broadcast of an attempt. */
    method StartAttempt(job: Job, attempt: nat, result: Result, ghost heardFrom: nat) returns (started: bool, r: Result)
      requires Valid() && attempt <= job.retries && control == Sending(job, attempt, result, Broadcasting, heardFrom)
      modifies this`log, this`broadcasts, this`attempts, this`control, this`trace
      ensures Valid() && old(trace) <= trace && log.done == old(log.done)
      ensures started == radioOk(old(broadcasts)) && attempts == old(attempts) + 1
      ensures r == if started && !result.transmissionStarted then result.(transmissionStarted := true, status := SENT) else result
      ensures control == if started then Sending(job, attempt, r, Guard, heardFrom) else NextAttempt(old(control))
    {
      hide Run, Possible, TakeFront, QueueCommand, QueueAck, Mark, Nth, Clamp;
      r := result;
      ghost var before := View();
      started := BroadcastPacket();
      attempts := attempts + 1;
      if !started {
        control := NextAttempt(control);
      } else {
        if !r.transmissionStarted {
          r := r.(transmissionStarted := true, status := SENT);
        }
        log := log.(air := log.air + [Broadcast(|log.commandsOut|, job)]);
        control := Sending(job, attempt, r, Guard, heardFrom);
      }
      Took(before, Broadcasts(started));
    }

    /** One attempt: the broadcast and, if it started, the wait. */
    method Attempt(job: Job, attempt: nat, result: Result, ghost heardFrom: nat) returns (r: Result)
      requires Valid() && attempt <= job.retries && control == Sending(job, attempt, result, Broadcasting, heardFrom)
      requires result.status != ACKED && (result.transmissionStarted <==> result.status == SENT)
      modifies this
      ensures Valid() && old(trace) <= trace && (r.transmissionStarted <==> r.status != TRANSMIT_FAILED)
      ensures control == if r.status == ACKED then Sending(job, attempt, r, Finishing, heardFrom)
                         else NextAttempt(Sending(job, attempt, r, Guard, heardFrom))
      ensures attempts == old(attempts) + 1
      ensures radioOk(old(broadcasts)) ==> r.transmissionStarted
      ensures played >= old(played) && (old(played) == |script| ==> |gTxQueue| <= |old(gTxQueue)|)
    {
      hide Run, Possible, Step, Enabled;
      var started;
      started, r := StartAttempt(job, attempt, result, heardFrom);
      Preempt();
      if !started { return; }
      r := AwaitAck(r);
      if r.status == ACKED { return; }
      LeaveWait();
    }

    method LeaveWait()
      requires Valid() && InPhase(control, Guard)
      modifies this`control, this`trace
      ensures Valid() && old(trace) <= trace && control == NextAttempt(old(control))
    {
      hide Run, Possible, TakeFront, QueueCommand, QueueAck, Mark, Nth, Clamp;
      ghost var before := View();
      control := NextAttempt(control);
      Took(before, LeaveLoop);
    }

    method ReleasePending()
      requires Valid() && InPhase(control, Finishing)
      modifies this`gPending, this`control, this`trace
      ensures Valid() && old(trace) <= trace && control == old(control).(phase := Closing) && !gPending.active
    {
      hide Run, Possible, TakeFront, QueueCommand, QueueAck, Mark, Nth, Clamp;
      ghost var before := View();
      gPending := gPending.(active := false);
      control := control.(phase := Closing);
      Took(before, Release);
    }

    method HandBack(job: Job, result: Result, tried: nat, heardFrom: nat)
      requires Valid() && tried > 0 && control == Sending(job, tried - 1, result, Closing, heardFrom)
      modifies this`log, this`control, this`trace
      ensures Valid() && old(trace) <= trace && control == Idle
      ensures job.waiter != Nobody ==>
                Completed(log.done, old(log.done), job, result) && log.done[|old(log.done)|].attempts == tried
    {
      hide Run, Possible, TakeFront, QueueCommand, QueueAck, Mark, Nth, Clamp;
      ghost var before := View();
      CompleteJob(job, result, tried, heardFrom);
      control := Idle;
      Took(before, Complete);
    }

    /** The end of processCommandJob: gPending is released, then the result handed back. */
    method FinishCommand(job: Job, result: Result, tried: nat, heardFrom: nat)
      requires Valid() && tried > 0 && control == Sending(job, tried - 1, result, Finishing, heardFrom)
      modifies this`gTxQueue, this`gPending, this`log, this`played, this`control, this`trace
      ensures Valid() && old(trace) <= trace && control == Idle
      ensures job.waiter != Nobody ==>
                Completed(log.done, old(log.done), job, result) && log.done[|old(log.done)|].attempts == tried
      ensures played >= old(played) && (old(played) == |script| ==> gTxQueue == old(gTxQueue))
    {
      hide Run, Possible, Step, Enabled;
      ReleasePending();
      Preempt();
      HandBack(job, result, tried, heardFrom);
    }

    /** The retry loop: until acknowledged or out of retries. */
    method TryAttempts(job: Job, heardFrom: nat) returns (result: Result, tried: nat)
      requires Valid() && control == Sending(job, 0, EmptyResult(job), Broadcasting, heardFrom)
      modifies this
      ensures Valid() && old(trace) <= trace
      ensures tried > 0 && control == Sending(job, tried - 1, result, Finishing, heardFrom)
      ensures attempts == old(attempts) + tried && (result.status == ACKED || tried == job.retries + 1)
      ensures played >= old(played) && (old(played) == |script| ==> |gTxQueue| <= |old(gTxQueue)|)
    {
      hide Run, Possible, Step, Enabled;
      result := EmptyResult(job);
      var attempt := 0;
      while attempt <= job.retries
        invariant Valid() && old(trace) <= trace && 0 <= attempt <= job.retries + 1
        invariant result.status != ACKED && (result.transmissionStarted <==> result.status == SENT)
        invariant attempts == old(attempts) + attempt
        invariant played >= old(played) && (old(played) == |script| ==> |gTxQueue| <= |old(gTxQueue)|)
        invariant control == if attempt <= job.retries then Sending(job, attempt, result, Broadcasting, heardFrom)
                             else Sending(job, job.retries, result, Finishing, heardFrom)
      {
        result := Attempt(job, attempt, result, heardFrom);
        if result.status == ACKED { break; }
        attempt := attempt + 1;
      }
      tried := if attempt <= job.retries then attempt + 1 else attempt;
    }

    /** make_bt_packet and the taking of gPending. */
    method OpenCommand(job: Job) returns (encodes: bool)
      requires Valid() && control == Opening(job)
      modifies this`packets, this`gPending, this`log, this`control, this`trace
      ensures Valid() && old(trace) <= trace && encodes == encodeOk(old(packets))
      ensures control == if encodes then Sending(job, 0, EmptyResult(job), Broadcasting, |log.heard|) else Idle
      ensures !encodes && job.waiter != Nobody ==>
                && Completed(log.done, old(log.done), job, Result(TRANSMIT_FAILED, job.messageId, false, 0))
                && log.done[|old(log.done)|].attempts == 0
    {
      hide Run, Possible, TakeFront, QueueCommand, QueueAck, Mark, Nth, Clamp;
      encodes := MakePacket();
      ghost var before := View();
      if !encodes {
        CompleteJob(job, EmptyResult(job), 0, |log.heard|);
        control := Idle;
      } else {
        gPending := Pending(true, false, job.mac, job.messageId, 0);
        control := Sending(job, 0, EmptyResult(job), Broadcasting, |log.heard|);
      }
      Took(before, Open(encodes));
    }

    /** processCommandJob: a job that does not encode is handed back unsent; any other is
        attempted until it is acknowledged or its retries are used up. */
    method ProcessCommandJob(job: Job)
      requires Valid() && control == Opening(job)
      modifies this
      ensures Valid() && old(trace) <= trace && control == Idle
      ensures job.waiter != Nobody ==>
                log.done != [] &&
                var c := log.done[|log.done| - 1];
                && c.job == job && c.attempts == attempts - old(attempts)
                && (if encodeOk(old(packets)) then c.result.status == ACKED || c.attempts == job.retries + 1
                    else c.attempts == 0 && c.result == Result(TRANSMIT_FAILED, job.messageId, false, 0))
      ensures played >= old(played) && (old(played) == |script| ==> |gTxQueue| <= |old(gTxQueue)|)
    {
      hide Run, Possible, Step, Enabled;
      var encodes := OpenCommand(job);
      if !encodes { return; }
      var heardFrom := |log.heard|;
      Preempt();
      var result, tried := TryAttempts(job, heardFrom);
      FinishCommand(job, result, tried, heardFrom);
    }

    /** senderTask, for any number of rounds. Left alone, it works off one job a round. */
    method SenderTask(rounds: nat)
      requires Valid() && control == Idle
      modifies this
      ensures Valid() && old(trace) <= trace && control == Idle
      ensures old(played) == |script| ==> |gTxQueue| <= Less(|old(gTxQueue)|, rounds)
    {
      hide Run, Possible, TakeFront, QueueCommand, QueueAck, Mark, Nth, Clamp;
      for k := 0 to rounds
        invariant Valid() && old(trace) <= trace && control == Idle && played >= old(played)
        invariant old(played) == |script| ==> |gTxQueue| <= Less(|old(gTxQueue)|, k)
      {
        Preempt();
        if gTxQueue != [] {
          var job := ReceiveJob();
          Preempt();
          if job.kind == ACK { ProcessAckJob(job); } else { ProcessCommandJob(job); }
        }
      }
    }

    /** xQueueReceive in senderTask. */
    method ReceiveJob() returns (job: Job)
      requires Valid() && control == Idle && gTxQueue != []
      modifies this`gTxQueue, this`log, this`control, this`trace
      ensures Valid() && old(trace) <= trace
      ensures job == old(gTxQueue)[0] && gTxQueue == old(gTxQueue)[1..]
      ensures control == if job.kind == ACK then AckingIdle(job) else Opening(job)
    {
      hide Run, Possible;
      ghost var before := View();
      job := gTxQueue[0];
      gTxQueue := gTxQueue[1..];
      if job.kind == ACK {
        control := AckingIdle(job);
      } else {
        control := Opening(job);
        if job.waiter.CommandCall? { log := log.(commandsOut := log.commandsOut + [job.waiter.n]); }
      }
      Took(before, Receive);
    }
  }

  /** The length of the delays from the `from`-th on: ten milliseconds each, and what they
      end late. */
  function Slept(lateUs: nat -> nat, from: nat, to: nat): nat
    decreases to
  {
    if to <= from then 0 else Slept(lateUs, from, to - 1) + 10_000 + lateUs(to - 1)
  }

  lemma SleptMore(lateUs: nat -> nat, from: nat, to: nat)
    requires from <= to
    ensures Slept(lateUs, from, from) == 0 && Slept(lateUs, from, to + 1) == Slept(lateUs, from, to) + 10_000 + lateUs(to)
  {
  }

  lemma PendingRemembers(sender: Sender)
    requires sender.Valid() && InPhase(sender.control, Checking)
    ensures var answer := LastAnswer(sender.log.heard, sender.control.heardFrom, sender.control.job);
            sender.gPending.acked == answer.Some? && (answer.Some? ==> sender.gPending.ackMac == answer.value)
  {
    hide Run, Possible, LastAnswer;
    RememberedAlways(Start(sender.first), sender.trace);
  }

  function Less(a: nat, b: nat): nat {
    if a < b then 0 else a - b
  }

  /** What TxSoundness and TxResults prove of runs holds of the code at every point where
      others can observe it. */
  lemma CodeKeepsRuns(sender: Sender, i: nat)
    requires sender.Valid()
    ensures |sender.gTxQueue| <= TX_QUEUE_LEN && AcksFirst(sender.gTxQueue)
    ensures sender.gPending.active <==> sender.control.Sending? && !sender.control.phase.Closing?
    ensures sender.log.commandsOut <= sender.log.commandsIn
    ensures i < |sender.log.done| ==> Reported(sender.log.heard, sender.log.done[i])
  {
    hide Run, Reported, AcksFirst;
    QueueShape(sender.first, sender.trace);
    CommandsLeaveInOrder(sender.first, sender.trace);
    if i < |sender.log.done| { ResultsAreSound(sender.first, sender.trace, i); }
  }
}
