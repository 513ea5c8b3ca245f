/** What holds of a gateway and its worker in every run, whatever is lost, repeated or slept
    through, and however often the gateway restarts; a pairing reset starts the count anew. */
module LinkGuarantees {
  import opened Bytes
  import opened MessageIds
  import opened TxSpec
  import opened TxResults
  import opened GatewayBoots
  import opened WorkerControl
  import opened CommandLink

  /** What the worker executed it had begun to acknowledge, and it is exactly what the
      gateway broadcast to it. */
  lemma ExecutedAsSent(w: World, c: Command)
    requires Reachable(w) && c in w.worker.executed
    ensures c in w.worker.acks && w.Traced() && Genuine(w.Air(), w.worker, c)
  {
    hide Run, Possible, IsCommand, Reachable, Apart, AirOf;
    ReachableInv(w);
    ExecutedGenuine(w.Air(), w.worker, w.cursor, w.reset);
  }

  /** Between two pairing resets the worker executes commands in sending order and each
      identifier at most once: a command executed twice had a reset in between. */
  lemma AtMostOnce(w: World, i: nat, j: nat)
    requires Reachable(w) && w.Traced() && Apart(w.boots) && w.reset <= i < j < |w.worker.executed|
    ensures var (air, c, d) := (w.Air(), w.worker.executed[i], w.worker.executed[j]);
            && c.messageId != d.messageId
            && c.index < |air| && d.index < |air| && Earlier(air[c.index], air[d.index])
  {
    hide Run, Possible, IsCommand, Reachable, Apart, AirOf;
    ReachableInv(w);
    var c, d := w.worker.executed[i], w.worker.executed[j];
    ExecutedGenuine(w.Air(), w.worker, w.cursor, w.reset);
    assert Genuine(w.Air(), w.worker, c) && Genuine(w.Air(), w.worker, d);
    AllAirOrder(w.boots, c.index, d.index);
  }

  ghost predicate AlreadyExecuted(w: World, id: MessageId)
    requires w.reset <= |w.worker.executed|
  {
    exists d <- w.worker.executed[w.reset..] :: d.messageId == id
  }

  /** An acknowledged command is dropped as a duplicate exactly when it was executed
      since the last pairing reset. So one whose acknowledgement did not start, or that
      was lost with the queue, is executed when a retry of it gets this far. */
  lemma DroppedIffExecuted(w: World)
    requires Reachable(w) && w.Traced() && Apart(w.boots) && w.worker.hands.Acknowledging?
    ensures w.reset <= |w.worker.executed|
    ensures var (worker, c) := (w.worker, w.worker.hands.command);
            && (c.messageId == worker.lastCommandId <==> AlreadyExecuted(w, c.messageId))
            && Act(worker, FinishAck).executed
               == if AlreadyExecuted(w, c.messageId) then worker.executed else worker.executed + [c]
  {
    hide Run, Possible, IsCommand, Reachable, Apart, AirOf;
    ReachableInv(w);
    var air, worker := w.Air(), w.worker;
    var c := worker.hands.command;
    var n := |worker.executed|;
    assert Held(worker)[n] == c && Genuine(air, worker, c);
    AllAirOrder(w.boots, c.index, c.index);
    ExecutedGenuine(air, worker, w.cursor, w.reset);
    if c.messageId == worker.lastCommandId {
      assert worker.executed[w.reset..][n - 1 - w.reset].messageId == c.messageId;
    } else {
      NewCommandIsLater(w, c);
      forall i | w.reset <= i < n ensures worker.executed[i].messageId != c.messageId {
        var d := worker.executed[i];
        assert Genuine(air, worker, d) && Held(worker)[i] == d;
        assert (worker.executed + [c])[i] == d && (worker.executed + [c])[n] == c;
        AllAirOrder(w.boots, d.index, c.index);
      }
    }
  }

  /** When a command to this worker alone is reported ACKED, the worker had validated,
      dequeued and begun to acknowledge that very command. */
  lemma AckedMeansAcknowledged(w: World, i: nat)
    requires Reachable(w) && w.Traced() && Apart(w.boots) && i < |w.Log().done| && w.worker.mac != BROADCAST_MAC
    requires var c := w.Log().done[i]; c.job.kind == COMMAND && c.job.mac == w.worker.mac && c.result.status == ACKED
    ensures var job := w.Log().done[i].job;
            exists a <- w.worker.acks ::
              a.messageId == job.messageId && a.body == job.payload && IsCommand(a.body, w.worker.potCount)
  {
    hide Run, Possible, IsCommand, Reachable, HeardBy, Apart, AirOf;
    ReachableInv(w);
    var c := w.Log().done[i];
    ResultsAreSound(w.Now().First(), w.Now().trace, i);
    var k := HeardIndex(w.Log().heard, c.heardFrom, c.heardTo, c.job, c.result.ackMac);
    var a :| a in w.worker.acks && a.messageId == w.Log().heard[k].1;
    AckedJob(w, i, a);
  }

  lemma HeardIndex(heard: seq<(Mac, MessageId)>, from: nat, to: nat, job: Job, source: Mac) returns (k: nat)
    requires HeardBy(heard, from, to, job, source)
    ensures k < |heard| && Answers(job, source, heard[k])
  {
    k :| from <= k < to <= |heard| && Answers(job, source, heard[k]);
  }

  /** An acknowledged command with the identifier of a reported one is that command. */
  lemma AckedJob(w: World, i: nat, a: Command)
    requires LinkInv(w) && Apart(w.boots) && i < |w.Log().done| && a in w.worker.acks
    requires var c := w.Log().done[i]; c.job.kind == COMMAND && c.result.status == ACKED && c.job.messageId == a.messageId
    ensures a.body == w.Log().done[i].job.payload && IsCommand(a.body, w.worker.potCount)
  {
    hide Run, Possible, IsCommand, HeardBy, Held, Sorted, Apart;
    var now, last := w.Now(), |w.boots| - 1;
    var front, air, c := AirOf(w.boots[..last]), w.Log().air, w.Log().done[i];
    assert Genuine(w.Air(), w.worker, a);
    ResultsAreSound(now.First(), now.trace, i);
    StartedIffOnAir(now.First(), now.trace, i);
    var n := c.job.waiter.n;
    var j :| 0 <= j < |air| && air[j].job.waiter == CommandCall(n);
    assert w.Air()[|front| + j] == Aired(last, air[j].position, air[j].job);
    if |front| + j <= a.index { AllAirOrder(w.boots, |front| + j, a.index); } else { AllAirOrder(w.boots, a.index, |front| + j); }
    var k, _ := Placed(w.boots, a.index);
    SamePositionSameCommand(now.First(), now.trace, j, k);
  }
}
