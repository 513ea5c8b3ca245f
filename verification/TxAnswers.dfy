/** Which acknowledgements count: what gPending holds is told by what was heard alone, and a
    command whose acknowledgement was heard ends acknowledged. */
module TxAnswers {
  import opened Bytes
  import opened MessageIds
  import opened TxSpec
  import opened TxSoundness

  /** An acknowledgement of this command: its identifier, and from its target, or from
      anyone when it went to all. */
  predicate Counts(job: Job, h: (Mac, MessageId)) {
    h.1 == job.messageId && (job.mac == BROADCAST_MAC || h.0 == job.mac)
  }

  /** Who sent the last acknowledgement that counts, of those heard since `from`. */
  function LastAnswer(heard: seq<(Mac, MessageId)>, from: nat, job: Job): Option<Mac> {
    if |heard| <= from then None
    else if Counts(job, heard[|heard| - 1]) then Some(heard[|heard| - 1].0)
    else LastAnswer(heard[..|heard| - 1], from, job)
  }

  lemma {:induction false} LastAnswerIff(heard: seq<(Mac, MessageId)>, from: nat, job: Job)
    ensures LastAnswer(heard, from, job).Some? <==> exists k :: from <= k < |heard| && Counts(job, heard[k])
    ensures LastAnswer(heard, from, job).Some? ==>
              exists k :: from <= k < |heard| && Counts(job, heard[k]) && heard[k].0 == LastAnswer(heard, from, job).value
                          && forall j :: k < j < |heard| ==> !Counts(job, heard[j])
  {
    if |heard| > from {
      var init := heard[..|heard| - 1];
      LastAnswerIff(init, from, job);
      assert forall k :: 0 <= k < |init| ==> init[k] == heard[k];
      if Counts(job, heard[|heard| - 1]) {
        var k := |heard| - 1;
        assert Counts(job, heard[k]);
      } else if LastAnswer(init, from, job).Some? {
        var k :| from <= k < |init| && Counts(job, init[k]) && init[k].0 == LastAnswer(init, from, job).value
                 && forall j :: k < j < |init| ==> !Counts(job, init[j]);
        assert forall j :: k < j < |heard| ==> !Counts(job, heard[j]);
      }
    }
  }

  lemma AnswerMore(heard: seq<(Mac, MessageId)>, h: (Mac, MessageId), from: nat, job: Job)
    requires from <= |heard|
    ensures LastAnswer(heard + [h], from, job) == if Counts(job, h) then Some(h.0) else LastAnswer(heard, from, job)
  {
    assert (heard + [h])[..|heard|] == heard;
  }

  /** gPending remembers exactly the last acknowledgement that counts. */
  ghost predicate Remembered(r: Radio) {
    r.control.Sending? && r.pending.active ==>
      var answer := LastAnswer(r.log.heard, r.control.heardFrom, r.control.job);
      && r.control.heardFrom <= |r.log.heard|
      && r.pending.acked == answer.Some? && (answer.Some? ==> r.pending.ackMac == answer.value)
  }

  lemma RememberedStep(r: Radio, e: Event)
    requires Shape(r) && Remembered(r) && Enabled(r, e)
    ensures Remembered(Step(r, e))
  {
    hide Nth, QueueOk, ControlOk, Clamp, AddWaiter;
    match e
    case Hear(source, id) =>
      if r.control.Sending? && r.pending.active { AnswerMore(r.log.heard, (source, id), r.control.heardFrom, r.control.job); }
    case _ =>
  }

  lemma {:induction false} RememberedAlways(r: Radio, es: seq<Event>)
    requires Shape(r) && Remembered(r) && Possible(r, es)
    ensures Shape(Run(r, es)) && Remembered(Run(r, es))
    decreases |es|
  {
    hide Step, Shape, Remembered, Enabled;
    if es != [] {
      ShapeStep(r, es[0]);
      RememberedStep(r, es[0]);
      RememberedAlways(Step(r, es[0]), es[1..]);
    }
  }

  /** In every run: while a command is being sent, gPending is marked acknowledged exactly
      when an acknowledgement of its identifier, from its target or for a broadcast from
      anyone, was heard since the command was taken. */
  lemma AckedIffHeard(first: MessageId, es: seq<Event>)
    requires Possible(Start(first), es)
    requires Run(Start(first), es).control.Sending? && Run(Start(first), es).pending.active
    ensures var r := Run(Start(first), es);
            var job := r.control.job;
            r.pending.acked <==> exists k :: r.control.heardFrom <= k < |r.log.heard| && r.log.heard[k].1 == job.messageId
                                             && (job.mac == BROADCAST_MAC || r.log.heard[k].0 == job.mac)
  {
    hide Run;
    RememberedAlways(Start(first), es);
    var r := Run(Start(first), es);
    LastAnswerIff(r.log.heard, r.control.heardFrom, r.control.job);
    assert forall k :: 0 <= k < |r.log.heard| && Counts(r.control.job, r.log.heard[k]) ==>
             r.log.heard[k].1 == r.control.job.messageId && (r.control.job.mac == BROADCAST_MAC || r.log.heard[k].0 == r.control.job.mac);
    if k :| r.control.heardFrom <= k < |r.log.heard| && r.log.heard[k].1 == r.control.job.messageId
            && (r.control.job.mac == BROADCAST_MAC || r.log.heard[k].0 == r.control.job.mac) {
      assert Counts(r.control.job, r.log.heard[k]);
    }
  }

  /** The sender's look at gPending settles the command at once when an acknowledgement that
      counts was heard before it, and goes on waiting otherwise. */
  lemma CheckSettles(first: MessageId, es: seq<Event>)
    requires Possible(Start(first), es) && InPhase(Run(Start(first), es).control, Checking)
    ensures var r := Run(Start(first), es);
            var (c, t) := (r.control, Step(r, Check));
            var answer := LastAnswer(r.log.heard, c.heardFrom, c.job);
            && t.log == r.log
            && t.control == if answer.Some?
                            then c.(result := c.result.(status := ACKED, ackMac := answer.value), phase := Finishing)
                            else c.(phase := Guard)
  {
    hide Run, LastAnswer;
    RememberedAlways(Start(first), es);
  }

  /** On its way out of the retry loop with an acknowledgement. */
  predicate Settled(c: Control) {
    c.Sending? && c.result.status == ACKED && (c.phase.Finishing? || c.phase.Closing?)
  }

  /** From there on, whatever others do, nothing more is broadcast until the command is
      handed back, and it is handed back as acknowledged in this attempt. */
  lemma {:induction false} SettledEnds(r: Radio, es: seq<Event>)
    requires Shape(r) && Settled(r.control) && Possible(r, es)
    ensures var (t, c, n) := (Run(r, es), r.control, |r.log.done|);
            || (Settled(t.control) && t.control.(phase := c.phase) == c && t.log.air == r.log.air && t.log.done == r.log.done)
            || (|t.log.done| > n && t.log.done[n].job == c.job && t.log.done[n].result == c.result
                && t.log.done[n].attempts == c.attempt + 1)
    decreases |es|
  {
    hide Shape, Step, Enabled;
    if es != [] {
      ShapeStep(r, es[0]);
      var t := Step(r, es[0]);
      SettledStep(r, es[0]);
      if Settled(t.control) && t.log.done == r.log.done { SettledEnds(t, es[1..]); } else { DoneGrows(t, es[1..]); }
    }
  }

  lemma SettledStep(r: Radio, e: Event)
    requires Shape(r) && Settled(r.control) && Enabled(r, e)
    ensures var (t, c, n) := (Step(r, e), r.control, |r.log.done|);
            || (Settled(t.control) && t.control.(phase := c.phase) == c && t.log.air == r.log.air && t.log.done == r.log.done)
            || (|t.log.done| > n && t.log.done[n].job == c.job && t.log.done[n].result == c.result
                && t.log.done[n].attempts == c.attempt + 1)
  {
    hide Nth, QueueOk, Owned, Clamp;
  }

  lemma {:induction false} DoneGrows(r: Radio, es: seq<Event>)
    requires Possible(r, es)
    ensures r.log.done <= Run(r, es).log.done
    decreases |es|
  {
    hide Step, Enabled;
    if es != [] {
      DoneStep(r, es[0]);
      DoneGrows(Step(r, es[0]), es[1..]);
    }
  }

  lemma DoneStep(r: Radio, e: Event)
    requires Enabled(r, e)
    ensures r.log.done <= Step(r, e).log.done
  {
    hide Nth;
  }

  /** So a command whose acknowledgement was heard before the sender looked ends ACKED, by
      whoever acknowledged it last, without another attempt. */
  lemma HeardMeansAcked(first: MessageId, es: seq<Event>, k: nat, later: seq<Event>)
    requires Possible(Start(first), es) && InPhase(Run(Start(first), es).control, Checking)
    requires var r := Run(Start(first), es);
             && r.control.heardFrom <= k < |r.log.heard| && r.log.heard[k].1 == r.control.job.messageId
             && (r.control.job.mac == BROADCAST_MAC || r.log.heard[k].0 == r.control.job.mac)
    requires Possible(Step(Run(Start(first), es), Check), later)
    ensures LastAnswer(Run(Start(first), es).log.heard, Run(Start(first), es).control.heardFrom, Run(Start(first), es).control.job).Some?
    ensures var r := Run(Start(first), es);
            var (t, c, n) := (Run(Step(r, Check), later), r.control, |r.log.done|);
            var acked := c.result.(status := ACKED, ackMac := LastAnswer(r.log.heard, c.heardFrom, c.job).value);
            || (t.control.Sending? && t.control.job == c.job && t.control.result == acked
                && t.log.air == r.log.air && t.log.done == r.log.done)
            || (|t.log.done| > n && t.log.done[n].job == c.job && t.log.done[n].result == acked
                && t.log.done[n].attempts == c.attempt + 1)
  {
    hide Run, LastAnswer, Step;
    var r := Run(Start(first), es);
    CheckSettles(first, es);
    LastAnswerIff(r.log.heard, r.control.heardFrom, r.control.job);
    assert Counts(r.control.job, r.log.heard[k]);
    RememberedAlways(Start(first), es);
    ShapeStep(r, Check);
    SettledEnds(Step(r, Check), later);
  }

  // Hearing more.

  lemma {:induction false} RunHeard(r: Radio, es: seq<Event>)
    requires Possible(r, es)
    ensures r.log.heard <= Run(r, es).log.heard
    decreases |es|
  {
    hide SenderStep, Enabled;
    if es != [] {
      HeardStep(r, es[0]);
      RunHeard(Step(r, es[0]), es[1..]);
    }
  }

  lemma HeardStep(r: Radio, e: Event)
    requires Enabled(r, e)
    ensures r.log.heard <= Step(r, e).log.heard
  {
    hide Nth;
  }

  lemma {:induction false} TraceHeard(r: Radio, a: seq<Event>, t: seq<Event>)
    requires a <= t && Possible(r, t)
    ensures Possible(r, a) && Run(r, a).log.heard <= Run(r, t).log.heard
    decreases |a|
  {
    hide Step, Enabled;
    if a == [] {
      RunHeard(r, t);
    } else {
      TraceHeard(Step(r, t[0]), a[1..], t[1..]);
    }
  }

  lemma AnswerStays(a: seq<(Mac, MessageId)>, b: seq<(Mac, MessageId)>, from: nat, job: Job)
    requires a <= b && LastAnswer(a, from, job).Some?
    ensures LastAnswer(b, from, job).Some?
  {
    hide LastAnswer;
    LastAnswerIff(a, from, job);
    LastAnswerIff(b, from, job);
    var k :| from <= k < |a| && Counts(job, a[k]);
    assert Counts(job, b[k]);
  }
}
