/** The gateway over several starts: at each it forgets its queue and draws a session, while
    what it broadcast before is still on the air. */
module GatewayBoots {
  import opened Bytes
  import opened MessageIds
  import opened TxSpec
  import opened TxResults

  /** One start of the gateway: the session drawn, and the steps its sender has taken. */
  datatype Boot = Boot(random: u64, trace: seq<Event>)
  {
    function First(): MessageId {
      MessageId(StartSession(random), 1)
    }

    ghost predicate Traced() {
      Possible(Start(First()), trace)
    }

    ghost function Radio(): Radio
      requires Traced()
    {
      Run(Start(First()), trace)
    }

    ghost function Log(): Log
      requires Traced()
    {
      Run(Start(First()), trace).log
    }
  }

  /** A broadcast with the boot it belongs to. */
  datatype Aired = Aired(boot: nat, position: nat, job: Job)

  ghost predicate AllTraced(boots: seq<Boot>) {
    forall b :: 0 <= b < |boots| ==> boots[b].Traced()
  }

  function Marked(boot: nat, air: seq<Broadcast>): (r: seq<Aired>)
    ensures |r| == |air|
  {
    seq(|air|, i requires 0 <= i < |air| => Aired(boot, air[i].position, air[i].job))
  }

  /** All broadcasts so far, oldest first. */
  ghost function AirOf(boots: seq<Boot>): seq<Aired>
    requires AllTraced(boots)
  {
    if boots == [] then []
    else AirOf(boots[..|boots| - 1]) + Marked(|boots| - 1, boots[|boots| - 1].Log().air)
  }

  /** The present boot takes one more step. */
  ghost function Stepped(boots: seq<Boot>, e: Event): (r: seq<Boot>)
    requires boots != [] && AllTraced(boots) && Enabled(boots[|boots| - 1].Radio(), e)
    ensures |r| == |boots| && AllTraced(r)
    ensures r[..|r| - 1] == boots[..|boots| - 1]
    ensures r[|r| - 1].Radio() == Step(boots[|boots| - 1].Radio(), e) && r[|r| - 1].random == boots[|boots| - 1].random
  {
    var now := boots[|boots| - 1];
    RunAppend(Start(now.First()), now.trace, e);
    boots[..|boots| - 1] + [now.(trace := now.trace + [e])]
  }

  // Identifiers of different boots.

  /** The two boots numbered no two commands alike. */
  ghost predicate DrawnApart(a: Boot, b: Boot)
    requires a.Traced() && b.Traced()
  {
    NoneShared(a.First(), a.Log().numbered, b.First(), b.Log().numbered)
  }

  /** Every boot drew a session of its own, and none has run through its identifiers. */
  ghost predicate Apart(boots: seq<Boot>)
    requires AllTraced(boots)
  {
    && (forall b :: 0 <= b < |boots| ==> boots[b].Log().numbered <= PERIOD)
    && (forall b, c :: 0 <= b < c < |boots| ==> DrawnApart(boots[b], boots[c]))
  }

  /** What sessions drawn by chance must meet: unless one of them numbers no command, two
      boots stay apart exactly when each one's commands end before it walks into the
      session of the other. New sessions below 2^32 - 1 commands a boot always do. */
  lemma DrawnApartIff(a: Boot, b: Boot)
    requires a.Traced() && b.Traced() && 0 < a.Log().numbered <= PERIOD && 0 < b.Log().numbered <= PERIOD
    ensures var s, t := StartSession(a.random), StartSession(b.random);
            DrawnApart(a, b) <==> s != t && a.Log().numbered <= Ahead(s, t) && b.Log().numbered <= Ahead(t, s)
  {
    hide Nth, Run, Possible;
    var s, t := StartSession(a.random), StartSession(b.random);
    AheadIsDistance(s, t);
    var x, y := a.First(), b.First();
    NoneSharedIff(x, a.Log().numbered, y, b.Log().numbered);
    assert x == MessageId(s, 1) && y == MessageId(t, 1);
  }

  /** In the order of sending: boot by boot, and by position within one. */
  predicate Earlier(a: Aired, b: Aired) {
    a.boot < b.boot || (a.boot == b.boot && a.position < b.position)
  }

  predicate SamePlace(a: Aired, b: Aired) {
    a.boot == b.boot && a.position == b.position
  }

  /** Where a broadcast of the past stands: a boot, the broadcast's index within that boot,
      and the number its command was given there. */
  lemma {:induction false} Placed(boots: seq<Boot>, i: nat) returns (k: nat, n: nat)
    requires AllTraced(boots) && i < |AirOf(boots)|
    ensures var a := AirOf(boots)[i];
            && a.boot < |boots| && k < |boots[a.boot].Log().air|
            && a == Aired(a.boot, boots[a.boot].Log().air[k].position, boots[a.boot].Log().air[k].job)
            && n < boots[a.boot].Log().numbered && a.job.messageId == Nth(boots[a.boot].First(), n)
            && (a.boot == |boots| - 1 ==> |AirOf(boots[..|boots| - 1])| <= i && k == i - |AirOf(boots[..|boots| - 1])|)
  {
    hide Run, Possible, Nth;
    var last := |boots| - 1;
    var front := AirOf(boots[..last]);
    if i < |front| {
      k, n := Placed(boots[..last], i);
    } else {
      k := i - |front|;
      n := NumberAt(boots[last].First(), boots[last].trace, k);
      RunKeepsFirst(Start(boots[last].First()), boots[last].trace);
    }
  }

  /** Across all boots: broadcasts follow each other in sending order, and two carry the
      same identifier exactly when they are attempts of one command. */
  lemma {:induction false} AllAirOrder(boots: seq<Boot>, i: nat, j: nat)
    requires AllTraced(boots) && Apart(boots) && i <= j < |AirOf(boots)|
    ensures var air := AirOf(boots);
            && (Earlier(air[i], air[j]) || SamePlace(air[i], air[j]))
            && (air[i].job.messageId == air[j].job.messageId <==> SamePlace(air[i], air[j]))
            && air[i].job.messageId != NO_ID
  {
    hide Run, Possible, Nth, Apart;
    var a, b := AirOf(boots)[i], AirOf(boots)[j];
    var last := |boots| - 1;
    var front := AirOf(boots[..last]);
    if j < |front| {
      ApartFront(boots);
      AllAirOrder(boots[..last], i, j);
    } else if i >= |front| {
      ApartNow(boots);
      AirOrder(boots[last].First(), boots[last].trace, i - |front|, j - |front|);
    } else {
      var _, m := Placed(boots[..last], i);
      var _, n := Placed(boots, j);
      NthProper(boots[a.boot].First(), m);
      ApartAt(boots, a.boot, m, n);
    }
  }

  lemma {:induction false} ApartFront(boots: seq<Boot>)
    requires boots != [] && AllTraced(boots) && Apart(boots)
    ensures Apart(boots[..|boots| - 1])
  {
    hide Run, Possible, Nth;
  }

  lemma {:induction false} ApartNow(boots: seq<Boot>)
    requires boots != [] && AllTraced(boots) && Apart(boots)
    ensures boots[|boots| - 1].Log().numbered <= PERIOD
  {
    hide Run, Possible, Nth;
  }

  lemma {:induction false} ApartAt(boots: seq<Boot>, b: nat, m: nat, n: nat)
    requires AllTraced(boots) && Apart(boots) && b < |boots| - 1
    requires m < boots[b].Log().numbered && n < boots[|boots| - 1].Log().numbered
    ensures Nth(boots[b].First(), m) != Nth(boots[|boots| - 1].First(), n)
  {
    hide Run, Possible, Nth;
    assert DrawnApart(boots[b], boots[|boots| - 1]);
  }

  lemma SenderLogGrows(r: Radio, e: Event)
    requires Enabled(r, e)
    ensures var t := SenderStep(r, e).log;
            r.log.air <= t.air && t.heard == r.log.heard && r.log.numbered == t.numbered
  {
  }

  lemma LogGrows(r: Radio, e: Event)
    requires Enabled(r, e)
    ensures var t := Step(r, e).log;
            && r.log.air <= t.air && r.log.numbered <= t.numbered
            && t.heard == if e.Hear? then r.log.heard + [(e.source, e.id)] else r.log.heard
  {
    hide SenderStep, Nth;
    match e
    case Hear(_, _) =>
    case Allocate =>
    case EnqueueCommand(_, _, _, _) =>
    case EnqueueAck(_, _, _) =>
    case _ => SenderLogGrows(r, e);
  }

  /** What a step of the present boot does to the air and to the numbering. */
  lemma {:induction false} AirGrows(boots: seq<Boot>, e: Event)
    requires boots != [] && AllTraced(boots) && Enabled(boots[|boots| - 1].Radio(), e)
    ensures AirOf(boots) <= AirOf(Stepped(boots, e))
    ensures Apart(Stepped(boots, e)) ==> Apart(boots)
  {
    hide Run, Possible, Nth, Step, Enabled, Apart;
    LogGrows(boots[|boots| - 1].Radio(), e);
    ApartBefore(boots, Stepped(boots, e));
  }

  /** Fewer numbers drawn in the last boot. */
  lemma {:induction false} ApartBefore(boots: seq<Boot>, next: seq<Boot>)
    requires boots != [] && |next| == |boots| && AllTraced(boots) && AllTraced(next)
    requires var last := |boots| - 1;
             && next[..last] == boots[..last] && next[last].random == boots[last].random
             && boots[last].Log().numbered <= next[last].Log().numbered
    ensures Apart(next) ==> Apart(boots)
  {
    hide Run, Possible, Nth;
    if Apart(next) {
      forall b | 0 <= b < |boots| ensures boots[b].Log().numbered <= next[b].Log().numbered && boots[b].First() == next[b].First() {
        assert b < |boots| - 1 ==> boots[..|boots| - 1][b] == next[..|boots| - 1][b];
      }
      forall b, c | 0 <= b < c < |boots| ensures DrawnApart(boots[b], boots[c]) {
        assert DrawnApart(next[b], next[c]);
      }
    }
  }

  lemma {:induction false} RestartKeepsAir(boots: seq<Boot>, random: u64)
    requires AllTraced(boots)
    ensures AllTraced(boots + [Boot(random, [])]) && AirOf(boots + [Boot(random, [])]) == AirOf(boots)
    ensures Apart(boots + [Boot(random, [])]) ==> Apart(boots)
  {
    hide Nth;
    assert (boots + [Boot(random, [])])[..|boots|] == boots;
    if Apart(boots + [Boot(random, [])]) { ApartFront(boots + [Boot(random, [])]); }
  }
}
