/** A gateway and one of its workers joined by the air: broadcasts arrive in order, any of
    them may be lost or arrive repeatedly, and what arrives was sent (packets are
    authenticated). The gateway may restart at any moment: it forgets its queue and draws
    a new session, while its earlier broadcasts and the worker's state live on. The results
    about all runs are in LinkGuarantees. */
module CommandLink {
  import opened Bytes
  import opened MessageIds
  import opened TxSpec
  import opened TxResults
  import opened GatewayBoots
  import opened WorkerControl

  /** `gateway` is the gateway's address; the last of `boots` is the present one; `cursor`
      is the broadcast that reached the worker last; `reset` is the number of commands
      executed before the worker last forgot its pairing. */
  datatype World = World(gateway: Mac, boots: seq<Boot>, worker: Worker, cursor: nat, reset: nat)
  {
    ghost predicate Traced() {
      boots != [] && AllTraced(boots)
    }

    function Now(): Boot
      requires boots != []
    {
      boots[|boots| - 1]
    }

    ghost function Log(): Log
      requires Traced()
    {
      Now().Log()
    }

    ghost function Air(): seq<Aired>
      requires Traced()
    {
      AirOf(boots)
    }
  }

  datatype LinkEvent =
    | Gateway(step: Event)            // the gateway's tasks, and acknowledgements from other workers
    | Restart(random: u64)           // the gateway starts anew
    | AckArrives(k: nat)             // the worker's k-th acknowledgement reaches the gateway
    | PacketArrives(k: nat)          // the gateway's k-th broadcast reaches the worker
    | WorkerDoes(act: WorkerEvent)    // the worker's task, deep sleep, and pairing resets; losing power is both

  /** The packet that the k-th broadcast brings. */
  ghost function PacketOf(w: World, k: nat): Command
    requires w.Traced() && k < |w.Air()|
  {
    var job := w.Air()[k].job;
    Command(k, w.gateway, job.messageId, job.payload)
  }

  ghost predicate CanHappen(w: World, e: LinkEvent) {
    w.Traced() &&
    match e
    case Gateway(g) => Enabled(w.Now().Radio(), g) && (g.Hear? ==> g.source != w.worker.mac)
    case Restart(_) => true
    case AckArrives(k) => k < |w.worker.acks|
    case PacketArrives(k) => w.cursor <= k < |w.Air()|
    case WorkerDoes(a) => !a.Packet? && Able(w.worker, a)
  }

  ghost function Happen(w: World, e: LinkEvent): (t: World)
    requires CanHappen(w, e)
    ensures t.Traced() && t.gateway == w.gateway
    ensures t.worker.mac == w.worker.mac && t.worker.potCount == w.worker.potCount
  {
    match e
    case Gateway(g) => w.(boots := Stepped(w.boots, g))
    case Restart(random) => w.(boots := w.boots + [Boot(random, [])])
    case AckArrives(k) => w.(boots := Stepped(w.boots, Hear(w.worker.mac, w.worker.acks[k].messageId)))
    case PacketArrives(k) =>
      w.(cursor := k, worker := OnPacket(w.worker, w.Air()[k].job.mac, PacketOf(w, k)))
    case WorkerDoes(a) =>
      w.(worker := Act(w.worker, a), reset := if a.ResetPairing? then |w.worker.executed| else w.reset)
  }

  ghost predicate CanRun(w: World, es: seq<LinkEvent>)
    decreases |es|
  {
    es == [] || (CanHappen(w, es[0]) && CanRun(Happen(w, es[0]), es[1..]))
  }

  ghost function After(w: World, es: seq<LinkEvent>): (t: World)
    requires w.Traced() && CanRun(w, es)
    ensures t.Traced()
    ensures t.worker.mac == w.worker.mac && t.worker.potCount == w.worker.potCount
    decreases |es|
  {
    if es == [] then w else After(Happen(w, es[0]), es[1..])
  }

  ghost function Meet(gateway: Mac, random: u64, worker: Mac, potCount: nat): (w: World)
    ensures w.Traced()
  {
    World(gateway, [Boot(random, [])], FreshWorker(worker, potCount), 0, 0)
  }

  /** Some run from the first meeting on leads to `w`. */
  ghost predicate Reachable(w: World) {
    exists gateway, random, worker, potCount, es ::
      CanRun(Meet(gateway, random, worker, potCount), es) && w == After(Meet(gateway, random, worker, potCount), es)
  }

  // What every run keeps.

  /** The command is what some broadcast carried to this worker, and is valid. */
  ghost predicate Genuine(air: seq<Aired>, worker: Worker, c: Command) {
    && c.index < |air|
    && c.messageId == air[c.index].job.messageId && c.body == air[c.index].job.payload
    && air[c.index].job.mac == worker.mac && IsCommand(c.body, worker.potCount)
  }

  ghost predicate GenuineAll(air: seq<Aired>, worker: Worker, cs: seq<Command>) {
    forall i :: 0 <= i < |cs| ==> Genuine(air, worker, cs[i])
  }

  ghost predicate Sorted(cs: seq<Command>) {
    forall i, j :: 0 <= i <= j < |cs| ==> cs[i].index <= cs[j].index
  }

  /** Everything the worker holds, oldest first: what it executed, then what it is dealing
      with, then its queue. */
  function Held(worker: Worker): seq<Command> {
    worker.executed + (if worker.hands.Waiting? then [] else [worker.hands.command]) + worker.queue
  }

  ghost predicate WorkerOk(air: seq<Aired>, worker: Worker, cursor: nat, reset: nat) {
    && GenuineAll(air, worker, Held(worker)) && GenuineAll(air, worker, worker.acks)
    && Sorted(Held(worker)) && (forall c <- Held(worker) :: c.index <= cursor)
    && reset <= |worker.executed|
    && worker.lastCommandId == (if |worker.executed| == reset then NO_ID else worker.executed[|worker.executed| - 1].messageId)
    && (worker.hands.Acknowledging? ==> worker.hands.command in worker.acks)
    && (forall c <- worker.executed :: c in worker.acks)
  }

  /** From the `from`-th on: in sending order, and never the same command twice. */
  ghost predicate InSendingOrder(air: seq<Aired>, cs: seq<Command>, from: nat) {
    forall i, j :: from <= i < j < |cs| && cs[i].index < |air| && cs[j].index < |air| ==>
      Earlier(air[cs[i].index], air[cs[j].index])
  }

  /** Whatever the gateway heard from this worker, the worker began to send. */
  ghost predicate HeardIsSent(heard: seq<(Mac, MessageId)>, worker: Worker) {
    forall k :: 0 <= k < |heard| && heard[k].0 == worker.mac ==> exists c <- worker.acks :: c.messageId == heard[k].1
  }

  ghost predicate LinkInv(w: World) {
    && w.Traced()
    && WorkerOk(w.Air(), w.worker, w.cursor, w.reset)
    && (Apart(w.boots) ==> InSendingOrder(w.Air(), w.worker.executed, w.reset))
    && HeardIsSent(w.Log().heard, w.worker)
  }

  // The gateway's side of a step.

  lemma WorkerOkOnLongerAir(air: seq<Aired>, air': seq<Aired>, worker: Worker, cursor: nat, reset: nat)
    requires WorkerOk(air, worker, cursor, reset) && air <= air'
    ensures WorkerOk(air', worker, cursor, reset)
  {
  }

  lemma OrderOnLongerAir(air: seq<Aired>, air': seq<Aired>, worker: Worker, cs: seq<Command>, from: nat)
    requires InSendingOrder(air, cs, from) && air <= air' && GenuineAll(air, worker, cs)
    ensures InSendingOrder(air', cs, from)
  {
  }

  lemma ExecutedGenuine(air: seq<Aired>, worker: Worker, cursor: nat, reset: nat)
    requires WorkerOk(air, worker, cursor, reset)
    ensures GenuineAll(air, worker, worker.executed) && Sorted(worker.executed)
  {
    forall i | 0 <= i < |worker.executed| ensures Held(worker)[i] == worker.executed[i] {
    }
  }

  /** A step of the gateway, and what it may have heard. */
  lemma GatewaySteps(w: World, e: Event)
    requires LinkInv(w) && Enabled(w.Now().Radio(), e)
    requires e.Hear? && e.source == w.worker.mac ==> exists c <- w.worker.acks :: c.messageId == e.id
    ensures LinkInv(w.(boots := Stepped(w.boots, e)))
  {
    hide Run, Possible, Step, Enabled, WorkerOk, InSendingOrder, GenuineAll, Sorted, Apart, AirOf;
    LogGrows(w.Now().Radio(), e);
    AirGrows(w.boots, e);
    var t := w.(boots := Stepped(w.boots, e));
    WorkerOkOnLongerAir(w.Air(), t.Air(), w.worker, w.cursor, w.reset);
    if Apart(w.boots) {
      ExecutedGenuine(w.Air(), w.worker, w.cursor, w.reset);
      OrderOnLongerAir(w.Air(), t.Air(), w.worker, w.worker.executed, w.reset);
    }
  }

  /** A restart loses what the gateway knew, and nothing else. */
  lemma RestartStep(w: World, random: u64)
    requires LinkInv(w)
    ensures LinkInv(w.(boots := w.boots + [Boot(random, [])]))
  {
    hide Possible, WorkerOk, InSendingOrder, Apart, AirOf;
    RestartKeepsAir(w.boots, random);
  }

  // The worker's side of a step.

  lemma PacketStep(air: seq<Aired>, worker: Worker, cursor: nat, reset: nat, gateway: Mac, k: nat)
    requires WorkerOk(air, worker, cursor, reset) && cursor <= k < |air|
    ensures var job := air[k].job;
            var t := OnPacket(worker, job.mac, Command(k, gateway, job.messageId, job.payload));
            WorkerOk(air, t, k, reset) && t.executed == worker.executed && t.acks == worker.acks && t.mac == worker.mac
  {
    hide IsCommand;
    var job := air[k].job;
    var c := Command(k, gateway, job.messageId, job.payload);
    var t := OnPacket(worker, job.mac, c);
    if t != worker {
      assert Genuine(air, t, c);
      assert Held(t) == Held(worker) + [c];
      forall i | 0 <= i < |Held(t)| ensures Genuine(air, t, Held(t)[i]) {
        assert i < |Held(worker)| ==> Genuine(air, worker, Held(worker)[i]);
      }
      forall i | 0 <= i < |t.acks| ensures Genuine(air, t, t.acks[i]) {
        assert Genuine(air, worker, worker.acks[i]);
      }
    }
  }

  /** Letting go of `gap` commands at `at`, or none, or all from a point on, keeps what is
      kept. */
  lemma HeldShrinks(air: seq<Aired>, worker: Worker, t: Worker, cursor: nat, reset: nat, at: nat, gap: nat)
    requires WorkerOk(air, worker, cursor, reset)
    requires |Held(t)| + gap <= |Held(worker)| || |Held(t)| <= at
    requires forall i :: 0 <= i < |Held(t)| ==>
               Shifted(i, at, gap) < |Held(worker)| && Held(t)[i] == Held(worker)[Shifted(i, at, gap)]
    requires t.mac == worker.mac && t.potCount == worker.potCount && t.acks == worker.acks
    requires t.executed == worker.executed && t.lastCommandId == worker.lastCommandId && !t.hands.Acknowledging?
    ensures WorkerOk(air, t, cursor, reset)
  {
    hide IsCommand, Held;
    forall i | 0 <= i < |Held(t)| ensures Genuine(air, t, Held(t)[i]) && Held(t)[i].index <= cursor {
      assert Genuine(air, worker, Held(worker)[Shifted(i, at, gap)]);
    }
    forall i, j | 0 <= i <= j < |Held(t)| ensures Held(t)[i].index <= Held(t)[j].index {
      assert Shifted(i, at, gap) <= Shifted(j, at, gap);
    }
    forall i | 0 <= i < |t.acks| ensures Genuine(air, t, t.acks[i]) {
      assert Genuine(air, worker, worker.acks[i]);
    }
  }

  function Shifted(i: nat, at: nat, gap: nat): nat {
    if i < at then i else i + gap
  }

  /** The worker acknowledges, or executes, the command in its hands. */
  lemma HeldMovesOn(air: seq<Aired>, worker: Worker, t: Worker, cursor: nat, reset: nat)
    requires WorkerOk(air, worker, cursor, reset) && !worker.hands.Waiting?
    requires t.mac == worker.mac && t.potCount == worker.potCount && Held(t) == Held(worker)
    requires || (t.acks == worker.acks + [worker.hands.command] && t.executed == worker.executed
                 && t.lastCommandId == worker.lastCommandId && t.hands == Acknowledging(worker.hands.command))
             || (worker.hands.Acknowledging? && t.acks == worker.acks && t.hands.Waiting?
                 && t.executed == worker.executed + [worker.hands.command]
                 && t.lastCommandId == worker.hands.command.messageId)
    ensures WorkerOk(air, t, cursor, reset)
  {
    hide IsCommand;
    assert Held(worker)[|worker.executed|] == worker.hands.command;
    hide Held;
    forall i | 0 <= i < |Held(t)| ensures Genuine(air, t, Held(t)[i]) {
      assert Genuine(air, worker, Held(worker)[i]);
    }
    forall i | 0 <= i < |t.acks| ensures Genuine(air, t, t.acks[i]) {
      assert i < |worker.acks| ==> Genuine(air, worker, worker.acks[i]);
    }
  }

  lemma ActKeepsWorkerOk(air: seq<Aired>, worker: Worker, cursor: nat, reset: nat, e: WorkerEvent)
    requires WorkerOk(air, worker, cursor, reset) && Able(worker, e) && !e.Packet? && !e.ResetPairing?
    ensures WorkerOk(air, Act(worker, e), cursor, reset)
  {
    hide IsCommand, WorkerOk;
    var t := Act(worker, e);
    match e
    case Take =>
      assert Held(t) == Held(worker);
      HeldShrinks(air, worker, t, cursor, reset, |Held(t)|, 0);
    case StartAck =>
      assert Held(t) == Held(worker);
      HeldMovesOn(air, worker, t, cursor, reset);
    case AckFails => HeldShrinks(air, worker, t, cursor, reset, |worker.executed|, 1);
    case FinishAck =>
      if worker.hands.command.messageId == worker.lastCommandId {
        HeldShrinks(air, worker, t, cursor, reset, |worker.executed|, 1);
      } else {
        assert Held(t) == Held(worker);
        HeldMovesOn(air, worker, t, cursor, reset);
      }
    case DeepSleep => HeldShrinks(air, worker, t, cursor, reset, |worker.executed|, 0);
  }

  /** The duplicate check lets through only commands sent later than all executed so far. */
  lemma NewCommandIsLater(w: World, c: Command)
    requires w.Traced() && WorkerOk(w.Air(), w.worker, w.cursor, w.reset) && Apart(w.boots)
    requires InSendingOrder(w.Air(), w.worker.executed, w.reset)
    requires !w.worker.hands.Waiting? && w.worker.hands.command == c && c.messageId != w.worker.lastCommandId
    ensures InSendingOrder(w.Air(), w.worker.executed + [c], w.reset)
  {
    hide Run, Possible, IsCommand, Apart, AirOf;
    var air, executed := w.Air(), w.worker.executed;
    var n := |executed|;
    assert Held(w.worker)[n] == c && Genuine(air, w.worker, c);
    forall i | w.reset <= i < n ensures executed[i].index < |air| && Earlier(air[executed[i].index], air[c.index]) {
      var last := executed[n - 1];
      assert Held(w.worker)[i] == executed[i] && Held(w.worker)[n - 1] == last;
      assert Genuine(air, w.worker, executed[i]) && Genuine(air, w.worker, last);
      AllAirOrder(w.boots, executed[i].index, last.index);
      AllAirOrder(w.boots, last.index, c.index);
    }
  }

  lemma ResetStep(w: World)
    requires LinkInv(w)
    ensures LinkInv(Happen(w, WorkerDoes(ResetPairing)))
  {
    hide Run, Possible, IsCommand, Apart, AirOf;
    assert Held(Act(w.worker, ResetPairing)) == Held(w.worker);
    assert forall c :: Genuine(w.Air(), w.worker, c) ==> Genuine(w.Air(), Act(w.worker, ResetPairing), c);
  }

  lemma WorkerSteps(w: World, e: WorkerEvent)
    requires LinkInv(w) && Able(w.worker, e) && !e.Packet?
    ensures LinkInv(Happen(w, WorkerDoes(e)))
  {
    hide Run, Possible, WorkerOk, InSendingOrder, IsCommand, Apart, AirOf;
    if e.ResetPairing? { ResetStep(w); return; }
    ActKeepsWorkerOk(w.Air(), w.worker, w.cursor, w.reset, e);
    if e.FinishAck? && w.worker.hands.command.messageId != w.worker.lastCommandId && Apart(w.boots) {
      NewCommandIsLater(w, w.worker.hands.command);
    }
  }

  lemma LinkStep(w: World, e: LinkEvent)
    requires LinkInv(w) && CanHappen(w, e)
    ensures LinkInv(Happen(w, e))
  {
    hide Run, Possible, WorkerOk, InSendingOrder, Enabled, Able, Act, OnPacket, Apart, AirOf;
    match e
    case Gateway(g) => GatewaySteps(w, g);
    case Restart(random) => RestartStep(w, random);
    case AckArrives(k) => GatewaySteps(w, Hear(w.worker.mac, w.worker.acks[k].messageId)) by { HearIsEnabled(w, k); }
    case PacketArrives(k) => PacketStep(w.Air(), w.worker, w.cursor, w.reset, w.gateway, k);
    case WorkerDoes(a) => WorkerSteps(w, a);
  }

  lemma HearIsEnabled(w: World, k: nat)
    requires w.Traced() && k < |w.worker.acks|
    ensures Enabled(w.Now().Radio(), Hear(w.worker.mac, w.worker.acks[k].messageId))
  {
  }

  lemma {:induction false} LinkAlways(w: World, es: seq<LinkEvent>)
    requires LinkInv(w) && CanRun(w, es)
    ensures LinkInv(After(w, es))
    decreases |es|
  {
    hide LinkInv, CanHappen, Happen;
    if es != [] {
      LinkStep(w, es[0]);
      LinkAlways(Happen(w, es[0]), es[1..]);
    }
  }

  lemma StartLinkInv(gateway: Mac, random: u64, mac: Mac, potCount: nat)
    ensures LinkInv(Meet(gateway, random, mac, potCount))
  {
  }

  lemma ReachableInv(w: World)
    requires Reachable(w)
    ensures LinkInv(w)
  {
    hide LinkInv, CanRun, After, Meet;
    var gateway, random, mac, potCount, es :|
      CanRun(Meet(gateway, random, mac, potCount), es) && w == After(Meet(gateway, random, mac, potCount), es);
    StartLinkInv(gateway, random, mac, potCount);
    LinkAlways(Meet(gateway, random, mac, potCount), es);
  }
}
