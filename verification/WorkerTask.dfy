/** The worker's radio callback and control task in the form of
    worker/src/bluetooth_worker.cpp: globals and the command queue updated in place, valves
    driven by the commands that pass the duplicate check. Each round of the control loop takes
    steps of WorkerControl, and the valves move for executed commands only. */
module WorkerTask {
  import opened Bytes
  import opened MessageIds
  import opened TxSpec
  import opened WorkerControl
  import opened Valve
  import opened PotMask
  import Tlv
  import WC = WaterCommand

  /** What executing a command does to the valves. */
  function CommandSteps(body: seq<byte>, potCount: nat): seq<Step> {
    if body == [] then []
    else if body[0] == WC.TYPE_CMD_WATER then
      match WC.Parsed(body, potCount)
      case None => []
      case Some(water) =>
        WC.ParsedShape(body, potCount);
        WC.Steps(WC.Plan(water.0, water.1, potCount))
    else if body[0] == TYPE_CMD_SLEEP then [Set(0)]
    else []
  }

  /** What a list of executed commands does to the valves. */
  function AllSteps(cs: seq<Command>, potCount: nat): seq<Step> {
    if cs == [] then [] else AllSteps(cs[..|cs| - 1], potCount) + CommandSteps(cs[|cs| - 1].body, potCount)
  }

  lemma AllStepsSnoc(cs: seq<Command>, c: Command, potCount: nat)
    ensures AllSteps(cs + [c], potCount) == AllSteps(cs, potCount) + CommandSteps(c.body, potCount)
  {
  }

  function Packets(arrivals: seq<(Mac, Command)>): seq<WorkerEvent> {
    seq(|arrivals|, k requires 0 <= k < |arrivals| => Packet(arrivals[k].0, arrivals[k].1))
  }

  /** A round after its command was taken: the acknowledgement fails, or starts and, with
      packets coming in while it is on the air and while the command is dealt with, leads
      to the duplicate check and possibly to sleep. */
  function RoundEnd(started: bool, acking: seq<(Mac, Command)>, executing: seq<(Mac, Command)>, slept: bool): seq<WorkerEvent> {
    if !started then [AckFails]
    else [StartAck] + Packets(acking) + [FinishAck] + Packets(executing) + (if slept then [DeepSleep] else [])
  }

  /** A command that puts the worker to sleep, unless it is a duplicate or could not be
      acknowledged. */
  predicate Sleeps(command: Command, lastCommandId: MessageId, started: bool) {
    started && command.messageId != lastCommandId && command.body != [] && command.body[0] == TYPE_CMD_SLEEP
  }

  class CommandWorker {
    const gThisMac: Mac
    const valves: Valves
    var gMainMac: Option<Mac>
    var gLastCommandId: MessageId
    var gCommandQueue: seq<Command>
    var hands: Hands
    var acks: seq<Command>
    var executed: seq<Command>

    ghost function View(): Worker
      reads this, valves
    {
      Worker(gThisMac, valves.potCount, gMainMac, gLastCommandId, gCommandQueue, hands, acks, executed)
    }

    /** All that the valves ever did is the executed commands, in order. */
    ghost predicate Valid()
      reads this, valves
    {
      && valves.steps == AllSteps(executed, valves.potCount)
      && (forall i :: 0 <= i < |gCommandQueue| ==> IsCommand(gCommandQueue[i].body, valves.potCount))
      && (hands.Waiting? || IsCommand(hands.command.body, valves.potCount))
    }

    constructor (mac: Mac, potCount: nat)
      ensures Valid() && fresh(valves) && View() == FreshWorker(mac, potCount)
    {
      gThisMac := mac;
      valves := new Valves(potCount);
      gMainMac, gLastCommandId, gCommandQueue := None, NO_ID, [];
      hands, acks, executed := Waiting, [], [];
    }

    /** parseAdvert, for a decoded command packet. */
    method ParseAdvert(target: Mac, command: Command)
      requires Valid()
      modifies this`gMainMac, this`gCommandQueue
      ensures Valid() && View() == OnPacket(old(View()), target, command)
      ensures var taken := && target == gThisMac && IsCommand(command.body, valves.potCount) && |old(gCommandQueue)| < 4
                           && (old(gMainMac).None? || old(gMainMac) == Some(command.sourceMac));
              && gCommandQueue == (if taken then old(gCommandQueue) + [command] else old(gCommandQueue))
              && gMainMac == (if taken then Some(command.sourceMac) else old(gMainMac))
    {
      hide IsCommand, AllSteps;
      if target != gThisMac { return; }
      var paired := gMainMac.Some?;
      var valid := ValidateCommand(command.body, valves.potCount);
      if !valid { return; }
      if paired && command.sourceMac != gMainMac.value { return; }
      if |gCommandQueue| >= COMMAND_QUEUE_LEN { return; }
      gCommandQueue := gCommandQueue + [command];
      if !paired { gMainMac := Some(command.sourceMac); }
    }

    /** isDuplicate: remembers the identifier when it is new. */
    method IsDuplicate(id: MessageId) returns (duplicate: bool)
      modifies this`gLastCommandId
      ensures duplicate <==> id == old(gLastCommandId)
      ensures gLastCommandId == id
    {
      duplicate := gLastCommandId == id;
      if !duplicate { gLastCommandId := id; }
    }

    /** The type switch of workerControlTask. */
    method ExecuteCommand(command: Command, clock: nat -> int) returns (asleep: bool)
      requires IsCommand(command.body, valves.potCount)
      modifies valves
      ensures valves.steps == old(valves.steps) + CommandSteps(command.body, valves.potCount)
      ensures asleep <==> command.body[0] == TYPE_CMD_SLEEP
    {
      hide WC.Parsed, WC.Steps, WC.Plan;
      asleep := false;
      if command.body[0] == WC.TYPE_CMD_WATER {
        var ran, done := WC.Execute(command.body, valves, clock);
      } else if command.body[0] == TYPE_CMD_SLEEP {
        var seconds := Tlv.ReadRequiredU32(command.body[1..], FIELD_SLEEP_SEC);
        if seconds.None? { return; }
        WC.ZeroLow(valves.potCount);
        valves.SetMask(0, clock(0));
        asleep := true;
      }
    }

    /** What became of the command of a round: unless its acknowledgement got on the air
        nothing; otherwise it was acknowledged, and executed if its identifier is not the
        last one, which it then is; and after a sleep that was executed nothing is queued. */
    ghost predicate Dealt(command: Command, started: bool, acksBefore: seq<Command>, executedBefore: seq<Command>,
                          lastBefore: MessageId)
      reads this
    {
      if !started then acks == acksBefore && executed == executedBefore && gLastCommandId == lastBefore
      else
        && acks == acksBefore + [command] && gLastCommandId == command.messageId
        && executed == (if command.messageId == lastBefore then executedBefore else executedBefore + [command])
        && (executed != executedBefore && command.body != [] && command.body[0] == 0x31 ==> gCommandQueue == [])
    }

    /** mainMacReset: the gateway and the last command are forgotten. */
    method MainMacReset()
      requires Valid()
      modifies this`gMainMac, this`gLastCommandId
      ensures Valid() && View() == Act(old(View()), ResetPairing)
      ensures gMainMac == None && gLastCommandId == NO_ID
    {
      hide IsCommand, AllSteps;
      gMainMac, gLastCommandId := None, NO_ID;
    }

    /** The radio callback, as often as packets come in. It touches nothing that the control
        task works on at the time. */
    method Receive(arrivals: seq<(Mac, Command)>)
      requires Valid()
      modifies this`gMainMac, this`gCommandQueue
      ensures Valid()
      ensures AbleAll(old(View()), Packets(arrivals)) && View() == ActAll(old(View()), Packets(arrivals))
    {
      hide IsCommand, OnPacket, AllSteps, ActAll, AbleAll;
      ghost var start := View();
      Nothing(start);
      var k := 0;
      while k < |arrivals|
        invariant 0 <= k <= |arrivals| && Valid()
        invariant AbleAll(start, Packets(arrivals[..k])) && View() == ActAll(start, Packets(arrivals[..k]))
        invariant hands == old(hands) && gLastCommandId == old(gLastCommandId) && executed == old(executed)
      {
        Snoc(start, Packets(arrivals[..k]), Packet(arrivals[k].0, arrivals[k].1));
        ParseAdvert(arrivals[k].0, arrivals[k].1);
        assert Packets(arrivals[..k + 1]) == Packets(arrivals[..k]) + [Packet(arrivals[k].0, arrivals[k].1)];
        k := k + 1;
      }
      assert arrivals[..k] == arrivals;
    }

    /** One round of workerControlTask. `started` says whether the acknowledgement got on
        the air; the lists hold the packets that come in before that, until it is sent, and
        while the command is executed. */
    method ControlRound(started: bool, before: seq<(Mac, Command)>, acking: seq<(Mac, Command)>,
                        executing: seq<(Mac, Command)>, clock: nat -> int) returns (events: seq<WorkerEvent>)
      requires Valid() && hands.Waiting? && gCommandQueue != []
      modifies this, valves
      ensures Valid() && hands.Waiting?
      ensures AbleAll(old(View()), events) && View() == ActAll(old(View()), events)
      ensures events == [Take] + Packets(before)
                        + RoundEnd(started, acking, executing, Sleeps(old(gCommandQueue[0]), old(gLastCommandId), started))
      ensures Dealt(old(gCommandQueue[0]), started, old(acks), old(executed), old(gLastCommandId))
    {
      hide IsCommand, OnPacket, AllSteps, ActAll, AbleAll;
      ghost var start := View();
      Single(start, Take);
      var command := gCommandQueue[0];
      gCommandQueue := gCommandQueue[1..];
      hands := Taken(command);
      Joined(start, [Take], Packets(before)) by { PacketsAble(View(), before); }
      Receive(before);
      events := [Take] + Packets(before);
      var last := FinishRound(command, started, acking, executing, clock);
      Joined(start, events, last);
      events := events + last;
    }

    /** The round from the acknowledgement on. */
    method FinishRound(command: Command, started: bool, acking: seq<(Mac, Command)>, executing: seq<(Mac, Command)>,
                       clock: nat -> int) returns (events: seq<WorkerEvent>)
      requires Valid() && hands == Taken(command)
      modifies this, valves
      ensures Valid() && hands.Waiting?
      ensures AbleAll(old(View()), events) && View() == ActAll(old(View()), events)
      ensures events == RoundEnd(started, acking, executing, Sleeps(command, old(gLastCommandId), started))
      ensures Dealt(command, started, old(acks), old(executed), old(gLastCommandId))
    {
      hide IsCommand, OnPacket, CommandSteps, AllSteps, AfterAck, ActAll, AbleAll;
      ghost var start := View();
      Single(start, AckFails);
      Single(start, StartAck);
      if !started {
        hands := Waiting;
        return [AckFails];
      }
      acks := acks + [command];
      hands := Acknowledging(command);
      events := [StartAck];
      Extended(start, events, acking);
      Receive(acking);
      events := events + Packets(acking);
      Snoc(start, events, FinishAck);
      var asleep := AfterAcknowledging(command, clock);
      events := events + [FinishAck];
      Extended(start, events, executing);
      Receive(executing);
      events := events + Packets(executing);
      if asleep {
        Snoc(start, events, DeepSleep);
        gCommandQueue := [];
        events := events + [DeepSleep];
      }
    }

    /** The duplicate check, and the execution of a new command. */
    method AfterAcknowledging(command: Command, clock: nat -> int) returns (asleep: bool)
      requires Valid() && hands == Acknowledging(command)
      modifies this`gLastCommandId, this`hands, this`executed, valves
      ensures Valid() && hands.Waiting? && View() == AfterAck(old(View()), command)
      ensures asleep == Sleeps(command, old(gLastCommandId), true)
      ensures gLastCommandId == command.messageId
      ensures executed == if command.messageId == old(gLastCommandId) then old(executed) else old(executed) + [command]
    {
      hide IsCommand, CommandSteps, AllSteps;
      asleep := false;
      AllStepsSnoc(executed, command, valves.potCount);
      CommandIsNotEmpty(command.body, valves.potCount);
      var duplicate := IsDuplicate(command.messageId);
      hands := Waiting;
      if duplicate { return; }
      executed := executed + [command];
      asleep := ExecuteCommand(command, clock);
    }
  }

  lemma CommandIsNotEmpty(body: seq<byte>, potCount: nat)
    requires IsCommand(body, potCount)
    ensures body != []
  {
  }

  lemma Single(w: Worker, e: WorkerEvent)
    requires Able(w, e)
    ensures AbleAll(w, [e]) && ActAll(w, [e]) == Act(w, e)
  {
  }

  lemma Snoc(w: Worker, es: seq<WorkerEvent>, e: WorkerEvent)
    requires AbleAll(w, es)
    ensures Able(ActAll(w, es), e) ==> AbleAll(w, es + [e]) && ActAll(w, es + [e]) == Act(ActAll(w, es), e)
  {
    hide Act, Able;
    if Able(ActAll(w, es), e) {
      Single(ActAll(w, es), e);
      Joined(w, es, [e]);
    }
  }

  lemma Nothing(w: Worker)
    ensures AbleAll(w, Packets([])) && ActAll(w, Packets([])) == w
  {
  }

  lemma {:induction false} PacketsAble(w: Worker, arrivals: seq<(Mac, Command)>)
    ensures AbleAll(w, Packets(arrivals))
    ensures ActAll(w, Packets(arrivals)).hands == w.hands && ActAll(w, Packets(arrivals)).lastCommandId == w.lastCommandId
    ensures ActAll(w, Packets(arrivals)).acks == w.acks && ActAll(w, Packets(arrivals)).executed == w.executed
    decreases |arrivals|
  {
    hide IsCommand;
    if arrivals != [] {
      var first := Packet(arrivals[0].0, arrivals[0].1);
      PacketsAble(Act(w, first), arrivals[1..]);
      assert Packets(arrivals)[1..] == Packets(arrivals[1..]) && Packets(arrivals)[0] == first;
    }
  }

  lemma Extended(w: Worker, es: seq<WorkerEvent>, arrivals: seq<(Mac, Command)>)
    requires AbleAll(w, es)
    ensures AbleAll(w, es + Packets(arrivals))
    ensures AbleAll(ActAll(w, es), Packets(arrivals))
    ensures ActAll(w, es + Packets(arrivals)) == ActAll(ActAll(w, es), Packets(arrivals))
  {
    PacketsAble(ActAll(w, es), arrivals);
    Joined(w, es, Packets(arrivals));
  }

  // What executed commands leave behind.

  lemma {:induction false} StepsClose(ps: seq<WC.Pour>, state: nat)
    requires ps != []
    ensures After(state, WC.Steps(ps)) == 0
  {
    var init, last := WC.Steps(ps[..|ps| - 1]), WC.PourSteps(ps[|ps| - 1]);
    var steps := init + last;
    assert steps[..|steps| - 1] == init + last[..3] && (init + last[..3])[|init| + 2] == last[2];
  }

  /** A watering and a sleep leave all valves shut, whatever was open before; a probe and an
      update command do not touch them; and only a watering opens any. */
  lemma CommandLeavesShut(body: seq<byte>, potCount: nat, state: nat)
    requires IsCommand(body, potCount)
    ensures var steps := CommandSteps(body, potCount);
            && (body[0] == 0x32 || body[0] == 0x31 ==> After(state, steps) == 0)
            && (body[0] == 0x30 || body[0] == 0x33 ==> steps == [])
            && (body[0] != 0x32 ==> Opened(steps) == [])
            && After(0, steps) == 0
  {
    hide WC.Parsed, WC.Steps, WC.Plan;
    if body[0] == 0x32 {
      WC.ParsedShape(body, potCount);
      var (mask, ds) := WC.Parsed(body, potCount).value;
      PlanIsNotEmpty(mask, ds, potCount);
      StepsClose(WC.Plan(mask, ds, potCount), state);
    }
  }

  lemma PlanIsNotEmpty(mask: nat, ds: seq<u16>, n: nat)
    requires |Pots(mask, n)| <= |ds| && |Pots(mask, n)| > 0
    ensures WC.Plan(mask, ds, n) != []
  {
  }

  /** So the valves are shut after any commands whatever. */
  lemma {:induction false} CommandsLeaveShut(cs: seq<Command>, potCount: nat)
    requires forall i :: 0 <= i < |cs| ==> IsCommand(cs[i].body, potCount)
    ensures After(0, AllSteps(cs, potCount)) == 0
  {
    hide IsCommand, CommandSteps;
    if cs != [] {
      CommandsLeaveShut(cs[..|cs| - 1], potCount);
      var init, last := AllSteps(cs[..|cs| - 1], potCount), cs[|cs| - 1];
      CommandLeavesShut(last.body, potCount, 0);
      AfterJoin(0, init, CommandSteps(last.body, potCount));
    }
  }

  lemma {:induction false} AfterJoin(state: nat, a: seq<Step>, b: seq<Step>)
    ensures After(state, a + b) == After(After(state, a), b)
    decreases |b|
  {
    if b == [] {
      assert a + b == a;
    } else {
      assert (a + b)[..|a + b| - 1] == a + b[..|b| - 1];
      AfterJoin(state, a, b[..|b| - 1]);
    }
  }
}
