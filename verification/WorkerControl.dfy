/** How a worker receives and executes commands (worker/src/bluetooth_worker.cpp):
    validation, the command queue, acknowledging before the duplicate check, executing. */
module WorkerControl {
  import opened Bytes
  import opened MessageIds
  import opened Tlv
  import opened TxSpec
  import PM = PotMask
  import WC = WaterCommand

  const COMMAND_QUEUE_LEN := 4
  const MAX_SLEEP_SECONDS := 2_419_200

  const TYPE_CMD_PROBE: byte := 0x30
  const TYPE_CMD_SLEEP: byte := 0x31
  const TYPE_CMD_OTA_PREPARE: byte := 0x33
  const FIELD_SLEEP_SEC: byte := 0x04

  // Validation.

  predicate IsCommand(body: seq<byte>, potCount: nat) {
    && body != []
    && match body[0]
       case 0x30 => |body| == 1
       case 0x31 => var s := ReadU32(body[1..], FIELD_SLEEP_SEC); s.Some? && 0 < s.value <= MAX_SLEEP_SECONDS
       case 0x32 => WC.Parsed(body, potCount).Some?
       case 0x33 => |body| == 1
       case _ => false
  }

  method ValidateCommand(body: seq<byte>, potCount: nat) returns (ok: bool)
    ensures ok <==> IsCommand(body, potCount)
  {
    if |body| == 0 { return false; }
    if body[0] == TYPE_CMD_PROBE { return |body| == 1; }
    if body[0] == TYPE_CMD_SLEEP {
      var seconds := ReadRequiredU32(body[1..], FIELD_SLEEP_SEC);
      return seconds.Some? && seconds.value > 0 && seconds.value <= MAX_SLEEP_SECONDS;
    }
    if body[0] == WC.TYPE_CMD_WATER {
      var durations := new u16[potCount];
      var mask, count;
      ok, mask, count := WC.ParseWaterCommand(body, durations);
      return;
    }
    if body[0] == TYPE_CMD_OTA_PREPARE { return |body| == 1; }
    return false;
  }

  function SleepBody(seconds: u32): seq<byte> {
    [TYPE_CMD_SLEEP] + Encode([Field(FIELD_SLEEP_SEC, BeU32(seconds))])
  }

  /** Which of the bodies the gateway builds a worker takes. */
  lemma GatewayBodies(seconds: u32, mask: u16, ds: seq<u16>, potCount: nat)
    requires potCount <= 16 && WC.Sendable(mask, ds)
    ensures IsCommand([TYPE_CMD_PROBE], potCount) && IsCommand([TYPE_CMD_OTA_PREPARE], potCount)
    ensures IsCommand(SleepBody(seconds), potCount) <==> 0 < seconds <= MAX_SLEEP_SECONDS
    ensures IsCommand(WC.Body(mask, ds), potCount) <==> PM.HighBits(mask, potCount) == 0
  {
    hide PM.HighBits, WC.Parsed, Encode, WC.Fields, SleepBody;
    WC.ParseRecoversRequest(mask, ds, potCount);
    assert WC.Body(mask, ds)[0] == 0x32;
    SleepAccepted(seconds, potCount);
  }

  lemma SleepAccepted(seconds: u32, potCount: nat)
    ensures IsCommand(SleepBody(seconds), potCount) <==> 0 < seconds <= MAX_SLEEP_SECONDS
  {
    hide ReadU32, WC.Parsed, Encode, BeU32, FromBeU32;
    var f: WireField := Field(FIELD_SLEEP_SEC, BeU32(seconds));
    assert SleepBody(seconds)[1..] == Encode([f]) && [] + [f] + [] == [f];
    ReadersInvertWriters([], FIELD_SLEEP_SEC, BeU32(seconds), []);
    BeU32Inverse(seconds);
    assert ReadU32(Encode([f]), FIELD_SLEEP_SEC) == Some(seconds) by { ReadsWord(Encode([f]), FIELD_SLEEP_SEC, seconds); }
  }

  lemma ReadsWord(tlvs: seq<byte>, typ: byte, v: u32)
    requires ReadBytes(tlvs, typ) == Some(BeU32(v)) && FromBeU32(BeU32(v)) == v
    ensures ReadU32(tlvs, typ) == Some(v)
  {
  }

  // The worker's state.

  /** `index` says which broadcast a command came from; the program does not keep it. */
  datatype Command = Command(index: nat, sourceMac: Mac, messageId: MessageId, body: seq<byte>)

  datatype Hands = Waiting | Taken(command: Command) | Acknowledging(command: Command)

  /** gMainMac and gLastCommandId survive a deep sleep; the queue does not. `acks` and
      `executed` record what was acknowledged and executed, oldest first. */
  datatype Worker = Worker(mac: Mac, potCount: nat, mainMac: Option<Mac>, lastCommandId: MessageId, queue: seq<Command>,
                           hands: Hands, acks: seq<Command>, executed: seq<Command>)

  datatype WorkerEvent =
    | Packet(target: Mac, command: Command)
    | Take
    | StartAck
    | AckFails
    | FinishAck
    | DeepSleep
    | ResetPairing

  function FreshWorker(mac: Mac, potCount: nat): Worker {
    Worker(mac, potCount, None, NO_ID, [], Waiting, [], [])
  }

  predicate Able(w: Worker, e: WorkerEvent) {
    match e
    case Packet(_, _) => true
    case Take => w.hands.Waiting? && w.queue != []
    case StartAck => w.hands.Taken?
    case AckFails => w.hands.Taken?
    case FinishAck => w.hands.Acknowledging?
    case DeepSleep => true
    case ResetPairing => true
  }

  /** parseAdvert for a command packet. */
  function OnPacket(w: Worker, target: Mac, command: Command): Worker {
    if target != w.mac || !IsCommand(command.body, w.potCount) then w
    else if w.mainMac.Some? && command.sourceMac != w.mainMac.value then w
    else if |w.queue| >= COMMAND_QUEUE_LEN then w
    else w.(queue := w.queue + [command], mainMac := if w.mainMac.None? then Some(command.sourceMac) else w.mainMac)
  }

  /** isDuplicate and, for a new command, its execution. */
  function AfterAck(w: Worker, command: Command): Worker {
    if command.messageId == w.lastCommandId then w.(hands := Waiting)
    else w.(hands := Waiting, lastCommandId := command.messageId, executed := w.executed + [command])
  }

  function Act(w: Worker, e: WorkerEvent): Worker
    requires Able(w, e)
  {
    match e
    case Packet(target, command) => OnPacket(w, target, command)
    case Take => w.(hands := Taken(w.queue[0]), queue := w.queue[1..])
    case StartAck => w.(hands := Acknowledging(w.hands.command), acks := w.acks + [w.hands.command])
    case AckFails => w.(hands := Waiting)
    case FinishAck => AfterAck(w, w.hands.command)
    case DeepSleep => w.(hands := Waiting, queue := [])
    case ResetPairing => w.(mainMac := None, lastCommandId := NO_ID)
  }

  predicate AbleAll(w: Worker, es: seq<WorkerEvent>)
    decreases |es|
  {
    es == [] || (Able(w, es[0]) && AbleAll(Act(w, es[0]), es[1..]))
  }

  function ActAll(w: Worker, es: seq<WorkerEvent>): Worker
    requires AbleAll(w, es)
    decreases |es|
  {
    if es == [] then w else ActAll(Act(w, es[0]), es[1..])
  }

  /** One schedule played through: a command whose acknowledgement did not start is not
      remembered, and when it comes again it is executed. For every run, see
      LinkGuarantees.DroppedIffExecuted. */
  lemma RetryExecutes(w: Worker, c: Command, again: Command)
    requires w.hands.Waiting? && w.queue == [] && IsCommand(c.body, w.potCount)
    requires w.mainMac.None? || w.mainMac == Some(c.sourceMac)
    requires c.messageId != w.lastCommandId && again.(index := c.index) == c
    ensures var es := [Packet(w.mac, c), Take, AckFails, Packet(w.mac, again), Take, StartAck, FinishAck];
            AbleAll(w, es) && ActAll(w, es).executed == w.executed + [again]
  {
    hide IsCommand;
    var a := Act(Act(Act(w, Packet(w.mac, c)), Take), AckFails);
    var b := Act(Act(Act(Act(a, Packet(w.mac, again)), Take), StartAck), FinishAck);
    assert a.queue == [] && a.lastCommandId == w.lastCommandId && a.executed == w.executed;
    assert b.executed == w.executed + [again];
    Steps3(w, Packet(w.mac, c), Take, AckFails);
    Steps4(a, Packet(w.mac, again), Take, StartAck, FinishAck);
    var first, second := [Packet(w.mac, c), Take, AckFails], [Packet(w.mac, again), Take, StartAck, FinishAck];
    Joined(w, first, second);
    assert first + second == [Packet(w.mac, c), Take, AckFails, Packet(w.mac, again), Take, StartAck, FinishAck];
  }

  lemma Steps3(w: Worker, e0: WorkerEvent, e1: WorkerEvent, e2: WorkerEvent)
    requires Able(w, e0) && Able(Act(w, e0), e1) && Able(Act(Act(w, e0), e1), e2)
    ensures AbleAll(w, [e0, e1, e2]) && ActAll(w, [e0, e1, e2]) == Act(Act(Act(w, e0), e1), e2)
  {
    hide Act, Able;
    assert [e0, e1, e2][1..] == [e1, e2] && [e1, e2][1..] == [e2] && [e2][1..] == [];
    assert AbleAll(Act(Act(Act(w, e0), e1), e2), []);
    assert AbleAll(Act(Act(w, e0), e1), [e2]);
    assert AbleAll(Act(w, e0), [e1, e2]);
    assert ActAll(Act(Act(w, e0), e1), [e2]) == Act(Act(Act(w, e0), e1), e2);
    assert ActAll(Act(w, e0), [e1, e2]) == Act(Act(Act(w, e0), e1), e2);
  }

  lemma Steps4(w: Worker, e0: WorkerEvent, e1: WorkerEvent, e2: WorkerEvent, e3: WorkerEvent)
    requires Able(w, e0) && Able(Act(w, e0), e1) && Able(Act(Act(w, e0), e1), e2) && Able(Act(Act(Act(w, e0), e1), e2), e3)
    ensures AbleAll(w, [e0, e1, e2, e3]) && ActAll(w, [e0, e1, e2, e3]) == Act(Act(Act(Act(w, e0), e1), e2), e3)
  {
    hide Act, Able;
    Steps3(Act(w, e0), e1, e2, e3);
    assert [e0, e1, e2, e3][1..] == [e1, e2, e3];
  }

  lemma {:induction false} Joined(w: Worker, es: seq<WorkerEvent>, fs: seq<WorkerEvent>)
    requires AbleAll(w, es) && AbleAll(ActAll(w, es), fs)
    ensures AbleAll(w, es + fs) && ActAll(w, es + fs) == ActAll(ActAll(w, es), fs)
    decreases |es|
  {
    hide Act, Able;
    if es == [] {
      assert es + fs == fs;
    } else {
      Joined(Act(w, es[0]), es[1..], fs);
      assert (es + fs)[1..] == es[1..] + fs && (es + fs)[0] == es[0];
    }
  }

  /** Why a pairing reset starts the count anew: after one, a repeated packet of the last
      command is executed again. */
  lemma ResetForgets(w: Worker, c: Command)
    requires w.hands.Waiting? && w.queue == [] && IsCommand(c.body, w.potCount)
    requires w.mainMac.None? || w.mainMac == Some(c.sourceMac)
    requires c.messageId != w.lastCommandId && c.messageId != NO_ID
    ensures var once := [Packet(w.mac, c), Take, StartAck, FinishAck];
            AbleAll(w, once + [ResetPairing] + once) && ActAll(w, once + [ResetPairing] + once).executed == w.executed + [c, c]
  {
    hide IsCommand;
    var once := [Packet(w.mac, c), Take, StartAck, FinishAck];
    Steps4(w, Packet(w.mac, c), Take, StartAck, FinishAck);
    var a := ActAll(w, once);
    assert a.executed == w.executed + [c] && a.queue == [] && a.hands.Waiting?;
    assert [ResetPairing][1..] == [];
    Joined(w, once, [ResetPairing]);
    var b := ActAll(w, once + [ResetPairing]);
    assert b == Act(a, ResetPairing);
    Steps4(b, Packet(w.mac, c), Take, StartAck, FinishAck);
    Joined(w, once + [ResetPairing], once);
  }
}
