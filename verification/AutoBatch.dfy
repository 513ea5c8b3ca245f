/** One automatic batch in the form of main/src/main.cpp (waterFreshWorkers) and
    main/src/watering_manager.cpp (wateringExecuteWorker and the completion wait): the
    requests, the pump, the commands, and the recording of completions. Tank readings, what
    the radio manages to start and which reports come in are given. */
module AutoBatch {
  import opened Bytes
  import opened PotMask
  import opened SettingsSpec
  import opened SettingsTable
  import opened BatchSpec
  import S = SettingsStore
  import V = Valve
  import WC = WaterCommand

  const WATER_COMPLETION_MARGIN_SECONDS := 5

  datatype Action = PumpOn | PumpOff | Command(mac: seq<byte>, body: seq<byte>)

  /** One command: which transmission it was, which tank reading came right before it, and
      between which polls its report was awaited. */
  datatype Window = Window(send: nat, read: nat, from: nat, to: nat)

  function CommandOf(r: Request): Action
    requires |r.durations| <= MAX_POTS
  {
    Command(r.mac, WC.Body(r.potMask, r.durations))
  }

  predicate Short(requests: seq<Request>) {
    forall k :: 0 <= k < |requests| ==> |requests[k].durations| <= MAX_POTS
  }

  predicate Sendable(requests: seq<Request>) {
    forall k :: 0 <= k < |requests| ==> WC.Sendable(requests[k].potMask, requests[k].durations)
  }

  predicate Within(ns: seq<nat>, n: nat) {
    forall k :: 0 <= k < |ns| ==> ns[k] < n
  }

  /** The commands of the requests with these numbers. */
  function Commands(requests: seq<Request>, sent: seq<nat>): seq<Action>
    requires Short(requests) && Within(sent, |requests|)
  {
    seq(|sent|, k requires 0 <= k < |sent| => CommandOf(requests[sent[k]]))
  }

  ghost predicate Increasing(ns: seq<nat>) {
    forall i, j :: 0 <= i < j < |ns| ==> ns[i] < ns[j]
  }

  /** A request for each of the first `n` workers that is fresh and has a due pot, in table
      order. */
  ghost predicate Requested(ws: seq<Worker>, nodes: map<seq<byte>, Node>, cycleStartUs: int, now: u32, correct: Correction,
                            n: nat, slots: seq<nat>, requests: seq<Request>)
    requires TableOk(ws) && n <= |ws| && forall m <- nodes :: |nodes[m].soils| == MAX_POTS
  {
    && |slots| == |requests| <= n && Increasing(slots)
    && (forall k :: 0 <= k < |slots| ==>
          && slots[k] < n && Sized(ws[slots[k]]) && Fresh(nodes, ws[slots[k]], cycleStartUs)
          && IsRequest(requests[k], ws[slots[k]], nodes[ws[slots[k]].mac], now, correct))
    && (forall i :: 0 <= i < n && Fresh(nodes, ws[i], cycleStartUs) && i !in slots ==>
          forall p :: 0 <= p < PotLimit(ws[i], nodes[ws[i].mac]) ==> !Due(ws[i], nodes[ws[i].mac], now, correct, p))
  }

  /** Requests of a well-formed table pass the checks of wateringExecuteWorker. */
  lemma RequestIsSendable(r: Request, w: Worker, node: Node, now: u32, correct: Correction)
    requires WorkerOk(w) && |node.soils| == MAX_POTS && IsRequest(r, w, node, now, correct)
    ensures WC.Sendable(r.potMask, r.durations)
  {
    hide Popcount, HighBits, Pots, NameOk;
    var n := PotLimit(w, node);
    PotsCount(r.potMask, n);
    ZeroIffNoPots(r.potMask, n);
    forall i | 0 <= i < |r.durations| ensures 1 <= r.durations[i] <= 60 {
      assert PotOk(w, Pots(r.potMask, n)[i]);
    }
  }

  /** From the batch's decision to the worker's valves, on a worker that reported
      `node.potCount` pots: the due pots, and no others, are opened, once each, for their
      configured seconds. */
  lemma RequestWatersDuePots(r: Request, w: Worker, node: Node, now: u32, correct: Correction, pot: nat)
    requires WorkerOk(w) && |node.soils| == MAX_POTS && node.potCount <= MAX_POTS && IsRequest(r, w, node, now, correct)
    ensures |r.durations| <= MAX_POTS
    ensures WC.Parsed(WC.Body(r.potMask, r.durations), node.potCount as int) == Some((r.potMask, r.durations))
    ensures |Pots(r.potMask, node.potCount as int)| == |r.durations|
    ensures var steps := WC.Steps(WC.Plan(r.potMask, r.durations, node.potCount as int));
            var due := && pot < w.potCount as int && pot < node.potCount as int
                       && (w.lastWatering[pot] == 0 || (now >= w.lastWatering[pot] && now - w.lastWatering[pot] >= w.waterIntervals[pot]))
                       && node.soils[pot] > 200 && correct(node.batteryMv, node.soils[pot]) > w.thresholds[pot];
            && V.Openings(0, steps, pot) == (if due then 1 else 0)
            && V.OpenMs(0, steps, pot) == (if due then w.durations[pot] as int * 1000 else 0)
  {
    hide WC.Sendable, WC.Parsed, WC.Body, WC.Steps, WC.Plan, Due, HighBits, Bit, V.Openings, V.OpenMs, NameOk, PotOk, WC.Compacted;
    RequestIsSendable(r, w, node, now, correct);
    RequestMeans(r, w, node, now, correct, pot);
    WC.SendableShort(r.potMask, r.durations);
    WC.EndToEnd(r.potMask, w.durations, r.durations, PotLimit(w, node), node.potCount as int, pot, 0);
  }

  /** The gateway waits more than four seconds longer than the worker needs for what it was
      asked to do. */
  lemma WaitCoversWatering(r: Request, w: Worker, node: Node, now: u32, correct: Correction)
    requires WorkerOk(w) && |node.soils| == MAX_POTS && node.potCount <= MAX_POTS && IsRequest(r, w, node, now, correct)
    ensures |Pots(r.potMask, node.potCount as int)| == |r.durations|
    ensures var takesMs := WC.TakesMs(WC.Steps(WC.Plan(r.potMask, r.durations, node.potCount as int)));
            takesMs + 4_000 < (WC.Seconds(r.durations) + WATER_COMPLETION_MARGIN_SECONDS) * 1000
  {
    hide IsRequest, NameOk, PotOk, WC.Seconds, Pots;
    RequestWatersDuePots(r, w, node, now, correct, 0);
    WC.PlanTakes(r.potMask, r.durations, node.potCount as int);
  }

  /** What the j-th command of a batch says: it goes to a worker of the table that was
      heard from in this cycle, and names exactly its dry pots whose interval has passed. */
  lemma CommandNamesDryPots(ws: seq<Worker>, nodes: map<seq<byte>, Node>, cycleStartUs: int, now: u32, correct: Correction,
                            slots: seq<nat>, requests: seq<Request>, sent: seq<nat>, j: nat, pot: nat)
    requires TableOk(ws) && forall m <- nodes :: |nodes[m].soils| == MAX_POTS && nodes[m].potCount <= MAX_POTS
    requires Requested(ws, nodes, cycleStartUs, now, correct, |ws|, slots, requests)
    requires Short(requests) && Within(sent, |requests|) && j < |sent|
    ensures slots[sent[j]] < |ws| && ws[slots[sent[j]]].mac in nodes
    ensures var (w, command) := (ws[slots[sent[j]]], Commands(requests, sent)[j]);
            var node := nodes[w.mac];
            && command.Command? && command.mac == w.mac && node.lastSyncUs >= cycleStartUs
            && var water := WC.Parsed(command.body, node.potCount as int);
               && water.Some?
               && (Bit(water.value.0, pot) <==>
                     && pot < w.potCount as int && pot < node.potCount as int
                     && (w.lastWatering[pot] == 0 || (now >= w.lastWatering[pot] && now - w.lastWatering[pot] >= w.waterIntervals[pot]))
                     && node.soils[pot] > 200 && correct(node.batteryMv, node.soils[pot]) > w.thresholds[pot])
  {
    hide WC.Parsed, WC.Body, Bit, WorkerOk, Selects;
    var k := sent[j];
    var w := ws[slots[k]];
    var node := nodes[w.mac];
    TableWorker(ws, slots[k]);
    RequestMeans(requests[k], w, node, now, correct, pot);
    RequestWatersDuePots(requests[k], w, node, now, correct, pot);
  }

  /** Whom a batch leaves out: a worker without a command was not heard from in this cycle,
      or has no dry pot whose interval has passed (or its request was not reached). */
  lemma UnaskedHasNoDryPots(ws: seq<Worker>, nodes: map<seq<byte>, Node>, cycleStartUs: int, now: u32, correct: Correction,
                            slots: seq<nat>, requests: seq<Request>, i: nat)
    requires TableOk(ws) && forall m <- nodes :: |nodes[m].soils| == MAX_POTS
    requires Requested(ws, nodes, cycleStartUs, now, correct, |ws|, slots, requests) && i < |ws| && i !in slots
    ensures Sized(ws[i]) && ws[i].potCount <= MAX_POTS
    ensures var w := ws[i];
            w.mac in nodes && nodes[w.mac].lastSyncUs >= cycleStartUs ==>
              var node := nodes[w.mac];
              forall p :: 0 <= p < w.potCount as int && p < node.potCount as int && node.soils[p] > 200
                && correct(node.batteryMv, node.soils[p]) > w.thresholds[p]
                ==> w.lastWatering[p] != 0 && (now < w.lastWatering[p] || now - w.lastWatering[p] < w.waterIntervals[p])
  {
    hide Due, NameOk, PotOk, IsRequest;
    if Fresh(nodes, ws[i], cycleStartUs) { NoRequestMeans(ws[i], nodes[ws[i].mac], now, correct); }
  }

  lemma TableWorker(ws: seq<Worker>, i: nat)
    requires TableOk(ws) && i < |ws|
    ensures WorkerOk(ws[i])
  {
  }

  lemma OneMoreCommand(requests: seq<Request>, sent: seq<nat>, i: nat)
    requires Short(requests) && i < |requests| && Within(sent, |requests|)
    ensures Commands(requests, sent + [i]) == Commands(requests, sent) + [CommandOf(requests[i])]
  {
    hide CommandOf;
  }

  class Gateway {
    const store: S.Store
    var log: seq<Action>
    var nowUs: nat

    // The completion wait of watering_manager.cpp
    var gActiveMac: seq<byte>
    var gActiveMask: u16
    var gCompleted: bool

    // What the environment does
    const tankLowAt: nat -> bool
    const startsAt: nat -> bool
    const reports: nat -> seq<(seq<byte>, u16)>
    const lateUs: nat -> nat
    var readings: nat
    var sends: nat
    var polls: nat

    constructor (store: S.Store, tankLowAt: nat -> bool, startsAt: nat -> bool, reports: nat -> seq<(seq<byte>, u16)>,
                 lateUs: nat -> nat)
      ensures this.store == store && log == []
    {
      this.store, this.tankLowAt, this.startsAt, this.reports, this.lateUs := store, tankLowAt, startsAt, reports, lateUs;
      log, nowUs, gActiveMac, gActiveMask, gCompleted := [], 0, [], 0, false;
      readings, sends, polls := 0, 0, 0;
    }

    ghost predicate TankStaysHigh() {
      forall k :: !tankLowAt(k)
    }

    method IsTankLow() returns (low: bool)
      modifies this`readings
      ensures TankStaysHigh() ==> !low
      ensures low == tankLowAt(old(readings)) && readings == old(readings) + 1
    {
      low := tankLowAt(readings);
      readings := readings + 1;
    }

    method Delay()
      modifies this`nowUs
      ensures nowUs == old(nowUs) + 100_000 + lateUs(polls)
    {
      nowUs := nowUs + 100_000 + lateUs(polls);
    }

    /** wateringNotifyCompleted. */
    method NotifyCompleted(mac: seq<byte>, potMask: u16)
      modifies this`gCompleted
      ensures gCompleted == (old(gCompleted) || (gActiveMac == mac && gActiveMask == potMask))
    {
      if gActiveMac == mac && gActiveMask == potMask { gCompleted := true; }
    }

    /** The reports that arrived since the last poll. */
    method TakeReports()
      modifies this`gCompleted, this`polls
      ensures polls == old(polls) + 1
      ensures gCompleted == (old(gCompleted) || (gActiveMac, gActiveMask) in reports(old(polls)))
    {
      var rs := reports(polls);
      polls := polls + 1;
      for k := 0 to |rs|
        invariant polls == old(polls) + 1 && gCompleted == (old(gCompleted) || (gActiveMac, gActiveMask) in rs[..k])
      {
        assert rs[..k + 1] == rs[..k] + [rs[k]];
        NotifyCompleted(rs[k].0, rs[k].1);
      }
      assert rs[..|rs|] == rs;
    }

    /** A report of this worker and mask came in between two polls. */
    ghost predicate ReportedBetween(from: nat, to: nat, mac: seq<byte>, potMask: u16) {
      exists k: nat :: from <= k < to && (mac, potMask) in reports(k)
    }

    /** Some tank reading in this range was low. */
    ghost predicate LowBetween(from: nat, to: nat) {
      exists k: nat :: from <= k < to && tankLowAt(k)
    }

    /** The waiting loop: it ends with the first matching report, at the first look after
        the deadline, or when the tank runs low, and at nothing else. */
    method AwaitCompletion(ghost from: nat, deadlineUs: int, abortOnLowTank: bool)
      requires from <= polls && gCompleted == ReportedBetween(from, polls, gActiveMac, gActiveMask)
      modifies this`gCompleted, this`polls, this`nowUs, this`readings
      ensures polls >= old(polls) && gCompleted == ReportedBetween(from, polls, gActiveMac, gActiveMask)
      ensures gCompleted || nowUs >= deadlineUs || (abortOnLowTank && readings > old(readings) && tankLowAt(readings - 1))
      ensures readings >= old(readings) && nowUs >= old(nowUs)
      ensures if polls == old(polls) then nowUs == old(nowUs)
              else nowUs < deadlineUs + 100_000 + lateUs(polls - 1) && !ReportedBetween(from, polls - 1, gActiveMac, gActiveMask)
      ensures if abortOnLowTank then readings > old(readings) ==> !LowBetween(old(readings), readings - 1)
              else readings == old(readings)
    {
      while !gCompleted && nowUs < deadlineUs
        invariant polls >= old(polls) && gCompleted == ReportedBetween(from, polls, gActiveMac, gActiveMask)
        invariant readings >= old(readings) && nowUs >= old(nowUs)
        invariant if polls == old(polls) then nowUs == old(nowUs)
                  else nowUs < deadlineUs + 100_000 + lateUs(polls - 1) && !ReportedBetween(from, polls - 1, gActiveMac, gActiveMask)
        invariant !LowBetween(old(readings), readings) && (!abortOnLowTank ==> readings == old(readings))
        decreases deadlineUs - nowUs
      {
        if abortOnLowTank {
          var low := IsTankLow();
          if low { break; }
        }
        Delay();
        TakeReports();
      }
    }

    /** The summing loop of wateringExecuteWorker. */
    method TotalSeconds(durations: array<u16>, n: nat) returns (total: nat)
      requires n <= durations.Length
      ensures total == WC.Seconds(durations[..n])
    {
      total := 0;
      for i := 0 to n
        invariant total == WC.Seconds(durations[..i])
      {
        assert durations[..i] + [durations[i]] == durations[..i + 1];
        WC.SecondsMore(durations[..i], durations[i]);
        total := total + durations[i];
      }
    }

    /** wateringExecuteWorker: one command, then the wait for the worker's own report of
        this very mask. */
    method ExecuteWorker(mac: seq<byte>, potMask: u16, durations: array<u16>, durationCount: nat, abortOnLowTank: bool)
      returns (sent: bool, completed: bool)
      requires durations.Length == MAX_POTS
      modifies this`log, this`nowUs, this`gActiveMac, this`gActiveMask, this`gCompleted, this`readings, this`sends, this`polls
      ensures sent <==> durationCount <= MAX_POTS && WC.Sendable(potMask, durations[..durationCount])
                        && !(abortOnLowTank && tankLowAt(old(readings)))
      ensures log == if sent then old(log) + [Command(mac, WC.Body(potMask, durations[..durationCount]))] else old(log)
      ensures polls >= old(polls) && nowUs >= old(nowUs) && sends == old(sends) + (if sent then 1 else 0)
      ensures completed == (sent && startsAt(old(sends)) && ReportedBetween(old(polls), polls, mac, potMask))
      ensures sent && startsAt(old(sends)) ==>
                var deadlineUs := old(nowUs) + (WC.Seconds(durations[..durationCount]) + WATER_COMPLETION_MARGIN_SECONDS) * 1_000_000;
                && (completed || nowUs >= deadlineUs || (abortOnLowTank && readings > old(readings) && tankLowAt(readings - 1)))
                && (nowUs == old(nowUs) || (polls > 0 && nowUs < deadlineUs + 100_000 + lateUs(polls - 1)))
                && (polls > old(polls) + 1 ==> !ReportedBetween(old(polls), polls - 1, mac, potMask))
      ensures sent && !startsAt(old(sends)) ==> nowUs == old(nowUs)
      ensures sent ==> gActiveMac == [] && gActiveMask == 0 && !gCompleted
      ensures readings >= old(readings)
      ensures durationCount <= MAX_POTS && WC.Sendable(potMask, durations[..durationCount]) && abortOnLowTank ==>
                readings > old(readings)
    {
      hide WC.Sendable, WC.Body, WC.Seconds;
      sent, completed := false, false;
      var ok, body := WC.BuildBody(potMask, durations, durationCount);
      if !ok { return; }
      var totalSeconds := TotalSeconds(durations, durationCount);
      if abortOnLowTank {
        var low := IsTankLow();
        if low { return; }
      }
      sent := true;
      completed := SendAndWait(mac, potMask, body, totalSeconds, abortOnLowTank);
    }

    lemma FirstReport(from: nat, mac: seq<byte>, potMask: u16)
      ensures ReportedBetween(from, from + 1, mac, potMask) <==> (mac, potMask) in reports(from)
    {
    }

    /** From the beginning of the completion wait to its end. */
    method SendAndWait(mac: seq<byte>, potMask: u16, body: seq<byte>, totalSeconds: nat, abortOnLowTank: bool)
      returns (completed: bool)
      modifies this`log, this`nowUs, this`gActiveMac, this`gActiveMask, this`gCompleted, this`readings, this`sends, this`polls
      ensures log == old(log) + [Command(mac, body)]
      ensures polls > old(polls) && nowUs >= old(nowUs) && sends == old(sends) + 1 && readings >= old(readings)
      ensures completed == (startsAt(old(sends)) && ReportedBetween(old(polls), polls, mac, potMask))
      ensures startsAt(old(sends)) ==>
                var deadlineUs := old(nowUs) + (totalSeconds + WATER_COMPLETION_MARGIN_SECONDS) * 1_000_000;
                && (completed || nowUs >= deadlineUs || (abortOnLowTank && readings > old(readings) && tankLowAt(readings - 1)))
                && (nowUs == old(nowUs) || nowUs < deadlineUs + 100_000 + lateUs(polls - 1))
                && (polls > old(polls) + 1 ==> !ReportedBetween(old(polls), polls - 1, mac, potMask))
      ensures !startsAt(old(sends)) ==> nowUs == old(nowUs)
      ensures gActiveMac == [] && gActiveMask == 0 && !gCompleted
    {
      gActiveMac, gActiveMask, gCompleted := mac, potMask, false;
      var startedUs := nowUs;
      var started := startsAt(sends);
      sends := sends + 1;
      log := log + [Command(mac, body)];
      completed := false;
      if started {
        completed := AwaitReport(startedUs + (totalSeconds + WATER_COMPLETION_MARGIN_SECONDS) * 1_000_000, abortOnLowTank);
      } else {
        TakeReports();
      }
      gActiveMac, gActiveMask, gCompleted := [], 0, false;
    }

    /** The wait after a transmission that started, with the reports that came in during it. */
    method AwaitReport(deadlineUs: int, abortOnLowTank: bool) returns (completed: bool)
      requires !gCompleted
      modifies this`gCompleted, this`polls, this`nowUs, this`readings
      ensures polls > old(polls) && readings >= old(readings) && nowUs >= old(nowUs)
      ensures completed == ReportedBetween(old(polls), polls, gActiveMac, gActiveMask)
      ensures completed || nowUs >= deadlineUs || (abortOnLowTank && readings > old(readings) && tankLowAt(readings - 1))
      ensures nowUs == old(nowUs) || nowUs < deadlineUs + 100_000 + lateUs(polls - 1)
      ensures polls > old(polls) + 1 ==> !ReportedBetween(old(polls), polls - 1, gActiveMac, gActiveMask)
    {
      hide LowBetween, ReportedBetween;
      ghost var from := polls;
      TakeReports();
      FirstReport(from, gActiveMac, gActiveMask);
      AwaitCompletion(from, deadlineUs, abortOnLowTank);
      completed := gCompleted;
    }

    /** The pot loop of waterFreshWorkers. */
    method SelectPots(w: Worker, node: Node, now: u32, correct: Correction) returns (r: Request)
      requires WorkerOk(w) && |node.soils| == MAX_POTS
      ensures r.mac == w.mac && |r.durations| <= MAX_POTS
      ensures Selects(w, node, now, correct, PotLimit(w, node), r.potMask, r.durations)
    {
      hide NameOk, PotOk, Due, Pots, Bit, SetBit, HighBits;
      var mask: nat := 0;
      var ds: seq<u16> := [];
      var potCount := PotLimit(w, node);
      var pot := 0;
      ZeroHigh(0);
      NoPots();
      while pot < potCount
        invariant 0 <= pot <= potCount && |ds| <= pot
        invariant Selects(w, node, now, correct, pot, mask, ds)
      {
        SelectStep(w, node, now, correct, pot, mask, ds);
        if Due(w, node, now, correct, pot) {
          mask := SetBit(mask, pot);
          ds := ds + [w.durations[pot]];
        }
        pot := pot + 1;
      }
      HighBitsMonotone(mask, potCount, MAX_POTS);
      SixteenBits(mask);
      r := Request(w.mac, mask, ds);
    }

    /** The first loop of waterFreshWorkers. */
    method CollectRequests(nodes: map<seq<byte>, Node>, cycleStartUs: int, now: u32, correct: Correction)
      returns (slots: seq<nat>, requests: seq<Request>)
      requires store.Valid() && forall m <- nodes :: |nodes[m].soils| == MAX_POTS
      ensures Requested(store.View().workers, nodes, cycleStartUs, now, correct, store.gWorkerCount, slots, requests)
    {
      hide ValidSettings, NameOk, WorkerOk, Selects, Due;
      ghost var ws := store.View().workers;
      slots, requests := [], [];
      var i := 0;
      while i < store.gWorkerCount
        invariant 0 <= i <= store.gWorkerCount == |ws|
        invariant Requested(ws, nodes, cycleStartUs, now, correct, i, slots, requests)
      {
        var worker := store.gWorkers[i];
        assert worker == ws[i] && WorkerOk(worker);
        if Fresh(nodes, worker, cycleStartUs) {
          var request := SelectPots(worker, nodes[worker.mac], now, correct);
          OneMoreRequest(ws, nodes, cycleStartUs, now, correct, i, slots, requests, request);
          if request.potMask != 0 {
            slots, requests := slots + [i], requests + [request];
          }
        }
        i := i + 1;
      }
    }

    /** The requests that were sent and reported back, in order. */
    ghost function Completed(requests: seq<Request>, sent: seq<nat>, windows: seq<Window>): (cs: seq<(seq<byte>, u16)>)
      requires |sent| == |windows| && Within(sent, |requests|)
      ensures forall c <- cs :: exists k <- sent :: c == (requests[k].mac, requests[k].potMask)
    {
      if sent == [] then []
      else
        var n := |sent| - 1;
        var r, w := requests[sent[n]], windows[n];
        assert sent[n] in sent;
        Completed(requests, sent[..n], windows[..n])
        + (if startsAt(w.send) && ReportedBetween(w.from, w.to, r.mac, r.potMask) then [(r.mac, r.potMask)] else [])
    }

    /** What the sending loop has done so far. */
    ghost predicate Progress(requests: seq<Request>, i: nat, sent: seq<nat>, completions: seq<(seq<byte>, u16)>,
                             windows: seq<Window>)
    {
      && Increasing(sent) && |windows| == |sent| && i <= |requests|
      && Within(sent, i) && Within(sent, |requests|)
      && completions == Completed(requests, sent, windows)
    }

    /** One round of the sending loop, after its first tank check. */
    method SendOne(requests: seq<Request>, i: nat, sent: seq<nat>, completions: seq<(seq<byte>, u16)>, ghost windows: seq<Window>)
      returns (out: bool, sent': seq<nat>, completions': seq<(seq<byte>, u16)>, ghost windows': seq<Window>)
      requires i < |requests| && Progress(requests, i, sent, completions, windows) && Short(requests) && Sendable(requests)
      requires Checked(windows) && CheckedUpTo(windows, readings)
      ensures Checked(windows') && readings > old(readings)
      ensures windows' == windows || (exists w :: windows' == windows + [w] && w.read == old(readings))
      modifies this`log, this`nowUs, this`gActiveMac, this`gActiveMask, this`gCompleted, this`readings, this`sends, this`polls
      ensures Progress(requests, i + 1, sent', completions', windows') && nowUs >= old(nowUs)
      ensures sent' == (if out then sent + [i] else sent) && out == !tankLowAt(old(readings))
      ensures TankStaysHigh() ==> out
      ensures log == if out then old(log) + [CommandOf(requests[i])] else old(log)
    {
      hide WC.Sendable, WC.Body, Completed;
      var request := requests[i];
      var durations := new u16[MAX_POTS](p requires 0 <= p < MAX_POTS =>
        if p < |request.durations| then request.durations[p] else 0);
      assert durations[..|request.durations|] == request.durations;
      ghost var send, read, from := sends, readings, polls;
      var completed;
      out, completed := ExecuteWorker(request.mac, request.potMask, durations, |request.durations|, true);
      sent', completions', windows' := sent, completions, windows;
      if out {
        CompletedStep(requests, sent, windows, i, Window(send, read, from, polls));
        sent', windows' := sent + [i], windows + [Window(send, read, from, polls)];
        CheckedMore(windows, Window(send, read, from, polls));
      }
      if completed {
        completions' := completions + [(request.mac, request.potMask)];
      }
    }

    /** The loop that sends the requests. `windows` tells what became of each command. */
    method SendRequests(requests: seq<Request>)
      returns (sent: seq<nat>, completions: seq<(seq<byte>, u16)>, ghost windows: seq<Window>)
      requires Short(requests) && Sendable(requests)
      modifies this`log, this`nowUs, this`gActiveMac, this`gActiveMask, this`gCompleted, this`readings, this`sends, this`polls
      ensures Increasing(sent) && Within(sent, |requests|)
      ensures log == old(log) + Commands(requests, sent)
      ensures |windows| == |sent| && completions == Completed(requests, sent, windows)
      ensures TankStaysHigh() ==> |sent| == |requests|
      ensures nowUs >= old(nowUs) && readings >= old(readings) && Checked(windows)
      ensures windows != [] ==> windows[0].read > old(readings)
    {
      hide Checked, CheckedUpTo, Progress, Commands, Completed, CommandOf, Increasing, Within, Short, Sendable, TankStaysHigh;
      sent, completions, windows := [], [], [];
      NoProgress(requests);
      NoneChecked(readings);
      var i := 0;
      while i < |requests|
        invariant 0 <= i <= |requests| && Within(sent, |requests|) && Progress(requests, i, sent, completions, windows) && nowUs >= old(nowUs)
        invariant log == old(log) + Commands(requests, sent)
        invariant TankStaysHigh() ==> |sent| == i
        invariant readings >= old(readings) && Checked(windows) && (windows != [] ==> windows[0].read > old(readings))
        invariant windows != [] ==> readings > 0 && !tankLowAt(readings - 1)
      {
        var low := IsTankLow();
        if low { break; }
        assert CheckedUpTo(windows, readings) by { UpTo(windows, readings); }
        OneMoreCommand(requests, sent, i);
        var out;
        out, sent, completions, windows := SendOne(requests, i, sent, completions, windows);
        ProgressMeans(requests, i + 1, sent, completions, windows);
        i := i + 1;
        low := IsTankLow();
        if low { break; }
      }
      ProgressMeans(requests, i, sent, completions, windows);
    }

    /** Every command was sent right after two looks at the tank, and the next one after a
        third, that found it not low. */
    ghost predicate Checked(windows: seq<Window>) {
      forall k :: 0 <= k < |windows| ==>
        && windows[k].read >= 1 && !tankLowAt(windows[k].read) && !tankLowAt(windows[k].read - 1)
        && (k > 0 ==> windows[k].read >= 2 && !tankLowAt(windows[k].read - 2))
    }

    /** The looks right before the next reading. */
    ghost predicate CheckedUpTo(windows: seq<Window>, read: nat) {
      read >= 1 && !tankLowAt(read - 1) && (windows != [] ==> read >= 2 && !tankLowAt(read - 2))
    }

    lemma NoneChecked(read: nat)
      ensures Checked([])
    {
    }

    lemma UpTo(windows: seq<Window>, read: nat)
      requires read >= 1 && !tankLowAt(read - 1) && (windows != [] ==> read >= 2 && !tankLowAt(read - 2))
      ensures CheckedUpTo(windows, read)
    {
    }

    lemma CheckedMore(windows: seq<Window>, w: Window)
      requires Checked(windows) && CheckedUpTo(windows, w.read) && !tankLowAt(w.read)
      ensures Checked(windows + [w])
    {
    }

    lemma NoProgress(requests: seq<Request>)
      requires Short(requests)
      ensures Progress(requests, 0, [], [], []) && Within([], |requests|) && Commands(requests, []) == []
    {
    }

    lemma ProgressMeans(requests: seq<Request>, i: nat, sent: seq<nat>, completions: seq<(seq<byte>, u16)>, windows: seq<Window>)
      requires Progress(requests, i, sent, completions, windows)
      ensures Increasing(sent) && Within(sent, |requests|) && |windows| == |sent|
      ensures completions == Completed(requests, sent, windows)
    {
    }

    lemma CompletedStep(requests: seq<Request>, sent: seq<nat>, windows: seq<Window>, i: nat, w: Window)
      requires |sent| == |windows| && Within(sent, |requests|) && i < |requests|
      ensures Completed(requests, sent + [i], windows + [w])
              == Completed(requests, sent, windows)
                 + (if startsAt(w.send) && ReportedBetween(w.from, w.to, requests[i].mac, requests[i].potMask)
                    then [(requests[i].mac, requests[i].potMask)] else [])
    {
      assert (sent + [i])[..|sent|] == sent && (windows + [w])[..|sent|] == windows;
    }

    /** The priming loop: the full delay, unless a reading in it was low. */
    method Prime(pumpDelaySeconds: nat) returns (tankLow: bool)
      modifies this`nowUs, this`readings
      ensures readings > old(readings) && tankLow == LowBetween(old(readings), readings)
      ensures tankLow || nowUs >= old(nowUs) + pumpDelaySeconds * 1_000_000
      ensures nowUs == old(nowUs) || nowUs < old(nowUs) + pumpDelaySeconds * 1_000_000 + 100_000 + lateUs(polls)
    {
      var deadlineUs := nowUs + pumpDelaySeconds * 1_000_000;
      tankLow := false;
      while nowUs < deadlineUs && !tankLow
        invariant readings >= old(readings) && tankLow == LowBetween(old(readings), readings)
        invariant nowUs == old(nowUs) || nowUs < deadlineUs + 100_000 + lateUs(polls)
        decreases deadlineUs - nowUs, !tankLow
      {
        tankLow := IsTankLow();
        if !tankLow { Delay(); }
      }
      var low := IsTankLow();
      if low { tankLow := true; }
    }

    /** waterFreshWorkers. The pump is switched on at most once and then off again, with
        commands for nothing but the collected requests in between, in order; and exactly
        the completed ones are recorded. `completedUtc` is the clock when it ends. */
    method WaterFreshWorkers(nodes: map<seq<byte>, Node>, cycleStartUs: int, now: u32, correct: Correction, completedUtc: u64)
      returns (slots: seq<nat>, requests: seq<Request>, pumped: bool, sent: seq<nat>, completions: seq<(seq<byte>, u16)>,
               ghost windows: seq<Window>, ghost primedAt: nat)
      requires store.Valid() && forall m <- nodes :: |nodes[m].soils| == MAX_POTS
      modifies this, store`gDirtyGeneration, store.gWorkers
      ensures Requested(old(store.View()).workers, nodes, cycleStartUs, now, correct, |old(store.View()).workers|, slots, requests)
      ensures Short(requests) && Increasing(sent) && Within(sent, |requests|)
      ensures log == if pumped then old(log) + [PumpOn] + Commands(requests, sent) + [PumpOff] else old(log)
      ensures pumped <==> requests != [] && !tankLowAt(old(readings))
      ensures !pumped ==> sent == []
      ensures sent != [] ==> nowUs >= old(nowUs) + store.gSettings.pumpDelaySeconds as int * 1_000_000
      ensures TankStaysHigh() && requests != [] ==> pumped && |sent| == |requests|
      ensures sent != [] ==> |windows| == |sent| && !LowBetween(old(readings), primedAt) && windows[0].read > primedAt > old(readings)
      ensures Checked(windows)
      ensures |windows| == |sent| && completions == Completed(requests, sent, windows)
      ensures store.Valid()
      ensures store.View() == if completions == [] || completedUtc == 0 || completedUtc > U32_MAX then old(store.View())
                              else old(store.View()).(workers := Recorded(old(store.View()).workers, completions, completedUtc))
    {
      hide ConfigOk, Requested, WC.Sendable, Recorded, Checked;
      pumped, sent, completions, windows, primedAt := false, [], [], [], readings;
      NoneChecked(readings);
      slots, requests := CollectRequests(nodes, cycleStartUs, now, correct);
      AllSendable(store.View().workers, nodes, cycleStartUs, now, correct, slots, requests) by { TableIsOk(store.View()); }
      if |requests| == 0 { return; }
      var low := IsTankLow();
      if low { return; }
      log := log + [PumpOn];
      pumped := true;
      var tankLow := Prime(store.gSettings.pumpDelaySeconds as int);
      primedAt := readings;
      if !tankLow {
        sent, completions, windows := SendRequests(requests);
      }
      log := log + [PumpOff];
      if |completions| != 0 && completedUtc != 0 && completedUtc <= U32_MAX {
        store.RecordCompletedBatch(completions, completedUtc);
      }
    }
  }

  lemma TableIsOk(c: Config)
    requires ConfigOk(c)
    ensures TableOk(c.workers)
  {
  }

  lemma AllSendable(ws: seq<Worker>, nodes: map<seq<byte>, Node>, cycleStartUs: int, now: u32, correct: Correction,
                    slots: seq<nat>, requests: seq<Request>)
    requires TableOk(ws) && forall m <- nodes :: |nodes[m].soils| == MAX_POTS
    requires Requested(ws, nodes, cycleStartUs, now, correct, |ws|, slots, requests)
    ensures Short(requests) && Sendable(requests)
  {
    hide WorkerOk, IsRequest, WC.Sendable;
    forall k | 0 <= k < |requests|
      ensures WC.Sendable(requests[k].potMask, requests[k].durations) && |requests[k].durations| <= MAX_POTS
    {
      var w := ws[slots[k]];
      RequestIsSendable(requests[k], w, nodes[w.mac], now, correct);
      WC.SendableShort(requests[k].potMask, requests[k].durations);
    }
  }

  /** The next worker's request, or the fact that it has none. */
  lemma OneMoreRequest(ws: seq<Worker>, nodes: map<seq<byte>, Node>, cycleStartUs: int, now: u32, correct: Correction,
                       i: nat, slots: seq<nat>, requests: seq<Request>, r: Request)
    requires TableOk(ws) && i < |ws| && forall m <- nodes :: |nodes[m].soils| == MAX_POTS
    requires Requested(ws, nodes, cycleStartUs, now, correct, i, slots, requests)
    requires WorkerOk(ws[i]) && Fresh(nodes, ws[i], cycleStartUs) && r.mac == ws[i].mac
    requires Selects(ws[i], nodes[ws[i].mac], now, correct, PotLimit(ws[i], nodes[ws[i].mac]), r.potMask, r.durations)
    ensures if r.potMask != 0 then Requested(ws, nodes, cycleStartUs, now, correct, i + 1, slots + [i], requests + [r])
            else Requested(ws, nodes, cycleStartUs, now, correct, i + 1, slots, requests)
  {
    hide TableOk, WC.Compacted, Due, Bit, HighBits, PotOk, NameOk;
    var node, n := nodes[ws[i].mac], PotLimit(ws[i], nodes[ws[i].mac]);
    if r.potMask == 0 {
      forall p | 0 <= p < n ensures !Due(ws[i], node, now, correct, p) {
        PotMask.NoBits(p);
      }
    }
  }

  lemma NoPots()
    ensures Pots(0, 0) == []
  {
  }

  /** One pot more. */
  lemma SelectStep(w: Worker, node: Node, now: u32, correct: Correction, pot: nat, mask: nat, ds: seq<u16>)
    requires Sized(w) && |node.soils| == MAX_POTS && pot < MAX_POTS
    requires Selects(w, node, now, correct, pot, mask, ds)
    ensures if Due(w, node, now, correct, pot)
            then Selects(w, node, now, correct, pot + 1, SetBit(mask, pot), ds + [w.durations[pot]])
            else Selects(w, node, now, correct, pot + 1, mask, ds)
  {
    hide Due, Pots, Bit, SetBit, HighBits;
    HighBitsMonotone(mask, pot, pot + 1);
    HighStep(mask, pot);
    if Due(w, node, now, correct, pot) {
      SetBitKeepsLow(mask, pot, pot + 1);
      SetBitAppends(mask, pot);
      forall p | 0 <= p < pot + 1 ensures Bit(SetBit(mask, pot), p) <==> p == pot || Bit(mask, p) {
        BitOfSetBit(mask, pot, p);
      }
    } else {
      PotsBeyond(mask, pot, pot + 1);
    }
  }
}
