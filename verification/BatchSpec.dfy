/** Which pots an automatic batch waters, and what its recorded completions do to the
    stamps (main/src/main.cpp, main/include/AutoWateringPolicy.h). */
module BatchSpec {
  import opened Bytes
  import opened PotMask
  import opened SettingsSpec
  import opened SettingsTable
  import C = Cooldown
  import WC = WaterCommand

  /** The last status of a worker; the soil correction is a parameter. */
  datatype Node = Node(potCount: byte, lastSyncUs: int, batteryMv: u16, soils: seq<u16>)

  type Correction = (u16, u16) -> u16

  datatype Request = Request(mac: seq<byte>, potMask: u16, durations: seq<u16>)

  function PotLimit(w: Worker, node: Node): nat {
    if w.potCount < node.potCount then w.potCount as int else node.potCount as int
  }

  /** autoWateringPotEligible on the pot's configuration and last reading. */
  predicate Due(w: Worker, node: Node, now: u32, correct: Correction, pot: nat)
    requires Sized(w) && |node.soils| == MAX_POTS && pot < MAX_POTS
  {
    C.PotEligible(now, w.lastWatering[pot], w.waterIntervals[pot], node.soils[pot],
                  correct(node.batteryMv, node.soils[pot]), w.thresholds[pot])
  }

  /** Exactly the due pots that both sides know, each with its configured duration. */
  ghost predicate Selects(w: Worker, node: Node, now: u32, correct: Correction, n: nat, mask: nat, ds: seq<u16>)
    requires Sized(w) && |node.soils| == MAX_POTS && n <= MAX_POTS
  {
    && HighBits(mask, n) == 0
    && (forall p :: 0 <= p < n ==> (Bit(mask, p) <==> Due(w, node, now, correct, p)))
    && WC.Compacted(mask, w.durations, ds, n)
  }

  ghost predicate IsRequest(r: Request, w: Worker, node: Node, now: u32, correct: Correction)
    requires Sized(w) && |node.soils| == MAX_POTS && w.potCount <= MAX_POTS
  {
    && r.mac == w.mac && r.potMask != 0
    && Selects(w, node, now, correct, PotLimit(w, node), r.potMask, r.durations)
  }

  /** What is asked for, on the table's and the worker's own fields: a pot that both sides
      know, whose interval has passed since its stamp or that has none, whose sensor is
      there, and whose corrected reading is above its threshold. */
  lemma RequestMeans(r: Request, w: Worker, node: Node, now: u32, correct: Correction, p: nat)
    requires Sized(w) && |node.soils| == MAX_POTS && w.potCount <= MAX_POTS && IsRequest(r, w, node, now, correct)
    ensures Bit(r.potMask, p) <==>
            && p < w.potCount as int && p < node.potCount as int
            && (w.lastWatering[p] == 0 || (now >= w.lastWatering[p] && now - w.lastWatering[p] >= w.waterIntervals[p]))
            && node.soils[p] > 200 && correct(node.batteryMv, node.soils[p]) > w.thresholds[p]
  {
    hide WC.Compacted;
    var n := PotLimit(w, node);
    if Bit(r.potMask, p) && p >= n {
      HighBitsMonotone(r.potMask, n, p);
      HighStep(r.potMask, p);
    }
  }

  /** A worker that gets no request has no such pot. */
  lemma NoRequestMeans(w: Worker, node: Node, now: u32, correct: Correction)
    requires Sized(w) && |node.soils| == MAX_POTS && w.potCount <= MAX_POTS
    requires forall p :: 0 <= p < PotLimit(w, node) ==> !Due(w, node, now, correct, p)
    ensures forall p :: 0 <= p < w.potCount as int && p < node.potCount as int && node.soils[p] > 200
              && correct(node.batteryMv, node.soils[p]) > w.thresholds[p]
              ==> w.lastWatering[p] != 0 && (now < w.lastWatering[p] || now - w.lastWatering[p] < w.waterIntervals[p])
  {
    forall p | 0 <= p < w.potCount as int && p < node.potCount as int && node.soils[p] > 200
               && correct(node.batteryMv, node.soils[p]) > w.thresholds[p]
      ensures w.lastWatering[p] != 0 && (now < w.lastWatering[p] || now - w.lastWatering[p] < w.waterIntervals[p])
    {
      assert !Due(w, node, now, correct, p);
    }
  }

  /** A pot that is asked for still is when it reads drier, its threshold is lowered, its
      interval shortened, or more time has passed. */
  lemma DrierStaysRequested(r: Request, w: Worker, node: Node, now: u32, r2: Request, w2: Worker, node2: Node, now2: u32,
                            correct: Correction, p: nat)
    requires Sized(w) && |node.soils| == MAX_POTS && w.potCount <= MAX_POTS && IsRequest(r, w, node, now, correct)
    requires Sized(w2) && |node2.soils| == MAX_POTS && w2.potCount <= MAX_POTS && IsRequest(r2, w2, node2, now2, correct)
    requires p < MAX_POTS && p < w2.potCount as int && p < node2.potCount as int
    requires node2.soils[p] > 200 && correct(node2.batteryMv, node2.soils[p]) >= correct(node.batteryMv, node.soils[p])
    requires w2.thresholds[p] <= w.thresholds[p] && w2.waterIntervals[p] <= w.waterIntervals[p]
    requires w2.lastWatering[p] == w.lastWatering[p] && now2 >= now
    ensures Bit(r.potMask, p) ==> Bit(r2.potMask, p)
  {
    hide Bit, HighBits, WC.Compacted, IsRequest, Selects;
    RequestMeans(r, w, node, now, correct, p);
    RequestMeans(r2, w2, node2, now2, correct, p);
  }

  /** A worker that was heard from in this cycle. */
  predicate Fresh(nodes: map<seq<byte>, Node>, w: Worker, cycleStartUs: int) {
    w.mac in nodes && nodes[w.mac].lastSyncUs >= cycleStartUs
  }

  // What recording does to the stamps.

  /** The stamp of one pot after a batch was recorded. */
  lemma {:induction false} RecordedAt(ws: seq<Worker>, completions: seq<(seq<byte>, u16)>, completed: u32, i: nat, pot: nat)
    requires TableOk(ws) && i < |ws| && pot < MAX_POTS
    ensures var us := Recorded(ws, completions, completed);
            && WorkerOk(us[i])
            && us[i] == ws[i].(lastWatering := us[i].lastWatering)
            && us[i].lastWatering[pot] ==
               (if pot < ws[i].potCount as int && Covers(completions, ws[i].mac, pot) then completed else ws[i].lastWatering[pot])
    decreases |completions|
  {
    hide PotOk, NameOk, ValidSettings;
    SlotOk(ws, i);
    if completions != [] {
      var n := |completions| - 1;
      var us := Recorded(ws, completions[..n], completed);
      RecordedAt(ws, completions[..n], completed, i, pot);
      CoversMore(completions, ws[i].mac, pot);
      SlotOk(Recorded(ws, completions, completed), i);
      var k := Find(us, completions[n].0);
      if us[i].mac == completions[n].0 {
        FindUnique(us, i);
        assert k == i;
      }
    } else {
      assert !Covers([], ws[i].mac, pot);
    }
  }

  lemma SlotOk(ws: seq<Worker>, i: nat)
    requires TableOk(ws) && i < |ws|
    ensures WorkerOk(ws[i])
  {
  }

  lemma FindUnique(ws: seq<Worker>, i: nat)
    requires TableOk(ws) && i < |ws|
    ensures Find(ws, ws[i].mac) == i
  {
  }

  /** Some completion names this pot of this worker. */
  predicate Covers(completions: seq<(seq<byte>, u16)>, mac: seq<byte>, pot: nat) {
    exists k :: 0 <= k < |completions| && completions[k].0 == mac && Bit(completions[k].1, pot)
  }

  lemma CoversMore(completions: seq<(seq<byte>, u16)>, mac: seq<byte>, pot: nat)
    requires completions != []
    ensures var n := |completions| - 1;
            Covers(completions, mac, pot) <==>
              Covers(completions[..n], mac, pot) || (completions[n].0 == mac && Bit(completions[n].1, pot))
  {
  }
}
