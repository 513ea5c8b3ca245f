/** The worker table over a boot of the gateway: time passes, the clock is corrected and the
    history rebased with it, batches look for due pots and record what they completed, and
    users edit the table. A pot is not requested again before its interval has passed in
    true time. */
module WateringHistory {
  import opened Bytes
  import opened BatchSpec
  import opened ClockMath
  import opened PotMask
  import opened SettingsSpec
  import opened SettingsTable
  import C = Cooldown
  import WC = WaterCommand

  datatype House = House(clock: C.Clock, table: seq<Worker>)

  datatype Change =
    | Tick(us: nat)
    | Correct(epoch: u64)
    | Read                                              // the watering task reads the clock
    | Record(completions: seq<(seq<byte>, u16)>)         // and records a batch with that reading
    | Edit(table: seq<Worker>)                          // the settings' mutators

  /** The stamp of a pot in use. */
  function StampAt(ws: seq<Worker>, mac: seq<byte>, pot: nat): Option<u32>
    requires TableOk(ws)
  {
    var i := Find(ws, mac);
    if i == |ws| || pot >= ws[i].potCount as int then None
    else
      SlotOk(ws, i);
      Some(ws[i].lastWatering[pot])
  }

  /** Pots that stay in use keep their stamps, new ones have none. */
  ghost predicate Edits(ws: seq<Worker>, us: seq<Worker>)
    requires TableOk(ws)
  {
    TableOk(us) && forall mac: seq<byte>, pot: nat :: KeepsStamp(ws, us, mac, pot)
  }

  predicate KeepsStamp(ws: seq<Worker>, us: seq<Worker>, mac: seq<byte>, pot: nat)
    requires TableOk(ws) && TableOk(us)
  {
    StampAt(us, mac, pot).Some? ==>
      StampAt(us, mac, pot).value == if StampAt(ws, mac, pot).Some? then StampAt(ws, mac, pot).value else 0
  }

  ghost predicate Valid(h: House) {
    TableOk(h.table) && C.Started(h.clock)
  }

  ghost predicate CanChange(h: House, e: Change) {
    Valid(h) && (e.Edit? ==> Edits(h.table, e.table))
  }

  function ClockEvent(e: Change): C.Event {
    match e
    case Tick(us) => C.Tick(us)
    case Correct(epoch) => C.Correct(epoch)
    case Read => C.Read
    case _ => C.Tick(0)
  }

  predicate Records(c: C.Clock, e: Change) {
    e.Record? && 0 < c.readUtc <= U32_MAX
  }

  ghost function Happen(h: House, e: Change): (t: House)
    requires CanChange(h, e)
    ensures Valid(t)
  {
    var clock := C.ClockStep(h.clock, ClockEvent(e));
    var table :=
      if e.Correct? && C.Accepts(h.clock, e.epoch) then RebasedTable(h.table, |h.table|, C.Now(h.clock), e.epoch)
      else if Records(h.clock, e) then Recorded(h.table, e.completions, h.clock.readUtc)
      else if e.Edit? then e.table
      else h.table;
    House(clock, table)
  }

  ghost predicate CanRun(h: House, es: seq<Change>)
    decreases |es|, 0
  {
    Valid(h) && (es == [] || (CanRun(h, es[..|es| - 1]) && CanChange(After(h, es[..|es| - 1]), es[|es| - 1])))
  }

  ghost function After(h: House, es: seq<Change>): (t: House)
    requires CanRun(h, es)
    ensures Valid(t)
    decreases |es|, 1
  {
    if es == [] then h else Happen(After(h, es[..|es| - 1]), es[|es| - 1])
  }

  /** The last recorded completion of a pot since it came into use: when it was read off
      the timer, and how far its stamp was ahead of the clock. */
  ghost function LastCompletion(h: House, es: seq<Change>, mac: seq<byte>, pot: nat): Option<C.Completion>
    requires CanRun(h, es)
    decreases |es|
  {
    if es == [] then None
    else
      var (init, e) := (es[..|es| - 1], es[|es| - 1]);
      var s := After(h, init);
      if StampAt(Happen(s, e).table, mac, pot).None? then None
      else if Records(s.clock, e) && Covers(e.completions, mac, pot) then Some(C.Completion(s.clock.readUs, C.Lead(s.clock)))
      else LastCompletion(h, init, mac, pot)
  }

  // Each pot of the table is a pot of the cooldown model.

  function Unwatered(clock: C.Clock): C.Pot {
    C.Pot(clock, 0, None, 0, false)
  }

  /** What the change is to one pot of the cooldown model. */
  function PotStep(p: C.Pot, e: Change, inUse: bool, covered: bool): C.Pot {
    if !inUse then Unwatered(C.ClockStep(p.clock, ClockEvent(e)))
    else if e.Record? && covered then C.Step(p, C.Record)
    else C.Step(p, ClockEvent(e))
  }

  ghost function PotAfter(h: House, es: seq<Change>, mac: seq<byte>, pot: nat): C.Pot
    requires CanRun(h, es)
    decreases |es|
  {
    if es == [] then Unwatered(h.clock).(last := if StampAt(h.table, mac, pot).Some? then StampAt(h.table, mac, pot).value else 0)
    else
      var (init, e) := (es[..|es| - 1], es[|es| - 1]);
      var t := Happen(After(h, init), e);
      PotStep(PotAfter(h, init, mac, pot), e, StampAt(t.table, mac, pot).Some?, e.Record? && Covers(e.completions, mac, pot))
  }

  /** Clock corrections since the last recorded completion. */
  ghost function CorrectionsSince(h: House, es: seq<Change>, mac: seq<byte>, pot: nat): nat
    requires CanRun(h, es)
    decreases |es|
  {
    if es == [] then 0
    else
      var (init, e) := (es[..|es| - 1], es[|es| - 1]);
      var s := After(h, init);
      if StampAt(Happen(s, e).table, mac, pot).None? || (Records(s.clock, e) && Covers(e.completions, mac, pot)) then 0
      else CorrectionsSince(h, init, mac, pot) + (if e.Correct? && C.Accepts(s.clock, e.epoch) then 1 else 0)
  }

  lemma {:induction false} RecordedStamp(ws: seq<Worker>, completions: seq<(seq<byte>, u16)>, completed: u32, mac: seq<byte>, pot: nat)
    requires TableOk(ws)
    ensures var us := Recorded(ws, completions, completed);
            && (StampAt(us, mac, pot).Some? <==> StampAt(ws, mac, pot).Some?)
            && (StampAt(ws, mac, pot).Some? ==>
                  StampAt(us, mac, pot).value == if Covers(completions, mac, pot) then completed else StampAt(ws, mac, pot).value)
  {
    hide Recorded, WorkerOk, Covers;
    var us := Recorded(ws, completions, completed);
    var i := Find(ws, mac);
    forall j | 0 <= j < |ws| ensures us[j].mac == ws[j].mac && us[j].potCount == ws[j].potCount {
      RecordedAt(ws, completions, completed, j, 0);
    }
    FindIs(us, mac, i);
    if i < |ws| && pot < ws[i].potCount as int {
      SlotOk(ws, i);
      InUseIsPot(ws[i], pot);
      RecordedAt(ws, completions, completed, i, pot);
    }
  }

  lemma InUseIsPot(w: Worker, pot: nat)
    requires WorkerOk(w) && pot < w.potCount as int
    ensures pot < MAX_POTS
  {
  }

  /** Rebasing touches every pot in use, and nothing else. */
  lemma {:induction false} RebasedAt(ws: seq<Worker>, n: nat, oldNow: u64, newNow: u64, i: nat)
    requires TableOk(ws) && n <= |ws| && 0 < newNow <= U32_MAX && i < |ws|
    ensures WorkerOk(ws[i])
    ensures RebasedTable(ws, n, oldNow, newNow)[i] == if i < n then Rebased(ws[i], oldNow, newNow) else ws[i]
  {
    hide WorkerOk, Rebased;
    SlotOk(ws, i);
    if n > 0 { RebasedAt(ws, n - 1, oldNow, newNow, i); }
  }

  lemma {:induction false} RebasedStampAt(ws: seq<Worker>, oldNow: u64, newNow: u64, mac: seq<byte>, pot: nat)
    requires TableOk(ws) && 0 < newNow <= U32_MAX
    ensures var us := RebasedTable(ws, |ws|, oldNow, newNow);
            && (StampAt(us, mac, pot).Some? <==> StampAt(ws, mac, pot).Some?)
            && (StampAt(ws, mac, pot).Some? ==> StampAt(us, mac, pot).value == RebasedStamp(oldNow, newNow, StampAt(ws, mac, pot).value))
  {
    hide RebasedTable, WorkerOk, RebasedStamp;
    var us := RebasedTable(ws, |ws|, oldNow, newNow);
    var i := Find(ws, mac);
    forall j | 0 <= j < |ws| ensures us[j].mac == ws[j].mac && us[j].potCount == ws[j].potCount {
      RebasedAt(ws, |ws|, oldNow, newNow, j);
    }
    FindIs(us, mac, i);
    if i < |ws| && pot < ws[i].potCount as int {
      RebasedAt(ws, |ws|, oldNow, newNow, i);
      InUseIsPot(ws[i], pot);
    }
  }

  /** The pot as the table has it and the pot of the cooldown model agree. */
  predicate Agrees(h: House, p: C.Pot, mac: seq<byte>, pot: nat)
    requires TableOk(h.table)
  {
    p.clock == h.clock && (if StampAt(h.table, mac, pot).Some? then p.last == StampAt(h.table, mac, pot).value
                           else p == Unwatered(h.clock))
  }

  lemma StepAgrees(h: House, p: C.Pot, e: Change, mac: seq<byte>, pot: nat)
    requires CanChange(h, e) && Agrees(h, p, mac, pot)
    ensures var t := Happen(h, e);
            Agrees(t, PotStep(p, e, StampAt(t.table, mac, pot).Some?, e.Record? && Covers(e.completions, mac, pot)), mac, pot)
  {
    hide StampAt, TableOk, RebasedTable, Recorded, Covers, RebasedStamp, C.Accepts, C.Now, C.Lead;
    var t := Happen(h, e);
    match e
    case Tick(_) =>
    case Read =>
    case Correct(epoch) => if C.Accepts(h.clock, epoch) { AcceptedIsSmall(h.clock, epoch); RebasedStampAt(h.table, C.Now(h.clock), epoch, mac, pot); }
    case Record(completions) => if Records(h.clock, e) { RecordedStamp(h.table, completions, h.clock.readUtc, mac, pot); }
    case Edit(us) => assert KeepsStamp(h.table, us, mac, pot);
  }

  lemma AcceptedIsSmall(c: C.Clock, epoch: u64)
    requires C.Accepts(c, epoch)
    ensures 0 < epoch <= U32_MAX && 0 <= C.Now(c) <= 0xFFFF_FFFF_FFFF_FFFF
  {
  }

  /** Every pot of the table behaves as the cooldown model says, with the completion that
      was recorded last as its truth. */
  lemma {:induction false} TableRunsPots(h: House, es: seq<Change>, mac: seq<byte>, pot: nat)
    requires CanRun(h, es)
    ensures var (s, p) := (After(h, es), PotAfter(h, es, mac, pot));
            Agrees(s, p, mac, pot) && p.done == LastCompletion(h, es, mac, pot) && C.Inv(p)
            && p.corrections == CorrectionsSince(h, es, mac, pot)
    decreases |es|
  {
    hide Agrees, Happen, StampAt, Covers, C.Inv, C.Lead, TableOk;
    if es != [] {
      var (init, e) := (es[..|es| - 1], es[|es| - 1]);
      TableRunsPots(h, init, mac, pot);
      StepAgrees(After(h, init), PotAfter(h, init, mac, pot), e, mac, pot);
      PotStepOk(PotAfter(h, init, mac, pot), e, StampAt(After(h, es).table, mac, pot).Some?, e.Record? && Covers(e.completions, mac, pot));
      AgreesClock(After(h, init), PotAfter(h, init, mac, pot), mac, pot);
    } else {
      StartAgrees(h, mac, pot);
    }
  }

  lemma StartAgrees(h: House, mac: seq<byte>, pot: nat)
    requires Valid(h)
    ensures Agrees(h, PotAfter(h, [], mac, pot), mac, pot) && C.Inv(PotAfter(h, [], mac, pot))
  {
  }

  lemma AgreesClock(h: House, p: C.Pot, mac: seq<byte>, pot: nat)
    requires TableOk(h.table) && Agrees(h, p, mac, pot)
    ensures p.clock == h.clock
  {
  }

  lemma PotStepOk(p: C.Pot, e: Change, inUse: bool, covered: bool)
    requires C.Inv(p)
    ensures C.Inv(PotStep(p, e, inUse, covered))
    ensures PotStep(p, e, inUse, covered).done ==
            if !inUse then None
            else if Records(p.clock, e) && covered then Some(C.Completion(p.clock.readUs, C.Lead(p.clock)))
            else p.done
    ensures PotStep(p, e, inUse, covered).corrections ==
            if !inUse || (Records(p.clock, e) && covered) then 0
            else p.corrections + (if e.Correct? && C.Accepts(p.clock, e.epoch) then 1 else 0)
  {
    hide C.Inv, C.Lead;
    C.StepKeepsInv(p, ClockEvent(e));
    C.StepKeepsInv(p, C.Record);
    ClockStarted(p, ClockEvent(e));
  }

  lemma ClockStarted(p: C.Pot, e: C.Event)
    requires C.Inv(p)
    ensures C.Inv(Unwatered(C.ClockStep(p.clock, e)))
  {
  }

  /** A pot that a batch requests was last watered, in true time, more than its interval
      less one second ago: over any ticks, corrections, batches and edits, with the interval
      in force now, provided the clock was not corrected so that the reading judged by is
      ahead of it, nor the stamp a second behind it when it was recorded. By the clock's own
      reading the full interval has passed since the stamp. */
  lemma NotBeforeInterval(h: House, es: seq<Change>, i: nat, pot: nat, node: Node, correct: Correction, r: Request)
    requires CanRun(h, es) && i < |After(h, es).table| && |node.soils| == MAX_POTS && 0 <= After(h, es).clock.readUtc <= U32_MAX
    requires IsRequest(r, After(h, es).table[i], node, After(h, es).clock.readUtc, correct) && Bit(r.potMask, pot)
    ensures var (c, w) := (After(h, es).clock, After(h, es).table[i]);
            var last := LastCompletion(h, es, w.mac, pot);
            && pot < w.potCount as int <= MAX_POTS
            && C.CooldownComplete(c.readUtc, w.lastWatering[pot], w.waterIntervals[pot])
            && (last.Some? ==> w.lastWatering[pot] != 0)
            && (last.Some? && last.value.lead > -C.SECOND && C.Lead(c) <= 0 ==>
                  c.nowUs - last.value.us > C.SECOND * w.waterIntervals[pot] - C.SECOND)
  {
    hide PotOk, NameOk, TableOk, Selects, Happen, C.CooldownComplete, C.Lead, C.Inv, CanRun, After, LastCompletion;
    var s := After(h, es);
    var w := s.table[i];
    SlotOk(s.table, i);
    SelectedIsDue(r, w, node, s.clock.readUtc, correct, pot);
    TableRunsPots(h, es, w.mac, pot);
    FindUnique(s.table, i);
    Judged(PotAfter(h, es, w.mac, pot), w.waterIntervals[pot]) by { IntervalOk(w, pot); }
  }

  lemma SelectedIsDue(r: Request, w: Worker, node: Node, now: u32, correct: Correction, pot: nat)
    requires WorkerOk(w) && |node.soils| == MAX_POTS && IsRequest(r, w, node, now, correct) && Bit(r.potMask, pot)
    ensures pot < w.potCount as int && pot < MAX_POTS && Due(w, node, now, correct, pot)
  {
    hide PotOk, NameOk, Due, WC.Compacted;
    var n := PotLimit(w, node);
    if pot >= n {
      HighBitsMonotone(r.potMask, n, pot);
      HighStep(r.potMask, pot);
    }
  }

  lemma IntervalOk(w: Worker, pot: nat)
    requires WorkerOk(w) && pot < w.potCount as int && pot < MAX_POTS
    ensures w.waterIntervals[pot] <= C.WATER_INTERVAL_MAX
  {
    assert PotOk(w, pot);
  }

  lemma Judged(p: C.Pot, interval: u32)
    requires C.Inv(p) && interval <= C.WATER_INTERVAL_MAX && 0 <= p.clock.readUtc <= U32_MAX
    requires C.CooldownComplete(p.clock.readUtc, p.last, interval)
    ensures p.done.Some? ==> p.last != 0
    ensures p.done.Some? && p.done.value.lead > -C.SECOND && C.Lead(p.clock) <= 0 ==>
              p.clock.nowUs - p.done.value.us > C.SECOND * interval - C.SECOND
  {
    C.CooldownIsHonest(p, [], interval);
  }

  /** The other half: once the interval, a second for each correction since the completion
      and one more have passed in true time, the clock finds the cooldown complete, unless
      the stamp was recorded ahead of the clock. */
  lemma DueAgain(h: House, es: seq<Change>, i: nat, pot: nat)
    requires CanRun(h, es) && i < |After(h, es).table| && 0 <= C.Now(After(h, es).clock) <= U32_MAX
    requires var w := After(h, es).table[i]; pot < w.potCount as int
    ensures var (c, w) := (After(h, es).clock, After(h, es).table[i]);
            var last := LastCompletion(h, es, w.mac, pot);
            && pot < MAX_POTS && Sized(w)
            && (last.Some? && last.value.lead <= 0
                && c.nowUs - last.value.us >= C.SECOND * (w.waterIntervals[pot] as int + CorrectionsSince(h, es, w.mac, pot) + 1)
                ==> C.CooldownComplete(C.Now(c), w.lastWatering[pot], w.waterIntervals[pot]))
  {
    hide PotOk, NameOk, TableOk, Happen, C.CooldownComplete, C.Lead, C.Inv, CanRun, After, LastCompletion, CorrectionsSince;
    var s := After(h, es);
    var w := s.table[i];
    SlotOk(s.table, i);
    InUseIsPot(w, pot);
    TableRunsPots(h, es, w.mac, pot);
    FindUnique(s.table, i);
    IntervalOk(w, pot);
    C.CooldownEnds(PotAfter(h, es, w.mac, pot), [], w.waterIntervals[pot]);
  }

  // Readings that no correction overtakes.

  /** The clock was read, and not corrected since. */
  predicate JustRead(es: seq<Change>) {
    es != [] && (es[|es| - 1].Read? || (!es[|es| - 1].Correct? && JustRead(es[..|es| - 1])))
  }

  /** No correction falls between a reading and the record that uses it. */
  predicate Undisturbed(es: seq<Change>) {
    es == [] || (Undisturbed(es[..|es| - 1]) && (es[|es| - 1].Record? ==> JustRead(es[..|es| - 1])))
  }

  lemma {:induction false} JustReadIsCurrent(h: House, es: seq<Change>)
    requires CanRun(h, es) && JustRead(es)
    ensures C.Current(After(h, es).clock) && -C.SECOND < C.Lead(After(h, es).clock) <= 0
    decreases |es|
  {
    hide C.Lead, TableOk, Edits;
    if !es[|es| - 1].Read? { JustReadIsCurrent(h, es[..|es| - 1]); }
    C.CurrentIsClose(After(h, es).clock);
  }

  lemma {:induction false} UndisturbedLead(h: House, es: seq<Change>, mac: seq<byte>, pot: nat)
    requires CanRun(h, es) && Undisturbed(es)
    ensures var last := LastCompletion(h, es, mac, pot); last.Some? ==> -C.SECOND < last.value.lead <= 0
    decreases |es|
  {
    hide C.Lead, TableOk, Edits, StampAt, Covers, Happen;
    if es != [] {
      UndisturbedLead(h, es[..|es| - 1], mac, pot);
      if es[|es| - 1].Record? { JustReadIsCurrent(h, es[..|es| - 1]); }
    }
  }

  /** Without such a correction, neither before a record nor before the judgement, nothing
      else needs to be assumed. */
  lemma UndisturbedBatches(h: House, es: seq<Change>, i: nat, pot: nat, node: Node, correct: Correction, r: Request)
    requires CanRun(h, es) && i < |After(h, es).table| && |node.soils| == MAX_POTS && 0 <= After(h, es).clock.readUtc <= U32_MAX
    requires IsRequest(r, After(h, es).table[i], node, After(h, es).clock.readUtc, correct) && Bit(r.potMask, pot)
    requires Undisturbed(es) && JustRead(es)
    ensures var (c, w) := (After(h, es).clock, After(h, es).table[i]);
            var last := LastCompletion(h, es, w.mac, pot);
            && pot < w.potCount as int <= MAX_POTS
            && (last.Some? ==> c.nowUs - last.value.us > C.SECOND * w.waterIntervals[pot] - C.SECOND)
  {
    hide CanRun, After, LastCompletion, IsRequest, Undisturbed, JustRead, C.Lead;
    NotBeforeInterval(h, es, i, pot, node, correct, r);
    UndisturbedLead(h, es, After(h, es).table[i].mac, pot);
    JustReadIsCurrent(h, es);
  }

  // The mutators are edits.

  lemma {:induction false} FindReplaced(ws: seq<Worker>, i: nat, w: Worker, mac: seq<byte>)
    requires i < |ws| && w.mac == ws[i].mac
    ensures Find(ws[i := w], mac) == Find(ws, mac)
  {
    var k := Find(ws, mac);
    FindIs(ws[i := w], mac, k);
  }

  /** Growing, renaming and updating pots: stamps are kept, and new pots have none. */
  predicate GrowsFrom(w: Worker, u: Worker)
    requires Sized(w) && Sized(u)
  {
    && u.mac == w.mac && w.potCount <= u.potCount <= MAX_POTS
    && forall pot :: 0 <= pot < u.potCount as int ==>
         u.lastWatering[pot] == if pot < w.potCount as int then w.lastWatering[pot] else 0
  }

  lemma ReplacingEdits(ws: seq<Worker>, i: nat, w: Worker)
    requires TableOk(ws) && i < |ws| && WorkerOk(ws[i]) && WorkerOk(w) && GrowsFrom(ws[i], w)
    ensures Edits(ws, ws[i := w])
  {
    hide WorkerOk;
    var us := ws[i := w];
    ReplacedOk(ws, i, w);
    forall mac: seq<byte>, pot: nat ensures KeepsStamp(ws, us, mac, pot) {
      FindReplaced(ws, i, w, mac);
    }
  }

  lemma UpdatesEdit(ws: seq<Worker>, i: nat, pot: nat, threshold: u16, duration: u16, interval: u32, name: Option<seq<byte>>)
    requires TableOk(ws) && i < |ws| && WorkerOk(ws[i])
    requires pot < MAX_POTS && LimitsOk(threshold, duration) && INTERVAL_MIN <= interval <= INTERVAL_MAX
    ensures Edits(ws, ws[i := Renamed(ws[i], name)])
    ensures Edits(ws, ws[i := Grown(ws[i], pot + 1)])
    ensures Edits(ws, ws[i := PotUpdated(ws[i], pot, threshold, duration, interval, name)])
  {
    hide PotOk, NameOk, TableOk, Edits;
    var w := ws[i];
    RenamedOk(w, name);
    GrownOk(w, pot + 1);
    PotUpdatedOk(w, pot, threshold, duration, interval, name);
    ReplacingEdits(ws, i, Renamed(w, name));
    ReplacingEdits(ws, i, Grown(w, pot + 1));
    ReplacingEdits(ws, i, PotUpdated(w, pot, threshold, duration, interval, name));
  }

  lemma {:induction false} AddingEdits(ws: seq<Worker>, mac: seq<byte>, name: seq<byte>, threshold: u16, duration: u16)
    requires TableOk(ws) && |ws| < MAX_WORKER_COUNT && Find(ws, mac) == |ws| && |mac| == 6 && LimitsOk(threshold, duration)
    ensures Edits(ws, ws + [NewWorker(mac, name, threshold, duration)])
  {
    hide WorkerOk;
    var w := NewWorker(mac, name, threshold, duration);
    NewWorkerOk(mac, name, threshold, duration);
    AppendedOk(ws, w);
    forall other: seq<byte>, pot: nat ensures KeepsStamp(ws, ws + [w], other, pot) {
      SlotOk(ws + [w], |ws|);
      if other == mac {
        FindUnique(ws + [w], |ws|);
        if pot < w.potCount as int { InUseIsPot(w, pot); }
      } else {
        FindIs(ws + [w], other, if Find(ws, other) == |ws| then |ws| + 1 else Find(ws, other));
      }
    }
  }

  lemma {:induction false} RemovingEdits(ws: seq<Worker>, i: nat)
    requires TableOk(ws) && i < |ws|
    ensures Edits(ws, ws[..i] + ws[i + 1..])
  {
    hide WorkerOk, Find;
    var us := ws[..i] + ws[i + 1..];
    RemovedOk(ws, i);
    forall mac: seq<byte>, pot: nat ensures KeepsStamp(ws, us, mac, pot) {
      var k := Find(us, mac);
      if k < |us| { FindUnique(ws, if k < i then k else k + 1); }
    }
  }

  /** A pot that nothing was recorded for since it came into use, or since the start if it
      had no stamp then, has none, so its cooldown is complete: neither corrections nor
      edits nor other pots' completions can stop it from being watered for the first time. */
  lemma {:induction false} UnrecordedIsUnset(h: House, es: seq<Change>, mac: seq<byte>, pot: nat)
    requires CanRun(h, es) && LastCompletion(h, es, mac, pot).None?
    requires StampAt(h.table, mac, pot).None? || StampAt(h.table, mac, pot).value == 0
    ensures PotAfter(h, es, mac, pot).last == 0 && CanRun(h, es)
    ensures StampAt(After(h, es).table, mac, pot).None? || StampAt(After(h, es).table, mac, pot).value == 0
    decreases |es|
  {
    hide StampAt, Happen, Agrees, Covers, RebasedStamp, C.Inv, TableOk, Edits;
    UnsetPot(h, es, mac, pot);
    TableRunsPots(h, es, mac, pot);
    AgreesStamp(After(h, es), PotAfter(h, es, mac, pot), mac, pot);
  }

  lemma AgreesStamp(h: House, p: C.Pot, mac: seq<byte>, pot: nat)
    requires TableOk(h.table) && Agrees(h, p, mac, pot)
    ensures StampAt(h.table, mac, pot).Some? ==> StampAt(h.table, mac, pot).value == p.last
  {
  }

  lemma {:induction false} UnsetPot(h: House, es: seq<Change>, mac: seq<byte>, pot: nat)
    requires CanRun(h, es) && LastCompletion(h, es, mac, pot).None?
    requires StampAt(h.table, mac, pot).None? || StampAt(h.table, mac, pot).value == 0
    ensures PotAfter(h, es, mac, pot).last == 0
    decreases |es|
  {
    hide StampAt, Happen, Agrees, Covers, C.Inv, TableOk, Edits;
    if es != [] {
      var (init, e) := (es[..|es| - 1], es[|es| - 1]);
      TableRunsPots(h, init, mac, pot);
      AgreesClock(After(h, init), PotAfter(h, init, mac, pot), mac, pot);
      if StampAt(After(h, es).table, mac, pot).Some? { UnsetPot(h, init, mac, pot); }
    }
  }
}
