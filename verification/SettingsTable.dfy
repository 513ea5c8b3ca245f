/** What the mutators of main/src/settings.cpp do to the worker table, and that they keep
    it within the ranges that survive a save. */
module SettingsTable {
  import opened Bytes
  import opened ClockMath
  import opened PotMask
  import opened Utf8
  import opened SettingsSpec

  /** findWorkerLocked: the slot, or the table's length when there is none. */
  function Find(ws: seq<Worker>, mac: seq<byte>): (i: nat)
    ensures i <= |ws|
    ensures i < |ws| ==> ws[i].mac == mac
    ensures forall j :: 0 <= j < i ==> ws[j].mac != mac
  {
    if ws == [] then 0 else if ws[0].mac == mac then 0 else 1 + Find(ws[1..], mac)
  }

  predicate LimitsOk(threshold: u16, duration: u16) {
    threshold <= 4095 && 1 <= duration <= 60
  }

  /** initializeWorker for one pot, with that pot's limits. */
  function NewWorker(mac: seq<byte>, name: seq<byte>, threshold: u16, duration: u16): Worker {
    var none := seq(MAX_POTS - 1, _ => 0);
    Worker(mac, Truncated(name, NAME_MAX), 1, [threshold] + none, [duration] + none, [DEFAULT_INTERVAL] + none, [0] + none,
           seq(MAX_POTS, _ => []))
  }

  /** Pots from the present count up to `n` with their defaults. */
  function Grown(w: Worker, n: nat): Worker
    requires Sized(w) && n <= MAX_POTS
  {
    if n <= w.potCount as int then w
    else
      var k := w.potCount as int;
      w.(potCount := n,
         thresholds := w.thresholds[..k] + seq(n - k, _ => DEFAULT_THRESHOLD) + w.thresholds[n..],
         durations := w.durations[..k] + seq(n - k, _ => DEFAULT_DURATION) + w.durations[n..],
         waterIntervals := w.waterIntervals[..k] + seq(n - k, _ => DEFAULT_INTERVAL) + w.waterIntervals[n..],
         lastWatering := w.lastWatering[..k] + seq(n - k, _ => 0) + w.lastWatering[n..],
         potNames := w.potNames[..k] + seq(n - k, _ => []) + w.potNames[n..])
  }

  function Renamed(w: Worker, name: Option<seq<byte>>): Worker {
    if name.None? then w else w.(workerName := Truncated(name.value, NAME_MAX))
  }

  function PotUpdated(w: Worker, pot: nat, threshold: u16, duration: u16, interval: u32, name: Option<seq<byte>>): Worker
    requires Sized(w) && pot < MAX_POTS
  {
    var g := Grown(w, pot + 1);
    g.(thresholds := g.thresholds[pot := threshold], durations := g.durations[pot := duration],
       waterIntervals := g.waterIntervals[pot := interval],
       potNames := if name.None? then g.potNames else g.potNames[pot := Truncated(name.value, NAME_MAX)])
  }

  /** The stamping of applyCompletedAutoWatering. */
  function Stamped(w: Worker, mask: u16, completed: u32): Worker
    requires Sized(w)
  {
    w.(lastWatering := seq(MAX_POTS, p requires 0 <= p < MAX_POTS =>
         if p < w.potCount as int && Bit(mask, p) then completed else w.lastWatering[p]))
  }

  /** The rebasing of one worker's history. */
  function Rebased(w: Worker, oldNow: u64, newNow: u64): Worker
    requires Sized(w) && 0 < newNow <= U32_MAX
  {
    w.(lastWatering := seq(MAX_POTS, p requires 0 <= p < MAX_POTS =>
         if p < w.potCount as int then RebasedStamp(oldNow, newNow, w.lastWatering[p]) else w.lastWatering[p]))
  }

  /** recordCompletedAutoWateringBatch: each completion stamps its worker, if that is
      still configured. */
  function Recorded(ws: seq<Worker>, completions: seq<(seq<byte>, u16)>, completed: u32): (us: seq<Worker>)
    requires TableOk(ws)
    ensures TableOk(us) && |us| == |ws|
    decreases |completions|
  {
    if completions == [] then ws
    else
      var init, last := completions[..|completions| - 1], completions[|completions| - 1];
      var us := Recorded(ws, init, completed);
      var i := Find(us, last.0);
      if i == |us| then us
      else
        HistoryOk(us[i], Stamped(us[i], last.1, completed));
        ReplacedOk(us, i, Stamped(us[i], last.1, completed));
        us[i := Stamped(us[i], last.1, completed)]
  }

  /** rebaseLastAutoWateringTimestamps over the first `n` workers. */
  function RebasedTable(ws: seq<Worker>, n: nat, oldNow: u64, newNow: u64): (us: seq<Worker>)
    requires TableOk(ws) && n <= |ws| && 0 < newNow <= U32_MAX
    ensures TableOk(us) && |us| == |ws|
    ensures forall i :: n <= i < |ws| ==> us[i] == ws[i]
  {
    if n == 0 then ws
    else
      var us := RebasedTable(ws, n - 1, oldNow, newNow);
      HistoryOk(us[n - 1], Rebased(us[n - 1], oldNow, newNow));
      ReplacedOk(us, n - 1, Rebased(us[n - 1], oldNow, newNow));
      us[n - 1 := Rebased(us[n - 1], oldNow, newNow)]
  }

  // What the mutators do to each field.

  predicate SamePot(w: Worker, u: Worker, p: nat)
    requires Sized(w) && Sized(u) && p < MAX_POTS
  {
    && u.thresholds[p] == w.thresholds[p] && u.durations[p] == w.durations[p] && u.waterIntervals[p] == w.waterIntervals[p]
    && u.lastWatering[p] == w.lastWatering[p] && u.potNames[p] == w.potNames[p]
  }

  /** A pot as it comes into use: 2000 mV, five seconds, an hour, never watered, no name. */
  predicate FreshPot(u: Worker, p: nat)
    requires Sized(u) && p < MAX_POTS
  {
    && u.thresholds[p] == 2000 && u.durations[p] == 5 && u.waterIntervals[p] == 3600
    && u.lastWatering[p] == 0 && u.potNames[p] == []
  }

  /** Pots come into use up to `n`, as fresh ones; the others stay as they are. */
  ghost predicate GrownTo(w: Worker, u: Worker, n: nat) {
    && Sized(w) && Sized(u) && n <= MAX_POTS
    && u.mac == w.mac && u.workerName == w.workerName
    && u.potCount as int == (if n <= w.potCount as int then w.potCount as int else n)
    && forall p :: 0 <= p < MAX_POTS ==> if w.potCount as int <= p < n then FreshPot(u, p) else SamePot(w, u, p)
  }

  /** The pot has what the user gave, and keeps what the user did not give. */
  ghost predicate PotGiven(w: Worker, u: Worker, pot: nat, threshold: u16, duration: u16, interval: u32, name: Option<seq<byte>>) {
    && Sized(w) && Sized(u) && pot < MAX_POTS
    && u.mac == w.mac && u.workerName == w.workerName
    && u.potCount as int == (if pot < w.potCount as int then w.potCount as int else pot + 1)
    && u.thresholds[pot] == threshold && u.durations[pot] == duration && u.waterIntervals[pot] == interval
    && u.lastWatering[pot] == (if pot < w.potCount as int then w.lastWatering[pot] else 0)
    && u.potNames[pot] == (if name.Some? then Truncated(name.value, 64) else if pot < w.potCount as int then w.potNames[pot] else [])
    && forall p :: 0 <= p < MAX_POTS && p != pot ==> if w.potCount as int <= p < pot then FreshPot(u, p) else SamePot(w, u, p)
  }

  lemma GrownFields(w: Worker, n: nat)
    requires Sized(w) && n <= MAX_POTS
    ensures GrownTo(w, Grown(w, n), n)
  {
  }

  lemma UpdatedFields(w: Worker, pot: nat, threshold: u16, duration: u16, interval: u32, name: Option<seq<byte>>)
    requires Sized(w) && pot < MAX_POTS
    ensures PotGiven(w, PotUpdated(w, pot, threshold, duration, interval, name), pot, threshold, duration, interval, name)
  {
    hide Grown, Truncated;
    var g := Grown(w, pot + 1);
    GrownFields(w, pot + 1);
    forall p | 0 <= p < MAX_POTS && p != pot
      ensures var u := PotUpdated(w, pot, threshold, duration, interval, name);
              if w.potCount as int <= p < pot then FreshPot(u, p) else SamePot(w, u, p)
    {
      assert if w.potCount as int <= p < pot + 1 then FreshPot(g, p) else SamePot(w, g, p);
    }
    assert if w.potCount as int <= pot then FreshPot(g, pot) else SamePot(w, g, pot);
  }

  /** A new worker has one pot with the given limits, the default interval and no stamp. */
  lemma NewFields(mac: seq<byte>, name: seq<byte>, threshold: u16, duration: u16)
    requires |mac| == 6
    ensures var u := NewWorker(mac, name, threshold, duration);
            && Sized(u) && u.mac == mac && u.workerName == Truncated(name, 64) && u.potCount == 1
            && u.thresholds[0] == threshold && u.durations[0] == duration && u.waterIntervals[0] == 3600
            && u.lastWatering[0] == 0 && u.potNames[0] == []
  {
    hide Truncated;
  }

  lemma RenamedFields(w: Worker, name: Option<seq<byte>>)
    requires Sized(w)
    ensures var u := Renamed(w, name);
            && Sized(u) && u.mac == w.mac && u.potCount == w.potCount && (forall p :: 0 <= p < MAX_POTS ==> SamePot(w, u, p))
            && u.workerName == if name.Some? then Truncated(name.value, 64) else w.workerName
  {
    hide Truncated;
  }

  // The mutators keep the table fit for saving.

  lemma NewWorkerOk(mac: seq<byte>, name: seq<byte>, threshold: u16, duration: u16)
    requires |mac| == 6 && LimitsOk(threshold, duration)
    ensures WorkerOk(NewWorker(mac, name, threshold, duration))
  {
    hide Truncated;
    TruncatedIdempotent(name, NAME_MAX);
    EmptyName();
  }

  lemma EmptyName()
    ensures NameOk([])
  {
  }

  lemma GrownOk(w: Worker, n: nat)
    requires WorkerOk(w) && n <= MAX_POTS
    ensures WorkerOk(Grown(w, n)) && Grown(w, n).mac == w.mac
    ensures Grown(w, n).potCount as int == if n <= w.potCount as int then w.potCount as int else n
  {
    hide Truncated;
    EmptyName();
    var g := Grown(w, n);
    forall pot | 0 <= pot < MAX_POTS ensures PotOk(g, pot) {
      assert PotOk(w, pot);
    }
  }

  lemma RenamedOk(w: Worker, name: Option<seq<byte>>)
    requires WorkerOk(w)
    ensures WorkerOk(Renamed(w, name)) && Renamed(w, name).mac == w.mac
  {
    hide Truncated;
    if name.Some? { TruncatedIdempotent(name.value, NAME_MAX); }
    forall pot | 0 <= pot < MAX_POTS ensures PotOk(Renamed(w, name), pot) {
      assert PotOk(w, pot);
    }
  }

  lemma PotUpdatedOk(w: Worker, pot: nat, threshold: u16, duration: u16, interval: u32, name: Option<seq<byte>>)
    requires WorkerOk(w) && pot < MAX_POTS && LimitsOk(threshold, duration) && INTERVAL_MIN <= interval <= INTERVAL_MAX
    ensures WorkerOk(PotUpdated(w, pot, threshold, duration, interval, name))
    ensures PotUpdated(w, pot, threshold, duration, interval, name).mac == w.mac
  {
    hide Truncated, Grown;
    GrownOk(w, pot + 1);
    var g, u := Grown(w, pot + 1), PotUpdated(w, pot, threshold, duration, interval, name);
    if name.Some? { TruncatedIdempotent(name.value, NAME_MAX); }
    forall p | 0 <= p < MAX_POTS ensures PotOk(u, p) {
      assert PotOk(g, p);
    }
  }

  lemma HistoryOk(w: Worker, u: Worker)
    requires WorkerOk(w) && |u.lastWatering| == MAX_POTS && u == w.(lastWatering := u.lastWatering)
    ensures WorkerOk(u)
  {
    hide NameOk;
    forall p | 0 <= p < MAX_POTS ensures PotOk(u, p) {
      assert PotOk(w, p);
    }
  }

  lemma ReplacedOk(ws: seq<Worker>, i: nat, w: Worker)
    requires TableOk(ws) && i < |ws| && WorkerOk(w) && w.mac == ws[i].mac
    ensures TableOk(ws[i := w])
  {
  }

  lemma AppendedOk(ws: seq<Worker>, w: Worker)
    requires TableOk(ws) && |ws| < MAX_WORKER_COUNT && WorkerOk(w) && Find(ws, w.mac) == |ws|
    ensures TableOk(ws + [w])
  {
  }

  lemma RemovedOk(ws: seq<Worker>, i: nat)
    requires TableOk(ws) && i < |ws|
    ensures TableOk(ws[..i] + ws[i + 1..]) && Find(ws[..i] + ws[i + 1..], ws[i].mac) == |ws| - 1
  {
    hide WorkerOk;
    var rest := ws[..i] + ws[i + 1..];
    forall j | 0 <= j < |rest| ensures rest[j].mac != ws[i].mac {
      assert rest[j] == if j < i then ws[j] else ws[j + 1];
    }
  }

  lemma {:induction false} FindIs(ws: seq<Worker>, mac: seq<byte>, i: nat)
    requires i <= |ws| && (i < |ws| ==> ws[i].mac == mac) && forall j :: 0 <= j < i ==> ws[j].mac != mac
    ensures Find(ws, mac) == i
  {
  }

  /** Adding a worker and removing it again leaves the table as it was. */
  lemma RemoveUndoesAdd(ws: seq<Worker>, w: Worker)
    requires Find(ws, w.mac) == |ws|
    ensures var t := ws + [w]; var i := Find(t, w.mac); i == |ws| && t[..i] + t[i + 1..] == ws
  {
    hide Find;
    var t := ws + [w];
    forall j | 0 <= j < |ws| ensures t[j].mac != w.mac {
      assert t[j] == ws[j];
    }
    FindIs(t, w.mac, |ws|);
    assert t[..|ws|] == ws && t[|ws| + 1..] == [];
  }
}
