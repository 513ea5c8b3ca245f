/** The gateway's configuration (main/src/settings.cpp): the settings and the worker table,
    the plan of puts that saves them, and the clamping loader. */
module SettingsSpec {
  import opened Bytes
  import opened ClockMath
  import opened Nvs
  import opened PotMask
  import opened Utf8

  const MAX_WORKER_COUNT := 8
  const NAME_MAX := 64
  const DATA_SYNC_MIN := 60
  const DATA_SYNC_MAX := 2_419_200
  const INTERVAL_MIN := 60
  const INTERVAL_MAX := 2_419_200
  const PUMP_DELAY_MAX := 30
  const PUMP_TIMEOUT_MAX := 60
  const TZ_LIMIT := 840
  const LAST_SECOND := 86_399
  const DEFAULT_THRESHOLD: u16 := 2000
  const DEFAULT_DURATION: u16 := 5
  const DEFAULT_INTERVAL: u32 := 3600

  datatype Settings = Settings(
    name: seq<byte>, dataSyncInterval: u32, pumpDelaySeconds: byte, manualPumpTimeoutSeconds: byte,
    activeStart: u32, activeEnd: u32, savedUtcSec: u64, tzOffsetMinutes: i16, language: byte)

  /** Names as C strings; the arrays have sixteen entries, in use or not. */
  datatype Worker = Worker(
    mac: seq<byte>, workerName: seq<byte>, potCount: byte,
    thresholds: seq<u16>, durations: seq<u16>, waterIntervals: seq<u32>, lastWatering: seq<u32>,
    potNames: seq<seq<byte>>)

  datatype Config = Config(settings: Settings, workers: seq<Worker>)

  // The ranges that the mutators keep.

  predicate NameOk(name: seq<byte>) {
    Truncated(name, NAME_MAX) == name
  }

  predicate ValidSettings(s: Settings) {
    && DATA_SYNC_MIN <= s.dataSyncInterval <= DATA_SYNC_MAX
    && s.pumpDelaySeconds <= PUMP_DELAY_MAX
    && 1 <= s.manualPumpTimeoutSeconds <= PUMP_TIMEOUT_MAX
    && s.activeStart <= LAST_SECOND && s.activeEnd <= LAST_SECOND
    && -TZ_LIMIT <= s.tzOffsetMinutes <= TZ_LIMIT
    && (s.language == 0 || s.language == 1)
  }

  predicate PotOk(w: Worker, pot: nat)
    requires pot < MAX_POTS && Sized(w)
  {
    if pot < w.potCount as int
    then w.thresholds[pot] <= 4095 && 1 <= w.durations[pot] <= 60
         && INTERVAL_MIN <= w.waterIntervals[pot] <= INTERVAL_MAX && NameOk(w.potNames[pot])
    else w.potNames[pot] == []
  }

  predicate Sized(w: Worker) {
    && |w.mac| == 6 && |w.thresholds| == |w.durations| == MAX_POTS
    && |w.waterIntervals| == |w.lastWatering| == |w.potNames| == MAX_POTS
  }

  predicate WorkerOk(w: Worker) {
    && Sized(w) && 1 <= w.potCount <= MAX_POTS && NameOk(w.workerName)
    && forall pot :: 0 <= pot < MAX_POTS ==> PotOk(w, pot)
  }

  predicate DistinctMacs(ws: seq<Worker>) {
    forall i, j :: 0 <= i < j < |ws| ==> ws[i].mac != ws[j].mac
  }

  predicate TableOk(ws: seq<Worker>) {
    |ws| <= MAX_WORKER_COUNT && DistinctMacs(ws) && forall i :: 0 <= i < |ws| ==> WorkerOk(ws[i])
  }

  predicate ConfigOk(c: Config) {
    ValidSettings(c.settings) && NameOk(c.settings.name) && TableOk(c.workers)
  }

  // Saving.

  function SettingsPlan(s: Settings, workerCount: nat): seq<(Key, Value)>
    requires workerCount <= MAX_WORKER_COUNT
  {
    [(NAME, Str(s.name)), (DSINT, UInt(s.dataSyncInterval)), (PDELAY, UChar(s.pumpDelaySeconds)),
     (MPTIME, UChar(s.manualPumpTimeoutSeconds)), (START, UInt(s.activeStart)), (END, UInt(s.activeEnd)),
     (TZ, Int(s.tzOffsetMinutes)), (LANG, UChar(s.language)), (UTC64, Blob(Bytes64(s.savedUtcSec))),
     (WCOUNT, UInt(workerCount))]
  }

  function WorkerFields(i: nat, w: Worker): seq<(Key, Value)> {
    [(WMAC(i), Blob(w.mac)), (WNAME(i), Str(w.workerName)), (WPC(i), UChar(w.potCount)),
     (WTHARR(i), Blob(Bytes16(w.thresholds))), (WDURARR(i), Blob(Bytes16(w.durations))),
     (WINTARR(i), Blob(Bytes32(w.waterIntervals))), (WLASTARR(i), Blob(Bytes32(w.lastWatering)))]
  }

  function PotNamePlan(i: nat, names: seq<seq<byte>>): seq<(Key, Value)> {
    seq(|names|, pot requires 0 <= pot < |names| => (WPNM(i, pot), Str(names[pot])))
  }

  function WorkerPlan(i: nat, w: Worker): seq<(Key, Value)>
    requires Sized(w) && w.potCount <= MAX_POTS
  {
    WorkerFields(i, w) + PotNamePlan(i, w.potNames[..w.potCount as int])
  }

  function TablePlan(ws: seq<Worker>): seq<(Key, Value)>
    requires forall i :: 0 <= i < |ws| ==> Sized(ws[i]) && ws[i].potCount <= MAX_POTS
  {
    if ws == [] then [] else TablePlan(ws[..|ws| - 1]) + WorkerPlan(|ws| - 1, ws[|ws| - 1])
  }

  /** Everything writeSnapshot considers putting, in its order. */
  function SavePlan(c: Config): seq<(Key, Value)>
    requires ConfigOk(c)
  {
    SettingsPlan(c.settings, |c.workers|) + TablePlan(c.workers)
  }

  // Loading.

  function Clamp(x: int, low: int, high: int): (r: int)
    requires low <= high
    ensures low <= r <= high
  {
    if x < low then low else if x > high then high else x
  }

  function LoadedUtc(st: Store, tz: i16): u64 {
    var (n, b) := GetBytes(st, UTC64, Bytes64(0));
    if n == 8 then Word64(b)
    else
      var (m, legacy) := GetBytes(st, EPOCH64, Bytes64(0));
      // An eight-byte read never happened, so the field keeps what was read into it.
      if m == 8 then
        var migrated := ToInt64(Word64(legacy)) - tz as int * 60;
        if 0 < migrated <= 0x7FFF_FFFF_FFFF_FFFF then migrated else 0
      else Word64(b)
  }

  function LoadedSettings(st: Store, defaultName: seq<byte>): (s: Settings)
    ensures ValidSettings(s) && |s.name| <= NAME_MAX
  {
    var tz := Clamp(GetInt(st, TZ, 0), -TZ_LIMIT, TZ_LIMIT);
    Settings(
      Truncated(GetString(st, NAME, defaultName), NAME_MAX),
      Clamp(GetUInt(st, DSINT, 3600), DATA_SYNC_MIN, DATA_SYNC_MAX),
      Clamp(GetUChar(st, PDELAY, 1), 0, PUMP_DELAY_MAX),
      Clamp(GetUChar(st, MPTIME, 10), 1, PUMP_TIMEOUT_MAX),
      Clamp(GetUInt(st, START, 0), 0, LAST_SECOND),
      Clamp(GetUInt(st, END, LAST_SECOND), 0, LAST_SECOND),
      LoadedUtc(st, tz), tz,
      if GetUChar(st, LANG, 0) == 1 then 1 else 0)
  }

  /** The static_cast<int> of the stored count, cut to the table's size. */
  function StoredCount(st: Store): int {
    var n := GetUInt(st, WCOUNT, 0);
    if n >= 0x8000_0000 then n - 0x1_0000_0000 else if n < MAX_WORKER_COUNT then n else MAX_WORKER_COUNT
  }

  function Words(st: Store, k: Key, default_: u16): (vs: seq<u16>)
    ensures |vs| == MAX_POTS
  {
    Words16(GetBytes(st, k, Bytes16(seq(MAX_POTS, _ => default_))).1)
  }

  /** Only a blob of the exact size is read. */
  function WordsExact(st: Store, k: Key, default_: u32): (vs: seq<u32>)
    ensures |vs| == MAX_POTS
  {
    if BytesLength(st, k) == 4 * MAX_POTS then Words32(st[k].b) else seq(MAX_POTS, _ => default_)
  }

  function LoadedWorker(st: Store, i: nat, mac: seq<byte>): (w: Worker)
    requires |mac| == 6
    ensures Sized(w) && 1 <= w.potCount <= MAX_POTS && w.mac == mac
  {
    var n := Clamp(GetUChar(st, WPC(i), 1), 1, MAX_POTS);
    var th, du, it := Words(st, WTHARR(i), DEFAULT_THRESHOLD), Words(st, WDURARR(i), DEFAULT_DURATION),
                      WordsExact(st, WINTARR(i), DEFAULT_INTERVAL);
    Worker(mac, Truncated(GetString(st, WNAME(i), []), NAME_MAX), n,
      seq(MAX_POTS, p requires 0 <= p < MAX_POTS => if p < n && th[p] > 4095 then 4095 else th[p]),
      seq(MAX_POTS, p requires 0 <= p < MAX_POTS => if p < n then Clamp(du[p], 1, 60) else du[p]),
      seq(MAX_POTS, p requires 0 <= p < MAX_POTS => if p < n then Clamp(it[p], INTERVAL_MIN, INTERVAL_MAX) else it[p]),
      WordsExact(st, WLASTARR(i), 0),
      seq(MAX_POTS, p requires 0 <= p < MAX_POTS =>
        if p < n then Truncated(GetString(st, WPNM(i, p), []), NAME_MAX) else []))
  }

  predicate HasMac(ws: seq<Worker>, mac: seq<byte>) {
    exists i :: 0 <= i < |ws| && ws[i].mac == mac
  }

  /** Slots without a six-byte address, and repeated addresses, are skipped. */
  function LoadedTable(st: Store, slots: nat): (ws: seq<Worker>)
    ensures |ws| <= slots
  {
    if slots == 0 then []
    else
      var ws := LoadedTable(st, slots - 1);
      var (n, mac) := GetBytes(st, WMAC(slots - 1), [0, 0, 0, 0, 0, 0]);
      if n != 6 || HasMac(ws, mac) then ws else ws + [LoadedWorker(st, slots - 1, mac)]
  }

  function Loaded(st: Store, defaultName: seq<byte>): Config {
    Config(LoadedSettings(st, defaultName), LoadedTable(st, if StoredCount(st) < 0 then 0 else StoredCount(st)))
  }
}
