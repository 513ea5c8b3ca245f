/** Saving and loading the configuration again. */
module SettingsRoundTrip {
  import opened Bytes
  import opened Nvs
  import opened PotMask
  import opened Utf8
  import opened SettingsSpec

  // The loader accepts any store.

  lemma NameIsOk(s: seq<byte>)
    ensures NameOk(Truncated(s, NAME_MAX))
  {
    TruncatedIdempotent(s, NAME_MAX);
  }

  lemma LoadedWorkerOk(st: Store, i: nat, mac: seq<byte>)
    requires |mac| == 6
    ensures WorkerOk(LoadedWorker(st, i, mac))
  {
    hide Truncated, Words, WordsExact;
    var w := LoadedWorker(st, i, mac);
    NameIsOk(GetString(st, WNAME(i), []));
    forall pot | 0 <= pot < MAX_POTS ensures PotOk(w, pot) {
      NameIsOk(GetString(st, WPNM(i, pot), []));
    }
  }

  lemma {:induction false} LoadedTableOk(st: Store, slots: nat)
    requires slots <= MAX_WORKER_COUNT
    ensures TableOk(LoadedTable(st, slots))
  {
    hide WorkerOk, LoadedWorker;
    if slots > 0 {
      LoadedTableOk(st, slots - 1);
      var (n, mac) := GetBytes(st, WMAC(slots - 1), [0, 0, 0, 0, 0, 0]);
      var ws := LoadedTable(st, slots - 1);
      if n == 6 && !HasMac(ws, mac) {
        LoadedWorkerOk(st, slots - 1, mac);
        MacKept(st, slots - 1, mac);
        OneMoreOk(ws, LoadedWorker(st, slots - 1, mac));
      }
    }
  }

  lemma MacKept(st: Store, i: nat, mac: seq<byte>)
    requires |mac| == 6
    ensures LoadedWorker(st, i, mac).mac == mac
  {
  }

  lemma OneMoreOk(ws: seq<Worker>, w: Worker)
    requires TableOk(ws) && |ws| < MAX_WORKER_COUNT && WorkerOk(w) && !HasMac(ws, w.mac)
    ensures TableOk(ws + [w])
  {
    hide WorkerOk;
  }

  /** Whatever the store holds, the loaded configuration is within the ranges that the
      mutators keep. */
  lemma LoadedIsOk(st: Store, defaultName: seq<byte>)
    ensures ConfigOk(Loaded(st, defaultName))
  {
    hide LoadedTable, TableOk, ValidSettings;
    NameIsOk(GetString(st, NAME, defaultName));
    LoadedTableOk(st, if StoredCount(st) < 0 then 0 else StoredCount(st));
  }

  // The plan has one entry for each key.

  function SlotOf(k: Key): Option<nat> {
    match k
    case WMAC(i) => Some(i)
    case WNAME(i) => Some(i)
    case WPC(i) => Some(i)
    case WTHARR(i) => Some(i)
    case WDURARR(i) => Some(i)
    case WINTARR(i) => Some(i)
    case WLASTARR(i) => Some(i)
    case WPNM(i, _) => Some(i)
    case _ => None
  }

  ghost predicate InSlot(plan: seq<(Key, Value)>, slot: nat) {
    forall x <- plan :: SlotOf(x.0) == Some(slot)
  }

  ghost predicate InSlotsBelow(plan: seq<(Key, Value)>, n: nat) {
    forall x <- plan :: SlotOf(x.0).Some? && SlotOf(x.0).value < n
  }

  lemma DistinctJoin(a: seq<(Key, Value)>, b: seq<(Key, Value)>)
    requires DistinctKeys(a) && DistinctKeys(b)
    requires forall x <- a, y <- b :: x.0 != y.0
    ensures DistinctKeys(a + b)
  {
  }

  /** The kinds of a worker's keys, in the order in which they are written. */
  function Kind(k: Key): nat {
    match k
    case WMAC(_) => 0
    case WNAME(_) => 1
    case WPC(_) => 2
    case WTHARR(_) => 3
    case WDURARR(_) => 4
    case WINTARR(_) => 5
    case WLASTARR(_) => 6
    case _ => 7
  }

  lemma FieldKind(i: nat, w: Worker, j: nat)
    requires j < 7
    ensures var k := WorkerFields(i, w)[j].0; Kind(k) == j && SlotOf(k) == Some(i) && !k.WPNM?
  {
    hide Bytes16, Bytes32;
  }

  lemma FieldKeys(i: nat, w: Worker)
    ensures DistinctKeys(WorkerFields(i, w)) && InSlot(WorkerFields(i, w), i)
    ensures forall x <- WorkerFields(i, w) :: !x.0.WPNM?
  {
    hide Kind, SlotOf;
    var f := WorkerFields(i, w);
    assert |f| == 7;
    hide WorkerFields;
    forall j | 0 <= j < 7 ensures Kind(f[j].0) == j && SlotOf(f[j].0) == Some(i) && !f[j].0.WPNM? { FieldKind(i, w, j); }
    forall j, k | 0 <= j < k < 7 ensures f[j].0 != f[k].0 {
      assert Kind(f[j].0) == j && Kind(f[k].0) == k;
    }
  }

  lemma PotNameKeys(i: nat, names: seq<seq<byte>>)
    ensures DistinctKeys(PotNamePlan(i, names)) && InSlot(PotNamePlan(i, names), i)
    ensures forall x <- PotNamePlan(i, names) :: x.0.WPNM?
  {
  }

  lemma WorkerPlanKeys(i: nat, w: Worker)
    requires Sized(w) && w.potCount <= MAX_POTS
    ensures DistinctKeys(WorkerPlan(i, w)) && InSlot(WorkerPlan(i, w), i)
  {
    hide WorkerFields, PotNamePlan, DistinctKeys;
    var names := w.potNames[..w.potCount as int];
    FieldKeys(i, w);
    PotNameKeys(i, names);
    DistinctJoin(WorkerFields(i, w), PotNamePlan(i, names));
  }

  lemma {:induction false} TablePlanKeys(ws: seq<Worker>)
    requires forall i :: 0 <= i < |ws| ==> Sized(ws[i]) && ws[i].potCount <= MAX_POTS
    ensures DistinctKeys(TablePlan(ws)) && InSlotsBelow(TablePlan(ws), |ws|)
  {
    hide WorkerPlan;
    if ws != [] {
      var n := |ws| - 1;
      TablePlanKeys(ws[..n]);
      WorkerPlanKeys(n, ws[n]);
      DistinctJoin(TablePlan(ws[..n]), WorkerPlan(n, ws[n]));
    }
  }

  function SettingKind(k: Key): int {
    match k
    case NAME => 0
    case DSINT => 1
    case PDELAY => 2
    case MPTIME => 3
    case START => 4
    case END => 5
    case TZ => 6
    case LANG => 7
    case UTC64 => 8
    case WCOUNT => 9
    case _ => -1
  }

  lemma SettingsPlanKind(s: Settings, workerCount: nat, j: nat)
    requires workerCount <= MAX_WORKER_COUNT && j < 10
    ensures var k := SettingsPlan(s, workerCount)[j].0; SettingKind(k) == j && SlotOf(k) == None
  {
  }

  lemma SettingsPlanKeys(s: Settings, workerCount: nat)
    requires workerCount <= MAX_WORKER_COUNT
    ensures DistinctKeys(SettingsPlan(s, workerCount))
    ensures forall x <- SettingsPlan(s, workerCount) :: SlotOf(x.0) == None
  {
    hide SettingKind, SlotOf;
    var plan := SettingsPlan(s, workerCount);
    assert |plan| == 10;
    hide SettingsPlan;
    forall j | 0 <= j < 10 ensures SettingKind(plan[j].0) == j && SlotOf(plan[j].0) == None { SettingsPlanKind(s, workerCount, j); }
    forall j, k | 0 <= j < k < 10 ensures plan[j].0 != plan[k].0 {
      assert SettingKind(plan[j].0) == j && SettingKind(plan[k].0) == k;
    }
  }

  lemma SavePlanKeys(c: Config)
    requires ConfigOk(c)
    ensures DistinctKeys(SavePlan(c))
  {
    hide TablePlan, SettingsPlan, DistinctKeys, ValidSettings, NameOk, DistinctMacs;
    WorkersSized(c.workers);
    TablePlanKeys(c.workers);
    SettingsPlanKeys(c.settings, |c.workers|);
    DistinctJoin(SettingsPlan(c.settings, |c.workers|), TablePlan(c.workers));
  }

  lemma WorkersSized(ws: seq<Worker>)
    requires TableOk(ws)
    ensures forall i :: 0 <= i < |ws| ==> Sized(ws[i]) && ws[i].potCount <= MAX_POTS
  {
  }

  /** Every entry of the plan reads back after the save. */
  lemma ReadsBack(st: Store, c: Config, x: (Key, Value))
    requires ConfigOk(c) && x in SavePlan(c)
    ensures Unchanged(Save(st, SavePlan(c)), x.0, x.1)
  {
    hide ConfigOk, Save, Unchanged;
    SavePlanKeys(c);
    var i :| 0 <= i < |SavePlan(c)| && SavePlan(c)[i] == x;
    SaveTakes(st, SavePlan(c), i);
  }

  lemma {:induction false} WorkerInTable(ws: seq<Worker>, i: nat, x: (Key, Value))
    requires forall i :: 0 <= i < |ws| ==> Sized(ws[i]) && ws[i].potCount <= MAX_POTS
    requires i < |ws| && x in WorkerPlan(i, ws[i])
    ensures x in TablePlan(ws)
  {
    hide WorkerPlan;
    if i < |ws| - 1 { WorkerInTable(ws[..|ws| - 1], i, x); }
  }

  // Reading a worker back.

  lemma BlobBack(st: Store, k: Key, b: seq<byte>, buffer: seq<byte>)
    requires |b| == |buffer| > 0 && Unchanged(st, k, Blob(b))
    ensures GetBytes(st, k, buffer) == (|b|, b)
  {
    assert b + buffer[|b|..] == b;
  }

  lemma WordsBack(st: Store, k: Key, vs: seq<u16>, default_: u16)
    requires |vs| == MAX_POTS && Unchanged(st, k, Blob(Bytes16(vs)))
    ensures Words(st, k, default_) == vs
  {
    hide Bytes16, Words16;
    Words16Inverse(vs);
    assert Bytes16(vs) + Bytes16(seq(MAX_POTS, _ => default_))[32..] == Bytes16(vs);
  }

  lemma WordsExactBack(st: Store, k: Key, vs: seq<u32>, default_: u32)
    requires |vs| == MAX_POTS && Unchanged(st, k, Blob(Bytes32(vs)))
    ensures WordsExact(st, k, default_) == vs
  {
    hide Bytes32, Words32;
    Words32Inverse(vs);
  }

  /** The slot of a saved worker. */
  ghost predicate SlotHolds(st: Store, i: nat, w: Worker)
    requires Sized(w) && w.potCount <= MAX_POTS
  {
    forall x <- WorkerPlan(i, w) :: Unchanged(st, x.0, x.1)
  }

  lemma FieldHeld(st: Store, i: nat, w: Worker, k: nat)
    requires Sized(w) && w.potCount <= MAX_POTS && SlotHolds(st, i, w) && k < 7
    ensures Unchanged(st, WorkerFields(i, w)[k].0, WorkerFields(i, w)[k].1)
  {
  }

  lemma SlotArrays(st: Store, i: nat, w: Worker)
    requires WorkerOk(w) && SlotHolds(st, i, w)
    ensures Words(st, WTHARR(i), DEFAULT_THRESHOLD) == w.thresholds && Words(st, WDURARR(i), DEFAULT_DURATION) == w.durations
    ensures WordsExact(st, WINTARR(i), DEFAULT_INTERVAL) == w.waterIntervals && WordsExact(st, WLASTARR(i), 0) == w.lastWatering
  {
    hide PotOk, NameOk, Words, WordsExact, Bytes16, Bytes32, SlotHolds, Unchanged;
    FieldHeld(st, i, w, 3);
    FieldHeld(st, i, w, 4);
    FieldHeld(st, i, w, 5);
    FieldHeld(st, i, w, 6);
    WordsBack(st, WTHARR(i), w.thresholds, DEFAULT_THRESHOLD);
    WordsBack(st, WDURARR(i), w.durations, DEFAULT_DURATION);
    WordsExactBack(st, WINTARR(i), w.waterIntervals, DEFAULT_INTERVAL);
    WordsExactBack(st, WLASTARR(i), w.lastWatering, 0);
  }

  lemma SlotHead(st: Store, i: nat, w: Worker)
    requires WorkerOk(w) && SlotHolds(st, i, w)
    ensures GetBytes(st, WMAC(i), [0, 0, 0, 0, 0, 0]) == (6, w.mac)
    ensures GetString(st, WNAME(i), []) == w.workerName && GetUChar(st, WPC(i), 1) == w.potCount
  {
    hide PotOk, NameOk, Bytes16, Bytes32, SlotHolds;
    FieldHeld(st, i, w, 0);
    FieldHeld(st, i, w, 1);
    FieldHeld(st, i, w, 2);
    BlobBack(st, WMAC(i), w.mac, [0, 0, 0, 0, 0, 0]);
  }

  lemma SlotPotName(st: Store, i: nat, w: Worker, pot: nat)
    requires WorkerOk(w) && SlotHolds(st, i, w) && pot < w.potCount as int
    ensures GetString(st, WPNM(i, pot), []) == w.potNames[pot]
  {
    hide PotOk, NameOk, WorkerFields;
    var x := PotNamePlan(i, w.potNames[..w.potCount as int])[pot];
    assert x in WorkerPlan(i, w);
  }

  lemma WorkerBack(st: Store, i: nat, w: Worker)
    requires WorkerOk(w) && SlotHolds(st, i, w)
    ensures GetBytes(st, WMAC(i), [0, 0, 0, 0, 0, 0]) == (6, w.mac) && LoadedWorker(st, i, w.mac) == w
  {
    hide SlotHolds, Words, WordsExact, Truncated, GetString, GetUChar, GetBytes;
    SlotHead(st, i, w);
    SlotArrays(st, i, w);
    var l := LoadedWorker(st, i, w.mac);
    forall pot | 0 <= pot < MAX_POTS
      ensures l.thresholds[pot] == w.thresholds[pot] && l.durations[pot] == w.durations[pot]
      ensures l.waterIntervals[pot] == w.waterIntervals[pot] && l.potNames[pot] == w.potNames[pot]
    {
      assert PotOk(w, pot);
      if pot < w.potCount as int { SlotPotName(st, i, w, pot); }
    }
  }

  lemma NoEarlierMac(ws: seq<Worker>, n: nat)
    requires DistinctMacs(ws) && n < |ws|
    ensures !HasMac(ws[..n], ws[n].mac)
  {
  }

  lemma {:induction false} TableBack(st: Store, ws: seq<Worker>, n: nat)
    requires TableOk(ws) && n <= |ws|
    requires forall i :: 0 <= i < n ==> Sized(ws[i]) && ws[i].potCount <= MAX_POTS && SlotHolds(st, i, ws[i])
    ensures LoadedTable(st, n) == ws[..n]
  {
    hide SlotHolds, LoadedWorker, WorkerOk, GetBytes, DistinctMacs;
    if n > 0 {
      TableBack(st, ws, n - 1);
      WorkerBack(st, n - 1, ws[n - 1]);
      NoEarlierMac(ws, n - 1);
      assert ws[..n - 1] + [ws[n - 1]] == ws[..n];
    }
  }

  lemma SettingsHeld(st: Store, c: Config, k: nat)
    requires ConfigOk(c) && k < 10
    ensures var x := SettingsPlan(c.settings, |c.workers|)[k];
            Unchanged(Save(st, SavePlan(c)), x.0, x.1)
  {
    hide Unchanged, TablePlan, Save, ValidSettings, Bytes64;
    ReadsBack(st, c, SettingsPlan(c.settings, |c.workers|)[k]);
  }

  /** A name is lost exactly when it is empty and none was ever stored: the reload then
      falls back to the default. */
  predicate NameSurvives(st: Store, name: seq<byte>) {
    name != [] || (NAME in st && st[NAME].Str?)
  }

  lemma NameBack(st: Store, c: Config, defaultName: seq<byte>)
    requires ConfigOk(c)
    ensures Truncated(GetString(Save(st, SavePlan(c)), NAME, defaultName), NAME_MAX)
            == if NameSurvives(st, c.settings.name) then c.settings.name else Truncated(defaultName, NAME_MAX)
  {
    hide Save, TablePlan, Truncated, ValidSettings, Bytes64;
    SettingsHeld(st, c, 0);
    SavePlanKeys(c);
    var plan := SavePlan(c);
    assert forall i :: 0 <= i < |plan| && plan[i].0 == NAME ==> i == 0 by { assert plan[0].0 == NAME; }
    assert plan[0] == (NAME, Str(c.settings.name));
    if NAME in st && st[NAME].Str? {
      SaveKeepsString(st, plan, NAME);
    } else if c.settings.name == [] {
      EmptyNameNotStored(st, plan);
    }
  }

  lemma {:induction false} EmptyNameNotStored(st: Store, plan: seq<(Key, Value)>)
    requires !(NAME in st && st[NAME].Str?)
    requires forall i :: 0 <= i < |plan| && plan[i].0 == NAME ==> plan[i].1 == Str([])
    ensures !(NAME in Save(st, plan) && Save(st, plan)[NAME].Str?)
  {
    if plan != [] { EmptyNameNotStored(st, plan[..|plan| - 1]); }
  }

  lemma SettingsBack(st: Store, c: Config, defaultName: seq<byte>)
    requires ConfigOk(c)
    ensures var s := LoadedSettings(Save(st, SavePlan(c)), defaultName);
            s.(name := []) == c.settings.(name := [])
    ensures StoredCount(Save(st, SavePlan(c))) == |c.workers|
  {
    hide Save, SavePlan, Truncated, TableOk, Bytes64, Word64, ConfigOk;
    var t := Save(st, SavePlan(c));
    SettingsInRange(c);
    SettingsHeld(st, c, 1);
    SettingsHeld(st, c, 2);
    SettingsHeld(st, c, 3);
    SettingsHeld(st, c, 4);
    SettingsHeld(st, c, 5);
    SettingsHeld(st, c, 6);
    SettingsHeld(st, c, 7);
    SettingsHeld(st, c, 9);
    UtcBack(st, c);
  }

  lemma SettingsInRange(c: Config)
    requires ConfigOk(c)
    ensures ValidSettings(c.settings) && |c.workers| <= MAX_WORKER_COUNT
  {
  }

  lemma UtcBack(st: Store, c: Config)
    requires ConfigOk(c)
    ensures LoadedUtc(Save(st, SavePlan(c)), c.settings.tzOffsetMinutes) == c.settings.savedUtcSec
  {
    hide Save, SavePlan, Bytes64, Word64, ConfigOk;
    SettingsInRange(c);
    SettingsHeld(st, c, 8);
    Word64Inverse(c.settings.savedUtcSec);
    BlobBack(Save(st, SavePlan(c)), UTC64, Bytes64(c.settings.savedUtcSec), Bytes64(0));
  }

  lemma TableHeld(st: Store, c: Config, i: nat)
    requires ConfigOk(c) && i < |c.workers|
    ensures Sized(c.workers[i]) && c.workers[i].potCount <= MAX_POTS
    ensures SlotHolds(Save(st, SavePlan(c)), i, c.workers[i])
  {
    hide Save, Unchanged, WorkerPlan, TablePlan, ValidSettings, DistinctMacs;
    WorkersSized(c.workers);
    forall x <- WorkerPlan(i, c.workers[i]) ensures Unchanged(Save(st, SavePlan(c)), x.0, x.1) {
      WorkerInTable(c.workers, i, x);
      ReadsBack(st, c, x);
    }
  }

  /** Saving over any earlier contents, keys of removed workers included, and loading
      again gives the same configuration exactly when the name survives (or the default
      name is empty too). */
  lemma SaveReloads(st: Store, c: Config, defaultName: seq<byte>)
    requires ConfigOk(c)
    ensures Loaded(Save(st, SavePlan(c)), defaultName) == c
            <==> NameSurvives(st, c.settings.name) || Truncated(defaultName, NAME_MAX) == []
    ensures Loaded(Save(st, SavePlan(c)), defaultName).(settings := c.settings) == c
  {
    hide Save, SavePlan, ConfigOk, LoadedTable, LoadedSettings, StoredCount, NameSurvives, Truncated, SlotHolds;
    var t := Save(st, SavePlan(c));
    SettingsBack(st, c, defaultName);
    NameBack(st, c, defaultName);
    LoadedName(t, defaultName);
    SettingsInRange(c);
    forall i | 0 <= i < |c.workers|
      ensures Sized(c.workers[i]) && c.workers[i].potCount <= MAX_POTS && SlotHolds(t, i, c.workers[i])
    {
      TableHeld(st, c, i);
    }
    ConfigTable(c);
    TableBack(t, c.workers, |c.workers|);
    assert c.workers[..|c.workers|] == c.workers;
    if !NameSurvives(st, c.settings.name) { UnsavedIsEmpty(st, c.settings.name); }
  }

  lemma LoadedName(st: Store, defaultName: seq<byte>)
    ensures LoadedSettings(st, defaultName).name == Truncated(GetString(st, NAME, defaultName), NAME_MAX)
  {
  }

  lemma ConfigTable(c: Config)
    requires ConfigOk(c)
    ensures TableOk(c.workers)
  {
  }

  lemma UnsavedIsEmpty(st: Store, name: seq<byte>)
    requires !NameSurvives(st, name)
    ensures name == []
  {
  }

  // Skipping against writing everything.

  lemma {:induction false} SaveAllTakes(st: Store, plan: seq<(Key, Value)>, i: nat)
    requires DistinctKeys(plan) && i < |plan|
    ensures plan[i].0 in SaveAll(st, plan) && SaveAll(st, plan)[plan[i].0] == plan[i].1
  {
    if i < |plan| - 1 { SaveAllTakes(st, plan[..|plan| - 1], i); }
  }

  lemma {:induction false} NothingToSave(st: Store, plan: seq<(Key, Value)>)
    requires forall i :: 0 <= i < |plan| ==> plan[i].0 in st && st[plan[i].0] == plan[i].1
    ensures Save(st, plan) == st
  {
    if plan != [] {
      var last := plan[|plan| - 1];
      assert last.0 in st && st[last.0] == last.1;
      NothingToSave(st, plan[..|plan| - 1]);
    }
  }

  /** Putting every key, changed or not, always reloads the configuration; so skipping
      unchanged keys is as good as writing all of them, except for that one name. */
  lemma WritingAllReloads(st: Store, c: Config, defaultName: seq<byte>)
    requires ConfigOk(c)
    ensures Loaded(SaveAll(st, SavePlan(c)), defaultName) == c
    ensures Loaded(Save(st, SavePlan(c)), defaultName) == Loaded(SaveAll(st, SavePlan(c)), defaultName)
            <==> NameSurvives(st, c.settings.name) || Truncated(defaultName, NAME_MAX) == []
  {
    hide ConfigOk, Loaded, Truncated, TablePlan, Bytes64;
    var plan := SavePlan(c);
    var t := SaveAll(st, plan);
    SavePlanKeys(c);
    forall i | 0 <= i < |plan| ensures plan[i].0 in t && t[plan[i].0] == plan[i].1 { SaveAllTakes(st, plan, i); }
    NothingToSave(t, plan);
    assert plan[0] == (NAME, Str(c.settings.name)) by { SettingsInRange(c); }
    SaveReloads(t, c, defaultName);
    SaveReloads(st, c, defaultName);
  }
}
