/** The settings in the form of main/src/settings.cpp: the settings, the worker array and
    its count, the stored values and the dirty generation, changed in place. */
module SettingsStore {
  import opened Bytes
  import opened ClockMath
  import opened Generations
  import opened Nvs
  import opened PotMask
  import opened Utf8
  import opened SettingsSpec
  import opened SettingsRoundTrip
  import opened SettingsTable
  import C = Cooldown

  const NO_WORKER := Worker([], [], 0, [], [], [], [], [])

  class Store {
    var gSettings: Settings
    const gWorkers: array<Worker>
    var gWorkerCount: nat
    var gDirtyGeneration: u32
    var gSavedGeneration: u32
    var prefs: Nvs.Store
    const defaultName: seq<byte>

    /** Zeroed globals over an existing store, before loadSettings. */
    constructor (prefs: Nvs.Store, defaultName: seq<byte>)
      ensures this.prefs == prefs && this.defaultName == defaultName
      ensures fresh(gWorkers) && gWorkers.Length == MAX_WORKER_COUNT && gWorkerCount == 0
    {
      this.prefs, this.defaultName := prefs, defaultName;
      gSettings := Settings([], 0, 0, 0, 0, 0, 0, 0, 0);
      gWorkers := new Worker[MAX_WORKER_COUNT](_ => NO_WORKER);
      gWorkerCount, gDirtyGeneration, gSavedGeneration := 0, 0, 0;
    }

    ghost predicate Valid()
      reads this, gWorkers
    {
      gWorkers.Length == MAX_WORKER_COUNT && gWorkerCount <= MAX_WORKER_COUNT && ConfigOk(View())
    }

    ghost function View(): Config
      requires gWorkerCount <= gWorkers.Length
      reads this, gWorkers
    {
      Config(gSettings, gWorkers[..gWorkerCount])
    }

    method MarkDirty()
      modifies this`gDirtyGeneration
      ensures gDirtyGeneration == Bump(old(gDirtyGeneration))
    {
      gDirtyGeneration := (gDirtyGeneration as int + 1) % 0x1_0000_0000;
      if gDirtyGeneration == 0 { gDirtyGeneration := gDirtyGeneration as int + 1; }
    }

    // Saving.

    method SaveString(k: Key, s: seq<byte>)
      modifies this`prefs
      ensures prefs == PutIfChanged(old(prefs), k, Str(s))
    {
      if GetString(prefs, k, []) != s { prefs := prefs[k := Str(s)]; }
    }

    method SaveUInt(k: Key, absent: u32, n: u32)
      requires absent == if k == DSINT then 0 else U32_MAX
      modifies this`prefs
      ensures prefs == PutIfChanged(old(prefs), k, UInt(n))
    {
      if GetUInt(prefs, k, absent) != n { prefs := prefs[k := UInt(n)]; }
    }

    method SaveUChar(k: Key, absent: byte, c: byte)
      requires absent == if k.WPC? then 0 else 0xFF
      modifies this`prefs
      ensures prefs == PutIfChanged(old(prefs), k, UChar(c))
    {
      if GetUChar(prefs, k, absent) != c { prefs := prefs[k := UChar(c)]; }
    }

    method SaveInt(k: Key, i: i32)
      modifies this`prefs
      ensures prefs == PutIfChanged(old(prefs), k, Int(i))
    {
      if GetInt(prefs, k, 0x7FFF_FFFF) != i { prefs := prefs[k := Int(i)]; }
    }

    /** Reads into a zeroed buffer of the value's size. */
    method SaveBytes(k: Key, b: seq<byte>)
      requires |b| > 0
      modifies this`prefs
      ensures prefs == PutIfChanged(old(prefs), k, Blob(b))
    {
      var zeros := seq(|b|, _ => 0);
      var (n, previous) := GetBytes(prefs, k, zeros);
      assert n == |b| ==> previous == prefs[k].b;
      if n != |b| || previous != b { prefs := prefs[k := Blob(b)]; }
    }

    /** The first part of writeSnapshot. */
    method WriteSettings(settings: Settings, workerCount: nat)
      requires workerCount <= MAX_WORKER_COUNT
      modifies this`prefs
      ensures prefs == Save(old(prefs), SettingsPlan(settings, workerCount))
    {
      hide PutIfChanged, Save, Bytes64;
      ghost var st := prefs;
      ghost var plan := SettingsPlan(settings, workerCount);
      SaveNone(st);
      SaveString(NAME, settings.name);
      Planned(st, plan, 1);
      SaveUInt(DSINT, 0, settings.dataSyncInterval);
      Planned(st, plan, 2);
      SaveUChar(PDELAY, 0xFF, settings.pumpDelaySeconds);
      Planned(st, plan, 3);
      SaveUChar(MPTIME, 0xFF, settings.manualPumpTimeoutSeconds);
      Planned(st, plan, 4);
      SaveUInt(START, U32_MAX, settings.activeStart);
      Planned(st, plan, 5);
      SaveUInt(END, U32_MAX, settings.activeEnd);
      Planned(st, plan, 6);
      SaveInt(TZ, settings.tzOffsetMinutes);
      Planned(st, plan, 7);
      SaveUChar(LANG, 0xFF, settings.language);
      Planned(st, plan, 8);
      SaveBytes(UTC64, Bytes64(settings.savedUtcSec));
      Planned(st, plan, 9);
      SaveUInt(WCOUNT, U32_MAX, workerCount);
      Planned(st, plan, 10);
      assert plan[..10] == plan;
    }

    /** One round of writeSnapshot's worker loop. */
    method WriteWorker(i: nat, w: Worker)
      requires WorkerOk(w)
      modifies this`prefs
      ensures prefs == Save(old(prefs), WorkerPlan(i, w))
    {
      hide PutIfChanged, Save, Bytes16, Bytes32, PotOk, NameOk;
      ghost var st := prefs;
      ghost var plan := WorkerPlan(i, w);
      ghost var fields := WorkerFields(i, w);
      SaveNone(st);
      SaveBytes(WMAC(i), w.mac);
      Planned(st, fields, 1);
      SaveString(WNAME(i), w.workerName);
      Planned(st, fields, 2);
      SaveUChar(WPC(i), 0, w.potCount);
      Planned(st, fields, 3);
      SaveBytes(WTHARR(i), Bytes16(w.thresholds));
      Planned(st, fields, 4);
      SaveBytes(WDURARR(i), Bytes16(w.durations));
      Planned(st, fields, 5);
      SaveBytes(WINTARR(i), Bytes32(w.waterIntervals));
      Planned(st, fields, 6);
      SaveBytes(WLASTARR(i), Bytes32(w.lastWatering));
      Planned(st, fields, 7);
      assert plan[..7] == fields == fields[..7];
      WriteNames(st, i, w);
    }

    method WriteNames(ghost st: Nvs.Store, i: nat, w: Worker)
      requires WorkerOk(w) && prefs == Save(st, WorkerPlan(i, w)[..7])
      modifies this`prefs
      ensures prefs == Save(st, WorkerPlan(i, w))
    {
      hide PutIfChanged, Save, WorkerFields, PotOk, NameOk;
      ghost var plan := WorkerPlan(i, w);
      assert |WorkerFields(i, w)| == 7 by { FieldCount(i, w); }
      var pot := 0;
      while pot < w.potCount as int
        invariant 0 <= pot <= w.potCount as int && prefs == Save(st, plan[..7 + pot])
      {
        assert plan[7 + pot] == (WPNM(i, pot), Str(w.potNames[pot]));
        SaveString(WPNM(i, pot), w.potNames[pot]);
        Planned(st, plan, 8 + pot);
        pot := pot + 1;
      }
      assert plan[..|plan|] == plan;
    }

    /** writeSnapshot: puts exactly the keys whose stored value differs. */
    method WriteSnapshot(settings: Settings, workers: array<Worker>, workerCount: nat)
      requires workerCount <= workers.Length && ConfigOk(Config(settings, workers[..workerCount]))
      modifies this`prefs
      ensures prefs == Save(old(prefs), SavePlan(Config(settings, workers[..workerCount])))
    {
      hide Save, SettingsPlan, WorkerPlan, ValidSettings, NameOk, DistinctMacs, PotOk;
      ghost var st := prefs;
      ghost var ws := workers[..workerCount];
      WriteSettings(settings, workerCount);
      var i := 0;
      SaveJoin(st, SettingsPlan(settings, workerCount), []);
      SaveNone(prefs);
      assert TablePlan(ws[..0]) == [];
      while i < workerCount
        invariant 0 <= i <= workerCount
        invariant prefs == Save(st, SettingsPlan(settings, workerCount) + TablePlan(ws[..i]))
      {
        assert workers[i] == ws[i] && WorkerOk(ws[i]);
        WriteWorker(i, workers[i]);
        SaveJoin(st, SettingsPlan(settings, workerCount) + TablePlan(ws[..i]), WorkerPlan(i, ws[i]));
        assert ws[..i + 1][..i] == ws[..i] && ws[..i + 1][i] == ws[i];
        assert SettingsPlan(settings, workerCount) + TablePlan(ws[..i]) + WorkerPlan(i, ws[i])
            == SettingsPlan(settings, workerCount) + TablePlan(ws[..i + 1]);
        i := i + 1;
      }
      assert ws[..workerCount] == ws;
    }

    /** saveSettingsNow when nothing interferes; SaveGenerations has the interleavings. A
        save that cannot open the store changes nothing. */
    method SaveSettingsNow(works: bool)
      requires Valid()
      modifies this`prefs, this`gSavedGeneration
      ensures Valid() && View() == old(View())
      ensures prefs == (if works then Save(old(prefs), SavePlan(View())) else old(prefs))
      ensures gSavedGeneration == if works then gDirtyGeneration else old(gSavedGeneration)
    {
      hide Save, SavePlan, ConfigOk;
      var settings, workerCount, generation := gSettings, gWorkerCount, gDirtyGeneration;
      var workers := new Worker[MAX_WORKER_COUNT](k requires 0 <= k < MAX_WORKER_COUNT reads gWorkers =>
        if k < gWorkers.Length then gWorkers[k] else NO_WORKER);
      assert workers[..workerCount] == gWorkers[..workerCount];
      var saved := works;
      if saved { WriteSnapshot(settings, workers, workerCount); }
      if saved && gDirtyGeneration == generation { gSavedGeneration := generation; }
    }

    // Loading.

    /** One slot of loadSettings: what is stored, then the clamps on the pots in use. */
    method LoadWorker(i: nat, mac: seq<byte>) returns (w: Worker)
      requires |mac| == 6
      ensures w == LoadedWorker(prefs, i, mac)
    {
      hide Truncated, Words, WordsExact;
      var name := Truncated(GetString(prefs, WNAME(i), []), NAME_MAX);
      var count: byte := Clamp(GetUChar(prefs, WPC(i), 1), 1, MAX_POTS);
      var th, du := Words(prefs, WTHARR(i), DEFAULT_THRESHOLD), Words(prefs, WDURARR(i), DEFAULT_DURATION);
      var it, last := WordsExact(prefs, WINTARR(i), DEFAULT_INTERVAL), WordsExact(prefs, WLASTARR(i), 0);
      var names: seq<seq<byte>> := seq(MAX_POTS, _ => []);
      ghost var l := LoadedWorker(prefs, i, mac);
      ghost var (th0, du0, it0) := (th, du, it);
      var pot := 0;
      while pot < count as int
        invariant 0 <= pot <= count as int && |th| == |du| == |it| == |names| == MAX_POTS
        invariant forall p :: 0 <= p < pot ==>
                    th[p] == l.thresholds[p] && du[p] == l.durations[p] && it[p] == l.waterIntervals[p] && names[p] == l.potNames[p]
        invariant forall p :: pot <= p < MAX_POTS ==> th[p] == th0[p] && du[p] == du0[p] && it[p] == it0[p] && names[p] == []
      {
        th := th[pot := if th[pot] > 4095 then 4095 else th[pot]];
        du := du[pot := Clamp(du[pot], 1, 60)];
        it := it[pot := Clamp(it[pot], INTERVAL_MIN, INTERVAL_MAX)];
        names := names[pot := Truncated(GetString(prefs, WPNM(i, pot), []), NAME_MAX)];
        pot := pot + 1;
      }
      w := Worker(mac, name, count, th, du, it, last, names);
      assert th == l.thresholds && du == l.durations && it == l.waterIntervals && names == l.potNames;
    }

    method IsDuplicate(workers: array<Worker>, count: nat, mac: seq<byte>) returns (duplicate: bool)
      requires count <= workers.Length
      ensures duplicate <==> HasMac(workers[..count], mac)
    {
      duplicate := false;
      for existing := 0 to count
        invariant duplicate <==> HasMac(workers[..existing], mac)
      {
        assert workers[..existing + 1] == workers[..existing] + [workers[existing]];
        HasMacMore(workers[..existing], workers[existing], mac);
        if workers[existing].mac == mac { duplicate := true; }
      }
    }

    /** loadSettings. */
    method LoadSettings()
      requires gWorkers.Length == MAX_WORKER_COUNT
      modifies this`gSettings, this`gWorkerCount, this`gDirtyGeneration, this`gSavedGeneration, gWorkers
      ensures Valid() && View() == Loaded(prefs, defaultName) && gDirtyGeneration == gSavedGeneration == 1
    {
      hide LoadedSettings, LoadedWorker, ConfigOk, GetBytes;
      var loaded := LoadedSettings(prefs, defaultName);
      var workers := new Worker[MAX_WORKER_COUNT](_ => NO_WORKER);
      var storedCount := StoredCount(prefs);
      var workerCount := 0;
      var i := 0;
      while i < storedCount
        invariant 0 <= i && (i <= storedCount || i == 0) && workerCount <= i
        invariant workers[..workerCount] == LoadedTable(prefs, i)
      {
        var (n, mac) := GetBytes(prefs, WMAC(i), [0, 0, 0, 0, 0, 0]);
        var duplicate := IsDuplicate(workers, workerCount, mac);
        if n == 6 && !duplicate {
          var worker := LoadWorker(i, mac);
          workers[workerCount] := worker;
          assert workers[..workerCount + 1] == LoadedTable(prefs, i) + [worker];
          workerCount := workerCount + 1;
        }
        i := i + 1;
      }
      gSettings := loaded;
      forall k | 0 <= k < MAX_WORKER_COUNT { gWorkers[k] := workers[k]; }
      gWorkerCount := workerCount;
      assert gWorkers[..gWorkerCount] == workers[..workerCount];
      gDirtyGeneration, gSavedGeneration := 1, 1;
      LoadedIsOk(prefs, defaultName);
      assert View() == Loaded(prefs, defaultName);
    }

    // The mutators.

    /** findWorkerLocked. */
    method FindWorker(mac: seq<byte>) returns (index: int)
      requires gWorkerCount <= gWorkers.Length
      ensures var ws := gWorkers[..gWorkerCount]; index == if Find(ws, mac) < |ws| then Find(ws, mac) else -1
    {
      var i := 0;
      while i < gWorkerCount
        invariant 0 <= i <= gWorkerCount
        invariant forall j :: 0 <= j < i ==> gWorkers[j].mac != mac
      {
        if gWorkers[i].mac == mac {
          FindIs(gWorkers[..gWorkerCount], mac, i);
          return i;
        }
        i := i + 1;
      }
      FindIs(gWorkers[..gWorkerCount], mac, gWorkerCount);
      return -1;
    }

    /** applySettingsSnapshot; the caller has filled the name with copyUtf8Truncated. */
    method ApplySettings(next: Settings) returns (ok: bool)
      requires Valid() && NameOk(next.name)
      modifies this`gSettings, this`gDirtyGeneration
      ensures Valid() && ok == ValidSettings(next)
      ensures View() == if ok then old(View()).(settings := next) else old(View())
      ensures gDirtyGeneration == if ok then Bump(old(gDirtyGeneration)) else old(gDirtyGeneration)
    {
      hide TableOk, Truncated;
      if !ValidSettings(next) { return false; }
      gSettings := next;
      MarkDirty();
      return true;
    }

    method SetSavedUtc(utc: u64)
      requires Valid()
      modifies this`gSettings, this`gDirtyGeneration
      ensures Valid() && View() == old(View()).(settings := old(gSettings).(savedUtcSec := utc))
      ensures gDirtyGeneration == Bump(old(gDirtyGeneration))
    {
      hide TableOk, Truncated;
      gSettings := gSettings.(savedUtcSec := utc);
      MarkDirty();
    }

    method ReplaceWorker(i: nat, w: Worker)
      requires Valid() && i < gWorkerCount && WorkerOk(w) && w.mac == gWorkers[i].mac
      modifies gWorkers, this`gDirtyGeneration
      ensures Valid() && View() == old(View()).(workers := old(View()).workers[i := w])
      ensures gDirtyGeneration == Bump(old(gDirtyGeneration))
    {
      hide WorkerOk, ValidSettings, NameOk;
      ReplacedOk(gWorkers[..gWorkerCount], i, w);
      gWorkers[i] := w;
      assert gWorkers[..gWorkerCount] == old(gWorkers[..gWorkerCount])[i := w];
      MarkDirty();
    }

    /** addWorkerByHex; `mac` is None when the text is not twelve hex digits. */
    method AddWorker(mac: Option<seq<byte>>, threshold: u16, duration: u16, name: Option<seq<byte>>) returns (ok: bool)
      requires Valid() && (mac.Some? ==> |mac.value| == 6)
      modifies this`gWorkerCount, this`gDirtyGeneration, gWorkers
      ensures Valid()
      ensures var ws := old(View()).workers;
              ok <==> mac.Some? && threshold <= 4095 && 1 <= duration <= 60 && (Find(ws, mac.value) < |ws| || |ws| < MAX_WORKER_COUNT)
      ensures !ok ==> View() == old(View()) && gDirtyGeneration == old(gDirtyGeneration)
      ensures ok ==>
                var ws := old(View()).workers;
                var i := Find(ws, mac.value);
                && View() == old(View()).(workers :=
                     if i < |ws| then ws[i := Renamed(ws[i], name)]
                     else ws + [NewWorker(mac.value, if name.Some? then name.value else [], threshold, duration)])
                && gDirtyGeneration == Bump(old(gDirtyGeneration))
    {
      hide ValidSettings, NameOk, WorkerOk, NewWorker, Renamed, Find;
      if mac.None? || threshold > 4095 || duration == 0 || duration > 60 { return false; }
      var index := FindWorker(mac.value);
      ghost var ws := gWorkers[..gWorkerCount];
      if index < 0 {
        if gWorkerCount >= MAX_WORKER_COUNT { return false; }
        var w := NewWorker(mac.value, if name.Some? then name.value else [], threshold, duration);
        NewWorkerOk(mac.value, if name.Some? then name.value else [], threshold, duration);
        assert w.mac == mac.value by { NewWorkerMac(mac.value, if name.Some? then name.value else [], threshold, duration); }
        AppendedOk(ws, w);
        gWorkers[gWorkerCount] := w;
        gWorkerCount := gWorkerCount + 1;
        assert gWorkers[..gWorkerCount] == ws + [w];
        MarkDirty();
      } else {
        OneOk(ws, index);
        RenamedOk(ws[index], name);
        ReplaceWorker(index, Renamed(gWorkers[index], name));
      }
      return true;
    }

    /** removeWorkerByHex: the shifting loop closes the gap. */
    method RemoveWorker(mac: Option<seq<byte>>) returns (ok: bool)
      requires Valid()
      modifies this`gWorkerCount, this`gDirtyGeneration, gWorkers
      ensures Valid()
      ensures var ws := old(View()).workers; ok <==> mac.Some? && Find(ws, mac.value) < |ws|
      ensures !ok ==> View() == old(View()) && gDirtyGeneration == old(gDirtyGeneration)
      ensures ok ==>
                var ws := old(View()).workers;
                var i := Find(ws, mac.value);
                && View() == old(View()).(workers := ws[..i] + ws[i + 1..])
                && gDirtyGeneration == Bump(old(gDirtyGeneration))
    {
      hide ValidSettings, NameOk, TableOk, Find;
      if mac.None? { return false; }
      var index := FindWorker(mac.value);
      if index < 0 { return false; }
      ghost var ws := gWorkers[..gWorkerCount];
      RemovedOk(ws, index);
      CloseGap(gWorkers, gWorkerCount, index);
      gWorkerCount := gWorkerCount - 1;
      assert gWorkers[..gWorkerCount] == ws[..index] + ws[index + 1..];
      MarkDirty();
      return true;
    }

    static method CloseGap(workers: array<Worker>, count: nat, index: nat)
      requires index < count <= workers.Length
      modifies workers
      ensures workers[..count - 1] == old(workers[..index]) + old(workers[index + 1..count])
    {
      ghost var ws := workers[..count];
      var i := index;
      while i < count - 1
        invariant index <= i <= count - 1
        invariant forall k :: 0 <= k < count ==> workers[k] == ws[if index <= k < i then k + 1 else k]
      {
        workers[i] := workers[i + 1];
        i := i + 1;
      }
    }

    /** updateWorkerByHex; a negative pot index renames the worker. */
    method UpdateWorker(mac: Option<seq<byte>>, threshold: u16, duration: u16, interval: u32,
                        name: Option<seq<byte>>, potIndex: int) returns (ok: bool)
      requires Valid()
      modifies this`gDirtyGeneration, gWorkers
      ensures Valid()
      ensures var ws := old(View()).workers;
              ok <==> mac.Some? && threshold <= 4095 && 1 <= duration <= 60 && 60 <= interval <= 2_419_200
                      && Find(ws, mac.value) < |ws| && potIndex < 16
      ensures !ok ==> View() == old(View()) && gDirtyGeneration == old(gDirtyGeneration)
      ensures ok ==>
                var ws := old(View()).workers;
                var i := Find(ws, mac.value);
                && Sized(ws[i])
                && View() == old(View()).(workers := ws[i :=
                     if potIndex < 0 then Renamed(ws[i], name)
                     else PotUpdated(ws[i], potIndex, threshold, duration, interval, name)])
                && gDirtyGeneration == Bump(old(gDirtyGeneration))
      ensures ok && potIndex >= 0 ==>
                var i := Find(old(View()).workers, mac.value);
                |View().workers| == |old(View()).workers| && i < |View().workers|
                && PotGiven(old(View()).workers[i], View().workers[i], potIndex, threshold, duration, interval, name)
    {
      hide ValidSettings, NameOk, PotOk, Renamed, PotUpdated, Find, PotGiven;
      if mac.None? || threshold > 4095 || duration == 0 || duration > 60 { return false; }
      if interval < INTERVAL_MIN || interval > INTERVAL_MAX { return false; }
      var index := FindWorker(mac.value);
      if index < 0 || potIndex >= MAX_POTS { return false; }
      var worker := gWorkers[index];
      OneOk(gWorkers[..gWorkerCount], index);
      if potIndex >= 0 {
        PotUpdatedOk(worker, potIndex, threshold, duration, interval, name);
        UpdatedFields(worker, potIndex, threshold, duration, interval, name);
        var updated := UpdatePot(worker, potIndex, threshold, duration, interval, name);
        ReplaceWorker(index, updated);
      } else {
        RenamedOk(worker, name);
        ReplaceWorker(index, Renamed(worker, name));
      }
      return true;
    }

    /** The filling loop of updateWorkerByHex and ensureWorkerConfigsForMac. */
    method GrowTo(worker: Worker, n: nat) returns (w: Worker)
      requires Sized(worker) && n <= MAX_POTS
      ensures w == Grown(worker, n) && GrownTo(worker, w, n)
    {
      hide DefaultAt, WorkerOk, GrownTo;
      GrownFields(worker, n);
      w := worker;
      var pot := worker.potCount as int;
      ghost var k := pot;
      NothingFilled(worker);
      while pot < n
        invariant k <= pot && (pot <= n || pot == k)
        invariant Filled(worker, w, k, pot)
      {
        FillOne(worker, w, k, pot);
        w := w.(thresholds := w.thresholds[pot := DEFAULT_THRESHOLD], durations := w.durations[pot := DEFAULT_DURATION],
                waterIntervals := w.waterIntervals[pot := DEFAULT_INTERVAL], lastWatering := w.lastWatering[pot := 0],
                potNames := w.potNames[pot := []]);
        pot := pot + 1;
      }
      FilledIsGrown(worker, w, n);
      if n > worker.potCount as int { w := w.(potCount := n); }
    }

    method UpdatePot(worker: Worker, pot: nat, threshold: u16, duration: u16, interval: u32, name: Option<seq<byte>>)
      returns (w: Worker)
      requires Sized(worker) && pot < MAX_POTS
      ensures w == PotUpdated(worker, pot, threshold, duration, interval, name)
      ensures PotGiven(worker, w, pot, threshold, duration, interval, name)
    {
      hide Grown, Truncated, PotGiven, GrownTo;
      UpdatedFields(worker, pot, threshold, duration, interval, name);
      w := GrowTo(worker, pot + 1);
      assert Sized(w) by { GrownSized(worker, pot + 1); }
      w := w.(thresholds := w.thresholds[pot := threshold], durations := w.durations[pot := duration],
              waterIntervals := w.waterIntervals[pot := interval]);
      if name.Some? { w := w.(potNames := w.potNames[pot := Truncated(name.value, NAME_MAX)]); }
    }

    /** ensureWorkerConfigsForMac: a worker that reports more pots gets them. */
    method EnsurePots(mac: seq<byte>, potCount: byte)
      requires Valid()
      modifies this`gDirtyGeneration, gWorkers
      ensures Valid()
      ensures var ws := old(View()).workers;
              var i := Find(ws, mac);
              var n := if potCount < MAX_POTS then potCount else MAX_POTS;
              if potCount != 0 && i < |ws| && ws[i].potCount < n
              then Sized(ws[i]) && View() == old(View()).(workers := ws[i := Grown(ws[i], n)])
                   && gDirtyGeneration == Bump(old(gDirtyGeneration))
              else View() == old(View()) && gDirtyGeneration == old(gDirtyGeneration)
      ensures var i := Find(old(View()).workers, mac);
              potCount != 0 && i < |old(View()).workers| ==>
                |View().workers| == |old(View()).workers|
                && GrownTo(old(View()).workers[i], View().workers[i], if potCount < MAX_POTS then potCount else MAX_POTS)
    {
      hide ValidSettings, NameOk, PotOk, Grown, Find, GrownTo;
      if potCount == 0 { return; }
      var n := if potCount < MAX_POTS then potCount else MAX_POTS;
      var index := FindWorker(mac);
      if index < 0 { return; }
      OneOk(gWorkers[..gWorkerCount], index);
      GrownFields(gWorkers[index], n);
      if gWorkers[index].potCount >= n {
        assert Grown(gWorkers[index], n) == gWorkers[index] by { NotGrown(gWorkers[index], n); }
        return;
      }
      GrownOk(gWorkers[index], n);
      var w := GrowTo(gWorkers[index], n);
      ReplaceWorker(index, w);
    }

    // The watering history.

    method RecordCompletedBatch(completions: seq<(seq<byte>, u16)>, completed: u32)
      requires Valid()
      modifies this`gDirtyGeneration, gWorkers
      ensures Valid()
      ensures View() == if completed == 0 then old(View())
                        else old(View()).(workers := Recorded(old(View()).workers, completions, completed))
      ensures gDirtyGeneration == if View() != old(View()) then Bump(old(gDirtyGeneration)) else old(gDirtyGeneration)
    {
      hide ValidSettings, NameOk, WorkerOk, Stamped, Find, Recorded, OnlyStamped;
      if completed == 0 { return; }
      ghost var ws := gWorkers[..gWorkerCount];
      var changed := false;
      var k := 0;
      NothingStamped(ws, completions, completed);
      while k < |completions|
        invariant 0 <= k <= |completions| && gDirtyGeneration == old(gDirtyGeneration)
        invariant gWorkers[..gWorkerCount] == Recorded(ws, completions[..k], completed)
        invariant OnlyStamped(ws, gWorkers[..gWorkerCount], completed)
        invariant changed <==> gWorkers[..gWorkerCount] != ws
      {
        RecordedMore(ws, completions, k, completed);
        var index := FindWorker(completions[k].0);
        if index >= 0 {
          OneOk(gWorkers[..gWorkerCount], index);
          var stamped := StampWorker(gWorkers[index], completions[k].1, completed);
          if stamped != gWorkers[index] { changed := true; }
          ghost var us := gWorkers[..gWorkerCount];
          StampShows(ws, us, index, completions[k].1, completed);
          gWorkers[index] := stamped;
          assert gWorkers[..gWorkerCount] == us[index := stamped];
        }
        k := k + 1;
      }
      assert completions[..k] == completions;
      if changed { MarkDirty(); }
    }

    method StampWorker(w: Worker, mask: u16, completed: u32) returns (u: Worker)
      requires WorkerOk(w) && completed != 0
      ensures u == Stamped(w, mask, completed)
    {
      hide NameOk, PotOk;
      var last := new u32[MAX_POTS](p requires 0 <= p < MAX_POTS => w.lastWatering[p]);
      var _ := C.ApplyCompleted(last, w.potCount as int, mask, completed);
      u := w.(lastWatering := last[..]);
    }

    method RebaseHistory(oldNow: u64, newNow: u64)
      requires Valid()
      modifies this`gDirtyGeneration, gWorkers
      ensures Valid()
      ensures View() == if newNow == 0 || newNow > U32_MAX then old(View())
                        else old(View()).(workers := RebasedTable(old(View()).workers, old(gWorkerCount), oldNow, newNow))
      ensures gDirtyGeneration == if View() != old(View()) then Bump(old(gDirtyGeneration)) else old(gDirtyGeneration)
    {
      hide ValidSettings, NameOk, WorkerOk, DistinctMacs, Rebased;
      if newNow == 0 || newNow > U32_MAX { return; }
      ghost var ws := gWorkers[..gWorkerCount];
      var changed := false;
      var i := 0;
      while i < gWorkerCount
        invariant 0 <= i <= gWorkerCount == |ws| && gDirtyGeneration == old(gDirtyGeneration)
        invariant gWorkers[..gWorkerCount] == RebasedTable(ws, i, oldNow, newNow)
        invariant changed <==> gWorkers[..gWorkerCount] != ws
      {
        OneOk(gWorkers[..gWorkerCount], i);
        var rebased := RebaseWorker(gWorkers[i], oldNow, newNow);
        if rebased != gWorkers[i] { changed := true; }
        ghost var us := gWorkers[..gWorkerCount];
        gWorkers[i] := rebased;
        assert gWorkers[..gWorkerCount] == us[i := rebased];
        assert us[i] == ws[i] && (forall j :: 0 <= j < |ws| && us[j] != ws[j] ==> us[i := rebased][j] != ws[j]);
        i := i + 1;
      }
      if changed { MarkDirty(); }
    }

    method RebaseWorker(w: Worker, oldNow: u64, newNow: u64) returns (u: Worker)
      requires WorkerOk(w) && 0 < newNow <= U32_MAX
      ensures u == Rebased(w, oldNow, newNow)
    {
      hide NameOk, PotOk, Rebase;
      var last := new u32[MAX_POTS](p requires 0 <= p < MAX_POTS => w.lastWatering[p]);
      var _ := C.RebasePots(last, w.potCount as int, oldNow, newNow);
      ghost var r := Rebased(w, oldNow, newNow);
      forall p | 0 <= p < MAX_POTS ensures last[p] == r.lastWatering[p] {
        RebaseZero(oldNow, newNow, w.lastWatering[p]);
      }
      assert last[..] == r.lastWatering;
      u := w.(lastWatering := last[..]);
    }
  }

  lemma SaveNone(st: Nvs.Store)
    ensures Save(st, []) == st
  {
  }

  lemma FieldCount(i: nat, w: Worker)
    ensures |WorkerFields(i, w)| == 7
  {
  }

  /** One more entry of a plan. */
  lemma Planned(st: Nvs.Store, plan: seq<(Key, Value)>, n: nat)
    requires 0 < n <= |plan|
    ensures Save(st, plan[..n]) == PutIfChanged(Save(st, plan[..n - 1]), plan[n - 1].0, plan[n - 1].1)
    ensures plan[..0] == []
  {
    assert plan[..n] == plan[..n - 1] + [plan[n - 1]];
    SaveOne(st, plan[..n - 1], plan[n - 1].0, plan[n - 1].1);
  }

  lemma {:induction false} SaveJoin(st: Nvs.Store, a: seq<(Key, Value)>, b: seq<(Key, Value)>)
    ensures Save(st, a + b) == Save(Save(st, a), b)
    decreases |b|
  {
    if b == [] {
      assert a + b == a;
    } else {
      var n := |b| - 1;
      assert a + b == a + b[..n] + [b[n]];
      SaveJoin(st, a, b[..n]);
      SaveOne(st, a + b[..n], b[n].0, b[n].1);
    }
  }

  lemma HasMacMore(ws: seq<Worker>, w: Worker, mac: seq<byte>)
    ensures HasMac(ws + [w], mac) <==> HasMac(ws, mac) || w.mac == mac
  {
    if HasMac(ws, mac) {
      var i :| 0 <= i < |ws| && ws[i].mac == mac;
      assert (ws + [w])[i].mac == mac;
    }
    if w.mac == mac { assert (ws + [w])[|ws|].mac == mac; }
  }

  lemma OneOk(ws: seq<Worker>, i: nat)
    requires TableOk(ws) && i < |ws|
    ensures WorkerOk(ws[i])
  {
  }

  lemma NewWorkerMac(mac: seq<byte>, name: seq<byte>, threshold: u16, duration: u16)
    ensures NewWorker(mac, name, threshold, duration).mac == mac
  {
  }

  lemma GrownSized(w: Worker, n: nat)
    requires Sized(w) && n <= MAX_POTS
    ensures Sized(Grown(w, n))
  {
  }

  lemma RebaseZero(oldNow: u64, newNow: u64, last: u32)
    requires 0 < newNow <= U32_MAX
    ensures RebasedStamp(oldNow, newNow, last) as int == Rebase(oldNow, newNow, last)
  {
  }

  // Filling pots with their defaults.

  lemma NotGrown(w: Worker, n: nat)
    requires Sized(w) && n <= w.potCount as int && n <= MAX_POTS
    ensures Grown(w, n) == w
  {
  }

  predicate DefaultAt(from: Worker, w: Worker, k: nat, n: nat, p: nat)
    requires Sized(from) && Sized(w) && p < MAX_POTS
  {
    if k <= p < n then w.thresholds[p] == DEFAULT_THRESHOLD && w.durations[p] == DEFAULT_DURATION
                       && w.waterIntervals[p] == DEFAULT_INTERVAL && w.lastWatering[p] == 0 && w.potNames[p] == []
    else w.thresholds[p] == from.thresholds[p] && w.durations[p] == from.durations[p]
         && w.waterIntervals[p] == from.waterIntervals[p] && w.lastWatering[p] == from.lastWatering[p]
         && w.potNames[p] == from.potNames[p]
  }

  /** Exactly the pots from `k` up to `n` have their defaults. */
  ghost predicate Filled(from: Worker, w: Worker, k: nat, n: nat) {
    && Sized(from) && Sized(w)
    && w == from.(thresholds := w.thresholds, durations := w.durations, waterIntervals := w.waterIntervals,
                  lastWatering := w.lastWatering, potNames := w.potNames)
    && forall p :: 0 <= p < MAX_POTS ==> DefaultAt(from, w, k, n, p)
  }

  lemma NothingFilled(from: Worker)
    requires Sized(from)
    ensures Filled(from, from, from.potCount as int, from.potCount as int)
  {
  }

  lemma FillOne(from: Worker, w: Worker, k: nat, n: nat)
    requires Filled(from, w, k, n) && k <= n < MAX_POTS
    ensures Filled(from, w.(thresholds := w.thresholds[n := DEFAULT_THRESHOLD], durations := w.durations[n := DEFAULT_DURATION],
                            waterIntervals := w.waterIntervals[n := DEFAULT_INTERVAL], lastWatering := w.lastWatering[n := 0],
                            potNames := w.potNames[n := []]), k, n + 1)
  {
    var u := w.(thresholds := w.thresholds[n := DEFAULT_THRESHOLD], durations := w.durations[n := DEFAULT_DURATION],
                waterIntervals := w.waterIntervals[n := DEFAULT_INTERVAL], lastWatering := w.lastWatering[n := 0],
                potNames := w.potNames[n := []]);
    var m := n + 1;
    forall p | 0 <= p < MAX_POTS ensures DefaultAt(from, u, k, m, p) {
      assert DefaultAt(from, w, k, n, p);
    }
  }

  lemma FilledIsGrown(from: Worker, w: Worker, n: nat)
    requires n <= MAX_POTS && Sized(from)
    requires Filled(from, w, from.potCount as int, if n > from.potCount as int then n else from.potCount as int)
    ensures (if n > from.potCount as int then w.(potCount := n) else w) == Grown(from, n)
  {
    var k, g := from.potCount as int, Grown(from, n);
    forall p | 0 <= p < MAX_POTS
      ensures w.thresholds[p] == g.thresholds[p] && w.durations[p] == g.durations[p] && w.waterIntervals[p] == g.waterIntervals[p]
      ensures w.lastWatering[p] == g.lastWatering[p] && w.potNames[p] == g.potNames[p]
    {
      assert DefaultAt(from, w, k, if n > k then n else k, p);
    }
    assert w.thresholds == g.thresholds && w.durations == g.durations;
    assert w.waterIntervals == g.waterIntervals && w.lastWatering == g.lastWatering;
    assert w.potNames == g.potNames;
  }

  /** A table that differs from another only in stamps of this time. */
  ghost predicate OnlyStamped(ws: seq<Worker>, us: seq<Worker>, completed: u32) {
    |us| == |ws| && forall i :: 0 <= i < |ws| ==> StampedOnly(ws[i], us[i], completed)
  }

  ghost predicate StampedOnly(w: Worker, u: Worker, completed: u32) {
    && Sized(w) && Sized(u) && u == w.(lastWatering := u.lastWatering)
    && forall p :: 0 <= p < MAX_POTS ==> u.lastWatering[p] == w.lastWatering[p] || u.lastWatering[p] == completed
  }

  lemma NothingStamped(ws: seq<Worker>, completions: seq<(seq<byte>, u16)>, completed: u32)
    requires TableOk(ws)
    ensures OnlyStamped(ws, ws, completed) && Recorded(ws, completions[..0], completed) == ws
  {
    hide PotOk, NameOk;
  }

  lemma {:induction false} RecordedMore(ws: seq<Worker>, completions: seq<(seq<byte>, u16)>, k: nat, completed: u32)
    requires TableOk(ws) && k < |completions|
    ensures var us := Recorded(ws, completions[..k], completed);
            var i := Find(us, completions[k].0);
            && (i < |us| ==> WorkerOk(us[i]))
            && Recorded(ws, completions[..k + 1], completed)
               == if i == |us| then us else us[i := Stamped(us[i], completions[k].1, completed)]
  {
    hide Find, Stamped, PotOk, NameOk;
    assert completions[..k + 1][..k] == completions[..k];
  }

  /** A stamp that changes a worker makes the table differ from the start, and no stamp
      undoes an earlier one. */
  lemma StampShows(ws: seq<Worker>, us: seq<Worker>, i: nat, mask: u16, completed: u32)
    requires OnlyStamped(ws, us, completed) && i < |us|
    ensures Sized(us[i])
    ensures var u := Stamped(us[i], mask, completed);
            && OnlyStamped(ws, us[i := u], completed)
            && (us[i := u] != ws <==> us != ws || u != us[i])
  {
    hide Bit;
    var u := Stamped(us[i], mask, completed);
    assert StampedOnly(ws[i], us[i], completed);
    StampGrows(ws[i], us[i], mask, completed);
    assert forall j :: 0 <= j < |us| && j != i ==> us[i := u][j] == us[j];
    if us != ws {
      var j :| 0 <= j < |us| && us[j] != ws[j];
      assert us[i := u][j] != ws[j];
    }
  }

  lemma StampGrows(w: Worker, u: Worker, mask: u16, completed: u32)
    requires StampedOnly(w, u, completed)
    ensures var v := Stamped(u, mask, completed);
            StampedOnly(w, v, completed) && (v != w <==> u != w || v != u)
  {
    hide Bit;
    var v := Stamped(u, mask, completed);
    if v != u {
      assert v.lastWatering != u.lastWatering;
      var p :| 0 <= p < MAX_POTS && v.lastWatering[p] != u.lastWatering[p];
      assert v.lastWatering[p] == completed && w.lastWatering[p] != completed;
    }
    if u != w {
      assert u.lastWatering != w.lastWatering;
      var p :| 0 <= p < MAX_POTS && u.lastWatering[p] != w.lastWatering[p];
      assert v.lastWatering[p] == completed;
    }
  }
}
