/** Saving while others change the configuration (saveSettingsNow and markDirtyLocked of
    main/src/settings.cpp). A save takes its snapshot under the configuration lock, writes
    under the persistence lock alone, and only afterwards compares generations; mutators
    and any number of saving tasks interleave with its steps. */
module SaveGenerations {
  import opened Bytes
  import opened Generations
  import opened Nvs
  import opened PotMask
  import opened Utf8
  import opened SettingsSpec
  import opened SettingsRoundTrip

  /** Where a saving task is. `version` counts configurations; the program keeps only the
      generation. */
  datatype Saver =
    | Idle
    | Holding(config: Config, version: nat, generation: u32)    // has the persistence lock
    | Written(version: nat, generation: u32, saved: bool)       // has released it

  /** `history` lists every configuration since loading, the last being the one in memory.
      `storeVersion` and `markedVersion` say which of them the store holds and which was
      last marked saved. */
  datatype State = State(
    history: seq<Config>, dirty: u32, savedGeneration: u32, store: Store, savers: map<nat, Saver>, holder: Option<nat>,
    storeVersion: nat, markedVersion: nat)

  datatype Event =
    | Change(config: Config)
    | TakeSnapshot(task: nat)
    | Write(task: nat, works: bool)
    | Mark(task: nat)
    | PutCredential(key: Key, value: Value)   // saveWifiCred, clearing excluded

  function SaverOf(s: State, task: nat): Saver {
    if task in s.savers then s.savers[task] else Idle
  }

  ghost predicate Persistable(st: Store, defaultName: seq<byte>, c: Config) {
    NameSurvives(st, c.settings.name) || Truncated(defaultName, NAME_MAX) == []
  }

  /** A change keeps the ranges, and a name that can be reloaded. During one save there
      are fewer changes than generations. */
  ghost predicate Enabled(s: State, defaultName: seq<byte>, e: Event) {
    match e
    case Change(c) => ConfigOk(c) && Persistable(s.store, defaultName, c)
    case TakeSnapshot(t) => s.holder == None && SaverOf(s, t) == Idle && s.history != []
    case Write(t, _) => SaverOf(s, t).Holding? && s.holder == Some(t) && ConfigOk(SaverOf(s, t).config)
    case Mark(t) => SaverOf(s, t).Written? && |s.history| - SaverOf(s, t).version < GENERATIONS
    case PutCredential(k, _) => s.holder == None && (k == SSID || k == PASSWORD)
  }

  ghost function Step(s: State, defaultName: seq<byte>, e: Event): State
    requires Enabled(s, defaultName, e)
  {
    match e
    case Change(c) => s.(history := s.history + [c], dirty := Bump(s.dirty))
    case TakeSnapshot(t) =>
      s.(holder := Some(t), savers := s.savers[t := Holding(s.history[|s.history| - 1], |s.history|, s.dirty)])
    case Write(t, works) =>
      var h := s.savers[t];
      var u := s.(holder := None, savers := s.savers[t := Written(h.version, h.generation, works)]);
      if works then u.(store := Save(s.store, SavePlan(h.config)), storeVersion := h.version) else u
    case Mark(t) =>
      var w := s.savers[t];
      var u := s.(savers := s.savers[t := Idle]);
      if w.saved && s.dirty == w.generation then u.(savedGeneration := w.generation, markedVersion := w.version) else u
    case PutCredential(k, v) => s.(store := s.store[k := v])
  }

  ghost predicate Possible(s: State, defaultName: seq<byte>, es: seq<Event>)
    decreases |es|
  {
    es == [] || (Enabled(s, defaultName, es[0]) && Possible(Step(s, defaultName, es[0]), defaultName, es[1..]))
  }

  ghost function Run(s: State, defaultName: seq<byte>, es: seq<Event>): State
    requires Possible(s, defaultName, es)
    decreases |es|
  {
    if es == [] then s else Run(Step(s, defaultName, es[0]), defaultName, es[1..])
  }

  /** After loadSettings. */
  ghost function Start(st: Store, defaultName: seq<byte>): State {
    State([Loaded(st, defaultName)], 1, 1, st, map[], None, 1, 1)
  }

  // The invariant.

  ghost predicate SaverOk(s: State, t: nat)
    requires t in s.savers
  {
    match s.savers[t]
    case Idle => true
    case Holding(c, v, g) =>
      s.holder == Some(t) && s.storeVersion <= v <= |s.history| && v > 0 && c == s.history[v - 1] && g == GenerationAfter(v)
    case Written(v, g, saved) => 0 < v <= |s.history| && g == GenerationAfter(v) && (saved ==> v <= s.storeVersion)
  }

  ghost predicate Inv(s: State, defaultName: seq<byte>) {
    && 0 < s.markedVersion <= s.storeVersion <= |s.history|
    && s.dirty == GenerationAfter(|s.history|) && s.savedGeneration == GenerationAfter(s.markedVersion)
    && Loaded(s.store, defaultName) == s.history[s.storeVersion - 1]
    && (forall i :: 0 <= i < |s.history| ==> ConfigOk(s.history[i]) && Persistable(s.store, defaultName, s.history[i]))
    && (forall t <- s.savers :: SaverOk(s, t))
  }

  lemma StartInv(st: Store, defaultName: seq<byte>)
    ensures Inv(Start(st, defaultName), defaultName)
  {
    hide LoadedTable, ConfigOk, Truncated;
    LoadedIsOk(st, defaultName);
    assert GenerationAfter(1) == 1;
    LoadedName(st, defaultName);
  }

  lemma {:induction false} TableIgnores(st: Store, slots: nat, k: Key, v: Value)
    requires k == SSID || k == PASSWORD
    ensures LoadedTable(st[k := v], slots) == LoadedTable(st, slots)
  {
    hide LoadedWorker;
    if slots > 0 {
      TableIgnores(st, slots - 1, k, v);
      var (n, mac) := GetBytes(st, WMAC(slots - 1), [0, 0, 0, 0, 0, 0]);
      WorkerIgnores(st, slots - 1, mac, k, v);
    }
  }

  lemma WorkerIgnores(st: Store, i: nat, mac: seq<byte>, k: Key, v: Value)
    requires (k == SSID || k == PASSWORD) && |mac| == 6
    ensures LoadedWorker(st[k := v], i, mac) == LoadedWorker(st, i, mac)
  {
    hide Truncated, Words16, Words32, Bytes16;
    var a, b := LoadedWorker(st[k := v], i, mac), LoadedWorker(st, i, mac);
    forall p | 0 <= p < MAX_POTS ensures a.potNames[p] == b.potNames[p] {
      assert GetString(st[k := v], WPNM(i, p), []) == GetString(st, WPNM(i, p), []);
    }
  }

  /** WiFi credentials share the store but not its meaning. */
  lemma CredentialsDoNotMatter(st: Store, defaultName: seq<byte>, k: Key, v: Value)
    requires k == SSID || k == PASSWORD
    ensures Loaded(st[k := v], defaultName) == Loaded(st, defaultName)
    ensures forall c: Config :: Persistable(st, defaultName, c) ==> Persistable(st[k := v], defaultName, c)
  {
    hide Truncated, Word64, Bytes64, LoadedTable;
    TableIgnores(st, if StoredCount(st) < 0 then 0 else StoredCount(st), k, v);
  }

  lemma WritePersists(st: Store, defaultName: seq<byte>, c: Config, d: Config)
    requires ConfigOk(c) && Persistable(st, defaultName, d)
    ensures Persistable(Save(st, SavePlan(c)), defaultName, d)
  {
    hide Save, TablePlan, Bytes64, Truncated, ConfigOk;
    if d.settings.name == [] && NAME in st && st[NAME].Str? {
      SavePlanKeys(c);
      var plan := SavePlan(c);
      assert plan[0] == (NAME, Str(c.settings.name)) by { SettingsInRange(c); }
      SaveKeepsString(st, plan, NAME);
    }
  }

  lemma WriteStep(s: State, defaultName: seq<byte>, t: nat, works: bool)
    requires Inv(s, defaultName) && Enabled(s, defaultName, Write(t, works))
    ensures Inv(Step(s, defaultName, Write(t, works)), defaultName)
  {
    hide Save, SavePlan, Loaded, ConfigOk, GenerationAfter, Persistable;
    assert SaverOk(s, t);
    if works {
      var c := s.savers[t].config;
      assert Persistable(s.store, defaultName, c);
      Reloads(s.store, c, defaultName);
      forall i | 0 <= i < |s.history|
        ensures ConfigOk(s.history[i]) && Persistable(Save(s.store, SavePlan(c)), defaultName, s.history[i])
      {
        WritePersists(s.store, defaultName, c, s.history[i]);
      }
    }
    var u := Step(s, defaultName, Write(t, works));
    forall x <- u.savers ensures SaverOk(u, x) {
      assert x in s.savers ==> SaverOk(s, x);
    }
  }

  lemma Reloads(st: Store, c: Config, defaultName: seq<byte>)
    requires ConfigOk(c) && Persistable(st, defaultName, c)
    ensures Loaded(Save(st, SavePlan(c)), defaultName) == c
  {
    hide ConfigOk, Save, SavePlan, Loaded, Truncated, NameSurvives;
    SaveReloads(st, c, defaultName);
  }

  lemma StepKeepsInv(s: State, defaultName: seq<byte>, e: Event)
    requires Inv(s, defaultName) && Enabled(s, defaultName, e)
    ensures Inv(Step(s, defaultName, e), defaultName)
  {
    hide Save, SavePlan, Loaded, ConfigOk, GenerationAfter, Persistable, Bump;
    var u := Step(s, defaultName, e);
    match e
    case Change(c) =>
      BumpFollows(|s.history|);
      forall x <- u.savers ensures SaverOk(u, x) { assert SaverOk(s, x); }
    case TakeSnapshot(t) =>
      forall x <- u.savers ensures SaverOk(u, x) { assert x in s.savers ==> SaverOk(s, x); }
    case Write(t, works) => WriteStep(s, defaultName, t, works);
    case Mark(t) =>
      assert SaverOk(s, t);
      if s.savers[t].saved && s.dirty == s.savers[t].generation {
        GenerationsDiffer(s.savers[t].version, |s.history|);
      }
      forall x <- u.savers ensures SaverOk(u, x) { assert SaverOk(s, x); }
    case PutCredential(k, v) =>
      CredentialsDoNotMatter(s.store, defaultName, k, v);
      forall x <- u.savers ensures SaverOk(u, x) { assert SaverOk(s, x); }
  }

  lemma {:induction false} InvAlways(s: State, defaultName: seq<byte>, es: seq<Event>)
    requires Inv(s, defaultName) && Possible(s, defaultName, es)
    ensures Inv(Run(s, defaultName, es), defaultName)
    decreases |es|
  {
    hide Step, Inv, Enabled;
    if es != [] {
      StepKeepsInv(s, defaultName, es[0]);
      InvAlways(Step(s, defaultName, es[0]), defaultName, es[1..]);
    }
  }

  /** Equal generations mean a saved configuration, in every interleaving: reloading the
      store then gives what is in memory. The generations are equal exactly when the
      changes since the last marked save are a whole number of wraps, so this needs fewer
      than 2^32 - 1 of them. */
  lemma CleanMeansSaved(st: Store, defaultName: seq<byte>, es: seq<Event>)
    requires Possible(Start(st, defaultName), defaultName, es)
    ensures var s := Run(Start(st, defaultName), defaultName, es);
            && 0 < s.markedVersion <= |s.history|
            && (s.dirty == s.savedGeneration <==> (|s.history| - s.markedVersion) % GENERATIONS == 0)
            && (s.dirty == s.savedGeneration && |s.history| - s.markedVersion < GENERATIONS
                ==> Loaded(s.store, defaultName) == s.history[|s.history| - 1])
  {
    hide Run, Loaded, ConfigOk, GenerationAfter, Persistable;
    StartInv(st, defaultName);
    InvAlways(Start(st, defaultName), defaultName, es);
    var s := Run(Start(st, defaultName), defaultName, es);
    SameGeneration(s.markedVersion, |s.history|);
    if s.dirty == s.savedGeneration && |s.history| - s.markedVersion < GENERATIONS {
      GenerationsDiffer(s.markedVersion, |s.history|);
    }
  }
}
