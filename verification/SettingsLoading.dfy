/** What the loader of main/src/settings.cpp makes of each stored value: the value itself
    when it is in range, the nearest one in range when it is not, and the factory setting
    when there is none. */
module SettingsLoading {
  import opened Bytes
  import opened ClockMath
  import opened Nvs
  import opened PotMask
  import opened Utf8
  import opened SettingsSpec

  /** An empty store. */
  lemma FactorySettings(defaultName: seq<byte>)
    ensures Loaded(map[], defaultName) == Config(Settings(Truncated(defaultName, 64), 3600, 1, 10, 0, 86_399, 0, 0, 0), [])
  {
    hide Truncated;
    Word64Inverse(0);
  }

  /** The stored numbers. */
  lemma NumbersLoaded(st: Store, defaultName: seq<byte>, dsint: u32, pdelay: byte, mptime: byte, start: u32, end: u32, tz: i32,
                      lang: byte)
    requires DSINT in st && st[DSINT] == UInt(dsint) && PDELAY in st && st[PDELAY] == UChar(pdelay)
    requires MPTIME in st && st[MPTIME] == UChar(mptime) && START in st && st[START] == UInt(start)
    requires END in st && st[END] == UInt(end) && TZ in st && st[TZ] == Int(tz) && LANG in st && st[LANG] == UChar(lang)
    ensures var s := LoadedSettings(st, defaultName);
            && s.dataSyncInterval == (if dsint < 60 then 60 else if dsint > 2_419_200 then 2_419_200 else dsint)
            && s.pumpDelaySeconds == (if pdelay > 30 then 30 else pdelay)
            && s.manualPumpTimeoutSeconds == (if mptime == 0 then 1 else if mptime > 60 then 60 else mptime)
            && s.activeStart == (if start > 86_399 then 86_399 else start)
            && s.activeEnd == (if end > 86_399 then 86_399 else end)
            && s.tzOffsetMinutes == (if tz < -840 then -840 else if tz > 840 then 840 else tz)
            && s.language == (if lang == 1 then 1 else 0)
  {
    hide LoadedUtc, Truncated;
  }

  /** The saved time of a store from before times were kept in UTC: the instant whose local
      reading was stored, or none when that is before 1970. */
  lemma OldTimeIsLocal(st: Store, defaultName: seq<byte>, local: u64)
    requires UTC64 !in st && EPOCH64 in st && st[EPOCH64] == Blob(Bytes64(local))
    ensures var s := LoadedSettings(st, defaultName);
            && (s.savedUtcSec != 0 ==> Local(s.savedUtcSec, s.tzOffsetMinutes) == ToInt64(local))
            && (s.savedUtcSec == 0 <==> !(0 < ToInt64(local) - s.tzOffsetMinutes as int * 60 <= 0x7FFF_FFFF_FFFF_FFFF))
  {
    hide Truncated, Bytes64, Word64;
    Word64Inverse(local);
    assert Bytes64(local) + Bytes64(0)[8..] == Bytes64(local);
  }

  /** A worker's stored arrays, and the pots its stored count brings into use. */
  lemma PotsLoaded(st: Store, i: nat, mac: seq<byte>, count: byte, ths: seq<u16>, dus: seq<u16>, its: seq<u32>, las: seq<u32>)
    requires |mac| == 6 && |ths| == |dus| == |its| == |las| == MAX_POTS
    requires WPC(i) in st && st[WPC(i)] == UChar(count)
    requires WTHARR(i) in st && st[WTHARR(i)] == Blob(Bytes16(ths)) && WDURARR(i) in st && st[WDURARR(i)] == Blob(Bytes16(dus))
    requires WINTARR(i) in st && st[WINTARR(i)] == Blob(Bytes32(its)) && WLASTARR(i) in st && st[WLASTARR(i)] == Blob(Bytes32(las))
    ensures var w := LoadedWorker(st, i, mac);
            && w.potCount == (if count == 0 then 1 else if count > 16 then 16 else count)
            && w.lastWatering == las
            && forall p :: 0 <= p < w.potCount as int ==>
                 && w.thresholds[p] == (if ths[p] > 4095 then 4095 else ths[p])
                 && w.durations[p] == (if dus[p] == 0 then 1 else if dus[p] > 60 then 60 else dus[p])
                 && w.waterIntervals[p] == (if its[p] < 60 then 60 else if its[p] > 2_419_200 then 2_419_200 else its[p])
  {
    hide Truncated, Bytes16, Words16, Bytes32, Words32;
    StoredWords(st, WTHARR(i), ths, DEFAULT_THRESHOLD);
    StoredWords(st, WDURARR(i), dus, DEFAULT_DURATION);
    Words32Inverse(its);
    Words32Inverse(las);
  }

  lemma StoredWords(st: Store, k: Key, vs: seq<u16>, default_: u16)
    requires |vs| == MAX_POTS && k in st && st[k] == Blob(Bytes16(vs))
    ensures Words(st, k, default_) == vs
  {
    hide Bytes16, Words16;
    Words16Inverse(vs);
    var buffer := Bytes16(seq(MAX_POTS, _ => default_));
    assert Bytes16(vs) + buffer[2 * MAX_POTS..] == Bytes16(vs);
  }

  /** A worker stored without its arrays: the defaults. */
  lemma BareWorkerLoaded(st: Store, i: nat, mac: seq<byte>)
    requires |mac| == 6 && WPC(i) !in st && WNAME(i) !in st && WPNM(i, 0) !in st
    requires WTHARR(i) !in st && WDURARR(i) !in st && WINTARR(i) !in st && WLASTARR(i) !in st
    ensures var w := LoadedWorker(st, i, mac);
            && w.potCount == 1 && w.workerName == [] && w.potNames[0] == []
            && w.thresholds[0] == 2000 && w.durations[0] == 5 && w.waterIntervals[0] == 3600 && w.lastWatering[0] == 0
  {
    hide Bytes16, Words16;
    Words16Inverse(seq(MAX_POTS, _ => DEFAULT_THRESHOLD));
    Words16Inverse(seq(MAX_POTS, _ => DEFAULT_DURATION));
  }

  /** The settings a user may choose. */
  lemma ValidMeans(s: Settings)
    ensures ValidSettings(s) <==>
            && 60 <= s.dataSyncInterval <= 2_419_200 && 0 <= s.pumpDelaySeconds <= 30 && 1 <= s.manualPumpTimeoutSeconds <= 60
            && 0 <= s.activeStart < 86_400 && 0 <= s.activeEnd < 86_400 && -14 * 60 <= s.tzOffsetMinutes <= 14 * 60
            && (s.language == 0 || s.language == 1)
  {
  }

  /** At most eight slots are read, and none for a count that is negative as a C int. */
  lemma SlotsLoaded(st: Store, defaultName: seq<byte>, count: u32)
    requires WCOUNT in st && st[WCOUNT] == UInt(count)
    ensures Loaded(st, defaultName).workers
            == LoadedTable(st, if count >= 0x8000_0000 then 0 else if count < 8 then count else 8)
  {
    hide LoadedSettings;
  }
}
