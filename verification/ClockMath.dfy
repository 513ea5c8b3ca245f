/** The pure clock arithmetic of main/include/ClockMath.h. */
module ClockMath {
  import opened Arith
  import opened Bytes

  const CLOCK_DEFAULT_EPOCH_SEC := 946_684_800
  const CLOCK_MAX_SANE_EPOCH_SEC := 4_102_444_800
  const CLOCK_MIN_NTP_EPOCH_SEC := 1_600_000_000
  const DAY := 86_400

  type i16 = x: int | -0x8000 <= x < 0x8000

  predicate EpochIsSane(epoch: u64) {
    CLOCK_DEFAULT_EPOCH_SEC <= epoch < CLOCK_MAX_SANE_EPOCH_SEC
  }

  predicate NtpEpochIsSane(epoch: u64) {
    CLOCK_MIN_NTP_EPOCH_SEC <= epoch < CLOCK_MAX_SANE_EPOCH_SEC
  }

  /** The clock starts from the later of the sane candidates, else from the default. */
  function SelectInitialEpoch(retained: u64, saved: u64): (r: (u64, bool))
    ensures EpochIsSane(r.0)
    ensures r.1 <==> EpochIsSane(retained) || EpochIsSane(saved)
    ensures r.1 ==> r.0 == retained || r.0 == saved
    ensures EpochIsSane(retained) ==> r.0 >= retained
    ensures EpochIsSane(saved) ==> r.0 >= saved
    ensures !r.1 ==> r.0 == CLOCK_DEFAULT_EPOCH_SEC
  {
    if !EpochIsSane(retained) && !EpochIsSane(saved) then (CLOCK_DEFAULT_EPOCH_SEC, false)
    else if !EpochIsSane(retained) then (saved, true)
    else if !EpochIsSane(saved) then (retained, true)
    else (if retained > saved then retained else saved, true)
  }

  // Local time.

  /** The C remainder, which takes the sign of the dividend. */
  function CRemainder(x: int, m: int): int
    requires m > 0
  {
    if x >= 0 then x % m else -((-x) % m)
  }

  /** static_cast<int64_t> */
  function ToInt64(x: u64): int {
    if x < 0x8000_0000_0000_0000 then x else x - 0x1_0000_0000_0000_0000
  }

  function Local(utc: u64, tzOffsetMinutes: i16): int {
    ToInt64(utc) + tzOffsetMinutes as int * 60
  }

  function LocalTimeOfDay(utc: u64, tzOffsetMinutes: i16): (r: int)
  {
    CRemainder(CRemainder(Local(utc, tzOffsetMinutes), DAY) + DAY, DAY)
  }

  function EpochForLocalTimeOfDay(reference: u64, tzOffsetMinutes: i16, secOfDay: u32): Option<u64> {
    if !EpochIsSane(reference) || secOfDay >= DAY then None
    else
      var localReference := reference + tzOffsetMinutes as int * 60;
      var localDay := localReference - CRemainder(CRemainder(localReference, DAY) + DAY, DAY);
      var utc := localDay + secOfDay - tzOffsetMinutes as int * 60;
      if utc <= 0 || !EpochIsSane(utc) then None else Some(utc)
  }

  lemma TimeOfDayIsFloored(utc: u64, tz: i16)
    ensures LocalTimeOfDay(utc, tz) == Local(utc, tz) % DAY
    ensures 0 <= LocalTimeOfDay(utc, tz) < DAY
  {
    var x := Local(utc, tz);
    var r := CRemainder(x, DAY);
    if x >= 0 {
      DivModUnique(r + DAY, DAY, 1, x % DAY);
    } else {
      var n := -x / DAY;
      assert x == (-n) * DAY + r;
      if r == 0 { DivModUnique(x, DAY, -n, 0); } else { DivModUnique(x, DAY, -n - 1, r + DAY); }
      DivModUnique(r + DAY, DAY, if r == 0 then 1 else 0, if r == 0 then 0 else r + DAY);
    }
  }

  predicate SameLocalDay(a: u64, b: u64, tz: i16) {
    Local(a, tz) / DAY == Local(b, tz) / DAY
  }

  /** Setting a time of day picks the one instant that reads as that time on the local day
      of the reference, and fails exactly when that instant is not sane. */
  lemma TimeOfDayRoundTrip(reference: u64, tz: i16, secOfDay: u32, u: u64)
    requires EpochIsSane(reference)
    ensures EpochForLocalTimeOfDay(reference, tz, secOfDay) == Some(u)
            <==> EpochIsSane(u) && SameLocalDay(u, reference, tz) && LocalTimeOfDay(u, tz) == secOfDay
  {
    hide CRemainder;
    TimeOfDayIsFloored(reference, tz);
    TimeOfDayIsFloored(u, tz);
  }

  // Watering history.

  /** clockRebaseTimestampPreservingAge */
  function Rebase(oldNow: u64, newNow: u64, event: u64): u64 {
    if event == 0 then 0
    else
      var age := if oldNow >= event then oldNow - event else 0;
      if newNow > age then newNow - age else 1
  }

  /** A rebased timestamp keeps its age unless the new clock does not reach that far back,
      and a set timestamp stays set. */
  lemma RebaseKeepsAge(oldNow: u64, newNow: u64, event: u64)
    requires event != 0 && newNow != 0
    ensures 0 < Rebase(oldNow, newNow, event) <= newNow
    ensures var age := if oldNow >= event then oldNow - event else 0;
            newNow - Rebase(oldNow, newNow, event) == if newNow > age then age else newNow - 1
  {
  }

  /** The stamp that rebaseLastAutoWateringTimestamps stores. */
  function RebasedStamp(oldNow: u64, newNow: u64, last: u32): u32
    requires 0 < newNow <= U32_MAX
  {
    if last == 0 then 0
    else
      RebaseKeepsAge(oldNow, newNow, last);
      Rebase(oldNow, newNow, last)
  }

  /** Sane times are those of the years 2000 to 2099; network times begin in September 2020. */
  lemma SaneTimes(epoch: u64)
    ensures EpochIsSane(epoch) <==> 10_957 * 86_400 <= epoch < 47_482 * 86_400
    ensures NtpEpochIsSane(epoch) <==> 1_600_000_000 <= epoch < 47_482 * 86_400
  {
  }

  /** The signed reading of 64 bits. */
  lemma SignedReading(x: u64)
    ensures -0x8000_0000_0000_0000 <= ToInt64(x) < 0x8000_0000_0000_0000
    ensures ToInt64(x) == x || ToInt64(x) + 0x1_0000_0000_0000_0000 == x
  {
  }

  /** What was never recorded stays so, and what was recorded keeps its age. */
  lemma RebasedStampMeans(oldNow: u64, newNow: u64, last: u32)
    requires 0 < newNow <= U32_MAX
    ensures RebasedStamp(oldNow, newNow, last) == 0 <==> last == 0
    ensures last != 0 ==>
              var age := if oldNow >= last then oldNow - last else 0;
              newNow - RebasedStamp(oldNow, newNow, last) == if newNow > age then age else newNow - 1
    ensures Rebase(oldNow, newNow, 0) == 0
  {
  }
}
