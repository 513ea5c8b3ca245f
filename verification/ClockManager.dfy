/** The clock in the form of main/src/clock_manager.cpp: the base, the NTP attempt and its
    generation as globals updated in place. Every locked section is one step of Ntp; a
    correction moves the base, and with it the whole watering history. */
module ClockManager {
  import opened Bytes
  import opened ClockMath
  import opened Ntp
  import C = Cooldown

  const NTP_TIMEOUT_US := 10_000_000

  /** ClockSource, with the state before initialisation. */
  type ClockSource = Option<Source>

  class Manager {
    var gClockBaseUtc: u64
    var gClockBaseUs: int
    var gClockSource: ClockSource
    var gNtpSyncPending: bool
    var gNtpDeadlineUs: int
    var gNtpAttemptGeneration: u32
    var gNtpCallbackReady: bool
    var gNtpCallbackEpoch: u64
    var gNtpCallbackActiveGeneration: u32
    var gNtpCallbackGeneration: u32

    /** The recorded completions of all pots (settings.cpp). */
    const history: array<u32>
    var gSavedUtc: u64

    /** What the loop holds between taking an answer and dealing with it. */
    var held: Option<(u64, u32)>

    // The counts of Ntp.
    ghost var changes: nat
    ghost var byRequest: bool
    ghost var corrections: seq<(Source, nat)>
    ghost var readyAt: nat
    ghost var heldAt: nat

    ghost function View(): Clock
      reads this
    {
      Clock(gNtpSyncPending, gNtpAttemptGeneration, gNtpCallbackActiveGeneration,
            if gNtpCallbackReady then Some(Answer(gNtpCallbackEpoch, gNtpCallbackGeneration, readyAt)) else None,
            if held.Some? then Some(Answer(held.value.0, held.value.1, heldAt)) else None,
            changes, byRequest, corrections)
    }

    constructor (pots: nat)
      ensures View() == BOOT && gClockSource == None && gClockBaseUtc == 0
      ensures fresh(history) && history.Length == pots
    {
      gClockBaseUtc, gClockBaseUs, gClockSource := 0, 0, None;
      gNtpSyncPending, gNtpDeadlineUs, gNtpAttemptGeneration := false, 0, 0;
      gNtpCallbackReady, gNtpCallbackEpoch, gNtpCallbackActiveGeneration, gNtpCallbackGeneration := false, 0, 0, 0;
      history := new u32[pots](_ => 0);
      gSavedUtc, held := 0, None;
      changes, byRequest, corrections, readyAt, heldAt := 0, false, [], 0, 0;
    }

    /** currentEpochLocked. */
    function CurrentEpoch(nowUs: int): int
      reads this
    {
      if gClockSource == None || gClockBaseUtc == 0 then 0
      else gClockBaseUtc + (if nowUs < gClockBaseUs then 0 else (nowUs - gClockBaseUs) / 1_000_000)
    }

    /** The clock reads `epoch` at this time, and one more with each second after it. */
    ghost predicate RunsFrom(epoch: int, nowUs: int)
      reads this
    {
      forall later :: later >= nowUs ==> CurrentEpoch(later) == epoch + (later - nowUs) / 1_000_000
    }

    lemma BaseRuns()
      requires gClockSource != None && gClockBaseUtc != 0
      ensures RunsFrom(gClockBaseUtc, gClockBaseUs)
    {
    }

    /** clockManagerInit. */
    method Init(retained: u64, saved: u64, nowUs: int)
      modifies this`gClockBaseUtc, this`gClockBaseUs, this`gClockSource, this`gNtpSyncPending, this`gNtpDeadlineUs, this`gSavedUtc
      ensures RunsFrom(SelectInitialEpoch(retained, saved).0, nowUs)
      ensures gSavedUtc == if saved == SelectInitialEpoch(retained, saved).0 then old(gSavedUtc) else SelectInitialEpoch(retained, saved).0
      ensures gClockSource == Some(if EpochIsSane(retained) || EpochIsSane(saved) then RESTORED else FALLBACK)
      ensures View() == old(View()).(pending := false)
    {
      hide Step;
      var (epoch, restored) := SelectInitialEpoch(retained, saved);
      gClockBaseUtc, gClockBaseUs := epoch, nowUs;
      gClockSource := Some(if restored then RESTORED else FALLBACK);
      gNtpSyncPending, gNtpDeadlineUs := false, 0;
      if saved != epoch { gSavedUtc := epoch; }
    }

    /** applyEpochCorrection. Refused for an insane epoch, or for an NTP answer whose
        attempt is over; otherwise the clock reads the new epoch from now on, and every
        recorded completion is rebased by the same pair of readings. */
    method ApplyEpochCorrection(epoch: u64, source: Source, expectedGeneration: u32, nowUs: int) returns (applied: bool)
      requires 0 <= CurrentEpoch(nowUs) <= 0xFFFF_FFFF_FFFF_FFFF
      modifies this`gClockBaseUtc, this`gClockBaseUs, this`gClockSource, this`gNtpSyncPending, this`gNtpDeadlineUs,
               this`gSavedUtc, this`corrections, history
      ensures applied == (EpochIsSane(epoch)
                          && (expectedGeneration == 0 || (old(gNtpSyncPending) && gNtpAttemptGeneration == expectedGeneration)))
      ensures !applied ==>
                && View() == old(View()) && history[..] == old(history[..]) && gSavedUtc == old(gSavedUtc)
                && gClockBaseUtc == old(gClockBaseUtc) && gClockBaseUs == old(gClockBaseUs) && gClockSource == old(gClockSource)
      ensures applied ==>
                && View() == Correct(old(View()), source).(pending := old(gNtpSyncPending) && expectedGeneration == 0)
                && gClockSource == Some(source) && RunsFrom(epoch, nowUs) && gSavedUtc == epoch
                && forall p :: 0 <= p < history.Length ==>
                     history[p] as int == Rebase(old(CurrentEpoch(nowUs)), epoch, old(history[p]))
    {
      hide Rebase, Step;
      if !EpochIsSane(epoch) { return false; }
      if expectedGeneration != 0 && (!gNtpSyncPending || gNtpAttemptGeneration != expectedGeneration) { return false; }
      var oldNowUtc := CurrentEpoch(nowUs);
      SetBase(epoch, source, expectedGeneration != 0, nowUs);
      var _ := C.RebasePots(history, history.Length, oldNowUtc, epoch);
      gSavedUtc := epoch;
      BaseRuns();
      return true;
    }

    /** The new base, and the end of the attempt it answers. */
    method SetBase(epoch: u64, source: Source, endAttempt: bool, nowUs: int)
      requires epoch != 0
      modifies this`gClockBaseUtc, this`gClockBaseUs, this`gClockSource, this`gNtpSyncPending, this`gNtpDeadlineUs, this`corrections
      ensures View() == Correct(old(View()), source).(pending := old(gNtpSyncPending) && !endAttempt)
      ensures gClockSource == Some(source) && gClockBaseUtc == epoch && gClockBaseUs == nowUs
    {
      gClockBaseUtc, gClockBaseUs, gClockSource := epoch, nowUs, Some(source);
      if endAttempt {
        gNtpSyncPending, gNtpDeadlineUs := false, 0;
      }
      corrections := corrections + [(source, changes)];
    }

    /** ntpTimeAvailable, for a time later than the epoch. */
    method NtpTimeAvailable(epoch: u64)
      modifies this`gNtpCallbackReady, this`gNtpCallbackEpoch, this`gNtpCallbackGeneration, this`readyAt
      ensures View() == Step(old(View()), Callback(epoch))
      ensures epoch != 0 ==> gNtpCallbackReady && gNtpCallbackEpoch == epoch && gNtpCallbackGeneration == gNtpCallbackActiveGeneration
    {
      if epoch == 0 { return; }
      gNtpCallbackEpoch, gNtpCallbackGeneration, gNtpCallbackReady := epoch, gNtpCallbackActiveGeneration, true;
      readyAt := changes;
    }

    /** takeNtpCallback. */
    method TakeNtpCallback()
      requires held == None
      modifies this`gNtpCallbackReady, this`gNtpCallbackEpoch, this`gNtpCallbackGeneration, this`held, this`heldAt
      ensures View() == Step(old(View()), Take) && !gNtpCallbackReady
      ensures held == if old(gNtpCallbackReady) then Some((old(gNtpCallbackEpoch), old(gNtpCallbackGeneration))) else None
    {
      if gNtpCallbackReady {
        held, heldAt := Some((gNtpCallbackEpoch, gNtpCallbackGeneration)), readyAt;
        gNtpCallbackReady, gNtpCallbackEpoch, gNtpCallbackGeneration := false, 0, 0;
      }
    }

    /** The first part of clockManagerLoop, once an answer is taken. */
    method DealWithAnswer(nowUs: int)
      requires held.Some? && 0 <= CurrentEpoch(nowUs) <= 0xFFFF_FFFF_FFFF_FFFF
      modifies this`gClockBaseUtc, this`gClockBaseUs, this`gClockSource, this`gNtpSyncPending, this`gNtpDeadlineUs,
               this`gSavedUtc, this`corrections, this`held, history
      ensures View() == Step(old(View()), Apply)
      ensures var (epoch, generation) := old(held.value);
              if NtpEpochIsSane(epoch) && (generation == 0 || (old(gNtpSyncPending) && old(gNtpAttemptGeneration) == generation))
              then
                && gClockSource == Some(NTP) && RunsFrom(epoch, nowUs) && gSavedUtc == epoch
                && forall p :: 0 <= p < history.Length ==>
                     history[p] as int == Rebase(old(CurrentEpoch(nowUs)), epoch, old(history[p]))
              else
                && gClockBaseUtc == old(gClockBaseUtc) && gClockBaseUs == old(gClockBaseUs) && gClockSource == old(gClockSource)
                && gSavedUtc == old(gSavedUtc) && history[..] == old(history[..])
    {
      hide Rebase;
      var (epoch, generation) := held.value;
      held := None;
      if NtpEpochIsSane(epoch) {
        var _ := ApplyEpochCorrection(epoch, NTP, generation, nowUs);
      } else if gNtpSyncPending && gNtpAttemptGeneration == generation {
        gNtpSyncPending, gNtpDeadlineUs := false, 0;
      }
    }

    /** The second part of clockManagerLoop. */
    method CheckDeadline(connected: bool, nowUs: int) returns (ended: bool)
      modifies this`gNtpSyncPending, this`gNtpDeadlineUs
      ensures ended <==> old(gNtpSyncPending) && (!connected || nowUs >= old(gNtpDeadlineUs))
      ensures View() == if ended then Step(old(View()), Expire) else old(View())
    {
      ended := false;
      if gNtpSyncPending && !connected {
        gNtpSyncPending, gNtpDeadlineUs := false, 0;
        ended := true;
      } else if gNtpSyncPending && nowUs >= gNtpDeadlineUs {
        gNtpSyncPending, gNtpDeadlineUs := false, 0;
        ended := true;
      }
    }

    method ChangeGeneration()
      modifies this`gNtpAttemptGeneration, this`gNtpCallbackActiveGeneration, this`gNtpCallbackReady,
               this`gNtpCallbackEpoch, this`gNtpCallbackGeneration, this`changes
      ensures View() == NewGeneration(old(View()))
    {
      gNtpAttemptGeneration := (gNtpAttemptGeneration as int + 1) % 0x1_0000_0000;
      if gNtpAttemptGeneration == 0 { gNtpAttemptGeneration := gNtpAttemptGeneration as int + 1; }
      gNtpCallbackActiveGeneration := gNtpAttemptGeneration;
      gNtpCallbackReady, gNtpCallbackEpoch, gNtpCallbackGeneration := false, 0, 0;
      changes := changes + 1;
    }

    method RequestNtpSync(connected: bool, nowUs: int) returns (ok: bool)
      modifies this
      ensures ok == connected && View() == Step(old(View()), Request(connected))
      ensures gClockBaseUtc == old(gClockBaseUtc) && gClockBaseUs == old(gClockBaseUs) && gClockSource == old(gClockSource)
      ensures gSavedUtc == old(gSavedUtc)
      ensures gNtpSyncPending == (old(gNtpSyncPending) || connected)
      ensures !old(gNtpSyncPending) && connected ==>
                && !gNtpCallbackReady && gNtpAttemptGeneration == gNtpCallbackActiveGeneration != 0
                && gNtpAttemptGeneration as int == (if old(gNtpAttemptGeneration) == 0xFFFF_FFFF then 1 else old(gNtpAttemptGeneration) + 1)
      ensures !old(gNtpSyncPending) && connected ==> gNtpDeadlineUs == nowUs + NTP_TIMEOUT_US
      ensures old(gNtpSyncPending) || !connected ==> gNtpDeadlineUs == old(gNtpDeadlineUs)
    {
      if !connected { return false; }
      if gNtpSyncPending { return true; }
      gNtpSyncPending, gNtpDeadlineUs := true, nowUs + NTP_TIMEOUT_US;
      ChangeGeneration();
      byRequest := true;
      return true;
    }

    method CancelNtpAttempt()
      modifies this
      ensures View() == Step(old(View()), Cancel) && gSavedUtc == old(gSavedUtc)
      ensures !gNtpSyncPending && !gNtpCallbackReady && gNtpAttemptGeneration == gNtpCallbackActiveGeneration != 0
      ensures gNtpAttemptGeneration as int == if old(gNtpAttemptGeneration) == 0xFFFF_FFFF then 1 else old(gNtpAttemptGeneration) + 1
      ensures gClockBaseUtc == old(gClockBaseUtc) && gClockBaseUs == old(gClockBaseUs) && gClockSource == old(gClockSource)
    {
      gNtpSyncPending, gNtpDeadlineUs := false, 0;
      ChangeGeneration();
      byRequest := false;
    }

    /** clockSetUserTimeOfDaySec, when nothing else runs in between: the clock then reads
        the given time of day, on the local day it read before. */
    method SetUserTimeOfDay(secOfDay: u32, tzOffsetMinutes: i16, nowUs: int) returns (ok: bool)
      requires 0 <= CurrentEpoch(nowUs) <= 0xFFFF_FFFF_FFFF_FFFF
      modifies this, history
      ensures ok <==> secOfDay < DAY && EpochForLocalTimeOfDay(old(CurrentEpoch(nowUs)), tzOffsetMinutes, secOfDay).Some?
      ensures ok ==> EpochForLocalTimeOfDay(old(CurrentEpoch(nowUs)), tzOffsetMinutes, secOfDay) == Some(CurrentEpoch(nowUs))
      ensures ok ==> gClockSource == Some(MANUAL) && !gNtpSyncPending && RunsFrom(CurrentEpoch(nowUs), nowUs)
      ensures ok ==> gSavedUtc == CurrentEpoch(nowUs) && EpochIsSane(gSavedUtc) && forall p :: 0 <= p < history.Length ==>
                       history[p] as int == Rebase(old(CurrentEpoch(nowUs)), gSavedUtc, old(history[p]))
      ensures !ok ==>
                && gClockBaseUtc == old(gClockBaseUtc) && gClockBaseUs == old(gClockBaseUs) && gClockSource == old(gClockSource)
                && gSavedUtc == old(gSavedUtc) && history[..] == old(history[..])
    {
      if secOfDay >= DAY { return false; }
      CancelNtpAttempt();
      var epoch := EpochForLocalTimeOfDay(CurrentEpoch(nowUs), tzOffsetMinutes, secOfDay);
      if epoch.None? { return false; }
      var applied := ApplyEpochCorrection(epoch.value, MANUAL, 0, nowUs);
      return true;
    }
  }
}
