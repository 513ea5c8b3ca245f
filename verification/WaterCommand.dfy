/** A water command from the gateway's request to the worker's valves:
    main/src/watering_manager.cpp builds the body, worker/src/bluetooth_worker.cpp parses
    and executes it. */
module WaterCommand {
  import opened Bytes
  import opened PotMask
  import opened Tlv
  import opened Valve

  const TYPE_CMD_WATER: byte := 0x32
  const TYPE_EVENT_WATER_DONE: byte := 0x42
  const FIELD_POT_MASK: byte := 0x05
  const FIELD_DURATION_LIST: byte := 0x06
  const MAX_WATER_SECONDS := 60
  const VALVE_PAUSE_MS := 50

  predicate DurationsOk(ds: seq<u16>) {
    forall i :: 0 <= i < |ds| ==> 1 <= ds[i] <= MAX_WATER_SECONDS
  }

  /** A request the gateway will send: one duration per selected pot. */
  predicate Sendable(mask: u16, ds: seq<u16>) {
    mask != 0 && 0 < |ds| <= MAX_POTS && |ds| == Popcount(mask) && DurationsOk(ds)
  }

  function Fields(mask: u16, ds: seq<u16>): seq<WireField>
    requires |ds| <= MAX_POTS
  {
    [Field(FIELD_POT_MASK, BeU16(mask)), Field(FIELD_DURATION_LIST, BeArray(ds))]
  }

  function Body(mask: u16, ds: seq<u16>): seq<byte>
    requires |ds| <= MAX_POTS
  {
    [TYPE_CMD_WATER] + Encode(Fields(mask, ds))
  }

  lemma BodyBytes(mask: u16, ds: seq<u16>)
    requires |ds| <= MAX_POTS
    ensures Body(mask, ds) == [TYPE_CMD_WATER] + EncodeField(Field(FIELD_POT_MASK, BeU16(mask)))
                              + EncodeField(Field(FIELD_DURATION_LIST, BeArray(ds)))
    ensures |Body(mask, ds)| == 7 + 2 * |ds| <= MAX_BODY_SIZE
  {
    hide EncodeField, BeArray, BeU16;
    var fs := Fields(mask, ds);
    var last: seq<WireField> := [fs[1]];
    assert fs[1..] == last && last[1..] == [];
    assert Encode(last) == EncodeField(fs[1]) + [] == EncodeField(fs[1]);
    assert [TYPE_CMD_WATER] + (EncodeField(fs[0]) + EncodeField(fs[1]))
        == [TYPE_CMD_WATER] + EncodeField(fs[0]) + EncodeField(fs[1]);
  }

  /** The body building of wateringExecuteWorker. The appends never fail for a request
      that passed the checks. */
  method BuildBody(potMask: u16, durations: array<u16>, durationCount: nat) returns (ok: bool, body: seq<byte>)
    requires durations.Length == MAX_POTS
    ensures ok <==> durationCount <= MAX_POTS && Sendable(potMask, durations[..durationCount])
    ensures ok ==> body == Body(potMask, durations[..durationCount]) && |body| <= MAX_BODY_SIZE
  {
    hide Popcount, BeArray, BeU16, EncodeField, Body;
    body := [];
    if potMask == 0 || durationCount == 0 || durationCount > MAX_POTS || durationCount != Popcount(potMask) {
      return false, body;
    }
    var durationBytes := new byte[2 * MAX_POTS];
    var i := 0;
    while i < durationCount
      invariant 0 <= i <= durationCount
      invariant forall k :: 0 <= k < i ==> 1 <= durations[k] <= MAX_WATER_SECONDS
      invariant forall k :: 0 <= k < i ==>
                  durationBytes[2 * k] == durations[k] / 0x100 && durationBytes[2 * k + 1] == durations[k] % 0x100
    {
      if durations[i] == 0 || durations[i] > MAX_WATER_SECONDS { return false, body; }
      durationBytes[2 * i] := durations[i] / 0x100;
      durationBytes[2 * i + 1] := durations[i] % 0x100;
      i := i + 1;
    }
    var ds := durations[..durationCount];
    assert durationBytes[..2 * durationCount] == BeArray(ds) by { SameBytes(durationBytes[..2 * durationCount], ds); }
    BodyBytes(potMask, ds);
    var builder := new BodyBuilder(TYPE_CMD_WATER);
    ok := builder.AppendU16(FIELD_POT_MASK, potMask);
    assert ok;
    ok := builder.Append(FIELD_DURATION_LIST, durationBytes[..2 * durationCount]);
    body := builder.data[..builder.len];
  }

  lemma SameBytes(b: seq<byte>, ds: seq<u16>)
    requires |b| == 2 * |ds|
    requires forall k :: 0 <= k < |ds| ==> b[2 * k] == ds[k] / 0x100 && b[2 * k + 1] == ds[k] % 0x100
    ensures b == BeArray(ds)
  {
    hide BeArray;
    forall i | 0 <= i < |b| ensures b[i] == BeArray(ds)[i] {
      var k := i / 2;
      assert i == 2 * k || i == 2 * k + 1;
      assert b[2 * k] == BeArray(ds)[2 * k];
    }
  }

  // The worker's side.

  /** What parseWaterCommand accepts on a worker with `potCount` pots. */
  function Parsed(body: seq<byte>, potCount: nat): Option<(u16, seq<u16>)> {
    if |body| < 1 || body[0] != TYPE_CMD_WATER then None
    else
      var mask, ds := ReadU16(body[1..], FIELD_POT_MASK), ReadU16Array(body[1..], FIELD_DURATION_LIST, potCount);
      if mask.None? || mask.value == 0 || HighBits(mask.value, potCount) != 0 || ds.None? then None
      else if |ds.value| != Popcount(mask.value) || !DurationsOk(ds.value) then None
      else Some((mask.value, ds.value))
  }

  method ParseWaterCommand(body: seq<byte>, durations: array<u16>) returns (ok: bool, potMask: u16, durationCount: nat)
    modifies durations
    ensures ok <==> Parsed(body, durations.Length).Some?
    ensures ok ==> durationCount <= durations.Length
                   && Parsed(body, durations.Length).value == (potMask, durations[..durationCount])
  {
    hide Popcount, HighBits, ReadU16, ReadU16Array;
    ok, potMask, durationCount := false, 0, 0;
    if |body| < 1 || body[0] != TYPE_CMD_WATER { return; }
    var tlvs := body[1..];
    var mask := ReadRequiredU16(tlvs, FIELD_POT_MASK);
    if mask.None? { return; }
    potMask := mask.value;
    if potMask == 0 || HighBits(potMask, durations.Length) != 0 { return; }
    var read;
    read, durationCount := ReadRequiredU16Array(tlvs, FIELD_DURATION_LIST, durations, durations.Length);
    if !read { return; }
    if durationCount != Popcount(potMask) { return; }
    var i := 0;
    while i < durationCount
      invariant 0 <= i <= durationCount
      invariant DurationsOk(durations[..i])
    {
      if durations[i] == 0 || durations[i] > MAX_WATER_SECONDS {
        assert !DurationsOk(durations[..durationCount]);
        return;
      }
      i := i + 1;
    }
    ok := true;
  }

  /** The worker recovers exactly what the gateway encoded, or refuses it when it names a
      pot the worker does not have. */
  lemma ParseRecoversRequest(mask: u16, ds: seq<u16>, potCount: nat)
    requires Sendable(mask, ds) && potCount <= MAX_POTS
    ensures Parsed(Body(mask, ds), potCount) == if HighBits(mask, potCount) == 0 then Some((mask, ds)) else None
  {
    hide Popcount, HighBits, BeU16, FromBeU16, BeArray, FromBeArray, Encode, Search;
    var fs := Fields(mask, ds);
    var f0, f1 := fs[0], fs[1];
    assert Body(mask, ds)[1..] == Encode(fs);
    assert [] + [f0] + [f1] == fs && [f0] + [f1] + [] == fs;
    ReadersInvertWriters([], FIELD_POT_MASK, BeU16(mask), [f1]);
    ReadersInvertWriters([f0], FIELD_DURATION_LIST, BeArray(ds), []);
    BeU16Inverse(mask);
    BeArrayInverse(ds);
    if HighBits(mask, potCount) == 0 {
      PotsCount(mask, potCount);
    }
  }

  // Executing.

  /** One pot and its seconds. */
  datatype Pour = Pour(pot: nat, seconds: u16)

  /** The durations handed out to the selected pots in ascending order. */
  function Plan(mask: nat, ds: seq<u16>, n: nat): (ps: seq<Pour>)
    requires |Pots(mask, n)| <= |ds|
    ensures |ps| == |Pots(mask, n)|
  {
    seq(|Pots(mask, n)|, i requires 0 <= i < |Pots(mask, n)| => Pour(Pots(mask, n)[i], ds[i]))
  }

  function PourSteps(p: Pour): seq<Step> {
    [Set(OneBit(p.pot)), Wait(p.seconds as int * 1000), Set(0), Wait(VALVE_PAUSE_MS)]
  }

  function Steps(ps: seq<Pour>): seq<Step> {
    if ps == [] then [] else Steps(ps[..|ps| - 1]) + PourSteps(ps[|ps| - 1])
  }

  /** The sum of a list of durations. */
  function Seconds(ds: seq<u16>): nat {
    if ds == [] then 0 else Seconds(ds[..|ds| - 1]) + ds[|ds| - 1]
  }

  lemma NoSeconds()
    ensures Seconds([]) == 0
  {
  }

  lemma SecondsMore(ds: seq<u16>, d: u16)
    ensures Seconds(ds + [d]) == Seconds(ds) + d as int
  {
    assert (ds + [d])[..|ds|] == ds;
  }

  /** How long the steps take. */
  function TakesMs(steps: seq<Step>): nat {
    if steps == [] then 0
    else TakesMs(steps[..|steps| - 1]) + (if steps[|steps| - 1].Wait? then steps[|steps| - 1].ms else 0)
  }

  lemma PourTakes(steps: seq<Step>, p: Pour)
    ensures TakesMs(steps + PourSteps(p)) == TakesMs(steps) + p.seconds as int * 1000 + VALVE_PAUSE_MS
  {
    hide TakesMs;
    var s := PourSteps(p);
    OneMoreTakes(steps, s[0]);
    OneMoreTakes(steps + [s[0]], s[1]);
    OneMoreTakes(steps + [s[0]] + [s[1]], s[2]);
    OneMoreTakes(steps + [s[0]] + [s[1]] + [s[2]], s[3]);
    assert steps + [s[0]] + [s[1]] + [s[2]] + [s[3]] == steps + s;
  }

  lemma OneMoreTakes(steps: seq<Step>, s: Step)
    ensures TakesMs(steps + [s]) == TakesMs(steps) + (if s.Wait? then s.ms else 0)
  {
    assert (steps + [s])[..|steps|] == steps;
  }

  lemma {:induction false} StepsTake(ps: seq<Pour>, ds: seq<u16>)
    requires |ps| == |ds| && forall i :: 0 <= i < |ps| ==> ps[i].seconds == ds[i]
    ensures TakesMs(Steps(ps)) == Seconds(ds) * 1000 + |ps| * VALVE_PAUSE_MS
  {
    hide PourSteps;
    if ps != [] {
      StepsTake(ps[..|ps| - 1], ds[..|ps| - 1]);
      PourTakes(Steps(ps[..|ps| - 1]), ps[|ps| - 1]);
    }
  }

  /** A watering takes its durations and a pause after each, on any worker. */
  lemma PlanTakes(mask: nat, ds: seq<u16>, n: nat)
    requires |Pots(mask, n)| == |ds|
    ensures TakesMs(Steps(Plan(mask, ds, n))) == Seconds(ds) * 1000 + |ds| * VALVE_PAUSE_MS
  {
    hide Pots;
    StepsTake(Plan(mask, ds, n), ds);
  }

  /** What a parsed command promises. */
  lemma ParsedShape(body: seq<byte>, n: nat)
    requires Parsed(body, n).Some?
    ensures var (mask, ds) := Parsed(body, n).value;
            mask != 0 && HighBits(mask, n) == 0 && |ds| == Popcount(mask) == |Pots(mask, n)| && |ds| > 0 && DurationsOk(ds)
  {
    hide Popcount, HighBits, Pots;
    var (mask, ds) := Parsed(body, n).value;
    PotsCount(mask, n);
    PopcountZero(mask);
  }

  lemma {:induction false} FewerPots(m: nat, k: nat, n: nat)
    requires k <= n
    ensures |Pots(m, k)| <= |Pots(m, n)| && Pots(m, k) <= Pots(m, n)
  {
    if k < n { FewerPots(m, k, n - 1); }
  }

  lemma NoPlan(m: nat, ds: seq<u16>)
    ensures Pots(m, 0) == [] && Steps(Plan(m, ds, 0)) == []
  {
  }

  lemma PlanStep(m: nat, ds: seq<u16>, pot: nat, n: nat)
    requires pot < n && |Pots(m, n)| == |ds|
    ensures |Pots(m, pot)| <= |Pots(m, pot + 1)| <= |ds|
    ensures Bit(m, pot) ==>
              && |Pots(m, pot)| < |ds| && Pots(m, pot + 1) == Pots(m, pot) + [pot]
              && Plan(m, ds, pot + 1) == Plan(m, ds, pot) + [Pour(pot, ds[|Pots(m, pot)|])]
              && Steps(Plan(m, ds, pot + 1)) == Steps(Plan(m, ds, pot)) + PourSteps(Pour(pot, ds[|Pots(m, pot)|]))
    ensures !Bit(m, pot) ==> Pots(m, pot + 1) == Pots(m, pot) && Plan(m, ds, pot + 1) == Plan(m, ds, pot)
  {
    hide PourSteps;
    FewerPots(m, pot + 1, n);
    if Bit(m, pot) {
      var ps, p := Plan(m, ds, pot), Pour(pot, ds[|Pots(m, pot)|]);
      assert Plan(m, ds, pot + 1) == ps + [p];
      assert (ps + [p])[..|ps|] == ps;
    } else {
      assert Plan(m, ds, pot + 1) == Plan(m, ds, pot);
    }
  }

  lemma {:induction false} ZeroLow(n: nat)
    ensures LowBits(0, n) == 0
  {
    if n > 0 { ZeroLow(n - 1); }
  }

  /** executeWaterCommand up to the completion event, whose body it returns. `clock` gives
      the successive readings of the timer. */
  method Execute(body: seq<byte>, valves: Valves, clock: nat -> int) returns (ran: bool, done: seq<byte>)
    modifies valves
    ensures ran <==> Parsed(body, valves.potCount).Some?
    ensures ran ==>
              var (mask, ds) := Parsed(body, valves.potCount).value;
              && |Pots(mask, valves.potCount)| == |ds|
              && valves.steps == old(valves.steps) + Steps(Plan(mask, ds, valves.potCount))
              && valves.gValveState == 0
              && done == [TYPE_EVENT_WATER_DONE] + EncodeField(Field(FIELD_POT_MASK, BeU16(mask)))
    ensures !ran ==> valves.steps == old(valves.steps) && valves.gValveState == old(valves.gValveState) && done == []
  {
    hide Parsed, Popcount, HighBits, Pots, Steps, Bit, OneBit, LowBits, EncodeField, BeU16;
    done := [];
    var n := valves.potCount;
    var durations := new u16[n];
    var potMask, durationCount;
    ran, potMask, durationCount := ParseWaterCommand(body, durations);
    if !ran { return; }
    ghost var ds := durations[..durationCount];
    ParsedShape(body, n);
    var durationIndex := 0;
    var pot := 0;
    NoPlan(potMask, ds);
    while pot < n
      invariant 0 <= pot <= n && durations[..durationCount] == ds
      invariant durationIndex == |Pots(potMask, pot)| <= |ds|
      invariant valves.steps == old(valves.steps) + Steps(Plan(potMask, ds, pot))
      invariant durationIndex > 0 ==> valves.gValveState == 0
    {
      PlanStep(potMask, ds, pot, n);
      if Bit(potMask, pot) {
        var seconds := durations[durationIndex];
        durationIndex := durationIndex + 1;
        OneBitFits(pot, n);
        ZeroLow(n);
        valves.SetMask(OneBit(pot), clock(2 * pot));
        valves.Delay(seconds as int * 1000);
        valves.SetMask(0, clock(2 * pot + 1));
        valves.Delay(VALVE_PAUSE_MS);
      }
      pot := pot + 1;
    }
    var event := new BodyBuilder(TYPE_EVENT_WATER_DONE);
    var appended := event.AppendU16(FIELD_POT_MASK, potMask);
    assert appended;
    done := event.data[..event.len];
  }

  // What the steps mean for the pots.

  ghost predicate Ascending(ps: seq<Pour>) {
    forall i, j :: 0 <= i < j < |ps| ==> ps[i].pot < ps[j].pot
  }

  /** The milliseconds a plan gives to a pot. */
  function PlannedMs(ps: seq<Pour>, pot: nat): nat {
    if ps == [] then 0
    else PlannedMs(ps[..|ps| - 1], pot) + (if ps[|ps| - 1].pot == pot then ps[|ps| - 1].seconds as int * 1000 else 0)
  }

  function PlannedOpenings(ps: seq<Pour>, pot: nat): nat {
    if ps == [] then 0
    else PlannedOpenings(ps[..|ps| - 1], pot) + (if ps[|ps| - 1].pot == pot then 1 else 0)
  }

  lemma OneMoreStep(steps: seq<Step>, x: Step, pot: nat)
    ensures var t := steps + [x];
            && After(0, t) == (if x.Set? then x.mask else After(0, steps))
            && OpenMs(0, t, pot) == OpenMs(0, steps, pot) + (if x.Wait? && Bit(After(0, steps), pot) then x.ms else 0)
            && Openings(0, t, pot) == Openings(0, steps, pot)
                 + (if x.Set? && Bit(x.mask, pot) && !Bit(After(0, steps), pot) then 1 else 0)
  {
  }

  /** One pour, seen from closed valves. */
  lemma PourMeaning(steps: seq<Step>, p: Pour, pot: nat)
    requires After(0, steps) == 0
    ensures var t := steps + PourSteps(p);
            && After(0, t) == 0
            && OpenMs(0, t, pot) == OpenMs(0, steps, pot) + (if p.pot == pot then p.seconds as int * 1000 else 0)
            && Openings(0, t, pot) == Openings(0, steps, pot) + (if p.pot == pot then 1 else 0)
  {
    hide OneBit, Bit, After, OpenMs, Openings;
    NoBits(pot);
    BitOfOneBit(p.pot, pot);
    var a := steps + [Set(OneBit(p.pot))];
    var b := a + [Wait(p.seconds as int * 1000)];
    var c := b + [Set(0)];
    OneMoreStep(steps, Set(OneBit(p.pot)), pot);
    OneMoreStep(a, Wait(p.seconds as int * 1000), pot);
    OneMoreStep(b, Set(0), pot);
    OneMoreStep(c, Wait(VALVE_PAUSE_MS), pot);
    assert steps + PourSteps(p) == c + [Wait(VALVE_PAUSE_MS)];
  }

  lemma {:induction false} StepsMeaning(ps: seq<Pour>, pot: nat)
    ensures After(0, Steps(ps)) == 0
    ensures OpenMs(0, Steps(ps), pot) == PlannedMs(ps, pot)
    ensures Openings(0, Steps(ps), pot) == PlannedOpenings(ps, pot)
  {
    hide After, OpenMs, Openings, PourSteps;
    if ps == [] {
      EmptySteps(pot);
    } else {
      StepsMeaning(ps[..|ps| - 1], pot);
      PourMeaning(Steps(ps[..|ps| - 1]), ps[|ps| - 1], pot);
    }
  }

  lemma EmptySteps(pot: nat)
    ensures After(0, []) == 0 && OpenMs(0, [], pot) == 0 && Openings(0, [], pot) == 0
  {
  }

  lemma {:induction false} PlannedOnce(ps: seq<Pour>, i: nat)
    requires Ascending(ps) && i < |ps|
    ensures PlannedMs(ps, ps[i].pot) == ps[i].seconds as int * 1000 && PlannedOpenings(ps, ps[i].pot) == 1
  {
    var init := ps[..|ps| - 1];
    if i < |ps| - 1 {
      PlannedOnce(init, i);
    } else {
      NotPlanned(init, ps[i].pot);
    }
  }

  lemma {:induction false} NotPlanned(ps: seq<Pour>, pot: nat)
    requires forall i :: 0 <= i < |ps| ==> ps[i].pot != pot
    ensures PlannedMs(ps, pot) == 0 && PlannedOpenings(ps, pot) == 0
  {
    if ps != [] { NotPlanned(ps[..|ps| - 1], pot); }
  }

  /** At every moment at most one valve is open. */
  lemma {:induction false} OneValveAtATime(ps: seq<Pour>, k: nat)
    requires k <= |Steps(ps)|
    ensures Popcount(After(0, Steps(ps)[..k])) <= 1
  {
    hide Popcount;
    if ps == [] {
      assert Popcount(0) == 0 by { PopcountZero(0); }
    } else {
      var before := Steps(ps[..|ps| - 1]);
      if k <= |before| {
        assert Steps(ps)[..k] == before[..k];
        OneValveAtATime(ps[..|ps| - 1], k);
      } else {
        OneValveInPour(before, ps[|ps| - 1], k - |before|);
        assert Steps(ps)[..k] == before + PourSteps(ps[|ps| - 1])[..k - |before|];
      }
    }
  }

  lemma OneValveInPour(steps: seq<Step>, p: Pour, k: nat)
    requires 1 <= k <= 4
    ensures Popcount(After(0, steps + PourSteps(p)[..k])) <= 1
  {
    hide Popcount, After, OpenMs, Openings;
    OneBitPopcount(p.pot);
    PopcountZero(0);
    var a := steps + [Set(OneBit(p.pot))];
    var b := a + [Wait(p.seconds as int * 1000)];
    var c := b + [Set(0)];
    OneMoreStep(steps, Set(OneBit(p.pot)), 0);
    OneMoreStep(a, Wait(p.seconds as int * 1000), 0);
    OneMoreStep(b, Set(0), 0);
    OneMoreStep(c, Wait(VALVE_PAUSE_MS), 0);
    assert steps + PourSteps(p)[..1] == a && steps + PourSteps(p)[..2] == b;
    assert steps + PourSteps(p)[..3] == c && steps + PourSteps(p)[..4] == c + [Wait(VALVE_PAUSE_MS)];
  }

  lemma OpenedStep(steps: seq<Step>, x: Step)
    ensures Opened(steps + [x]) == Opened(steps) + (if x.Set? && x.mask != 0 then [x.mask] else [])
  {
  }

  lemma OpenedByPour(steps: seq<Step>, p: Pour)
    ensures Opened(steps + PourSteps(p)) == Opened(steps) + [OneBit(p.pot)]
  {
    hide SetBit, Opened;
    var a := steps + [Set(OneBit(p.pot))];
    var b := a + [Wait(p.seconds as int * 1000)];
    var c := b + [Set(0)];
    OpenedStep(steps, Set(OneBit(p.pot)));
    OpenedStep(a, Wait(p.seconds as int * 1000));
    OpenedStep(b, Set(0));
    OpenedStep(c, Wait(VALVE_PAUSE_MS));
    assert steps + PourSteps(p) == c + [Wait(VALVE_PAUSE_MS)];
  }

  /** The valves open in the order of the plan. */
  lemma {:induction false} OpenedInOrder(ps: seq<Pour>)
    ensures |Opened(Steps(ps))| == |ps| && forall i :: 0 <= i < |ps| ==> Opened(Steps(ps))[i] == OneBit(ps[i].pot)
  {
    hide SetBit, PourSteps;
    if ps != [] {
      OpenedInOrder(ps[..|ps| - 1]);
      OpenedByPour(Steps(ps[..|ps| - 1]), ps[|ps| - 1]);
    }
  }

  /** The seconds configured for each pot reach exactly that pot. `table` is what the
      gateway has configured; `ds` are the entries of the selected pots, in order. */
  ghost predicate Compacted(mask: nat, table: seq<u16>, ds: seq<u16>, n: nat) {
    && |ds| == |Pots(mask, n)| && n <= |table|
    && forall i :: 0 <= i < |ds| ==> ds[i] == table[Pots(mask, n)[i]]
  }

  /** From the gateway's selection to the worker's valves: each selected pot is opened
      exactly once, for its configured seconds, in ascending order (Pots is ascending); no other pot is opened;
      at most one valve is open at any moment, and none at the end. */
  lemma EndToEnd(mask: u16, table: seq<u16>, ds: seq<u16>, selected: nat, potCount: nat, pot: nat, k: nat)
    requires selected <= potCount <= MAX_POTS && HighBits(mask, selected) == 0
    requires Compacted(mask, table, ds, selected) && Sendable(mask, ds)
    ensures |Body(mask, ds)| <= MAX_BODY_SIZE && Parsed(Body(mask, ds), potCount) == Some((mask, ds))
    ensures |Pots(mask, potCount)| == |ds|
    ensures var steps := Steps(Plan(mask, ds, potCount));
            && Openings(0, steps, pot) == (if pot < selected && Bit(mask, pot) then 1 else 0)
            && OpenMs(0, steps, pot) == (if pot < selected && Bit(mask, pot) then table[pot] as int * 1000 else 0)
            && After(0, steps) == 0
            && (k <= |steps| ==> Popcount(After(0, steps[..k])) <= 1)
            && |Opened(steps)| == |ds|
            && forall i :: 0 <= i < |ds| ==> Opened(steps)[i] == OneBit(Pots(mask, potCount)[i])
  {
    hide Popcount, HighBits, Pots, Parsed, Body, Steps, OpenMs, Openings, Opened, OneBit, After, Bit, PlannedMs, PlannedOpenings, Sendable;
    assert Parsed(Body(mask, ds), potCount) == Some((mask, ds)) && |Body(mask, ds)| <= MAX_BODY_SIZE by {
      HighBitsMonotone(mask, selected, potCount);
      SendableShort(mask, ds);
      ParseRecoversRequest(mask, ds, potCount);
      BodyBytes(mask, ds);
    }
    PotsBeyond(mask, selected, potCount);
    var plan := Plan(mask, ds, potCount);
    StepsMeaning(plan, pot);
    OpenedInOrder(plan);
    if k <= |Steps(plan)| { OneValveAtATime(plan, k); }
    PotsComplete(mask, selected, pot);
    if pot in Pots(mask, selected) {
      var i :| 0 <= i < |plan| && Pots(mask, selected)[i] == pot;
      assert plan[i].pot == pot;
      PlannedOnce(plan, i);
    } else {
      NotPlanned(plan, pot);
    }
  }

  lemma SendableShort(mask: u16, ds: seq<u16>)
    requires Sendable(mask, ds)
    ensures |ds| <= MAX_POTS
  {
  }

  /** On the wire: pots 0 and 2, for five and ten seconds. */
  lemma WaterExample()
    ensures Body(5, [5, 10]) == [0x32, 0x05, 2, 0, 5, 0x06, 4, 0, 5, 0, 10]
  {
    var ds: seq<u16> := [5, 10];
    var fs := Fields(5, ds);
    assert ds[1..] == [10] && [10][1..] == [];
    assert BeArray([10]) == [0, 10] && BeArray(ds) == [0, 5, 0, 10];
    assert EncodeField(fs[0]) == [0x05, 2, 0, 5] && EncodeField(fs[1]) == [0x06, 4, 0, 5, 0, 10];
    assert fs[1..] == [fs[1]] && [fs[1]][1..] == [];
    assert Encode([fs[1]]) == EncodeField(fs[1]) + [] == EncodeField(fs[1]);
    assert Encode(fs) == EncodeField(fs[0]) + EncodeField(fs[1]);
  }

  /** What a worker with `potCount` pots accepts, field by field: a mask of pots it has, and
      one duration of 1 to 60 seconds for each. */
  lemma ParsedMeans(body: seq<byte>, potCount: nat, mask: u16, ds: seq<u16>)
    ensures Parsed(body, potCount) == Some((mask, ds)) <==>
            && body != [] && body[0] == 0x32
            && ReadU16(body[1..], 0x05) == Some(mask) && ReadU16Array(body[1..], 0x06, potCount) == Some(ds)
            && mask != 0 && (forall p: nat :: Bit(mask, p) ==> p < potCount)
            && |ds| == Popcount(mask) && forall i :: 0 <= i < |ds| ==> 1 <= ds[i] <= 60
  {
    hide ReadU16, ReadU16Array, Popcount, Bit, HighBits;
    NoHighBitsIff(mask, potCount);
  }

  lemma NoHighBitsIff(m: nat, n: nat)
    ensures HighBits(m, n) == 0 <==> forall p: nat :: Bit(m, p) ==> p < n
  {
    hide HighBits;
    if HighBits(m, n) == 0 {
      forall p: nat | Bit(m, p) ensures p < n {
        if p >= n {
          HighBitsMonotone(m, n, p);
          HighStep(m, p);
        }
      }
    } else {
      var p := HighBitExists(m, n);
      assert exists q: nat :: Bit(m, q) && q >= n;
    }
  }

  lemma {:induction false} HighBitExists(m: nat, n: nat) returns (p: nat)
    requires HighBits(m, n) != 0
    ensures p >= n && Bit(m, p)
  {
    if n > 0 {
      p := HighBitExists(m / 2, n - 1);
      p := p + 1;
    } else {
      p := SomeBit(m);
    }
  }

  lemma {:induction false} SomeBit(m: nat) returns (p: nat)
    requires m != 0
    ensures Bit(m, p)
  {
    if m % 2 == 1 {
      p := 0;
    } else {
      p := SomeBit(m / 2);
      p := p + 1;
    }
  }

  /** What the gateway sends: a mask, and one duration of 1 to 60 seconds for each of its
      at most sixteen pots. */
  lemma SendableMeans(mask: u16, ds: seq<u16>)
    ensures Sendable(mask, ds) <==>
            mask != 0 && 1 <= |ds| <= 16 && |ds| == Popcount(mask) && forall i :: 0 <= i < |ds| ==> 1 <= ds[i] <= 60
  {
    hide Popcount;
  }
}
