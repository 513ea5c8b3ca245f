/** Message identifiers: allocateMessageId of main/src/bluetooth_common.cpp, with the
    32-bit sequence and the 64-bit session wrapping around and both skipping zero. */
module MessageIds {
  import opened Arith
  import opened Bytes

  datatype MessageId = MessageId(sessionId: u64, sequence: u32)

  /** What a device's "last identifier" holds before it has seen any message. */
  const NO_ID := MessageId(0, 0)

  const SESSIONS := 0x1_0000_0000_0000_0000 - 1
  const SEQUENCES := 0x1_0000_0000 - 1

  /** Identifiers before the allocator repeats itself. */
  const PERIOD := SESSIONS * SEQUENCES

  predicate Proper(id: MessageId) {
    id.sessionId != 0 && id.sequence != 0
  }

  /** The allocator's state after handing out `id`. */
  function Next(id: MessageId): (r: MessageId)
    requires Proper(id)
    ensures Proper(r)
  {
    var sequence := (id.sequence as int + 1) % 0x1_0000_0000;
    if sequence != 0 then id.(sequence := sequence)
    else
      var session := (id.sessionId as int + 1) % 0x1_0000_0000_0000_0000;
      MessageId(if session == 0 then 1 else session, 1)
  }

  /** The identifier handed out by the `n`-th allocation from `first` on. */
  function Nth(first: MessageId, n: nat): (r: MessageId)
    requires Proper(first)
    ensures Proper(r)
  {
    if n == 0 then first else Next(Nth(first, n - 1))
  }

  /** Session chosen at start-up: the random draw, except that 0 becomes 1. */
  function StartSession(random: u64): (r: u64)
    ensures r != 0
  {
    if random == 0 then 1 else random
  }

  class IdAllocator {
    var gSessionId: u64
    var gNextSequence: u32

    ghost predicate Valid()
      reads this
    {
      gSessionId != 0 && gNextSequence != 0
    }

    ghost function Upcoming(): MessageId
      reads this
    {
      MessageId(gSessionId, gNextSequence)
    }

    constructor (random: u64)
      ensures Valid() && gNextSequence == 1 && gSessionId == StartSession(random)
      ensures gSessionId as int == if random == 0 then 1 else random
    {
      gSessionId := StartSession(random);
      gNextSequence := 1;
    }

    method Allocate() returns (id: MessageId)
      requires Valid()
      modifies this
      ensures Valid()
      ensures id == old(Upcoming()) && Proper(id)
      ensures Upcoming() == Next(old(Upcoming()))
    {
      id := MessageId(gSessionId, gNextSequence);
      gNextSequence := (gNextSequence as int + 1) % 0x1_0000_0000;
      if gNextSequence == 0 {
        gSessionId := (gSessionId as int + 1) % 0x1_0000_0000_0000_0000;
        if gSessionId == 0 { gSessionId := 1; }
        gNextSequence := 1;
      }
    }
  }

  /** Position of an identifier in the allocator's cycle. */
  function Rank(id: MessageId): (r: nat)
    requires Proper(id)
    ensures r < PERIOD
  {
    RankBound(id.sessionId - 1, id.sequence - 1);
    (id.sessionId - 1) * SEQUENCES + (id.sequence - 1)
  }

  lemma RankBound(a: int, b: int)
    requires 0 <= a < SESSIONS && 0 <= b < SEQUENCES
    ensures 0 <= a * SEQUENCES + b < PERIOD
  {
  }

  lemma RankInjective(x: MessageId, y: MessageId)
    requires Proper(x) && Proper(y) && Rank(x) == Rank(y)
    ensures x == y
  {
  }

  lemma RankOfNext(id: MessageId)
    requires Proper(id)
    ensures Rank(Next(id)) == (Rank(id) + 1) % PERIOD
  {
    hide Rank, Next;
    RankSteps(id);
    DivModUnique(Rank(id) + 1, PERIOD, if Rank(id) + 1 == PERIOD then 1 else 0, if Rank(id) + 1 == PERIOD then 0 else Rank(id) + 1);
  }

  lemma RankSteps(id: MessageId)
    requires Proper(id)
    ensures Rank(Next(id)) == if Rank(id) + 1 == PERIOD then 0 else Rank(id) + 1
  {
    var a, b := id.sessionId - 1, id.sequence - 1;
    if b + 1 < SEQUENCES {
      RankBound(a, b + 1);
    } else if a + 1 < SESSIONS {
      RankBound(a + 1, 0);
    } else {
      assert Next(id) == MessageId(1, 1);
    }
  }

  lemma {:induction false} RankOfNth(first: MessageId, n: nat)
    requires Proper(first)
    ensures Rank(Nth(first, n)) == (Rank(first) + n) % PERIOD
  {
    hide Next, Rank;
    if n > 0 {
      RankOfNth(first, n - 1);
      RankOfNext(Nth(first, n - 1));
      ModStep(Rank(first) + n - 1, PERIOD);
    } else {
      DivModUnique(Rank(first), PERIOD, 0, Rank(first));
    }
  }

  /** Two allocations carry the same identifier exactly when they are a whole number
      of periods apart; within (2^64 - 1) * (2^32 - 1) consecutive allocations all
      identifiers differ. */
  lemma SameIdIffPeriodsApart(first: MessageId, m: nat, n: nat)
    requires Proper(first) && m <= n
    ensures Nth(first, m) == Nth(first, n) <==> (n - m) % PERIOD == 0
  {
    RankOfNth(first, m);
    RankOfNth(first, n);
    var x, y := Rank(first) + m, Rank(first) + n;
    SameResidue(x, y, PERIOD);
    if Nth(first, m) != Nth(first, n) && x % PERIOD == y % PERIOD {
      RankInjective(Nth(first, m), Nth(first, n));
    }
  }

  lemma AllocationsDistinct(first: MessageId, m: nat, n: nat)
    requires Proper(first) && m < n < m + PERIOD
    ensures Nth(first, m) != Nth(first, n)
    ensures Nth(first, n) != NO_ID
  {
    SameIdIffPeriodsApart(first, m, n);
    DivModUnique(n - m, PERIOD, 0, n - m);
  }

  /** How many allocations after `x` comes `y`. */
  function Distance(x: MessageId, y: MessageId): (d: nat)
    requires Proper(x) && Proper(y)
    ensures d < PERIOD
  {
    (Rank(y) - Rank(x)) % PERIOD
  }

  lemma DistanceReaches(x: MessageId, y: MessageId, m: nat, n: nat)
    requires Proper(x) && Proper(y)
    ensures Nth(x, m) == Nth(y, n) <==> (Distance(x, y) + n - m) % PERIOD == 0
  {
    hide Nth, Rank;
    RankOfNth(x, m);
    RankOfNth(y, n);
    MeetIff(Rank(x), Rank(y), m, n, PERIOD);
    if Rank(Nth(x, m)) == Rank(Nth(y, n)) { RankInjective(Nth(x, m), Nth(y, n)); }
  }

  /** `p` allocations from `x` on and `q` from `y` on have no identifier in common. */
  ghost predicate NoneShared(x: MessageId, p: nat, y: MessageId, q: nat)
    requires Proper(x) && Proper(y)
  {
    forall m: nat, n: nat :: m < p && n < q ==> Nth(x, m) != Nth(y, n)
  }

  /** Two allocators share no identifier exactly when each stops before it comes to where
      the other began. */
  lemma NoneSharedIff(x: MessageId, p: nat, y: MessageId, q: nat)
    requires Proper(x) && Proper(y) && 0 < p && 0 < q
    ensures NoneShared(x, p, y, q) <==> p <= Distance(x, y) && q <= PERIOD - Distance(x, y)
  {
    hide Nth, Distance;
    var d := Distance(x, y);
    if d < p {
      DistanceReaches(x, y, d, 0);
    } else if PERIOD - d < q {
      DistanceReaches(x, y, 0, PERIOD - d);
    } else {
      forall m: nat, n: nat | m < p && n < q ensures Nth(x, m) != Nth(y, n) {
        DistanceReaches(x, y, m, n);
        DivModUnique(d + n - m, PERIOD, 0, d + n - m);
      }
    }
  }

  /** Identifiers that session `s` can number before it walks into session `t`. */
  function Ahead(s: u64, t: u64): int
  {
    ((t as int - s as int) % SESSIONS) * SEQUENCES
  }

  lemma AheadIsDistance(s: u64, t: u64)
    requires s != 0 && t != 0
    ensures Distance(MessageId(s, 1), MessageId(t, 1)) == Ahead(s, t)
    ensures s != t ==> Ahead(t, s) == PERIOD - Ahead(s, t) && Ahead(s, t) >= SEQUENCES && Ahead(t, s) >= SEQUENCES
    ensures s == t ==> Ahead(s, t) == 0
  {
    var d := t as int - s as int;
    if d >= 0 {
      DivModUnique(d, SESSIONS, 0, d);
      DivModUnique(d * SEQUENCES, PERIOD, 0, d * SEQUENCES);
      if d > 0 { DivModUnique(-d, SESSIONS, -1, SESSIONS - d); }
    } else {
      DivModUnique(d, SESSIONS, -1, SESSIONS + d);
      DivModUnique(-d, SESSIONS, 0, -d);
      DivModUnique(d * SEQUENCES, PERIOD, -1, PERIOD + d * SEQUENCES);
    }
  }
}
