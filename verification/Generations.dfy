/** The 32-bit generation counters of the clock and the settings: they start at 0 and skip
    it when they wrap. */
module Generations {
  import opened Bytes

  const GENERATIONS := 0xFFFF_FFFF

  function Bump(g: u32): (r: u32)
    ensures r != 0
  {
    if g == U32_MAX then 1 else g + 1
  }

  /** The generation after `n` changes. */
  function GenerationAfter(n: nat): u32 {
    if n == 0 then 0 else (n - 1) % GENERATIONS + 1
  }

  lemma BumpFollows(n: nat)
    ensures Bump(GenerationAfter(n)) == GenerationAfter(n + 1)
  {
  }

  /** Two change counts show the same generation exactly when they are a whole number of
      wraps apart. */
  lemma SameGeneration(m: nat, n: nat)
    requires 0 < m <= n
    ensures GenerationAfter(m) == GenerationAfter(n) <==> (n - m) % GENERATIONS == 0
  {
  }

  lemma GenerationsDiffer(m: nat, n: nat)
    requires 0 < m <= n < m + GENERATIONS && GenerationAfter(m) == GenerationAfter(n)
    ensures m == n
  {
  }

  lemma ZeroGeneration(n: nat)
    ensures GenerationAfter(n) == 0 <==> n == 0
  {
  }
}
