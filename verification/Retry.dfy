/** Connecting to the database with exponential backoff. */
module Retry {

  const MAX_EXPONENT := 16

  function Pow2(n: nat): (r: nat)
    ensures r >= 1
  {
    if n == 0 then 1 else 2 * Pow2(n - 1)
  }

  /** `attempt.saturating_sub(1).min(16)` */
  function Exponent(attempt: nat): nat {
    var e := if attempt == 0 then 0 else attempt - 1;
    if e <= MAX_EXPONENT then e else MAX_EXPONENT
  }

  function BackoffDelay(base: nat, attempt: nat): nat {
    base * Pow2(Exponent(attempt))
  }

  /** The sleeps after failed attempts 1, 2, ..., n. */
  function Delays(base: nat, n: nat): (s: seq<nat>)
    ensures |s| == n
  {
    if n == 0 then [] else Delays(base, n - 1) + [BackoffDelay(base, n)]
  }

  function Sum(s: seq<nat>): nat {
    if s == [] then 0 else Sum(s[..|s| - 1]) + s[|s| - 1]
  }

  function Budget(maxAttempts: nat): nat {
    if maxAttempts == 0 then 1 else maxAttempts
  }

  /**
   * Tries `connects(1)`, `connects(2)`, ... until one succeeds or the budget is spent. Every failed attempt but the
   * last of the budget is followed by a sleep.
   */
  method ConnectWithBackoff(connects: nat -> bool, maxAttempts: nat, base: nat)
    returns (connected: bool, attempts: nat, slept: seq<nat>)
    ensures 1 <= attempts && (attempts <= maxAttempts || attempts == 1)
    ensures forall k :: 1 <= k < attempts ==> !connects(k)
    ensures connected == connects(attempts)
    ensures !connected ==> attempts == if maxAttempts >= 1 then maxAttempts else 1
    ensures slept == Delays(base, attempts - 1)
  {
    var max := Budget(maxAttempts);
    slept := [];
    attempts := 1;
    while attempts <= max
      invariant 1 <= attempts <= max
      invariant forall k :: 1 <= k < attempts ==> !connects(k)
      invariant slept == Delays(base, attempts - 1)
      decreases max - attempts
    {
      if connects(attempts) {
        return true, attempts, slept;
      } else if attempts == max {
        return false, attempts, slept;
      } else {
        slept := slept + [BackoffDelay(base, attempts)];
        attempts := attempts + 1;
      }
    }
    assert false;
  }

  lemma {:induction false} Pow2Monotone(a: nat, b: nat)
    requires a <= b
    ensures Pow2(a) <= Pow2(b)
  {
    if a < b {
      Pow2Monotone(a, b - 1);
    }
  }

  lemma Pow2Sixteen()
    ensures Pow2(MAX_EXPONENT) == 0x1_0000
  {
    assert Pow2(4) == 16;
    assert Pow2(8) == 0x100;
    assert Pow2(12) == 0x1000;
  }

  /** The delay never shrinks from one attempt to a later one and never exceeds `base * 2^16`. */
  lemma DelayMonotone(base: nat, a: nat, b: nat)
    requires a <= b
    ensures BackoffDelay(base, a) <= BackoffDelay(base, b) <= base * Pow2(MAX_EXPONENT)
    ensures Pow2(MAX_EXPONENT) == 0x1_0000
  {
    Pow2Sixteen();
    Pow2Monotone(Exponent(a), Exponent(b));
    Pow2Monotone(Exponent(b), MAX_EXPONENT);
    Scale(base, Pow2(Exponent(a)), Pow2(Exponent(b)));
    Scale(base, Pow2(Exponent(b)), Pow2(MAX_EXPONENT));
  }

  lemma Scale(base: nat, x: nat, y: nat)
    requires x <= y
    ensures base * x <= base * y
  {
  }

  /** The sum of the first `n` factors: a geometric series that turns arithmetic once the exponent is capped. */
  function TotalFactor(n: nat): int {
    if n <= MAX_EXPONENT + 1 then Pow2(n) - 1
    else Pow2(MAX_EXPONENT + 1) - 1 + (n - MAX_EXPONENT - 1) * Pow2(MAX_EXPONENT)
  }

  lemma TotalFactorStep(n: nat)
    requires n > 0
    ensures TotalFactor(n) == TotalFactor(n - 1) + Pow2(Exponent(n))
  {
    if n > MAX_EXPONENT + 1 {
      Pow2Sixteen();
    }
  }

  lemma Distribute(a: int, b: int, c: int)
    ensures a * (b + c) == a * b + a * c
  {
  }

  /** The whole wait after `n` failed attempts, in closed form. */
  lemma {:induction false} TotalDelay(base: nat, n: nat)
    ensures Sum(Delays(base, n)) == base * TotalFactor(n)
  {
    if n == 0 {
    } else {
      TotalDelay(base, n - 1);
      assert Delays(base, n)[..n - 1] == Delays(base, n - 1);
      TotalFactorStep(n);
      Distribute(base, TotalFactor(n - 1), Pow2(Exponent(n)));
    }
  }
}
