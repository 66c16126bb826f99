/** The TOTP window: 30-second steps, one step of skew on either side. */
module Totp {
  import opened Types

  const STEP := 30 * TICKS_PER_SECOND
  const SKEW := 1
  const DIGITS := 6

  function StepOf(t: Time): int { t / STEP }

  /** Exactly six ASCII digits. */
  predicate IsValidFormat(token: string) {
    |token| == DIGITS && forall i :: 0 <= i < |token| ==> '0' <= token[i] <= '9'
  }

  /** The check tries the steps from `SKEW` before the current one to `SKEW` after it. */
  predicate Accepts(env: Env, secret: string, t: Time, token: string) {
    exists step :: StepOf(t) - SKEW <= step <= StepOf(t) + SKEW && env.code(secret, step) == token
  }

  /**
   * Authenticator and server clocks up to one step apart always agree, two or more steps apart never fall
   * into the same window.
   */
  lemma WindowBySeconds(g: Time, t: Time)
    ensures -30_000_000 <= t - g <= 30_000_000 ==> -1 <= StepOf(g) - StepOf(t) <= 1
    ensures t - g <= -60_000_000 || t - g >= 60_000_000 ==> StepOf(g) - StepOf(t) > 1 || StepOf(g) - StepOf(t) < -1
  {
  }

  /** A token generated at `g` is accepted at every instant within 30 seconds of `g`. */
  lemma GeneratedTokenAccepted(env: Env, secret: string, g: Time, t: Time)
    requires -30_000_000 <= t - g <= 30_000_000
    ensures Accepts(env, secret, t, env.code(secret, StepOf(g)))
  {
    WindowBySeconds(g, t);
  }

  /** Some other step in the window of `t` has the code of step `own`. */
  predicate Coincides(env: Env, secret: string, t: Time, own: int) {
    exists step :: StepOf(t) - SKEW <= step <= StepOf(t) + SKEW && step != own && env.code(secret, step) == env.code(secret, own)
  }

  /**
   * Far from its time of generation a token is accepted exactly when the secret repeats its code in the window;
   * in between, exactly then or when its own step is still in the window.
   */
  lemma AcceptedIffInWindowOrRepeated(env: Env, secret: string, g: Time, t: Time)
    ensures var accepted := Accepts(env, secret, t, env.code(secret, StepOf(g)));
            && (accepted <==> -1 <= StepOf(g) - StepOf(t) <= 1 || Coincides(env, secret, t, StepOf(g)))
            && (t - g <= -60_000_000 || t - g >= 60_000_000 ==> (accepted <==> Coincides(env, secret, t, StepOf(g))))
  {
    WindowBySeconds(g, t);
  }
}
