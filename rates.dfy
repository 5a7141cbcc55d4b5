/**
 * Tick rates of the snake and the mouse, and the banana's effect duration. Rates are
 * ticks per second; times are milliseconds on the `performance.now()` clock, passed in as
 * `now`.
 */
module Rates {
  import opened Config

  function MinReal(a: real, b: real): real { if a <= b then a else b }
  function MaxReal(a: real, b: real): real { if a >= b then a else b }

  /** `getBaseCPS`: half a tick per second per point of score, capped at MAX_CPS. */
  function BaseCPS(score: int): (r: real)
    ensures r <= MAX_CPS
    ensures score >= 0 ==> BASE_CPS <= r
    ensures r == MAX_CPS || r == BASE_CPS + score as real * CPS_INC
  {
    MinReal(MAX_CPS, BASE_CPS + score as real * CPS_INC)
  }

  /** A timed effect is on while its deadline is set (non-zero) and still ahead of `now`. */
  predicate Active(until: int, now: int) {
    until != 0 && now < until
  }

  /** The rate `getCPS` returns: the base rate less any active slow-down, floored at MIN_CPS. */
  function CPS(score: int, slowAmount: int, slowUntil: int, now: int): (r: real)
    ensures MIN_CPS <= r
    ensures !Active(slowUntil, now) ==> r == MaxReal(MIN_CPS, BaseCPS(score))
    ensures Active(slowUntil, now) ==> r == MaxReal(MIN_CPS, BaseCPS(score) - slowAmount as real)
  {
    var slow := if Active(slowUntil, now) then slowAmount else 0;
    MaxReal(MIN_CPS, BaseCPS(score) - slow as real)
  }

  /** Without an active slow-down a game in progress runs exactly at its base rate. */
  lemma NoSlowMeansBaseRate(score: int, slowAmount: int, slowUntil: int, now: int)
    requires score >= 0 && !Active(slowUntil, now)
    ensures CPS(score, slowAmount, slowUntil, now) == BaseCPS(score)
  {
  }

  /** A slow-down never speeds the snake up, and never pushes it below MIN_CPS. */
  lemma SlowNeverSpeedsUp(score: int, slowAmount: int, slowUntil: int, now: int)
    requires score >= 0 && slowAmount >= 0
    ensures MIN_CPS <= CPS(score, slowAmount, slowUntil, now) <= BaseCPS(score)
  {
  }

  /** More score never means a slower base rate. */
  lemma BaseCPSMonotone(a: int, b: int)
    requires a <= b
    ensures BaseCPS(a) <= BaseCPS(b)
  {
  }

  /** From a score of 20 on, the base rate sits at its cap. */
  lemma BaseCPSSaturates(score: int)
    requires score >= 20
    ensures BaseCPS(score) == MAX_CPS
  {
  }

  /** `getMouseCPS`: the base mouse rate plus any active boost, clamped to [MIN, MAX]. */
  function MouseCPS(boostAmount: int, boostUntil: int, now: int): (r: int)
    ensures MIN_MOUSE_CPS <= r <= MAX_MOUSE_CPS
    ensures !Active(boostUntil, now) ==> r == BASE_MOUSE_CPS
    ensures Active(boostUntil, now) && 0 <= boostAmount <= MAX_MOUSE_CPS - BASE_MOUSE_CPS ==>
      r == BASE_MOUSE_CPS + boostAmount
  {
    var boost := if Active(boostUntil, now) then boostAmount else 0;
    if BASE_MOUSE_CPS + boost > MAX_MOUSE_CPS then MAX_MOUSE_CPS
    else if BASE_MOUSE_CPS + boost < MIN_MOUSE_CPS then MIN_MOUSE_CPS
    else BASE_MOUSE_CPS + boost
  }

  /** How long a banana lasts: 3 s plus 150 ms per point of the best score, at most 10 s. */
  function BananaDuration(best: int): (ms: int)
    ensures ms <= BANANA_MAX_MS
    ensures best >= 0 ==> BANANA_BASE_MS <= ms
    ensures ms == BANANA_MAX_MS || ms == BANANA_BASE_MS + best * BANANA_PER_HS_MS
  {
    if BANANA_BASE_MS + best * BANANA_PER_HS_MS <= BANANA_MAX_MS then BANANA_BASE_MS + best * BANANA_PER_HS_MS
    else BANANA_MAX_MS
  }

  /** A better record never shortens the banana. */
  lemma BananaDurationMonotone(a: int, b: int)
    requires a <= b
    ensures BananaDuration(a) <= BananaDuration(b)
  {
  }
}
