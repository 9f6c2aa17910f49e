/**
 The restart delay of a supervisor: an exponential backoff whose exponent is
 clamped before the power is taken.  Numbers are exact reals, so the rounding
 of `log2` and `ldexp` is not part of this model.
 */
module Backoff {

  /** The three numbers that `__init__` stores; `exponent` is the first number of
      doublings that takes `base` to `max`. */
  datatype Config = Config(base: real, max: real, exponent: nat) {
    ghost predicate Valid() {
      && 0.0 < base <= max
      && Ldexp(base, exponent) >= max
      && (exponent > 0 ==> Ldexp(base, exponent - 1) < max)
    }
  }

  function Min(x: real, y: real): real {
    if x <= y then x else y
  }

  function MinNat(x: nat, y: nat): nat {
    if x <= y then x else y
  }

  /** `x` doubled `k` times. */
  function Ldexp(x: real, k: nat): real {
    if k == 0 then x else 2.0 * Ldexp(x, k - 1)
  }

  /** `ceil(log2(max) - log2(base))`, by doubling. */
  function MaxExponent(base: real, max: real): (e: nat)
    requires 0.0 < base <= max
    ensures Config(base, max, e).Valid()
    decreases Steps(base, max)
  {
    if base == max then 0
    else if 2.0 * base >= max then
      assert Ldexp(base, 1) == 2.0 * base;
      1
    else
      StepsDescend(base, max);
      var e := MaxExponent(2.0 * base, max);
      DoublingShift(base, e);
      assert e > 0 ==> Ldexp(2.0 * base, e - 1) == Ldexp(base, e) by {
        if e > 0 { DoublingShift(base, e - 1); }
      }
      e + 1
  }

  ghost function Steps(base: real, max: real): int
    requires 0.0 < base
  {
    (max / base).Floor
  }

  lemma {:induction false} StepsDescend(base: real, max: real)
    requires 0.0 < base && 2.0 * base < max
    ensures 0 <= Steps(2.0 * base, max) < Steps(base, max)
  {
    var x := max / base;
    assert x * base == max;
    assert (x - 2.0) * base > 0.0;
    assert x > 2.0;
    assert max / (2.0 * base) == x / 2.0;
  }

  lemma {:induction false} DoublingShift(x: real, k: nat)
    ensures Ldexp(2.0 * x, k) == Ldexp(x, k + 1)
  {
    if k > 0 {
      DoublingShift(x, k - 1);
    }
  }

  /** What is computed before the cap: `ldexp(base, min(n, max_exponent))`. */
  function Scaled(cfg: Config, n: nat): real
    requires cfg.Valid()
  {
    Ldexp(cfg.base, MinNat(n, cfg.exponent))
  }

  /** The delay before restart number `n + 1`. */
  function Delay(cfg: Config, n: nat): real
    requires cfg.Valid()
  {
    Min(Scaled(cfg, n), cfg.max)
  }

  /** The sum of the first `n` delays. */
  function TotalDelay(cfg: Config, n: nat): real
    requires cfg.Valid()
  {
    if n == 0 then 0.0 else TotalDelay(cfg, n - 1) + Delay(cfg, n - 1)
  }

  lemma {:induction false} LdexpMonotone(x: real, j: nat, k: nat)
    requires 0.0 < x && j <= k
    ensures 0.0 < Ldexp(x, j) <= Ldexp(x, k)
  {
    if j < k {
      LdexpMonotone(x, j, k - 1);
    } else if k > 0 {
      LdexpMonotone(x, j - 1, k - 1);
    }
  }

  /** Short of the exponent, doubling stays below the cap. */
  lemma {:induction false} BelowExponent(cfg: Config, n: nat)
    requires cfg.Valid() && n < cfg.exponent
    ensures Ldexp(cfg.base, n) < cfg.max
  {
    LdexpMonotone(cfg.base, n, cfg.exponent - 1);
  }

  /** There is one exponent, and `__init__` finds it. */
  lemma {:induction false} ExponentIsUnique(cfg: Config)
    requires 0.0 < cfg.base <= cfg.max
    ensures cfg.Valid() <==> cfg.exponent == MaxExponent(cfg.base, cfg.max)
  {
    var m := MaxExponent(cfg.base, cfg.max);
    if cfg.Valid() {
      if m < cfg.exponent {
        BelowExponent(cfg, m);
      } else if cfg.exponent < m {
        BelowExponent(Config(cfg.base, cfg.max, m), cfg.exponent);
      }
    }
  }

  /** The clamp never shows in the delay, whatever the restart count. */
  lemma {:induction false} ClampIsInvisible(cfg: Config, n: nat)
    requires cfg.Valid()
    ensures Delay(cfg, n) == Min(Ldexp(cfg.base, n), cfg.max)
  {
    var e := cfg.exponent;
    if e < n {
      LdexpMonotone(cfg.base, e, n);
    }
  }

  /** But it is what bounds the scaled value however many restarts there are. */
  lemma {:induction false} ScaledStaysBelowTwiceMax(cfg: Config, n: nat)
    requires cfg.Valid()
    ensures cfg.base <= Scaled(cfg, n) < 2.0 * cfg.max
  {
    var k := MinNat(n, cfg.exponent);
    LdexpMonotone(cfg.base, 0, k);
    if k > 0 {
      BelowExponent(cfg, k - 1);
    }
  }

  lemma {:induction false} DelayBounds(cfg: Config, n: nat)
    requires cfg.Valid()
    ensures 0.0 < cfg.base <= Delay(cfg, n) <= cfg.max
  {
    ScaledStaysBelowTwiceMax(cfg, n);
  }

  lemma {:induction false} DelayNeverShrinks(cfg: Config, m: nat, n: nat)
    requires cfg.Valid() && m <= n
    ensures Delay(cfg, m) <= Delay(cfg, n)
  {
    var e := cfg.exponent;
    LdexpMonotone(cfg.base, MinNat(m, e), MinNat(n, e));
  }

  /** The cap is reached at the exponent and not before. */
  lemma {:induction false} DelayIsMaxExactlyFromExponent(cfg: Config, n: nat)
    requires cfg.Valid()
    ensures Delay(cfg, n) == cfg.max <==> n >= cfg.exponent
  {
    var e := cfg.exponent;
    if n < e {
      BelowExponent(cfg, n);
    }
  }

  /** A geometric sum, `base * (2^n - 1)`, up to the exponent and a line of
      slope `max` from there on. */
  lemma {:induction false} TotalDelayClosedForm(cfg: Config, n: nat)
    requires cfg.Valid()
    ensures var e := cfg.exponent;
            TotalDelay(cfg, n) ==
            if n <= e then Ldexp(cfg.base, n) - cfg.base
            else Ldexp(cfg.base, e) - cfg.base + Times(n - e, cfg.max)
  {
    var e := cfg.exponent;
    if n > 0 {
      TotalDelayClosedForm(cfg, n - 1);
      DelayIsMaxExactlyFromExponent(cfg, n - 1);
      if n <= e {
        assert Delay(cfg, n - 1) == Ldexp(cfg.base, n - 1) by { ClampIsInvisible(cfg, n - 1); }
      }
    }
  }

  lemma {:induction false} TotalDelayIsNotNegative(cfg: Config, n: nat)
    requires cfg.Valid()
    ensures TotalDelay(cfg, n) >= 0.0
  {
    if n > 0 {
      TotalDelayIsNotNegative(cfg, n - 1);
      DelayBounds(cfg, n - 1);
    }
  }

  /** `n * x`. */
  function Times(n: nat, x: real): (p: real)
    ensures p == n as real * x
  {
    if n == 0 then 0.0 else
      assert n as real * x == (n - 1) as real * x + x;
      Times(n - 1, x) + x
  }

  /** Every wait beyond the first `exponent` ones took its full `max` out of `t`. */
  ghost predicate Rationed(cfg: Config, n: nat, t: real) {
    n <= cfg.exponent || Times(n - cfg.exponent, cfg.max) <= t
  }

  /** If the first `n` waits fit in `t` seconds then `n` is rationed by `t`. */
  lemma {:induction false} WaitsWithin(cfg: Config, n: nat, t: real)
    requires cfg.Valid() && TotalDelay(cfg, n) <= t
    ensures Rationed(cfg, n, t)
  {
    TotalDelayClosedForm(cfg, n);
    LdexpMonotone(cfg.base, 0, cfg.exponent);
  }

  /** In other words `n` is at most the exponent plus `t / max`. */
  lemma {:induction false} RationAsQuotient(cfg: Config, n: nat, t: real)
    requires cfg.Valid() && Rationed(cfg, n, t) && t >= 0.0
    ensures n as real <= cfg.exponent as real + t / cfg.max
  {
    if n > cfg.exponent {
      QuotientBound(n - cfg.exponent, cfg.max, t);
    } else {
      QuotientBound(0, cfg.max, t);
    }
  }

  lemma {:induction false} QuotientBound(n: nat, m: real, t: real)
    requires m > 0.0 && Times(n, m) <= t
    ensures n as real <= t / m
  {
    var q := t / m;
    assert q * m == t;
    var d := n as real - q;
    assert d * m == Times(n, m) - t;
    assert d * m > 0.0 <==> d > 0.0;
  }
}
