/**
  Counting the frames on which the flash timer of src/lib.rs `update` is zero, and the
  modular-arithmetic facts that counting needs.
*/
module FlashTiming {

  /** The number of frames in `[f, f + n)` on which the flash timer is zero. */
  function Triggers(f: int, n: nat, p: nat): nat
    requires p > 0
  {
    if n == 0 then 0 else Triggers(f, n - 1, p) + (if (f + n - 1) % p == 0 then 1 else 0)
  }

  lemma {:induction false} MulAtLeast(d: nat, m: nat)
    requires d >= 1
    ensures d * m >= m
  {
    if d > 1 {
      MulAtLeast(d - 1, m);
      assert d * m == (d - 1) * m + m;
    }
  }

  /** The remainder is determined by any decomposition `a == q * m + r` with `0 <= r < m`. */
  lemma ModUnique(a: int, m: int, q: int, r: int)
    requires m > 0 && 0 <= r < m && a == q * m + r
    ensures a % m == r
  {
    var q', r' := a / m, a % m;
    assert a == q' * m + r';
    assert q * m - q' * m == r' - r;
    assert (q - q') * m == q * m - q' * m;
    if q > q' {
      MulAtLeast(q - q', m);
    } else if q < q' {
      assert (q' - q) * m == q' * m - q * m;
      MulAtLeast(q' - q, m);
    }
  }

  lemma ModSmall(a: int, m: int)
    requires 0 <= a < m
    ensures a % m == a
  {
    ModUnique(a, m, 0, a);
  }

  lemma DivSmall(a: int, m: int)
    requires 0 <= a < m
    ensures a / m == 0 && a % m == a
  {
    ModSmall(a, m);
    DivMod(a, m);
    if a / m != 0 {
      MulAtLeast(if a / m > 0 then a / m else -(a / m), m);
    }
  }

  lemma DivMod(a: int, m: int)
    requires m > 0
    ensures a == (a / m) * m + a % m && 0 <= a % m < m
  {
  }

  /** Whole periods added to a multiple of `m` leave a multiple of `m`. */
  lemma AlignedShift(f: int, k: int, m: int)
    requires m > 0 && f % m == 0
    ensures (f + k * m) % m == 0
  {
    DivMod(f, m);
    assert f + k * m == (f / m + k) * m;
    ModUnique(f + k * m, m, f / m + k, 0);
  }

  lemma ModIncrement(a: int, m: int)
    requires m > 0
    ensures ((a % m) + 1) % m == (a + 1) % m
  {
    var q, r := a / m, a % m;
    if r + 1 < m {
      ModUnique(r + 1, m, 0, r + 1);
      ModUnique(a + 1, m, q, r + 1);
    } else {
      ModUnique(r + 1, m, 1, 0);
      assert a + 1 == (q + 1) * m;
      ModUnique(a + 1, m, q + 1, 0);
    }
  }

  /** Counting splits at any point: `[f, f + a + b)` is `[f, f + a)` then `[f + a, f + a + b)`. */
  lemma {:induction false} TriggersSplit(f: int, a: nat, b: nat, p: nat)
    requires p > 0
    ensures Triggers(f, a + b, p) == Triggers(f, a, p) + Triggers(f + a, b, p)
  {
    if b > 0 {
      TriggersSplit(f, a, b - 1, p);
    }
  }

  /** Starting on a multiple of `p`, the first `j <= p` frames hold exactly one zero of the timer. */
  lemma {:induction false} TriggersWithinPeriod(f: int, j: nat, p: nat)
    requires p > 0 && f % p == 0 && 0 < j <= p
    ensures Triggers(f, j, p) == 1
  {
    if j > 1 {
      TriggersWithinPeriod(f, j - 1, p);
      ModUnique(f + j - 1, p, f / p, j - 1);
    }
  }

  /** Starting on a multiple of `p`, `k` whole periods hold exactly `k` zeros of the timer. */
  lemma {:induction false} TriggersWholePeriods(f: int, k: nat, p: nat)
    requires p > 0 && f % p == 0
    ensures Triggers(f, k * p, p) == k
  {
    if k > 0 {
      TriggersWholePeriods(f, k - 1, p);
      assert k * p == (k - 1) * p + p;
      TriggersSplit(f, (k - 1) * p, p, p);
      AlignedShift(f, k - 1, p);
      TriggersWithinPeriod(f + (k - 1) * p, p, p);
    }
  }

  /** Starting on a multiple of `p`, `n > 0` frames hold `(n - 1) / p + 1` zeros of the timer. */
  lemma TriggersFromAligned(f: int, n: nat, p: nat)
    requires p > 0 && f % p == 0 && n > 0
    ensures Triggers(f, n, p) == (n - 1) / p + 1
  {
    var k, j := (n - 1) / p, (n - 1) % p;
    DivMod(n - 1, p);
    TriggersSplit(f, k * p, j + 1, p);
    TriggersWholePeriods(f, k, p);
    AlignedShift(f, k, p);
    TriggersWithinPeriod(f + k * p, j + 1, p);
  }
}
