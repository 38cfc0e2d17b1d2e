/** Integer facts used by the CIDR arithmetic: powers of two and the
    Euclidean division facts that Dafny's solver does not find by itself. */
module Arith {

  /** 2 to the power k. */
  function Pow2(k: nat): (r: nat)
    ensures r >= 1
  {
    if k == 0 then 1 else 2 * Pow2(k - 1)
  }

  lemma {:induction false} Pow2Add(a: nat, b: nat)
    ensures Pow2(a + b) == Pow2(a) * Pow2(b)
  {
    if a > 0 {
      Pow2Add(a - 1, b);
      assert Pow2(a + b) == 2 * Pow2(a - 1 + b);
    }
  }

  lemma {:induction false} Pow2Monotone(a: nat, b: nat)
    requires a <= b
    ensures Pow2(a) <= Pow2(b)
  {
    if a < b {
      Pow2Monotone(a, b - 1);
    }
  }

  lemma MulNonneg(a: nat, b: nat)
    ensures a * b >= 0
  {
  }

  lemma MulAssoc(a: int, b: int, c: int)
    ensures (a * b) * c == a * (b * c)
  {
  }

  /** (a*b + i)*c == a*(b*c) + i*c */
  lemma MulDistrib(a: int, b: int, i: int, c: int)
    ensures (a * b + i) * c == a * (b * c) + i * c
  {
  }

  lemma MulSucc(a: int, s: int)
    ensures (a + 1) * s == a * s + s
  {
  }

  lemma MulLe(a: int, b: int, s: nat)
    requires a <= b
    ensures a * s <= b * s
  {
    assert b * s - a * s == (b - a) * s;
  }

  lemma MulLt(a: int, b: int, s: nat)
    requires a < b
    ensures a * s + s <= b * s
  {
    MulLe(a + 1, b, s);
    assert (a + 1) * s == a * s + s;
  }

  /** Scaling a bracket q*k <= x < q*k + k by t > 0. */
  lemma MulBracket(x: int, q: int, k: int, t: nat)
    requires q * k <= x < q * k + k
    ensures q * (k * t) <= x * t && x * t + t <= q * (k * t) + k * t
  {
    MulAssoc(q, k, t);
    MulLe(q * k, x, t);
    MulLt(x, q * k + k, t);
    MulDistrib(q, k, k, t);
  }

  /** The converse: a bracket scaled by t > 0 is a bracket. */
  lemma MulCancelBracket(x: int, q: int, k: int, t: nat)
    requires t > 0 && q * (k * t) <= x * t && x * t + t <= q * (k * t) + k * t
    ensures q * k <= x < q * k + k
  {
    MulAssoc(q, k, t);
    if x < q * k {
      MulLt(x, q * k, t);
    }
    if x >= q * k + k {
      MulLe(q * k + k, x, t);
      MulDistrib(q, k, k, t);
    }
  }

  /** Division is determined by the bracket k*m <= x < (k+1)*m. */
  lemma DivUnique(x: int, m: int, k: int)
    requires m > 0 && k * m <= x < k * m + m
    ensures x / m == k && x % m == x - k * m
  {
    var q := x / m;
    assert x == q * m + x % m;
    if q > k {
      MulLe(k + 1, q, m);
    } else if q < k {
      MulLe(q + 1, k, m);
    }
  }

  /** The quotient brackets x. */
  lemma DivBracket(x: int, m: int)
    requires m > 0
    ensures (x / m) * m <= x < (x / m) * m + m
    ensures x >= 0 ==> x / m >= 0
  {
    assert x == (x / m) * m + x % m;
    if x >= 0 && x / m < 0 {
      MulLe(x / m, -1, m);
    }
  }

  /** An x in [0, count*m) has quotient below count. */
  lemma DivInRange(x: int, m: int, count: nat)
    requires m > 0 && 0 <= x < count * m
    ensures 0 <= x / m < count && (x / m) * m <= x < (x / m) * m + m
  {
    DivBracket(x, m);
    if x / m >= count {
      MulLe(count, x / m, m);
    }
  }

  /** x shifted right by k bits. */
  function Shr(x: nat, k: nat): nat {
    DivBracket(x, Pow2(k));
    x / Pow2(k)
  }
}
