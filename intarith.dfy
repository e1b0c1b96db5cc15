/** Facts about integer division used by the partition and producer
    arithmetic. Every operand is non-negative, so Go's truncating division
    and Dafny's Euclidean division agree. */
module IntArith {

  lemma {:induction false} MulAtLeast(d: int, w: int)
    requires d >= 1 && w >= 0
    ensures d * w >= w
    decreases d
  {
    if d > 1 {
      MulAtLeast(d - 1, w);
      assert d * w == (d - 1) * w + w;
    }
  }

  lemma MulMonotone(a: int, b: int, n: int)
    requires a <= b && n >= 0
    ensures a * n <= b * n
  {
    assert b * n - a * n == (b - a) * n;
    if a < b {
      MulAtLeast(b - a, n);
    }
  }

  /** A quotient and remainder that satisfy the division equation are the
      quotient and remainder. */
  lemma DivUnique(x: int, w: int, q: int, r: int)
    requires w > 0 && 0 <= r < w && x == q * w + r
    ensures x / w == q && x % w == r
  {
    var q', r' := x / w, x % w;
    assert x == q' * w + r';
    assert (q - q') * w == r' - r;
    assert (q' - q) * w == r - r';
    if q' < q {
      MulAtLeast(q - q', w);
    } else if q < q' {
      MulAtLeast(q' - q, w);
    }
  }

  lemma MulDivCancel(w: int, n: int)
    requires w > 0
    ensures w * n / w == n
  {
    DivUnique(w * n, w, n, 0);
  }

  lemma DivMonotone(a: int, b: int, w: int)
    requires 0 <= a <= b && w > 0
    ensures a / w <= b / w
  {
    var qa, qb := a / w, b / w;
    assert a == qa * w + a % w && b == qb * w + b % w;
    assert (qa - qb) * w == qa * w - qb * w;
    if qb < qa {
      MulAtLeast(qa - qb, w);
    }
  }

  /** Adding `n` to a dividend adds floor(n/w) or floor(n/w) + 1 to its
      quotient, and exactly floor(n/w) when `w` divides `n`. */
  lemma QuotientGain(a: nat, n: nat, w: nat)
    requires w > 0
    ensures (a + n) / w - a / w == n / w || (a + n) / w - a / w == n / w + 1
    ensures n % w == 0 ==> (a + n) / w - a / w == n / w
  {
    var qa, ra := a / w, a % w;
    var q, r := n / w, n % w;
    assert a == qa * w + ra && n == q * w + r;
    assert (qa + q) * w == qa * w + q * w;
    if ra + r < w {
      DivUnique(a + n, w, qa + q, ra + r);
    } else {
      assert (qa + q + 1) * w == qa * w + q * w + w;
      DivUnique(a + n, w, qa + q + 1, ra + r - w);
    }
  }

  /** The rounded-up quotient, (n + w - 1) / w. */
  function CeilDiv(n: nat, w: nat): nat
    requires w > 0
  {
    (n + w - 1) / w
  }

  /** Rounding up adds one exactly when the division is not exact. */
  lemma CeilDivFloor(n: nat, w: nat)
    requires w > 0
    ensures CeilDiv(n, w) == n / w + (if n % w == 0 then 0 else 1)
  {
    var q, r := n / w, n % w;
    assert n == q * w + r;
    if r == 0 {
      DivUnique(n + w - 1, w, q, w - 1);
    } else {
      DivUnique(n + w - 1, w, q + 1, r - 1);
    }
  }

  /** At most `k` rounds of `w` hold `n` items exactly when `n <= k * w`. */
  lemma CeilDivAtMost(n: nat, w: nat, k: nat)
    requires w > 0
    ensures CeilDiv(n, w) <= k <==> n <= k * w
  {
    var q, r := n / w, n % w;
    assert n == q * w + r;
    CeilDivFloor(n, w);
    if CeilDiv(n, w) <= k {
      if r == 0 {
        MulMonotone(q, k, w);
      } else {
        MulMonotone(q + 1, k, w);
        assert (q + 1) * w == q * w + w;
      }
    } else if r == 0 {
      MulMonotone(k + 1, q, w);
      assert (k + 1) * w == k * w + w;
    } else {
      MulMonotone(k, q, w);
    }
  }

  /** How many of the indices 0 .. n-1 leave remainder j when divided by w. */
  function CountBelow(n: nat, w: nat, j: nat): nat
    requires j < w
  {
    (n + w - 1 - j) / w
  }

  lemma CountBelowZero(w: nat, j: nat)
    requires j < w
    ensures CountBelow(0, w, j) == 0
  {
    DivUnique(w - 1 - j, w, 0, w - 1 - j);
  }

  /** Index n adds one to the count of remainder j exactly when n % w == j,
      and then n is j plus that many multiples of w. */
  lemma CountBelowStep(n: nat, w: nat, j: nat)
    requires j < w
    ensures CountBelow(n + 1, w, j) == CountBelow(n, w, j) + (if n % w == j then 1 else 0)
    ensures n % w == j ==> n == j + CountBelow(n, w, j) * w
  {
    var q, r := n / w, n % w;
    assert n == q * w + r;
    assert (q + 1) * w == q * w + w;
    if r > j {
      DivUnique(n + w - 1 - j, w, q + 1, r - 1 - j);
    } else {
      DivUnique(n + w - 1 - j, w, q, r + w - 1 - j);
    }
    if r + 1 < w {
      if r + 1 > j {
        DivUnique(n + w - j, w, q + 1, r - j);
      } else {
        DivUnique(n + w - j, w, q, r + w - j);
      }
    } else {
      DivUnique(n + w - j, w, q + 1, w - 1 - j);
    }
  }

  /** i / w < k exactly when i < k * w. */
  lemma QuotientBelow(i: nat, w: nat, k: nat)
    requires w > 0
    ensures i / w < k <==> i < k * w
  {
    var q, r := i / w, i % w;
    assert i == q * w + r;
    if q < k {
      MulMonotone(q + 1, k, w);
      assert (q + 1) * w == q * w + w;
    } else {
      MulMonotone(k, q, w);
    }
  }
}
