/** Integer facts the partitioning model rests on: ceiling division (the
    size of a twin), powers of two, and Python's `k & (k - 1)` test. */
module Arith {

  /** `math.ceil(n / r)` for non-negative integers, the size of the smaller
      twin when n points are split with ratio r. */
  function CeilDiv(n: nat, r: nat): (q: nat)
    requires r >= 1
    ensures q * r >= n
    ensures q * r < n + r
  {
    var q := (n + r - 1) / r;
    assert q * r + (n + r - 1) % r == n + r - 1;
    q
  }

  /** The ceiling is the only multiple count that covers n without a spare block. */
  lemma CeilUnique(n: nat, r: nat, q: nat)
    requires r >= 1
    requires q * r >= n
    requires q * r < n + r
    ensures CeilDiv(n, r) == q
  {
    var c := CeilDiv(n, r);
    if c < q {
      assert q * r - c * r == (q - c) * r;
      MulAtLeast(q - c, r);
      assert false;
    } else if c > q {
      assert c * r - q * r == (c - q) * r;
      MulAtLeast(c - q, r);
      assert false;
    }
  }

  lemma MulAtLeast(a: nat, r: nat)
    requires a >= 1
    ensures a * r >= r
  {
    assert a * r == (a - 1) * r + r;
  }

  lemma MulSucc(a: nat, r: nat)
    ensures (a + 1) * r == a * r + r
  {
  }

  /** Euclidean division is determined by its quotient-remainder decomposition. */
  lemma DivModUnique(x: nat, r: nat, q: nat, m: nat)
    requires r >= 1 && m < r && x == q * r + m
    ensures x / r == q && x % r == m
  {
    var q' := x / r;
    var m' := x % r;
    assert x == q' * r + m';
    if q > q' {
      assert q * r - q' * r == (q - q') * r;
      MulAtLeast(q - q', r);
      assert false;
    } else if q < q' {
      assert q' * r - q * r == (q' - q) * r;
      MulAtLeast(q' - q, r);
      assert false;
    }
  }

  lemma MulMono(a: nat, b: nat, m: nat)
    requires a <= b
    ensures a * m <= b * m
  {
    assert b * m == a * m + (b - a) * m;
  }

  /** Cancelling a positive factor from both sides of an inequality. */
  lemma MulCancel(a: nat, b: nat, m: nat)
    requires m >= 1 && a * m <= b * m
    ensures a <= b
  {
    if a > b {
      assert a * m == b * m + (a - b) * m;
      MulAtLeast(a - b, m);
      assert false;
    }
  }

  /** A multiple that fits below n counts at most the quotient. */
  lemma FloorAtLeast(n: nat, a: nat, q: nat)
    requires a >= 1 && q * a <= n
    ensures q <= n / a
  {
    var f := n / a;
    assert f * a + n % a == n;
    if q > f {
      MulMono(f + 1, q, a);
      MulSucc(f, a);
      assert false;
    }
  }

  /** Integer division is monotone in the dividend ... */
  lemma DivMono(x: nat, y: nat, m: nat)
    requires m >= 1 && x <= y
    ensures x / m <= y / m
  {
    assert (x / m) * m + x % m == x;
    FloorAtLeast(y, m, x / m);
  }

  /** ... and antitone in the divisor. */
  lemma DivAntitone(n: nat, a: nat, b: nat)
    requires 1 <= a <= b
    ensures n / b <= n / a
  {
    assert (n / b) * b + n % b == n;
    MulMono(a, b, n / b);
    assert (n / b) * a <= (n / b) * b;
    FloorAtLeast(n, a, n / b);
  }

  /** The ceiling is monotone in the dividend. */
  lemma CeilMono(x: nat, y: nat, m: nat)
    requires m >= 1 && x <= y
    ensures CeilDiv(x, m) <= CeilDiv(y, m)
  {
    DivMono(x + m - 1, y + m - 1, m);
  }

  /** The ceiling exceeds the floor by at most one. */
  lemma CeilAtMostFloorPlusOne(n: nat, a: nat)
    requires a >= 1
    ensures CeilDiv(n, a) <= n / a + 1
  {
    var c := CeilDiv(n, a);
    var f := n / a;
    assert f * a + n % a == n;
    if c > f + 1 {
      assert (f + 2) * a == f * a + a + a;
      MulMono(f + 2, c, a);
      assert false;
    }
  }

  /** Adding one block of m adds one to the ceiling. */
  lemma CeilShift(a: nat, m: nat)
    requires m >= 1
    ensures CeilDiv(a + m, m) == CeilDiv(a, m) + 1
  {
    MulSucc(CeilDiv(a, m), m);
    CeilUnique(a + m, m, CeilDiv(a, m) + 1);
  }

  /** The ceiling is the least multiple count covering n. */
  lemma CeilLeast(n: nat, m: nat, bound: nat)
    requires m >= 1 && bound * m >= n
    ensures CeilDiv(n, m) <= bound
  {
    var c := CeilDiv(n, m);
    if c > bound {
      MulMono(bound + 1, c, m);
      MulSucc(bound, m);
      assert false;
    }
  }

  /** The ceiling of e / m never exceeds e. */
  lemma CeilAtMost(e: nat, m: nat)
    requires m >= 1
    ensures CeilDiv(e, m) <= e
  {
    var c := CeilDiv(e, m);
    if c > e {
      MulMono(e + 1, c, m);
      MulSucc(e, m);
      MulMono(1, m, e);
      assert false;
    }
  }

  /** Halving the floor of n / a is the floor of n / 2a. */
  lemma HalveFloor(n: nat, a: nat)
    requires a >= 1
    ensures (n / a) / 2 == n / (2 * a)
  {
    var q := n / a;
    var rho := n % a;
    assert n == q * a + rho;
    assert q == 2 * (q / 2) + q % 2;
    assert q * a == (q / 2) * (2 * a) + (q % 2) * a;
    assert (q % 2) * a + rho < 2 * a by {
      if q % 2 == 1 {
        assert (q % 2) * a == a;
      }
    }
    DivModUnique(n, 2 * a, q / 2, (q % 2) * a + rho);
  }

  /** Halving the ceiling of n / a (rounding up) is the ceiling of n / 2a. */
  lemma HalveCeil(n: nat, a: nat)
    requires a >= 1
    ensures CeilDiv(CeilDiv(n, a), 2) == CeilDiv(n, 2 * a)
  {
    var c := CeilDiv(n, a);
    var h := CeilDiv(c, 2);
    assert h * (2 * a) == (h * 2) * a;
    MulMono(c, h * 2, a);
    MulMono(h * 2, c + 1, a);
    MulSucc(c, a);
    CeilUnique(n, 2 * a, h);
  }

  /** What remains of n after taking the ceiling of n / 2 is the floor of n / 2. */
  lemma HalveRest(n: nat)
    ensures n - CeilDiv(n, 2) == n / 2
  {
  }

  /** Multiplication distributes over a subtraction that does not underflow. */
  lemma MulSub(a: nat, b: nat, k: nat)
    requires b <= a
    ensures (a - b) * k == a * k - b * k
  {
  }

  lemma MulSwap(a: nat, b: nat, c: nat)
    ensures (a * b) * c == (a * c) * b
  {
  }

  lemma MulDouble(a: nat, h: nat)
    ensures a * (2 * h) == 2 * (a * h) == (2 * a) * h
  {
  }

  /** Adding the modulus does not change the remainder. */
  lemma ModShift(a: nat, r: nat)
    requires r >= 1
    ensures (a + r) % r == a % r
  {
    DivModUnique(a, r, a / r, a % r);
    MulSucc(a / r, r);
    DivModUnique(a + r, r, a / r + 1, a % r);
  }

  /** The remainder of q r + extra, for extra < r. */
  lemma ModMultiple(x: nat, q: nat, r: nat, extra: nat)
    requires 1 <= r && extra < r && x == q * r + extra
    ensures x % r == extra
  {
    DivModUnique(x, r, q, extra);
  }

  /** k is a power of two: 1, 2, 4, 8, ... */
  predicate PowerOfTwo(k: nat)
    decreases k
  {
    k == 1 || (k > 1 && k % 2 == 0 && PowerOfTwo(k / 2))
  }

  /** Python's `a & b` on non-negative integers, bit by bit from the low end. */
  function BitAnd(a: nat, b: nat): (c: nat)
    ensures c <= a && c <= b
  {
    if a == 0 || b == 0 then 0
    else 2 * BitAnd(a / 2, b / 2) + (if a % 2 == 1 && b % 2 == 1 then 1 else 0)
  }

  lemma {:induction false} BitAndSelf(a: nat)
    ensures BitAnd(a, a) == a
  {
    if a > 0 {
      BitAndSelf(a / 2);
    }
  }

  /** The test `k & (k - 1) == 0` used to reject a fold count holds exactly
      of the powers of two (for every k >= 1). */
  lemma {:induction false} BitTestIsPowerOfTwo(k: nat)
    requires k >= 1
    ensures BitAnd(k, k - 1) == 0 <==> PowerOfTwo(k)
    decreases k
  {
    if k == 1 {
    } else if k % 2 == 0 {
      var j := k / 2;
      assert (k - 1) / 2 == j - 1;
      assert (k - 1) % 2 == 1;
      assert BitAnd(k, k - 1) == 2 * BitAnd(j, j - 1);
      BitTestIsPowerOfTwo(j);
    } else {
      var j := k / 2;
      assert j >= 1;
      assert (k - 1) / 2 == j && (k - 1) % 2 == 0;
      assert BitAnd(k, k - 1) == 2 * BitAnd(j, j);
      BitAndSelf(j);
      assert !PowerOfTwo(k);
    }
  }
}
