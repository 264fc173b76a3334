/** Facts about multiplication and division that the solver does not find. */
module Arith {

  lemma MulAtLeast(m: nat, d: nat)
    requires d >= 1
    ensures m * d >= m
  {
    assert m * d == m + m * (d - 1);
    assert m * (d - 1) >= 0;
  }

  lemma MulNext(n: nat, x: nat)
    ensures (n + 1) * x == n * x + x
  {
  }

  lemma MulSum(n: nat, x: nat, y: nat)
    ensures n * (x + y) == n * x + n * y
  {
  }

  /** An item of size x at position d ends before one at position n starts. */
  lemma MulApart(d: nat, n: nat, x: nat)
    requires d < n
    ensures d * x + x <= n * x
  {
    var k := n - d - 1;
    assert n * x == (d + 1 + k) * x == d * x + x + k * x;
    assert k * x >= 0;
  }

  /** Quotient and remainder are unique. */
  lemma Unique(r: nat, q: int, r': nat, q': int, m: nat)
    requires r < m && r' < m && r + m * q == r' + m * q'
    ensures r == r' && q == q'
  {
    assert m * (q - q') == r' - r;
    if q - q' >= 1 { MulAtLeast(m, q - q'); }
    if q' - q >= 1 { MulAtLeast(m, q' - q); }
  }

  lemma DivMod(low: nat, high: nat, m: nat)
    requires low < m
    ensures (low + m * high) % m == low && (low + m * high) / m == high
  {
    var x := low + m * high;
    Unique(low, high, x % m, x / m, m);
  }

  lemma SmallMod(n: nat, m: nat)
    requires n < m
    ensures n % m == n
  {
    DivMod(n, 0, m);
  }

  lemma AddMod(low: nat, high: nat, low': nat, high': nat, m: nat)
    requires low < m && low' < m
    ensures (low + m * high + (low' + m * high')) % m == if low + low' < m then low + low' else low + low' - m
  {
    var sum := low + low';
    if sum < m {
      DivMod(sum, high + high', m);
      assert m * (high + high') == m * high + m * high';
    } else {
      DivMod(sum - m, high + high' + 1, m);
      assert m * (high + high' + 1) == m * high + m * high' + m;
    }
  }

  /** Adding a leaves the remainder alone exactly when a is divisible. */
  lemma SameRemainder(a: nat, b: nat, m: nat)
    requires m > 0
    ensures (a + b) % m == b % m <==> a % m == 0
  {
    var low, high, low', high' := a % m, a / m, b % m, b / m;
    assert a == low + m * high && b == low' + m * high';
    AddMod(low, high, low', high', m);
  }

  lemma NextMod(x: nat, m: nat)
    requires m > 0
    ensures (x % m + 1) % m == (x + 1) % m
  {
    var low, high := x % m, x / m;
    assert x == low + m * high;
    if low + 1 < m {
      DivMod(low + 1, high, m);
      SmallMod(low + 1, m);
    } else {
      assert x + 1 == 0 + m * (high + 1);
      DivMod(0, high + 1, m);
      DivMod(0, 1, m);
    }
  }

  /** Numbers less than m apart have different remainders. */
  lemma ModApart(x: nat, y: nat, m: nat)
    requires x < y < x + m
    ensures x % m != y % m
  {
    var low, d := x % m, y - x;
    var high := x / m;
    assert x == low + m * high;
    if low + d < m {
      DivMod(low + d, high, m);
    } else {
      assert y == (low + d - m) + m * (high + 1) by {
        assert m * (high + 1) == m * high + m;
      }
      DivMod(low + d - m, high + 1, m);
    }
  }

  /** The last multiple of m up to x; adding it leaves remainders alone. */
  lemma LastMultiple(x: nat, m: nat, y: nat) returns (i: nat)
    requires 0 < m <= x
    ensures 0 < i <= x < i + m && (y + i) % m == y % m
  {
    var low, high := x % m, x / m;
    assert x == low + m * high;
    assert high >= 1;
    i := m * high;
    MulAtLeast(m, high);
    var r, q := y % m, y / m;
    assert y == r + m * q;
    assert m * (q + high) == m * q + i;
    DivMod(r, q + high, m);
  }

  lemma MulStrict(x: nat, y: nat, m: nat)
    requires x < y && m > 0
    ensures x * m < y * m
  {
    assert y * m == x * m + (y - x) * m;
    assert (y - x) * m >= 1;
  }

  lemma MulMonotone(x: nat, y: nat, m: nat)
    requires x <= y
    ensures x * m <= y * m
  {
  }

  lemma Shrinks(b: nat, q: int)
    requires b >= 2 && b * q >= 1
    ensures 1 <= q < b * q
  {
    assert b * q == q + (b - 1) * q;
    if q < 1 { NonPositive(b, q); }
  }

  lemma NonPositive(b: nat, q: int)
    requires q <= 0
    ensures b * q <= 0
  {
  }

  lemma Cancel(b: nat, x: int, y: int)
    requires b >= 1 && b * x == b * y
    ensures x == y
  {
    assert b * (x - y) == 0;
  }

  lemma Multiple(b: nat, x: nat)
    requires b >= 1
    ensures (b * x) % b == 0 && (b * x) / b == x
  {
    DivMod(0, x, b);
  }

  lemma Ceiling(n: nat, r: nat, d: nat, f: nat)
    requires r < f && n == r + f * d
    ensures (n + f) / f == d + 1
    ensures (n + f - 1) / f == if r == 0 then d else d + 1
  {
    assert f * (d + 1) == f * d + f;
    DivMod(r, d + 1, f);
    if r == 0 { DivMod(f - 1, d, f); } else { DivMod(r - 1, d + 1, f); }
  }
}
