/** Numbers in decimal digits, the highest first. */
module Decimals {
  import opened Arith

  type Digit = d: int | 0 <= d < 10

  /** The number that digits spell, as strtol and strtoul add it up. */
  function Number(d: seq<Digit>): nat {
    if d == [] then 0 else 10 * Number(d[..|d| - 1]) + d[|d| - 1]
  }

  function Pow10(n: nat): (r: nat)
    ensures r >= 1
  {
    if n == 0 then 1 else 10 * Pow10(n - 1)
  }

  lemma TenTimes(x: nat, p: nat)
    requires p >= 1
    ensures x / (10 * p) == x / 10 / p
  {
    var q, a, b := x / 10 / p, x % 10, x / 10 % p;
    assert x / 10 == p * q + b;
    assert 10 * (p * q) == q * (10 * p);
    DivMod(a + 10 * b, q, 10 * p);
  }

  lemma LastApart(x: nat, front: nat, last: Digit)
    requires x == 10 * front + last
    ensures x / 10 == front && x % 10 == last
  {
  }

  lemma NextPlace(x: nat, front: nat, last: Digit, p: nat)
    requires x == 10 * front + last && p >= 1
    ensures x / (10 * p) == front / p
  {
    LastApart(x, front, last);
    TenTimes(x, p);
  }

  /** The k-th digit stands in its place: what positional notation means. */
  lemma {:induction false} InPlace(d: seq<Digit>, k: nat, p: nat)
    requires k < |d| && p == Pow10(|d| - 1 - k)
    ensures Number(d) / p % 10 == d[k]
    decreases |d|
  {
    var n := |d| - 1;
    LastApart(Number(d), Number(d[..n]), d[n]);
    if k == n {
    } else {
      var q := Pow10(n - 1 - k);
      InPlace(d[..n], k, q);
      NextPlace(Number(d), Number(d[..n]), d[n], q);
    }
  }

  /** And there is nothing beyond the digits. */
  lemma {:induction false} InRange(d: seq<Digit>)
    ensures Number(d) < Pow10(|d|)
    decreases |d|
  {
    if d == [] {
    } else {
      InRange(d[..|d| - 1]);
    }
  }

  /** The digits of a number, without leading zeros. */
  function Spelled(n: nat): (d: seq<Digit>)
    ensures d != []
  {
    if n < 10 then [n] else Spelled(n / 10) + [n % 10]
  }

  lemma {:induction false} SpelledReads(n: nat)
    ensures Number(Spelled(n)) == n
  {
    if n < 10 {
      assert Spelled(n)[..0] == [];
    } else {
      SpelledReads(n / 10);
      assert Spelled(n)[..|Spelled(n)| - 1] == Spelled(n / 10);
    }
  }

  lemma {:induction false} SpelledShort(n: nat, k: nat)
    requires k > 0 && n < Pow10(k)
    ensures |Spelled(n)| <= k
  {
    if n < 10 {
    } else {
      assert k > 1 by { assert Pow10(1) == 10 * Pow10(0) == 10; }
      SpelledShort(n / 10, k - 1);
    }
  }
}
