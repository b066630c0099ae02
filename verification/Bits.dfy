/** Arithmetic on natural numbers: the larger of two, and bitwise operations digit by digit. */
module Bits {

  function Max(a: nat, b: nat): nat {
    if a < b then b else a
  }

  function Pow2(k: nat): (p: nat)
    ensures 0 < p
  {
    if k == 0 then 1 else 2 * Pow2(k - 1)
  }

  function And(a: nat, b: nat): nat
    decreases a
  {
    if a == 0 || b == 0 then 0 else 2 * And(a / 2, b / 2) + (a % 2) * (b % 2)
  }

  /** Masking with 2^k - 1 is taking the remainder by 2^k. */
  lemma {:induction false} MaskIsRemainder(h: nat, k: nat)
    ensures And(h, Pow2(k) - 1) == h % Pow2(k)
    decreases k
  {
    if k == 0 {
    } else {
      var q := Pow2(k - 1);
      MaskIsRemainder(h / 2, k - 1);
      assert (2 * q - 1) / 2 == q - 1 && (2 * q - 1) % 2 == 1;
      HalvesRemainder(h, q);
      if h == 0 { ZeroRemainder(2 * q); }
    }
  }

  lemma ZeroRemainder(n: nat)
    requires 0 < n
    ensures 0 % n == 0
  {
  }

  lemma HalvesRemainder(h: nat, q: nat)
    requires 0 < q
    ensures h % (2 * q) == 2 * ((h / 2) % q) + h % 2
  {
    var d := (h / 2) / q;
    var r := (h / 2) % q;
    assert h / 2 == q * d + r;
    assert h == (2 * q) * d + (2 * r + h % 2);
    RemainderIs(h, 2 * q, d, 2 * r + h % 2);
  }

  lemma RemainderIs(x: nat, n: nat, q: nat, r: nat)
    requires 0 < n && r < n && x == n * q + r
    ensures x % n == r && x / n == q
  {
    var d := q - x / n;
    assert n * d == x % n - r;
    if d != 0 { Apart(n, d); }
  }

  lemma {:induction false} Apart(n: int, d: int)
    requires 0 < n && d != 0
    ensures 0 < d ==> n * d >= n
    ensures d < 0 ==> n * d <= 0 - n
    decreases if d < 0 then -d else d
  {
    if d > 1 {
      Apart(n, d - 1);
      assert n * d == n * (d - 1) + n;
    } else if d < -1 {
      Apart(n, d + 1);
      assert n * d == n * (d + 1) - n;
    }
  }
}
