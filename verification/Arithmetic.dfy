// Facts about quotients and remainders that the address arithmetic rests on.
module Arithmetic {

  // A truth value as a count.
  function Flag(p: bool): nat {
    if p then 1 else 0
  }

  lemma {:induction false} ModOfMultiple(x: nat, n: nat, k: nat)
    requires n > 0 && k > 0
    ensures n * k > 0 && (x % (n * k)) % n == x % n
  {
    var m := n * k;
    var q, r := x / m, x % m;
    assert x == q * m + r;
    assert q * m == n * (k * q);
    ModShift(r, n, k * q);
  }

  lemma {:induction false} ModShift(r: nat, n: nat, j: nat)
    requires n > 0
    ensures (n * j + r) % n == r % n
  {
    var q := r / n;
    assert n * j + r == n * (j + q) + r % n;
    DivModUnique(n, j + q, r % n);
  }

  lemma {:induction false} DivModUnique(n: nat, q: nat, r: nat)
    requires r < n
    ensures (n * q + r) / n == q && (n * q + r) % n == r
  {
    var x := n * q + r;
    var q', r' := x / n, x % n;
    assert x == n * q' + r';
    SameQuotient(n, q, r, q', r');
  }

  lemma {:induction false} SameQuotient(n: nat, q: int, r: nat, q': int, r': nat)
    requires r < n && r' < n && n * q + r == n * q' + r'
    ensures q == q' && r == r'
  {
    assert n * (q - q') == r' - r;
    MulBound(n, q - q');
  }

  lemma {:induction false} MulBound(n: nat, d: int)
    ensures d >= 1 ==> n * d >= n
    ensures d <= -1 ==> n * d <= 0 - n
  {
  }
}
