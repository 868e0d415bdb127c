// Division and multiplication facts for symbolic divisors.
module Arith {

  lemma MulGe(a: nat, m: nat)
    requires a >= 1
    ensures a * m >= m
  {
    MulNat(a - 1, m);
    assert a * m == (a - 1) * m + m;
  }

  lemma MulNat(a: nat, b: nat)
    ensures a * b >= 0
  {
  }

  lemma MulGap(q: nat, q': nat, m: nat)
    requires q' < q
    ensures q * m >= q' * m + m
  {
    MulGe(q - q', m);
    assert (q - q') * m == q * m - q' * m;
  }

  lemma DivModUnique(a: nat, m: nat, q: nat, r: nat)
    requires m >= 1 && r < m && a == q * m + r
    ensures a / m == q && a % m == r
  {
    var q', r' := a / m, a % m;
    assert a == q' * m + r';
    if q' < q {
      MulGap(q, q', m);
    } else if q' > q {
      MulGap(q', q, m);
    }
  }

  lemma DivModStep(d: nat, m: nat)
    requires m >= 1
    ensures d % m + 1 == m ==> (d + 1) / m == d / m + 1 && (d + 1) % m == 0
    ensures d % m + 1 < m ==> (d + 1) / m == d / m && (d + 1) % m == d % m + 1
  {
    var q, r := d / m, d % m;
    assert d == q * m + r;
    if r + 1 == m {
      assert (q + 1) * m == q * m + m;
      DivModUnique(d + 1, m, q + 1, 0);
    } else {
      DivModUnique(d + 1, m, q, r + 1);
    }
  }

  lemma ModAddMultiple(a: nat, t: nat, m: nat)
    requires m >= 1
    ensures t * m >= 0 && (t * m + a) % m == a % m
  {
    MulNat(t, m);
    var q, r := a / m, a % m;
    assert a == q * m + r;
    assert (t + q) * m == t * m + q * m;
    DivModUnique(t * m + a, m, t + q, r);
  }

  lemma ModSucc(i: nat, m: nat)
    requires m >= 1
    ensures (i % m + 1) % m == (i + 1) % m
  {
    var q := i / m;
    assert i == q * m + i % m;
    ModAddMultiple(i % m + 1, q, m);
  }

  // A quotient is at least q as soon as the dividend is at least q times the divisor.
  lemma DivAtLeast(d: nat, m: nat, q: nat)
    requires m >= 1 && d >= m * q
    ensures d / m >= q
  {
    var q', r := d / m, d % m;
    assert d == q' * m + r;
    if q' < q {
      MulGap(q, q', m);
    }
  }
}
