// dbzsize and isprime: picking a prime table size, with termination and exactness.
module TableSize {
  import opened Arith

  const DEFSIZE := 120011
  const QUICK := [2, 3, 5, 7, 11, 13, 17, 19, 23, 29, 31, 37]

  predicate Divides(d: nat, x: nat)
    requires d >= 1
  {
    x % d == 0
  }

  ghost predicate Prime(x: nat) {
    x >= 2 && forall d :: 2 <= d < x ==> !Divides(d, x)
  }

  // What isprime lets through: the primes above the quick ones, and 1.
  ghost predicate Accepted(x: nat) {
    x == 1 || (Prime(x) && x > 37)
  }

  // ---- divisibility ----

  lemma DividesTimes(d: nat, q: nat)
    requires d >= 1
    ensures q * d >= 0 && Divides(d, q * d)
  {
    MulNat(q, d);
    DivModUnique(q * d, d, q, 0);
  }

  lemma DividesTrans(a: nat, b: nat, c: nat)
    requires a >= 1 && b >= 1 && Divides(a, b) && Divides(b, c)
    ensures Divides(a, c)
  {
    var p, q := b / a, c / b;
    assert b == p * a && c == q * b;
    assert c == (q * p) * a by { MulAssoc(q, p, a); }
    MulNat(q, p);
    DividesTimes(a, q * p);
  }

  lemma MulAssoc(a: int, b: int, c: int)
    ensures a * (b * c) == (a * b) * c
  {
  }

  // The least divisor above 1 of a composite is a prime whose square does not exceed it.
  lemma LeastFactor(x: nat) returns (q: nat)
    requires x >= 2
    ensures Prime(q) && Divides(q, x) && q <= x
    ensures !Prime(x) ==> q * q <= x
  {
    q := 2;
    DividesTimes(x, 1);
    while !Divides(q, x)
      invariant 2 <= q <= x
      invariant forall d :: 2 <= d < q ==> !Divides(d, x)
      decreases x - q
    {
      q := q + 1;
    }
    forall d | 2 <= d < q
      ensures !Divides(d, q)
    {
      if Divides(d, q) {
        DividesTrans(d, q, x);
      }
    }
    if !Prime(x) {
      assert q != x;
      CofactorAtLeast(q, x);
    }
  }

  lemma CofactorAtLeast(q: nat, x: nat)
    requires 2 <= q < x && Divides(q, x) && forall d :: 2 <= d < q ==> !Divides(d, x)
    ensures q * q <= x
  {
    var r := x / q;
    assert x == r * q == q * r;
    assert r != 0 && r != 1;
    DividesTimes(r, q);
    if r >= q {
      assert r * q == q * q + (r - q) * q;
      MulNat(r - q, q);
    }
  }

  // ---- infinitely many primes ----

  function Factorial(n: nat): (f: nat)
    ensures f >= 1
  {
    if n == 0 then 1 else
      MulGe(n, Factorial(n - 1)); n * Factorial(n - 1)
  }

  lemma {:induction false} DividesFactorial(d: nat, n: nat)
    requires 1 <= d <= n
    ensures Divides(d, Factorial(n))
  {
    var f := Factorial(n - 1);
    if d == n {
      assert n * f == f * n;
      DividesTimes(n, f);
    } else {
      DividesFactorial(d, n - 1);
      DividesTimes(f, n);
      DividesTrans(d, f, n * f);
    }
  }

  // Euclid: a prime above any bound.
  lemma PrimeAbove(n: nat) returns (p: nat)
    ensures Prime(p) && p > n
  {
    var f := Factorial(n);
    p := LeastFactor(f + 1);
    if p <= n {
      DividesFactorial(p, n);
      var k := f / p;
      assert f + 1 == k * p + 1;
      DivModUnique(f + 1, p, k, 1);
    }
  }

  lemma PrimesAreOdd(p: nat)
    requires Prime(p) && p > 2
    ensures p % 2 == 1
  {
    assert !Divides(2, p);
  }

  // ---- isprime ----

  // The quick tests.
  method PassesQuick(x: nat) returns (pass: bool)
    ensures pass <==> forall k :: 0 <= k < |QUICK| ==> !Divides(QUICK[k], x)
  {
    var i := 0;
    while i < |QUICK|
      invariant 0 <= i <= |QUICK|
      invariant forall k :: 0 <= k < i ==> !Divides(QUICK[k], x)
    {
      if x % QUICK[i] == 0 {
        assert Divides(QUICK[i], x);
        return false;
      }
      i := i + 1;
    }
    pass := true;
  }

  // Halving until stop * stop <= x, then doubling: no square root, but a bound that no
  // odd number whose square is at most x can reach.
  method SearchBound(x: nat) returns (stop: nat, ghost prev: nat)
    requires x >= 1
    ensures x < prev * prev && prev <= stop + 1 && stop % 2 == 0
    ensures if x > 1 then stop <= x else stop == 2
  {
    stop := x;
    prev := x + 1;
    assert prev * prev == x * x + 2 * x + 1;
    MulNat(x, x);
    while x / stop < stop
      invariant 1 <= stop <= x && prev <= 2 * stop + 1
      invariant x < prev * prev
      decreases stop
    {
      BelowSquare(x, stop);
      prev := stop;
      stop := stop / 2;
    }
    NotBelowSquare(x, stop);
    if x > 1 {
      Halved(x, stop);
    }
    stop := stop * 2;
  }

  // No odd number from 37 up to a bound divides x.
  ghost predicate NoneDivides(x: nat, bound: int) {
    forall d :: 37 <= d < bound && d % 2 == 1 ==> !Divides(d, x)
  }

  lemma NextOdd(x: nat, div: nat)
    requires div % 2 == 1 && div >= 37 && NoneDivides(x, div)
    ensures (div + 2) % 2 == 1
    ensures !Divides(div, x) ==> NoneDivides(x, div + 2)
  {
  }

  lemma NoneBelow37(x: nat)
    ensures NoneDivides(x, 37)
  {
  }

  lemma DividesIs(d: nat, x: nat)
    requires d >= 1
    ensures Divides(d, x) <==> x % d == 0
  {
  }

  lemma DividesBelow(x: nat, div: nat, stop: nat)
    requires 37 <= div < stop && div % 2 == 1 && x % div == 0
    ensures !NoneDivides(x, stop)
  {
    assert Divides(div, x);
  }

  lemma FewerDivide(x: nat, a: int, b: int)
    requires a <= b && NoneDivides(x, b)
    ensures NoneDivides(x, a)
  {
    hide Divides;
  }

  // The trial division, from 37 in steps of two.
  method NoOddDivisor(x: nat, stop: nat) returns (none: bool)
    ensures none <==> NoneDivides(x, stop)
  {
    hide Divides, NoneDivides;
    var div := 37;
    assert NoneDivides(x, div) by { NoneBelow37(x); }
    while div < stop
      invariant div >= 37 && div % 2 == 1 && NoneDivides(x, div)
      decreases stop - div
    {
      if x % div == 0 {
        DividesBelow(x, div, stop);
        return false;
      }
      NextOdd(x, div);
      assert !Divides(div, x) by { DividesIs(div, x); }
      div := div + 2;
    }
    FewerDivide(x, stop, div);
    none := true;
  }

  method IsPrime(x: nat) returns (prime: bool)
    ensures prime <==> Accepted(x)
  {
    hide Divides;
    var pass := PassesQuick(x);
    if !pass {
      QuickRejects(x);
      return false;
    }
    SurvivorIsBig(x);
    var stop, prev := SearchBound(x);
    prime := NoOddDivisor(x, stop);
    if x > 1 {
      if !Prime(x) {
        var q := LeastFactor(x);
        SmallFactorSeen(x, q, prev, stop);
      }
    }
  }

  lemma QuickRejects(x: nat)
    requires exists k :: 0 <= k < |QUICK| && Divides(QUICK[k], x)
    ensures !Accepted(x)
  {
    var k :| 0 <= k < |QUICK| && Divides(QUICK[k], x);
    if x == 1 {
      DivModUnique(1, QUICK[k], 0, 1);
    }
  }

  lemma SurvivorIsBig(x: nat)
    requires forall k :: 0 <= k < |QUICK| ==> !Divides(QUICK[k], x)
    ensures x == 1 || x > 37
  {
    assert x != 0 by { assert !Divides(QUICK[0], x); }
    if 2 <= x <= 37 {
      var q := LeastFactor(x);
      SmallPrimesAreQuick(q);
    }
  }

  // The quick numbers are all the primes up to 38.
  lemma SmallPrimesAreQuick(q: nat)
    requires Prime(q) && q <= 38
    ensures exists k :: 0 <= k < |QUICK| && QUICK[k] == q
  {
    assert q > 2 ==> !Divides(2, q);
    assert q > 3 ==> !Divides(3, q);
    assert q > 5 ==> !Divides(5, q);
    assert q in {2, 3, 5, 7, 11, 13, 17, 19, 23, 29, 31, 37};
    assert QUICK[0] == 2 && QUICK[1] == 3 && QUICK[2] == 5 && QUICK[3] == 7 && QUICK[4] == 11 && QUICK[5] == 13
        && QUICK[6] == 17 && QUICK[7] == 19 && QUICK[8] == 23 && QUICK[9] == 29 && QUICK[10] == 31 && QUICK[11] == 37;
  }

  lemma BelowSquare(x: nat, s: nat)
    requires s >= 1 && x / s < s
    ensures x < s * s
  {
    var q, r := x / s, x % s;
    assert x == q * s + r;
    MulGap(s, q, s);
  }

  lemma NotBelowSquare(x: nat, s: nat)
    requires s >= 1 && x / s >= s
    ensures s * s <= x
  {
    var q, r := x / s, x % s;
    assert x == q * s + r;
    assert q * s == s * s + (q - s) * s;
    MulNat(q - s, s);
  }

  lemma Halved(x: nat, s: nat)
    requires x > 1 && s >= 1 && s * s <= x
    ensures 2 * s <= x
  {
    if s >= 2 {
      assert s * s == 2 * s + (s - 2) * s;
      MulNat(s - 2, s);
    }
  }

  // A prime factor below the square root is an odd number the trial division reaches.
  lemma SmallFactorSeen(x: nat, q: nat, prev: nat, stop: nat)
    requires x > 1 && Prime(q) && Divides(q, x) && q * q <= x < prev * prev
    requires prev <= stop + 1 && stop % 2 == 0
    requires forall k :: 0 <= k < |QUICK| ==> !Divides(QUICK[k], x)
    ensures 37 < q < stop && q % 2 == 1
  {
    if q <= 38 {
      SmallPrimesAreQuick(q);
    }
    if prev <= q {
      SquaresGrow(prev, q);
    }
    PrimesAreOdd(q);
  }

  lemma SquaresGrow(a: nat, b: nat)
    requires a <= b
    ensures a * a <= b * b
  {
    assert b * b == a * a + (b - a) * (b + a);
    MulNat(b - a, b + a);
  }

  // ---- dbzsize ----

  // The size the search starts at: one and a half times the contents, made odd.
  function Tentative(contents: int): int {
    var n := contents / 2 * 3;
    if n % 2 == 0 then n + 1 else n
  }

  // No odd number from one bound up to another is let through.
  ghost predicate NoneAccepted(from: int, n: int) {
    forall m: nat :: from <= m < n && m % 2 == 1 ==> !Accepted(m)
  }

  lemma NextSize(from: int, n: nat, p: nat)
    requires NoneAccepted(from, n) && !Accepted(n) && n % 2 == 1 && n <= p && p % 2 == 1 && Accepted(p)
    ensures NoneAccepted(from, n + 2) && n + 2 <= p && (n + 2) % 2 == 1
  {
    hide Accepted;
    assert n != p;
  }

  // Terminates because there are primes without end; takes the first size that is.
  method TableSize(contents: int) returns (n: nat)
    ensures contents <= 0 ==> n == 120011
    ensures contents > 0 ==>
              && Accepted(n) && n % 2 == 1 && n >= contents / 2 * 3
              && NoneAccepted(contents / 2 * 3, n)
              && 3 * contents <= 2 * n + 1
  {
    hide Accepted, Tentative, NoneAccepted;
    if contents <= 0 {
      return DEFSIZE;
    }
    n := contents / 2 * 3;
    if n % 2 == 0 {
      n := n + 1;
    }
    TentativeIs(contents, n);
    ghost var p := PrimeOddAbove(n);
    assert NoneAccepted(n, n) by { NothingBetween(n); }
    var prime := IsPrime(n);
    while !prime
      invariant n % 2 == 1 && Tentative(contents) <= n <= p && prime == Accepted(n)
      invariant NoneAccepted(Tentative(contents), n)
      decreases p - n
    {
      NextSize(Tentative(contents), n, p);
      n := n + 2;
      prime := IsPrime(n);
    }
    HoldsContents(contents, n);
    FromTheContents(contents, n);
  }

  lemma FromTheContents(contents: int, n: nat)
    requires contents > 0 && NoneAccepted(Tentative(contents), n) && n >= Tentative(contents)
    ensures NoneAccepted(contents / 2 * 3, n) && n >= contents / 2 * 3
  {
    hide Accepted;
  }

  lemma NothingBetween(n: int)
    ensures NoneAccepted(n, n)
  {
  }

  lemma TentativeIs(contents: int, n: int)
    requires contents > 0 && n == if contents / 2 * 3 % 2 == 0 then contents / 2 * 3 + 1 else contents / 2 * 3
    ensures n == Tentative(contents) && n % 2 == 1 && n >= 0
  {
  }

  // Where the search must stop.
  lemma PrimeOddAbove(n: nat) returns (p: nat)
    ensures p > n && p % 2 == 1 && Accepted(p)
  {
    hide Prime;
    p := PrimeAbove(n + 38);
    PrimesAreOdd(p);
  }

  // The size found takes one and a half times the contents.
  lemma HoldsContents(contents: int, n: nat)
    requires contents > 0 && Accepted(n) && n >= Tentative(contents)
    ensures 3 * contents <= 2 * n + 1
  {
    hide Accepted;
    if contents % 2 == 1 && n == contents / 2 * 3 {
      DividesTimes(3, contents / 2);
      ThreeRejected(n);
    }
  }

  lemma ThreeRejected(n: nat)
    requires Divides(3, n)
    ensures !Accepted(n)
  {
    assert !Divides(3, 1);
  }
}
