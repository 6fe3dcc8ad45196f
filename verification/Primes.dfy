/** Divisibility and primes: as much as table sizes and IDEA's multiplication
    need. */
module Primes {
  predicate Divides(d: nat, n: nat)
    requires d > 0
  {
    n % d == 0
  }

  ghost predicate IsPrime(n: nat) {
    n > 1 && forall d: nat :: 1 < d < n ==> !Divides(d, n)
  }

  lemma MultipleIsDivisible(d: nat, k: nat)
    requires d > 0
    ensures Divides(d, d * k)
  {
    if k > 0 {
      MultipleIsDivisible(d, k - 1);
      AddMultiple(d, d * (k - 1), 1);
      assert d * k == d * (k - 1) + d;
    }
  }

  lemma DivMod(n: nat, d: nat)
    requires d > 0
    ensures n == d * (n / d) + n % d
  {
  }

  lemma AddMultiple(d: nat, n: nat, k: nat)
    requires d > 0
    ensures (n + d * k) % d == n % d
    decreases k
  {
    if k > 0 {
      AddMultiple(d, n, k - 1);
      var m := n + d * (k - 1);
      assert n + d * k == m + d;
      AddOnce(d, m);
    }
  }

  lemma AddOnce(d: nat, m: nat)
    requires d > 0
    ensures (m + d) % d == m % d
  {
    var q, r := m / d, m % d;
    assert m + d == d * (q + 1) + r;
    var q', r' := (m + d) / d, (m + d) % d;
    assert d * (q + 1) + r == d * q' + r';
    SameQuotient(d, q + 1, r, q', r');
  }

  lemma SameQuotient(d: nat, q: nat, r: nat, q': nat, r': nat)
    requires r < d && r' < d && d * q + r == d * q' + r'
    ensures q == q' && r == r'
  {
    assert d * (q' + 1) == d * q' + d && d * (q + 1) == d * q + d;
    if q > q' {
      MulMono(d, q' + 1, q);
    } else if q < q' {
      MulMono(d, q + 1, q');
    }
  }

  lemma MulMono(d: nat, a: nat, b: nat)
    requires a <= b
    ensures d * a <= d * b
  {
    assert d * b == d * a + d * (b - a);
  }

  /** A multiple of a multiple is a multiple. */
  lemma DividesTrans(p: nat, d: nat, n: nat)
    requires p > 0 && d > 0 && Divides(p, d) && Divides(d, n)
    ensures Divides(p, n)
  {
    var a, b := d / p, n / d;
    assert n == d * b && d == p * a;
    assert n == p * (a * b) by { assert (p * a) * b == p * (a * b); }
    MultipleIsDivisible(p, a * b);
  }

  lemma DividesDifference(p: nat, a: nat, b: nat)
    requires p > 0 && Divides(p, a) && Divides(p, a + b)
    ensures Divides(p, b)
  {
    AddMultiple(p, b, a / p);
    assert a == p * (a / p);
  }

  /** The least divisor above 1 is prime, and small if it is proper. */
  lemma LeastDivisor(n: nat) returns (d: nat)
    requires n > 1
    ensures 1 < d <= n && Divides(d, n) && IsPrime(d)
    ensures forall e: nat :: 1 < e < d ==> !Divides(e, n)
    ensures d < n ==> d * d <= n
  {
    d := 2;
    while !Divides(d, n)
      invariant 1 < d <= n
      invariant forall e: nat :: 1 < e < d ==> !Divides(e, n)
      decreases n - d
    {
      assert Divides(n, n);
      d := d + 1;
    }
    forall e: nat | 1 < e < d
      ensures !Divides(e, d)
    {
      if Divides(e, d) {
        DividesTrans(e, d, n);
      }
    }
    if d < n {
      CofactorIsLarge(n, d);
    }
  }

  lemma CofactorIsLarge(n: nat, d: nat)
    requires 1 < d < n && Divides(d, n)
    requires forall e: nat :: 1 < e < d ==> !Divides(e, n)
    ensures d * d <= n
  {
    var e := n / d;
    assert n == d * e;
    MultipleIsDivisible(e, d);
    assert e * d == n;
    if e <= 1 {
      MulMono(d, e, 1);
    } else {
      assert e >= d;
      MulMono(d, d, e);
    }
  }

  function Factorial(n: nat): (f: nat)
    ensures f > 0
  {
    if n == 0 then 1 else n * Factorial(n - 1)
  }

  lemma {:induction false} FactorialDivisible(d: nat, n: nat)
    requires 1 <= d <= n
    ensures Divides(d, Factorial(n))
  {
    if d == n {
      MultipleIsDivisible(n, Factorial(n - 1));
    } else {
      FactorialDivisible(d, n - 1);
      MultipleIsDivisible(Factorial(n - 1), n);
      assert Factorial(n) == Factorial(n - 1) * n;
      DividesTrans(d, Factorial(n - 1), Factorial(n));
    }
  }

  /** There is a prime above every number. */
  lemma PrimeAbove(n: nat) returns (p: nat)
    ensures p > n && IsPrime(p)
  {
    p := LeastDivisor(Factorial(n) + 1);
    if p <= n {
      FactorialDivisible(p, n);
      DividesDifference(p, Factorial(n), 1);
    }
  }

  /** A prime that divides a product of two positive numbers below it divides
      neither factor, so there is no such product. */
  lemma PrimeDividesNoSmallProduct(p: nat, a: nat, b: nat)
    requires IsPrime(p) && 0 < a < p && 0 < b
    requires b < p
    ensures !Divides(p, a * b)
    decreases b
  {
    if b == 1 {
      assert a * b == a;
    } else if Divides(p, a * b) {
      assert !Divides(b, p);
      RemainderDivides(p, a, b);
      PrimeDividesNoSmallProduct(p, a, p % b);
    }
  }

  /** A divisor of a * b and of a * p divides a * (p % b). */
  lemma RemainderDivides(p: nat, a: nat, b: nat)
    requires p > 0 && b > 0 && Divides(p, a * b)
    ensures Divides(p, a * (p % b))
  {
    var q, r := p / b, p % b;
    hide Divides;
    DivMod(p, b);
    assert p * a == (a * b) * q + a * r by { Expand(a, b, q, r); }
    MultipleIsDivisible(p, a);
    ProductDivisible(p, a * b, q);
    DividesDifference(p, (a * b) * q, a * r);
  }

  lemma Expand(a: nat, b: nat, q: nat, r: nat)
    ensures (b * q + r) * a == (a * b) * q + a * r
  {
    assert a * (b * q) == (a * b) * q;
  }

  lemma ProductDivisible(p: nat, n: nat, k: nat)
    requires p > 0 && Divides(p, n)
    ensures Divides(p, n * k)
  {
    var m := n / p;
    assert n == p * m;
    assert n * k == p * (m * k);
    MultipleIsDivisible(p, m * k);
  }
}
