/** How dbz chooses the size of a table. */
module DbzSize {
  import opened Primes

  const DEFSIZE: nat := 120011
  const QUICK := [2, 3, 5, 7, 11, 13, 17, 19, 23, 29, 31, 37]

  /** Some entry of QUICK divides every number from 2 to 38. */
  function QuickFactor(d: nat): (p: nat)
    requires 2 <= d <= 38
    ensures p in QUICK && Divides(p, d)
  {
    if d % 2 == 0 then assert 2 == QUICK[0]; 2
    else if d % 3 == 0 then assert 3 == QUICK[1]; 3
    else if d % 5 == 0 then assert 5 == QUICK[2]; 5
    else
      assert d in [7, 11, 13, 17, 19, 23, 29, 31, 37];
      assert d in QUICK;
      d
  }

  lemma SmallNonDivisors(x: nat)
    requires forall i :: 0 <= i < |QUICK| ==> x % QUICK[i] != 0
    ensures forall d: nat :: 2 <= d <= 38 ==> !Divides(d, x)
  {
    forall d: nat | 2 <= d <= 38
      ensures !Divides(d, x)
    {
      var p := QuickFactor(d);
      if Divides(d, x) {
        DividesTrans(p, d, x);
      }
    }
  }

  /** Twice `stop` plus one is above the square root of x. */
  ghost predicate AboveRoot(x: nat, stop: nat) {
    x < (2 * stop + 1) * (2 * stop + 1)
  }

  /** The halving loop: half of an overestimate of the square root. */
  method HalfRoot(x: nat) returns (stop: nat)
    requires x > 0
    ensures stop > 0 && stop * stop <= x && AboveRoot(x, stop)
  {
    stop := x;
    StartAboveRoot(x);
    var quotient := x / stop;
    while quotient < stop
      invariant stop > 0 && quotient == Quotient(x, stop) && AboveRoot(x, stop)
      decreases stop
    {
      HalvingKeepsBound(x, stop);
      stop := stop / 2;
      quotient := Quotient(x, stop);
    }
    QuotientBound(x, stop);
  }

  function Quotient(x: nat, d: nat): nat
    requires d > 0
  {
    x / d
  }

  lemma StartAboveRoot(x: nat)
    ensures AboveRoot(x, x)
  {
    assert (2 * x + 1) * (2 * x + 1) == 4 * (x * x) + 4 * x + 1;
  }

  lemma HalvingKeepsBound(x: nat, stop: nat)
    requires stop > 0 && x > 0 && x / stop < stop
    ensures stop / 2 > 0 && AboveRoot(x, stop / 2)
  {
    DivMod(x, stop);
    var q := x / stop;
    MulMono(stop, q + 1, stop);
    assert stop * (q + 1) == stop * q + stop;
    assert x < stop * stop;
    var t := 2 * (stop / 2) + 1;
    assert stop <= t;
    MulMono(stop, stop, t);
    MulMono(t, stop, t);
    assert stop * t == t * stop;
  }

  lemma QuotientBound(x: nat, stop: nat)
    requires stop > 0 && x / stop >= stop
    ensures stop * stop <= x
  {
    DivMod(x, stop);
    MulMono(stop, stop, x / stop);
  }

  /** No odd number below div divides x. */
  ghost predicate Tried(x: nat, div: nat) {
    forall d: nat :: 2 <= d < div && d % 2 == 1 ==> !Divides(d, x)
  }

  lemma TriedNext(x: nat, div: nat)
    requires div > 1 && div % 2 == 1 && Tried(x, div) && !Divides(div, x)
    ensures Tried(x, div + 2)
  {
    assert (div + 1) % 2 == 0;
  }

  lemma NoneBelow38(x: nat)
    requires forall d: nat :: 2 <= d <= 38 ==> !Divides(d, x)
    ensures Tried(x, 37)
  {
  }

  /** isprime. The small table refuses its own primes too, so the answer is
      yes for 1 and for exactly the primes above 37; trying only odd divisors
      below twice the halved root is enough. */
  method IsPrimeAbove37(x: nat) returns (r: bool)
    requires x > 0
    ensures x == 1 ==> r
    ensures x > 1 ==> (r <==> IsPrime(x) && x > 37)
  {
    hide IsPrime;
    hide AboveRoot;
    hide Divides;
    hide Tried;
    for i := 0 to |QUICK|
      invariant forall k :: 0 <= k < i ==> x % QUICK[k] != 0
    {
      if x % QUICK[i] == 0 {
        Refused(x, QUICK[i]);
        return false;
      }
    }
    SmallNonDivisors(x);
    NoneBelow38(x);
    var stop := HalfRoot(x);
    ghost var half := stop;
    stop := 2 * stop;
    var div := QUICK[|QUICK| - 1];
    while div < stop
      invariant div % 2 == 1 && div >= 37
      invariant Tried(x, div)
    {
      if Divides(div, x) {
        BelowRoot(x, half, div);
        return false;
      }
      TriedNext(x, div);
      div := div + 2;
    }
    if x > 1 {
      NoDivisorLeft(x, half, div);
    }
    r := true;
  }

  lemma Refused(x: nat, q: nat)
    requires x > 0 && q in QUICK && x % q == 0
    ensures x != 1 && !(IsPrime(x) && x > 37)
  {
    assert forall i :: 0 <= i < |QUICK| ==> 1 < QUICK[i] <= 37;
    assert Divides(q, x);
    assert 1 % q == 1;
  }

  /** A divisor below twice the halved root is a proper one. */
  lemma BelowRoot(x: nat, half: nat, d: nat)
    requires 1 < d < 2 * half && Divides(d, x) && half * half <= x && x > 0 && d >= 37
    ensures !IsPrime(x)
  {
    if x <= d {
      assert d < 2 * half;
      MulMono(half, 19, half);
    }
  }

  lemma NoDivisorLeft(x: nat, half: nat, div: nat)
    requires x > 1 && AboveRoot(x, half) && div >= 2 * half
    requires Tried(x, div)
    requires forall d: nat :: 2 <= d <= 38 ==> !Divides(d, x)
    ensures IsPrime(x) && x > 37
  {
    assert !Divides(2, x);
    hide IsPrime;
    var d := LeastDivisor(x);
    if d < x {
      ProperDivisor(x, half, d);
    }
  }

  /** A proper least divisor would be one of those that were tried. */
  lemma ProperDivisor(x: nat, half: nat, d: nat)
    requires 1 < d && d * d <= x && AboveRoot(x, half) && Divides(d, x) && !Divides(2, x)
    ensures d % 2 == 1 && d < 2 * half + 1
  {
    RootBound(d, 2 * half + 1, x);
    EvenDivisor(x, d);
  }

  lemma RootBound(d: nat, e: nat, x: nat)
    requires d * d <= x < e * e
    ensures d < e
  {
    assert d * e == e * d;
    if e <= d {
      MulMono(d, e, d);
      MulMono(e, e, d);
    }
  }

  lemma EvenDivisor(x: nat, d: nat)
    requires d > 0 && Divides(d, x) && x % 2 == 1
    ensures d % 2 == 1
  {
    if d % 2 == 0 {
      assert Divides(2, d);
      DividesTrans(2, d, x);
    }
  }

  /** Where the search for a size starts. */
  function OddStart(contents: nat): (n: nat)
    ensures n % 2 == 1
  {
    var n := contents / 2 * 3;
    if n % 2 == 0 then n + 1 else n
  }

  /** dbzsize: for two entries or more, the least prime above 37 that leaves the
      table at most 2/3 full. */
  method DbzSize(contents: int) returns (n: nat)
    ensures contents <= 0 ==> n == DEFSIZE
    ensures contents == 1 ==> n == 1
    ensures contents >= 2 ==>
              && IsPrime(n) && n > 37
              && (forall m: nat :: m < n && IsPrime(m) && m > 37 ==> 3 * contents > 2 * m + 1)
    ensures contents > 0 ==> 3 * contents <= 2 * n + 1
  {
    hide IsPrime;
    if contents <= 0 {
      return DEFSIZE;
    }
    n := OddStart(contents);
    ghost var p := PrimeAbove(if n < 37 then 37 else n);
    OddPrime(p);
    var prime := IsPrimeAbove37(n);
    while !prime
      invariant n % 2 == 1 && OddStart(contents) <= n <= p
      invariant n == 1 ==> prime
      invariant n > 1 ==> (prime <==> IsPrime(n) && n > 37)
      invariant contents == 1 ==> n == 1
      invariant forall m: nat :: OddStart(contents) <= m < n ==> !(IsPrime(m) && m > 37)
      decreases p - n
    {
      NextIsEven(n + 1);
      n := n + 2;
      prime := IsPrimeAbove37(n);
    }
    if contents > 1 {
      RoomFor(contents, n);
      forall m: nat | m < n && IsPrime(m) && m > 37
        ensures 3 * contents > 2 * m + 1
      {
        NoRoomBelow(contents, m);
      }
    }
  }

  /** A prime below the start is too small. */
  lemma NoRoomBelow(contents: nat, m: nat)
    requires contents >= 2 && m < OddStart(contents) && IsPrime(m) && m > 37
    ensures 3 * contents > 2 * m + 1
  {
    hide IsPrime;
    OddPrime(m);
  }

  lemma OddPrime(p: nat)
    requires IsPrime(p) && p > 2
    ensures p % 2 == 1
  {
    assert !Divides(2, p);
  }

  lemma NextIsEven(m: nat)
    requires m % 2 == 0
    ensures !(IsPrime(m) && m > 37)
  {
    if m > 2 {
      assert Divides(2, m);
    }
  }

  lemma RoomFor(contents: nat, n: nat)
    requires contents >= 2 && n >= OddStart(contents) && IsPrime(n) && n > 37
    ensures 3 * contents <= 2 * n + 1
  {
    var m := contents / 2;
    MultipleIsDivisible(3, m);
    assert n != 3 * m;
    assert n % 2 == 1 by { OddPrime(n); }
  }
}
