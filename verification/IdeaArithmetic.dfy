/** The multiplication of IDEA. */
module IdeaArithmetic {
  import opened Primes

  const FERMAT: nat := 65537
  const WORD32: nat := 0x1_0000_0000

  /** No odd number from the odd d to `last` divides n. */
  predicate NoOddDivisor(n: nat, d: nat, last: nat)
    requires d > 0
    decreases last + 1 - d
  {
    d > last || (!Divides(d, n) && NoOddDivisor(n, d + 2, last))
  }

  lemma {:induction false} NoOddDivisorMeans(n: nat, d: nat, last: nat, e: nat)
    requires 0 < d <= e <= last && e % 2 == d % 2 && NoOddDivisor(n, d, last)
    ensures !Divides(e, n)
    decreases last + 1 - d
  {
    if e > d {
      NoOddDivisorMeans(n, d + 2, last, e);
    }
  }

  /** Trial division, four candidates a step. */
  lemma NoSmallDivisor()
    ensures NoOddDivisor(FERMAT, 3, 257)
  {
    assert NoOddDivisor(65537, 257, 257);
    assert NoOddDivisor(65537, 249, 257);
    assert NoOddDivisor(65537, 241, 257);
    assert NoOddDivisor(65537, 233, 257);
    assert NoOddDivisor(65537, 225, 257);
    assert NoOddDivisor(65537, 217, 257);
    assert NoOddDivisor(65537, 209, 257);
    assert NoOddDivisor(65537, 201, 257);
    assert NoOddDivisor(65537, 193, 257);
    assert NoOddDivisor(65537, 185, 257);
    assert NoOddDivisor(65537, 177, 257);
    assert NoOddDivisor(65537, 169, 257);
    assert NoOddDivisor(65537, 161, 257);
    assert NoOddDivisor(65537, 153, 257);
    assert NoOddDivisor(65537, 145, 257);
    assert NoOddDivisor(65537, 137, 257);
    assert NoOddDivisor(65537, 129, 257);
    assert NoOddDivisor(65537, 121, 257);
    assert NoOddDivisor(65537, 113, 257);
    assert NoOddDivisor(65537, 105, 257);
    assert NoOddDivisor(65537, 97, 257);
    assert NoOddDivisor(65537, 89, 257);
    assert NoOddDivisor(65537, 81, 257);
    assert NoOddDivisor(65537, 73, 257);
    assert NoOddDivisor(65537, 65, 257);
    assert NoOddDivisor(65537, 57, 257);
    assert NoOddDivisor(65537, 49, 257);
    assert NoOddDivisor(65537, 41, 257);
    assert NoOddDivisor(65537, 33, 257);
    assert NoOddDivisor(65537, 25, 257);
    assert NoOddDivisor(65537, 17, 257);
    assert NoOddDivisor(65537, 9, 257);
    assert NoOddDivisor(65537, 3, 257);
  }

  lemma SquareBound(d: nat)
    ensures d >= 257 ==> d * d >= 257 * 257
  {
    if d >= 257 {
      MulMono(d, 257, d);
      MulMono(257, 257, d);
      assert d * 257 == 257 * d;
    }
  }

  /** 65537 is prime: a divisor would have one below 257, and an odd one. */
  lemma FermatIsPrime()
    ensures IsPrime(FERMAT)
  {
    hide IsPrime;
    var d := LeastDivisor(FERMAT);
    if d < FERMAT {
      SquareBound(d);
      if d % 2 == 0 {
        assert Divides(2, d);
        DividesTrans(2, d, FERMAT);
      } else {
        NoSmallDivisor();
        NoOddDivisorMeans(FERMAT, 3, 257, d);
      }
    }
  }

  /** (lo - hi) + (lo < hi). */
  function LowMinusHigh(lo: nat, hi: nat): nat {
    ((lo - hi) % WORD32 + if lo < hi then 1 else 0) % WORD32
  }

  /** mulop, on 32-bit words. */
  function Mulop(a: nat, b: nat): nat {
    var ab := a * b % WORD32;
    if ab != 0 then LowMinusHigh(ab % 65536, ab / 65536 % 65536)
    else if a == 0 then (1 - b) % WORD32
    else (1 - a) % WORD32
  }

  /** What a 16-bit word stands for: 0 is 65536. */
  function Meaning(w: nat): nat { if w == 0 then 65536 else w }

  /** Division with remainder is unique. */
  lemma RemainderIs(n: nat, d: nat, q: nat, r: nat)
    requires d > 0 && r < d && n == d * q + r
    ensures n % d == r
  {
    DivMod(n, d);
    SameQuotient(d, q, r, n / d, n % d);
  }

  /** hi * 65536 + lo is lo - hi modulo 65537. */
  lemma HighMinusLow(lo: nat, hi: nat)
    requires lo < 65536 && hi < 65536 && lo != hi
    ensures (hi * 65536 + lo) % FERMAT == if lo > hi then lo - hi else lo - hi + FERMAT
  {
    if lo > hi {
      RemainderIs(hi * 65536 + lo, FERMAT, hi, lo - hi);
    } else {
      RemainderIs(hi * 65536 + lo, FERMAT, hi - 1, lo - hi + FERMAT);
    }
  }

  /** The low word of the difference, with the borrow brought back in. */
  lemma LowWord(lo: nat, hi: nat)
    requires lo < 65536 && hi < 65536 && lo != hi
    ensures Meaning(LowMinusHigh(lo, hi) % 65536) == if lo > hi then lo - hi else lo - hi + FERMAT
  {
    if lo < hi {
      assert (lo - hi) % WORD32 == lo - hi + WORD32;
    }
  }

  lemma HalvesDiffer(a: nat, b: nat, lo: nat, hi: nat)
    requires 0 < a < 65536 && 0 < b < 65536 && a * b == hi * 65536 + lo
    ensures lo != hi
  {
    if lo == hi {
      FermatIsPrime();
      assert a * b == FERMAT * hi;
      MultipleIsDivisible(FERMAT, hi);
      PrimeDividesNoSmallProduct(FERMAT, a, b);
    }
  }

  /** Multiplying by what 0 stands for is changing the sign. */
  lemma TimesZero(b: nat)
    requires b < 65536
    ensures Meaning((1 - b) % WORD32 % 65536) == 65536 * Meaning(b) % FERMAT
  {
    if b == 0 {
      RemainderIs(65536 * 65536, FERMAT, 65535, 1);
    } else {
      RemainderIs(65536 * b, FERMAT, b - 1, FERMAT - b);
      if b > 1 {
        assert (1 - b) % WORD32 == 1 - b + WORD32;
      }
    }
  }

  lemma ProductFits(a: nat, b: nat)
    requires a < 65536 && b < 65536
    ensures a * b < WORD32
  {
    MulMono(a, b, 65536);
    MulMono(65536, a, 65536);
    assert a * 65536 == 65536 * a;
  }

  /** mulop is multiplication modulo 65537, with 0 standing for 65536. */
  lemma MulopIsMultiplication(a: nat, b: nat)
    requires a < 65536 && b < 65536
    ensures Meaning(Mulop(a, b) % 65536) == Meaning(a) * Meaning(b) % FERMAT
  {
    ProductFits(a, b);
    if a == 0 {
      TimesZero(b);
    } else if b == 0 {
      TimesZero(a);
      assert a * 65536 == 65536 * a;
    } else {
      MulMono(a, 1, b);
      NonZeroProduct(a, b, a * b);
    }
  }

  lemma NonZeroProduct(a: nat, b: nat, ab: nat)
    requires 0 < a < 65536 && 0 < b < 65536 && ab == a * b && 0 < ab < WORD32
    ensures Meaning(Mulop(a, b) % 65536) == ab % FERMAT
  {
    hide LowMinusHigh;
    var lo, hi := ab % 65536, ab / 65536;
    Halves(ab);
    HalvesDiffer(a, b, lo, hi);
    HighMinusLow(lo, hi);
    LowWord(lo, hi);
    assert Mulop(a, b) == LowMinusHigh(lo, hi);
  }

  lemma Halves(ab: nat)
    requires ab < WORD32
    ensures ab == ab / 65536 * 65536 + ab % 65536 && ab / 65536 < 65536
    ensures ab / 65536 % 65536 == ab / 65536 && ab % WORD32 == ab
  {
  }
}
