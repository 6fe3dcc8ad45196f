/** The probe sequence of a dbz search: linear probing that moves on to the
    next overflow table after every MAXRUN probes. */
module DbzProbe {
  import opened Primes

  const MAXRUN: nat := 100

  /** The k-th place a search for a key with hash code `h` looks at. */
  function Probe(tsize: nat, h: nat, k: nat): nat
    requires tsize > 0
  {
    (h % tsize + k) % tsize + k / MAXRUN * tsize
  }

  lemma ModStep(a: nat, m: nat)
    requires m > 0
    ensures (a % m + 1) % m == (a + 1) % m
  {
    var q, r := a / m, a % m;
    if r + 1 == m {
      assert m * (q + 1) == m * q + m;
      ModUnique(a + 1, m, q + 1, 0);
      ModUnique(m, m, 1, 0);
    } else {
      ModUnique(a + 1, m, q, r + 1);
      ModUnique(r + 1, m, 0, r + 1);
    }
  }

  lemma ModUnique(a: nat, m: nat, q: nat, r: nat)
    requires m > 0 && r < m && a == m * q + r
    ensures a % m == r && a / m == q
  {
    SameQuotient(m, q, r, a / m, a % m);
  }

  lemma ModOfShifted(a: nat, b: nat, m: nat)
    requires m > 0
    ensures (a + b * m) % m == a % m
  {
    var q := a / m;
    assert a == m * q + a % m;
    assert a + b * m == m * (q + b) + a % m;
    ModUnique(a + b * m, m, q + b, a % m);
  }

  /** One step of the search loop: the next place computed from the current
      place is the next element of the probe sequence. */
  lemma ProbeStep(tsize: nat, h: nat, k: nat)
    requires tsize > 0
    ensures (Probe(tsize, h, k) + 1) % tsize + (k + 1) / MAXRUN * tsize == Probe(tsize, h, k + 1)
  {
    var a := h % tsize + k;
    ModOfShifted(a % tsize + 1, k / MAXRUN, tsize);
    assert (Probe(tsize, h, k) + 1) % tsize == (a % tsize + 1) % tsize;
    ModStep(a, tsize);
  }

  lemma ProbeStart(tsize: nat, h: nat)
    requires tsize > 0
    ensures Probe(tsize, h, 0) == h % tsize
  {
    var r := h % tsize;
    ModUnique(r, tsize, 0, r);
  }

  /** Past the tables that hold anything, every probe lands beyond `size`. */
  lemma ProbeBeyond(tsize: nat, h: nat, k: nat, size: nat)
    requires tsize > 0 && k >= MAXRUN * size
    ensures Probe(tsize, h, k) >= size
  {
    assert k / MAXRUN >= size;
    MulMono(k / MAXRUN, 1, tsize);
  }
}
