/** Numbers as bytes, least significant first. */
module ByteDigits {
  import Primes

  lemma NextByte(b: bv8)
    ensures b != 255 ==> (b + 1) as nat == b as nat + 1
  {
  }

  /** The byte that holds a small number. */
  function ByteOf(r: nat): (b: bv8)
    requires r < 256
    ensures b as nat == r
  {
    if r == 0 then 0
    else
      NextByte(ByteOf(r - 1));
      assert ByteOf(r - 1) != 255;
      ByteOf(r - 1) + 1
  }

  /** The low k bytes of `n`. */
  function Digits(n: nat, k: nat): (ds: seq<bv8>)
    ensures |ds| == k
  {
    if k == 0 then [] else [ByteOf(n % 256)] + Digits(n / 256, k - 1)
  }

  function Value(ds: seq<bv8>): nat {
    if ds == [] then 0 else ds[0] as nat + 256 * Value(ds[1..])
  }

  function Pow256(k: nat): nat { if k == 0 then 1 else 256 * Pow256(k - 1) }

  lemma {:induction false} ValueOfDigits(n: nat, k: nat)
    requires n < Pow256(k)
    ensures Value(Digits(n, k)) == n
  {
    if k > 0 {
      ValueOfDigits(n / 256, k - 1);
      assert Digits(n, k)[1..] == Digits(n / 256, k - 1);
    }
  }

  lemma SplitPower(n: nat, m: nat)
    requires m > 0
    ensures n % (256 * m) == n % 256 + 256 * ((n / 256) % m)
  {
    var q, r := n / 256 / m, (n / 256) % m;
    Primes.DivMod(n / 256, m);
    WrapAt(m, q, r, n % 256);
  }

  lemma WrapAt(m: nat, q: nat, r: nat, s: nat)
    requires r < m && s < 256
    ensures (256 * (m * q + r) + s) % (256 * m) == s + 256 * r
  {
    var d, low := 256 * m, s + 256 * r;
    assert d * q == 256 * (m * q);
    Primes.AddMultiple(d, low, q);
    Small(low, d);
  }

  lemma Small(n: nat, d: nat)
    requires n < d
    ensures n % d == n
  {
  }

  /** Higher bytes are cut off. */
  lemma {:induction false} ValueWraps(n: nat, k: nat)
    ensures Pow256(k) > 0 && Value(Digits(n, k)) == n % Pow256(k)
  {
    if k > 0 {
      ValueWraps(n / 256, k - 1);
      SplitPower(n, Pow256(k - 1));
      assert Digits(n, k)[1..] == Digits(n / 256, k - 1);
    }
  }
}
