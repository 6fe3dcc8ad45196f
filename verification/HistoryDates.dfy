/** Dates in history lines: what %ld prints and atol reads back. */
module HistoryDates {
  function DigitChar(d: nat): char
    requires d < 10
  {
    '0' + d as char
  }

  function Digits(n: nat): (s: string)
    ensures |s| > 0
  {
    if n < 10 then [DigitChar(n)] else Digits(n / 10) + [DigitChar(n % 10)]
  }

  /** "%ld". */
  function Decimal(n: int): string {
    if n < 0 then "-" + Digits(-n) else Digits(n)
  }

  predicate IsDigit(c: char) { '0' <= c <= '9' }

  predicate IsSpace(c: char) { c == ' ' || '\t' <= c <= '\r' }

  function ReadDigits(s: string, acc: nat): nat
    decreases |s|
  {
    if s != "" && IsDigit(s[0]) then ReadDigits(s[1..], 10 * acc + (s[0] - '0') as nat) else acc
  }

  /** atol, for values that fit. */
  function Atol(s: string): int {
    if s != "" && IsSpace(s[0]) then Atol(s[1..])
    else if s != "" && s[0] == '-' then -(ReadDigits(s[1..], 0) as int)
    else if s != "" && s[0] == '+' then ReadDigits(s[1..], 0)
    else ReadDigits(s, 0)
  }

  lemma {:induction false} DigitsAreDigits(n: nat)
    ensures forall i :: 0 <= i < |Digits(n)| ==> IsDigit(Digits(n)[i])
  {
    if n >= 10 {
      DigitsAreDigits(n / 10);
    }
  }

  lemma {:induction false} ReadAppend(ds: string, rest: string, acc: nat)
    requires forall i :: 0 <= i < |ds| ==> IsDigit(ds[i])
    ensures ReadDigits(ds + rest, acc) == ReadDigits(rest, ReadDigits(ds, acc))
    decreases |ds|
  {
    if ds == "" {
      assert ds + rest == rest;
    } else {
      assert (ds + rest)[1..] == ds[1..] + rest;
      ReadAppend(ds[1..], rest, 10 * acc + (ds[0] - '0') as nat);
    }
  }

  lemma {:induction false} ReadOfDigits(n: nat)
    ensures ReadDigits(Digits(n), 0) == n
  {
    if n < 10 {
      assert Digits(n)[1..] == "";
    } else {
      ReadOfDigits(n / 10);
      DigitsAreDigits(n / 10);
      var d := [DigitChar(n % 10)];
      ReadAppend(Digits(n / 10), d, 0);
      assert d[1..] == "";
      assert ReadDigits(d, n / 10) == ReadDigits("", 10 * (n / 10) + n % 10);
    }
  }

  /** atol reads back what %ld wrote, up to the character after it. */
  lemma DateRoundTrip(n: int, rest: string)
    requires rest == "" || !IsDigit(rest[0])
    ensures Atol(Decimal(n) + rest) == n
  {
    var m: nat := if n < 0 then -n else n;
    DigitsAreDigits(m);
    ReadAppend(Digits(m), rest, 0);
    ReadOfDigits(m);
    if n < 0 {
      assert ("-" + Digits(m) + rest)[1..] == Digits(m) + rest;
    } else {
      assert (Digits(m) + rest)[0] == Digits(m)[0];
    }
  }

  /** The number without its last k decimal digits. */
  function Dropped(n: nat, k: nat): nat
    decreases k
  {
    if k == 0 then n else Dropped(n / 10, k - 1)
  }

  /** The digit k places from the end. */
  function DigitAt(s: string, k: nat): nat
    requires k < |s| && IsDigit(s[|s| - 1 - k])
  {
    (s[|s| - 1 - k] - '0') as nat
  }

  /** What is printed is the number in base 10, without leading zeros. */
  lemma {:induction false} DigitsAreDecimal(n: nat, k: nat)
    requires k < |Digits(n)|
    ensures IsDigit(Digits(n)[|Digits(n)| - 1 - k]) && DigitAt(Digits(n), k) == Dropped(n, k) % 10
    ensures n > 0 ==> Digits(n)[0] != '0'
  {
    DigitsAreDigits(n);
    if n >= 10 {
      if k > 0 {
        DigitsAreDecimal(n / 10, k - 1);
      } else {
        DigitsAreDecimal(n / 10, 0);
      }
    }
  }

  /** %ld of a negative number is a minus sign and %ld of its absolute value. */
  lemma DecimalOfNegative(n: int)
    requires n < 0
    ensures Decimal(n) == "-" + Decimal(-n)
  {
  }
}
