/** The 31-bit CRC that dbz hashes keys with. */
module DbzHash {
  const POLY: bv32 := 0x4800_0000

  /** CrcTable[i]: the feedback terms of bits j, j+1, ..., 6 of `i`. */
  function Feedback(i: bv32, j: nat): (sum: bv32)
    requires j <= 7
    ensures sum < 0x8000_0000
    decreases 7 - j
  {
    if j == 7 then 0
    else if i & (1 << j) != 0 then Feedback(i, j + 1) ^ (POLY >> j)
    else Feedback(i, j + 1)
  }

  /** The low seven bits of a character: all that the hash looks at. */
  function Low(c: char): bv32 { (c as int % 128) as bv32 }

  function Step(sum: bv32, c: bv32): (next: bv32)
    ensures sum < 0x8000_0000 ==> next < 0x8000_0000
  {
    (sum >> 7) ^ Feedback((sum ^ c) & 0x7f, 0)
  }

  function HashFrom(sum: bv32, name: string): (h: bv32)
    requires sum < 0x8000_0000
    ensures h < 0x8000_0000
    decreases |name|
  {
    if name == "" then sum else HashFrom(Step(sum, Low(name[0])), name[1..])
  }

  /** A hash code below 2^31 as a number. */
  function ToLong(h: bv32): (n: nat)
    requires h < 0x8000_0000
    ensures n < 0x8000_0000
  {
    (h as bv31) as nat
  }

  /** The hash of a whole key: never negative as a long, so that it can be
      reduced to a place in the table. */
  function HashOf(name: string): (h: nat)
    ensures h < 0x8000_0000
  {
    ToLong(HashFrom(0, name))
  }

  lemma HashUnroll(sum: bv32, name: string, k: nat)
    requires k < |name| && sum < 0x8000_0000
    ensures HashFrom(sum, name[k..]) == HashFrom(Step(sum, Low(name[k])), name[k + 1..])
  {
    assert name[k..][1..] == name[k + 1..];
  }

  /** hash, as the loop it is. */
  method Hash(name: string) returns (h: nat)
    ensures h == HashOf(name)
  {
    var sum: bv32 := 0;
    var k := 0;
    assert name[0..] == name;
    while k < |name|
      invariant 0 <= k <= |name|
      invariant sum < 0x8000_0000
      invariant HashFrom(0, name) == HashFrom(sum, name[k..])
    {
      HashUnroll(sum, name, k);
      sum := Step(sum, Low(name[k]));
      k := k + 1;
    }
    h := ToLong(sum);
  }

  /** Only the low seven bits of each character count. */
  lemma {:induction false} SevenBitsCount(sum: bv32, s: string, t: string)
    requires sum < 0x8000_0000 && |s| == |t| && forall i :: 0 <= i < |s| ==> s[i] as int % 128 == t[i] as int % 128
    ensures HashFrom(sum, s) == HashFrom(sum, t)
    decreases |s|
  {
    hide Step;
    if s != "" {
      assert Low(s[0]) == Low(t[0]);
      assert forall i :: 0 <= i < |s| - 1 ==> s[1..][i] == s[i + 1] && t[1..][i] == t[i + 1];
      SevenBitsCount(Step(sum, Low(s[0])), s[1..], t[1..]);
    }
  }
}
