/** The key schedule of IDEA. */
module IdeaKeys {
  /** Bit b of a 16-bit word, the most significant one first. */
  function Mask(b: nat): bv16
    requires b < 16
  {
    if b < 8 then
      if b < 4 then if b < 2 then if b == 0 then 0x8000 else 0x4000 else if b == 2 then 0x2000 else 0x1000
      else if b < 6 then if b == 4 then 0x800 else 0x400 else if b == 6 then 0x200 else 0x100
    else
      if b < 12 then if b < 10 then if b == 8 then 0x80 else 0x40 else if b == 10 then 0x20 else 0x10
      else if b < 14 then if b == 12 then 8 else 4 else if b == 14 then 2 else 1
  }

  predicate HasBit(w: bv16, mask: bv16) { w & mask != 0 }

  predicate BitOf(w: bv16, b: nat)
    requires b < 16
  {
    HasBit(w, Mask(b))
  }

  /** Bit n of the key, read as eight words. */
  function KeyBit(key: seq<bv16>, n: nat): bool
    requires |key| == 8 && n < 128
  {
    BitOf(key[n / 16], n % 16)
  }

  /** GET_16BIT. */
  function KeyWord(bytes: seq<bv8>, j: nat): bv16
    requires |bytes| == 16 && j < 8
  {
    ((bytes[2 * j] as bv16) << 8) | (bytes[2 * j + 1] as bv16)
  }

  function KeyWords(bytes: seq<bv8>): (key: seq<bv16>)
    requires |bytes| == 16
    ensures |key| == 8
  {
    seq(8, j requires 0 <= j < 8 => KeyWord(bytes, j))
  }

  /** Bit b of a byte, the most significant one first. */
  function ByteMask(b: nat): bv8
    requires b < 8
  {
    if b < 4 then if b < 2 then if b == 0 then 0x80 else 0x40 else if b == 2 then 0x20 else 0x10
    else if b < 6 then if b == 4 then 8 else 4 else if b == 6 then 2 else 1
  }

  predicate HasByteBit(w: bv8, mask: bv8) { w & mask != 0 }

  /** Bit n of the 128 bits of a key, in the order of its bytes. */
  predicate ByteBit(bytes: seq<bv8>, n: nat)
    requires |bytes| == 16 && n < 128
  {
    HasByteBit(bytes[n / 8], ByteMask(n % 8))
  }

  function JoinBytes(hi: bv8, lo: bv8): bv16 { ((hi as bv16) << 8) | (lo as bv16) }

  lemma JoinedBits0(hi: bv8, lo: bv8)
    ensures HasBit(JoinBytes(hi, lo), 0x8000) == HasByteBit(hi, 0x80)
    ensures HasBit(JoinBytes(hi, lo), 0x4000) == HasByteBit(hi, 0x40)
  {
  }

  lemma JoinedBits2(hi: bv8, lo: bv8)
    ensures HasBit(JoinBytes(hi, lo), 0x2000) == HasByteBit(hi, 0x20)
    ensures HasBit(JoinBytes(hi, lo), 0x1000) == HasByteBit(hi, 0x10)
  {
  }

  lemma JoinedBits4(hi: bv8, lo: bv8)
    ensures HasBit(JoinBytes(hi, lo), 0x800) == HasByteBit(hi, 0x8)
    ensures HasBit(JoinBytes(hi, lo), 0x400) == HasByteBit(hi, 0x4)
  {
  }

  lemma JoinedBits6(hi: bv8, lo: bv8)
    ensures HasBit(JoinBytes(hi, lo), 0x200) == HasByteBit(hi, 0x2)
    ensures HasBit(JoinBytes(hi, lo), 0x100) == HasByteBit(hi, 0x1)
  {
  }

  lemma JoinedBits8(hi: bv8, lo: bv8)
    ensures HasBit(JoinBytes(hi, lo), 0x80) == HasByteBit(lo, 0x80)
    ensures HasBit(JoinBytes(hi, lo), 0x40) == HasByteBit(lo, 0x40)
  {
  }

  lemma JoinedBits10(hi: bv8, lo: bv8)
    ensures HasBit(JoinBytes(hi, lo), 0x20) == HasByteBit(lo, 0x20)
    ensures HasBit(JoinBytes(hi, lo), 0x10) == HasByteBit(lo, 0x10)
  {
  }

  lemma JoinedBits12(hi: bv8, lo: bv8)
    ensures HasBit(JoinBytes(hi, lo), 0x8) == HasByteBit(lo, 0x8)
    ensures HasBit(JoinBytes(hi, lo), 0x4) == HasByteBit(lo, 0x4)
  {
  }

  lemma JoinedBits14(hi: bv8, lo: bv8)
    ensures HasBit(JoinBytes(hi, lo), 0x2) == HasByteBit(lo, 0x2)
    ensures HasBit(JoinBytes(hi, lo), 0x1) == HasByteBit(lo, 0x1)
  {
  }

  lemma JoinedBits(hi: bv8, lo: bv8, b: nat)
    requires b < 16
    ensures BitOf(JoinBytes(hi, lo), b) == HasByteBit(if b < 8 then hi else lo, ByteMask(b % 8))
  {
    hide HasBit;
    hide HasByteBit;
    hide JoinBytes;
    JoinedBits0(hi, lo);
    JoinedBits2(hi, lo);
    JoinedBits4(hi, lo);
    JoinedBits6(hi, lo);
    JoinedBits8(hi, lo);
    JoinedBits10(hi, lo);
    JoinedBits12(hi, lo);
    JoinedBits14(hi, lo);
  }

  /** The words hold the bits of the bytes, in order. */
  lemma KeyBitIsByteBit(bytes: seq<bv8>, n: nat)
    requires |bytes| == 16 && n < 128
    ensures KeyBit(KeyWords(bytes), n) == ByteBit(bytes, n)
  {
    hide BitOf;
    hide HasByteBit;
    hide ByteMask;
    var j, b := n / 16, n % 16;
    WordIsJoined(bytes, j);
    hide KeyWord;
    JoinedBits(bytes[2 * j], bytes[2 * j + 1], b);
    assert n / 8 == (if b < 8 then 2 * j else 2 * j + 1) && n % 8 == b % 8;
  }

  lemma WordIsJoined(bytes: seq<bv8>, j: nat)
    requires |bytes| == 16 && j < 8
    ensures KeyWord(bytes, j) == JoinBytes(bytes[2 * j], bytes[2 * j + 1])
  {
  }

  /** Where bit b of schedule word i comes from: group g is the key rotated to
      the left by 25 * g bits. */
  function Rotated(i: nat, b: nat): (n: nat)
    ensures n < 128
  {
    (16 * (i % 8) + b + 25 * (i / 8)) % 128
  }

  predicate BitComes(w: bv16, key: seq<bv16>, i: nat, b: nat)
    requires |key| == 8 && b < 16
  {
    BitOf(w, b) == KeyBit(key, Rotated(i, b))
  }

  /** w is word i of the schedule. */
  ghost predicate IsScheduleWord(w: bv16, key: seq<bv16>, i: nat)
    requires |key| == 8
  {
    forall b: nat :: b < 16 ==> BitComes(w, key, i, b)
  }

  lemma FirstWords(key: seq<bv16>, i: nat)
    requires |key| == 8 && i < 8
    ensures IsScheduleWord(key[i], key, i)
  {
    forall b: nat | b < 16
      ensures BitComes(key[i], key, i, b)
    {
      assert Rotated(i, b) == 16 * i + b;
      assert (16 * i + b) / 16 == i && (16 * i + b) % 16 == b;
    }
  }

  /** The low seven bits of one word and the high nine of the next. */
  function Spliced(w1: bv16, w2: bv16): bv16 { (w1 << 9) | (w2 >> 7) }

  lemma Bits0(w1: bv16, w2: bv16)
    ensures HasBit(Spliced(w1, w2), 0x8000) == HasBit(w1, 0x40)
    ensures HasBit(Spliced(w1, w2), 0x4000) == HasBit(w1, 0x20)
  {
  }

  lemma Bits2(w1: bv16, w2: bv16)
    ensures HasBit(Spliced(w1, w2), 0x2000) == HasBit(w1, 0x10)
    ensures HasBit(Spliced(w1, w2), 0x1000) == HasBit(w1, 0x8)
  {
  }

  lemma Bits4(w1: bv16, w2: bv16)
    ensures HasBit(Spliced(w1, w2), 0x800) == HasBit(w1, 0x4)
    ensures HasBit(Spliced(w1, w2), 0x400) == HasBit(w1, 0x2)
  {
  }

  lemma Bits6(w1: bv16, w2: bv16)
    ensures HasBit(Spliced(w1, w2), 0x200) == HasBit(w1, 0x1)
    ensures HasBit(Spliced(w1, w2), 0x100) == HasBit(w2, 0x8000)
  {
  }

  lemma Bits8(w1: bv16, w2: bv16)
    ensures HasBit(Spliced(w1, w2), 0x80) == HasBit(w2, 0x4000)
    ensures HasBit(Spliced(w1, w2), 0x40) == HasBit(w2, 0x2000)
  {
  }

  lemma Bits10(w1: bv16, w2: bv16)
    ensures HasBit(Spliced(w1, w2), 0x20) == HasBit(w2, 0x1000)
    ensures HasBit(Spliced(w1, w2), 0x10) == HasBit(w2, 0x800)
  {
  }

  lemma Bits12(w1: bv16, w2: bv16)
    ensures HasBit(Spliced(w1, w2), 0x8) == HasBit(w2, 0x400)
    ensures HasBit(Spliced(w1, w2), 0x4) == HasBit(w2, 0x200)
  {
  }

  lemma Bits14(w1: bv16, w2: bv16)
    ensures HasBit(Spliced(w1, w2), 0x2) == HasBit(w2, 0x100)
    ensures HasBit(Spliced(w1, w2), 0x1) == HasBit(w2, 0x80)
  {
  }

  lemma SplicedBits(w1: bv16, w2: bv16, b: nat)
    requires b < 16
    ensures BitOf(Spliced(w1, w2), b) == if b < 7 then BitOf(w1, b + 9) else BitOf(w2, b - 7)
  {
    hide HasBit;
    hide Spliced;
    Bits0(w1, w2);
    Bits2(w1, w2);
    Bits4(w1, w2);
    Bits6(w1, w2);
    Bits8(w1, w2);
    Bits10(w1, w2);
    Bits12(w1, w2);
    Bits14(w1, w2);
  }

  /** The place in the group before, j words on. */
  function Before(i: nat, j: nat): nat
    requires i >= 8
  {
    8 * (i / 8 - 1) + (i + j) % 8
  }

  lemma RotatedBefore(i: nat, d: nat, b': nat, b: nat)
    requires i >= 8 && d <= 2 && b' + 16 * d == b + 25
    ensures Rotated(Before(i, d), b') == Rotated(i, b)
  {
    var g, j := i / 8, i % 8;
    var j' := if j + d < 8 then j + d else j + d - 8;
    InGroup(if j + d < 8 then g else g + 1, j');
    assert (i + d) % 8 == j';
    InGroup(g - 1, j');
    Cyclic(g, j, j', b', d, b);
  }

  lemma Cyclic(g: nat, j: nat, j': nat, b': nat, d: nat, b: nat)
    requires g > 0 && (j' == j + d || j' + 8 == j + d) && b' + 16 * d == b + 25
    ensures (16 * j' + b' + 25 * (g - 1)) % 128 == (16 * j + b + 25 * g) % 128
  {
    Wrap(16 * j' + b' + 25 * (g - 1), 16 * j + b + 25 * g);
  }

  lemma InGroup(g: nat, j: nat)
    requires j < 8
    ensures (8 * g + j) / 8 == g && (8 * g + j) % 8 == j
  {
  }

  lemma Wrap(m: nat, n: nat)
    requires m == n || m == n - 128
    ensures m % 128 == n % 128
  {
  }

  lemma NextWord(w1: bv16, w2: bv16, key: seq<bv16>, i: nat)
    requires |key| == 8 && i >= 8
    requires IsScheduleWord(w1, key, Before(i, 1)) && IsScheduleWord(w2, key, Before(i, 2))
    ensures IsScheduleWord(Spliced(w1, w2), key, i)
  {
    forall b: nat | b < 16
      ensures BitComes(Spliced(w1, w2), key, i, b)
    {
      hide BitOf;
      hide Spliced;
      hide KeyBit;
      hide Rotated;
      SplicedBits(w1, w2, b);
      if b < 7 {
        RotatedBefore(i, 1, b + 9, b);
        assert BitComes(w1, key, Before(i, 1), b + 9);
      } else {
        RotatedBefore(i, 2, b - 7, b);
        assert BitComes(w2, key, Before(i, 2), b - 7);
      }
    }
  }

  /** Bit n of group g is bit n + 25 * g of the key, cyclically. */
  ghost predicate RotatedAt(schedule: seq<bv16>, key: seq<bv16>, g: nat, n: nat)
    requires |schedule| == 52 && |key| == 8 && n < 128
  {
    8 * g + n / 16 < 52 ==> BitOf(schedule[8 * g + n / 16], n % 16) == KeyBit(key, (n + 25 * g) % 128)
  }

  /** Every group of 128 bits, also the last half one, is the key rotated to
      the left by 25 bits more than the group before. */
  ghost predicate GroupsAreRotated(schedule: seq<bv16>, key: seq<bv16>)
    requires |schedule| == 52 && |key| == 8
  {
    forall g: nat, n: nat :: n < 128 ==> RotatedAt(schedule, key, g, n)
  }

  /** The same, down to the bytes of the key: bit n of group g is bit
      n + 25 * g, cyclically, of the 128 bits of the key. */
  ghost predicate IsSchedule(schedule: seq<bv16>, bytes: seq<bv8>)
    requires |schedule| == 52 && |bytes| == 16
  {
    forall g: nat, n: nat :: n < 128 ==> ComesFromByte(schedule, bytes, g, n)
  }

  ghost predicate ComesFromByte(schedule: seq<bv16>, bytes: seq<bv8>, g: nat, n: nat)
    requires |schedule| == 52 && |bytes| == 16 && n < 128
  {
    8 * g + n / 16 < 52 ==> BitOf(schedule[8 * g + n / 16], n % 16) == ByteBit(bytes, (n + 25 * g) % 128)
  }

  lemma GroupsAreSchedule(schedule: seq<bv16>, bytes: seq<bv8>)
    requires |schedule| == 52 && |bytes| == 16 && GroupsAreRotated(schedule, KeyWords(bytes))
    ensures IsSchedule(schedule, bytes)
  {
    hide KeyBit;
    hide BitOf;
    hide ByteBit;
    forall g: nat, n: nat | n < 128
      ensures ComesFromByte(schedule, bytes, g, n)
    {
      assert RotatedAt(schedule, KeyWords(bytes), g, n);
      KeyBitIsByteBit(bytes, (n + 25 * g) % 128);
    }
  }

  lemma WordsAreGroups(words: array<bv16>, key: seq<bv16>)
    requires words.Length == 52 && |key| == 8
    requires forall i: nat :: i < 52 ==> IsScheduleWord(words[i], key, i)
    ensures GroupsAreRotated(words[..], key)
  {
    var schedule := words[..];
    hide KeyBit;
    hide BitOf;
    forall g: nat, n: nat | n < 128
      ensures RotatedAt(schedule, key, g, n)
    {
      InGroup(g, n / 16);
      assert 8 * g + n / 16 < 52 ==> BitComes(schedule[8 * g + n / 16], key, 8 * g + n / 16, n % 16);
    }
  }

  /** Where the loop reads from, and that this is filled. */
  lemma ReadsBefore(i: nat, keys: nat, j: nat)
    requires i >= 8 && keys == 8 * (i / 8) && j <= 2
    ensures Before(i, j) == keys + (i + j) % 8 - 8 < i && keys + i % 8 == i
  {
  }

  /** idea_set_key. */
  method SetKey(schedule: array<bv16>, bytes: seq<bv8>)
    requires schedule.Length == 52 && |bytes| == 16
    modifies schedule
    ensures IsSchedule(schedule[..], bytes)
  {
    hide *;
    ghost var key := KeyWords(bytes);
    FirstKeys(schedule, bytes, key);
    OtherKeys(schedule, key);
    WordsAreGroups(schedule, key);
    GroupsAreSchedule(schedule[..], bytes);
  }

  /** The keys for the first round. */
  method FirstKeys(schedule: array<bv16>, bytes: seq<bv8>, ghost key: seq<bv16>)
    requires schedule.Length == 52 && |bytes| == 16 && key == KeyWords(bytes)
    modifies schedule
    ensures forall k: nat :: k < 8 ==> IsScheduleWord(schedule[k], key, k)
  {
    hide IsScheduleWord;
    hide KeyWord;
    for i := 0 to 8
      invariant forall k: nat :: k < i ==> IsScheduleWord(schedule[k], key, k)
    {
      schedule[i] := KeyWord(bytes, i);
      assert key[i] == KeyWord(bytes, i);
      FirstWords(key, i);
    }
  }

  /** Each round uses the key of the one before, rotated. */
  method OtherKeys(schedule: array<bv16>, ghost key: seq<bv16>)
    requires schedule.Length == 52 && |key| == 8
    requires forall k: nat :: k < 8 ==> IsScheduleWord(schedule[k], key, k)
    modifies schedule
    ensures forall k: nat :: k < 52 ==> IsScheduleWord(schedule[k], key, k)
  {
    hide IsScheduleWord;
    hide Spliced;
    hide Before;
    var keys := 0;
    for i := 8 to 52
      invariant keys == 8 * ((i - 1) / 8)
      invariant forall k: nat :: k < i ==> IsScheduleWord(schedule[k], key, k)
    {
      if i % 8 == 0 {
        keys := keys + 8;
      }
      ReadsBefore(i, keys, 1);
      ReadsBefore(i, keys, 2);
      var w1, w2 := schedule[keys + (i + 1) % 8 - 8], schedule[keys + (i + 2) % 8 - 8];
      NextWord(w1, w2, key, i);
      schedule[keys + i % 8] := Spliced(w1, w2);
    }
  }
}
