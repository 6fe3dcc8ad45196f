/** File positions as the longs that are stored, byte by byte. */
module DbzOffsets {
  import opened ByteDigits
  import opened DbzSlots

  /** Offsets are non-negative longs. */
  const FILE_LIMIT: nat := 0x8000_0000_0000_0000
  const TOP_BYTE: Word := 0xFF00_0000_0000_0000

  /** The number in the low k bytes of `v`. */
  function Number(v: Word, k: nat): nat {
    if k == 0 then 0 else ((v & 0xff) as bv8) as nat + 256 * Number(v >> 8, k - 1)
  }

  function WithByte(w: Word, b: bv8): Word { (w << 8) | (b as bv64) }

  /** The word with the given bytes, least significant first. */
  function Bytes(ds: seq<bv8>): Word {
    if ds == [] then 0 else WithByte(Bytes(ds[1..]), ds[0])
  }

  /** The position that a stored offset stands for. */
  function Pos(value: Word): nat { Number(value, 8) }

  /** The offset that ftell reports for a position. */
  function ToOffset(n: nat): Word { Bytes(Digits(n, 8)) }

  /** The bits above byte k. */
  function Above(k: nat): Word { if k == 0 then ALL_ONES else Above(k - 1) << 8 }

  lemma AboveKeepsTop(k: nat)
    requires k <= 7
    ensures Above(k) & TOP_BYTE == TOP_BYTE
  {
    assert Above(1) == ALL_ONES << 8;
    assert Above(2) == ALL_ONES << 16;
    assert Above(3) == ALL_ONES << 24;
    assert Above(4) == ALL_ONES << 32;
    assert Above(5) == ALL_ONES << 40;
    assert Above(6) == ALL_ONES << 48;
    assert Above(7) == ALL_ONES << 56;
  }

  lemma ShiftIn(w: Word, b: bv8, above: Word)
    ensures w & above == 0 ==> WithByte(w, b) & (above << 8) == 0
  {
  }

  lemma ShiftOut(w: Word, b: bv8)
    requires w & TOP_BYTE == 0
    ensures WithByte(w, b) >> 8 == w
    ensures (WithByte(w, b) & 0xff) as bv8 == b
  {
  }

  lemma AboveNext(k: nat)
    ensures Above(k + 1) == Above(k) << 8
  {
  }

  lemma {:induction false} BytesFit(ds: seq<bv8>)
    ensures Bytes(ds) & Above(|ds|) == 0
  {
    if ds != [] {
      var rest := ds[1..];
      BytesFit(rest);
      AboveNext(|rest|);
      ShiftIn(Bytes(rest), ds[0], Above(|rest|));
    }
  }

  lemma TopIsFree(w: Word, above: Word)
    requires w & above == 0 && above & TOP_BYTE == TOP_BYTE
    ensures w & TOP_BYTE == 0
  {
  }

  lemma {:induction false} NumberOfBytes(ds: seq<bv8>)
    requires |ds| <= 8
    ensures Number(Bytes(ds), |ds|) == Value(ds)
  {
    if ds != [] {
      var rest := ds[1..];
      NumberOfBytes(rest);
      BytesFit(rest);
      AboveKeepsTop(|rest|);
      TopIsFree(Bytes(rest), Above(|rest|));
      UnfoldNumber(Bytes(rest), ds[0], |ds|);
    }
  }

  lemma UnfoldNumber(w: Word, b: bv8, k: nat)
    requires k > 0 && w & TOP_BYTE == 0
    ensures Number(WithByte(w, b), k) == b as nat + 256 * Number(w, k - 1)
  {
    ShiftOut(w, b);
  }

  /** ftell and fseek are inverse on every position a long can hold. */
  lemma OffsetRoundTrip(n: nat)
    requires n < FILE_LIMIT
    ensures Pos(ToOffset(n)) == n
  {
    assert Pow256(8) == 2 * FILE_LIMIT;
    NumberOfBytes(Digits(n, 8));
    ValueOfDigits(n, 8);
  }

  /** Distinct positions have distinct offsets, and -1 is none of them. */
  lemma OffsetNotAllOnes(n: nat)
    requires n < FILE_LIMIT
    ensures ToOffset(n) != ALL_ONES
  {
    OffsetRoundTrip(n);
    AllOnesNumber(8);
  }

  lemma {:induction false} AllOnesNumber(k: nat)
    requires k <= 8
    ensures Number(ALL_ONES, 8) == 2 * FILE_LIMIT - 1
  {
    var v := ALL_ONES;
    assert Number(v >> 56, 1) == 0xff;
    assert Number(v >> 48, 2) == 0xffff by { assert (v >> 48) >> 8 == v >> 56; }
    assert Number(v >> 40, 3) == 0xff_ffff by { assert (v >> 40) >> 8 == v >> 48; }
    assert Number(v >> 32, 4) == 0xffff_ffff by { assert (v >> 32) >> 8 == v >> 40; }
    assert Number(v >> 24, 5) == 0xff_ffff_ffff by { assert (v >> 24) >> 8 == v >> 32; }
    assert Number(v >> 16, 6) == 0xffff_ffff_ffff by { assert (v >> 16) >> 8 == v >> 24; }
    assert Number(v >> 8, 7) == 0xff_ffff_ffff_ffff by { assert (v >> 8) >> 8 == v >> 16; }
  }

  predicate FitsIn(v: Word, above: Word) { v & above == 0 }

  function Up(above: Word): Word { above << 8 }

  lemma AboveUp(k: nat)
    requires k > 0
    ensures Above(k) == Up(Above(k - 1))
  {
  }

  function Rest(v: Word): Word { v >> 8 }

  function LowDigit(v: Word): nat { ((v & 0xff) as bv8) as nat }

  lemma RestFits(v: Word, above: Word)
    ensures FitsIn(v, Up(above)) ==> FitsIn(Rest(v), above)
  {
  }

  lemma HalvesDecide(v: Word, w: Word)
    ensures v >> 8 == w >> 8 && v & 0xff == w & 0xff ==> v == w
  {
  }

  lemma LowByteDecides(v: Word, w: Word)
    ensures LowDigit(v) == LowDigit(w) ==> v & 0xff == w & 0xff
  {
    var a, b := (v & 0xff) as bv8, (w & 0xff) as bv8;
    assert a as nat == b as nat ==> a == b;
    assert v & 0xff == a as bv64 && w & 0xff == b as bv64;
  }

  lemma DigitDecides(v: Word, w: Word)
    ensures LowDigit(v) == LowDigit(w) && Rest(v) == Rest(w) ==> v == w
  {
    LowByteDecides(v, w);
    HalvesDecide(v, w);
  }

  lemma NumberParts(v: Word, k: nat)
    requires k > 0
    ensures Number(v, k) == LowDigit(v) + 256 * Number(Rest(v), k - 1) && LowDigit(v) < 256
  {
  }

  lemma {:induction false} NumbersDecide(v: Word, w: Word, k: nat)
    requires Number(v, k) == Number(w, k) && FitsIn(v, Above(k)) && FitsIn(w, Above(k))
    ensures v == w
    decreases k
  {
    hide *;
    if k == 0 {
      NothingFits(v);
      NothingFits(w);
    } else {
      AboveUp(k);
      RestFits(v, Above(k - 1));
      RestFits(w, Above(k - 1));
      NumberParts(v, k);
      NumberParts(w, k);
      NumbersDecide(Rest(v), Rest(w), k - 1);
      DigitDecides(v, w);
    }
  }

  lemma NothingFits(v: Word)
    requires FitsIn(v, Above(0))
    ensures v == 0
  {
  }

  lemma NothingAbove()
    ensures Above(8) == 0
  {
    assert Above(1) == ALL_ONES << 8;
    assert Above(2) == ALL_ONES << 16;
    assert Above(3) == ALL_ONES << 24;
    assert Above(4) == ALL_ONES << 32;
    assert Above(5) == ALL_ONES << 40;
    assert Above(6) == ALL_ONES << 48;
    assert Above(7) == ALL_ONES << 56;
  }

  /** Different stored offsets stand for different positions. */
  lemma PosIsInjective(v: Word, w: Word)
    ensures Pos(v) == Pos(w) ==> v == w
  {
    if Pos(v) == Pos(w) {
      NothingAbove();
      assert FitsIn(v, 0) && FitsIn(w, 0);
      NumbersDecide(v, w, 8);
    }
  }
}
