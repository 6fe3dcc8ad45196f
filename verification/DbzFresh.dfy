/** What dbzfresh makes of its arguments, and which tag masks it should have
    refused. */
module DbzFresh {
  import opened Options
  import opened DbzSlots
  import opened DbzIndex
  import opened DbzProbe
  import Primes

  const DEFSIZE: nat := 120011
  const DEFCASE: char := 'C'
  const DEFBITS: Word := 0x7f << 24
  const DEFHERE: Word := 0x80 << 24
  const TAGSHIFT: nat := 24

  /** The part of the configuration that the arguments decide. */
  datatype Fresh = Fresh(conf: Config, casemap: char)

  /** The case-map algorithm for an argument, if it is known. */
  function CaseFor(cmap: char): Option<char> {
    match cmap
    case '\0' => Some('0')
    case '0' => Some('0')
    case 'B' => Some('0')
    case '=' => Some('=')
    case 'b' => Some('=')
    case 'C' => Some('C')
    case '?' => Some(DEFCASE)
    case _ => None
  }

  /** What is stored for a case map is a case map, and stands for itself; the
      letters of older versions stand for one of these. */
  lemma CaseIsKept(cmap: char)
    ensures CaseFor(cmap).Some? ==> CaseFor(CaseFor(cmap).value) == CaseFor(cmap)
    ensures CaseFor(cmap) == Some(cmap) <==> cmap in "0=C"
    ensures CaseFor(cmap).Some? <==> cmap in "0=CBb?" || cmap == '\0'
    ensures CaseFor('B') == CaseFor('\0') == CaseFor('0') && CaseFor('b') == CaseFor('=') && CaseFor('?') == CaseFor('C')
  {
  }

  predicate Preposterous(size: int) { size != 0 && size < 2 }

  /** The bits that the switch on (int) tagmask looks at. */
  function LowHalf(w: Word): Word { w & 0xffff_ffff }

  /** A long shifted right by one place. */
  function Halved(w: Word): Word { (w >> 1) | (w & 0x8000_0000_0000_0000) }

  predicate Odd(w: Word) { w & 1 == 1 }

  function Doubled(w: Word): Word { w << 1 }

  /** The marker goes next to the top of every run of tag bits. */
  function MarkerFor(mask: Word): Word { Doubled(mask) & !mask }

  lemma HalvedEven(w: Word)
    ensures !Odd(w) ==> Doubled(Halved(w)) == w
  {
  }

  lemma ShiftNext(w: Word, n: nat)
    ensures ShiftLeft(w, n + 1) == Doubled(ShiftLeft(w, n)) && ShiftLeft(w, 0) == w
  {
  }

  lemma {:induction false} DoubleFirst(w: Word, n: nat)
    ensures ShiftLeft(Doubled(w), n) == Doubled(ShiftLeft(w, n))
  {
    hide Doubled;
    hide ShiftLeft;
    if n > 0 {
      ShiftNext(w, n - 1);
      ShiftNext(Doubled(w), n - 1);
      DoubleFirst(w, n - 1);
    } else {
      ShiftNext(w, 0);
      ShiftNext(Doubled(w), 0);
    }
  }

  /** One of the last k bits is set. */
  predicate LowSet(w: Word, k: nat)
    decreases k
  {
    k > 0 && (Odd(w) || LowSet(Halved(w), k - 1))
  }

  function LowMask(k: nat): Word { if k == 0 then 0 else NextMask(LowMask(k - 1)) }

  function NextMask(w: Word): Word { (w << 1) | 1 }

  predicate Meets(w: Word, mask: Word) { w & mask != 0 }

  lemma MeetsNext(w: Word, mask: Word)
    ensures !Odd(w) && Meets(w, NextMask(mask)) ==> Meets(Halved(w), mask)
  {
  }

  lemma {:induction false} MeetsLow(w: Word, k: nat)
    ensures Meets(w, LowMask(k)) ==> LowSet(w, k)
    decreases k
  {
    hide Odd;
    hide Halved;
    if k > 0 {
      MeetsNext(w, LowMask(k - 1));
      MeetsLow(Halved(w), k - 1);
    } else {
      assert w & 0 == 0;
    }
  }

  function FourOnes(w: Word): Word { (w << 4) | 0xf }

  function EightOnes(w: Word): Word { (w << 8) | 0xff }

  lemma FourBits(w: Word)
    ensures NextMask(NextMask(NextMask(NextMask(w)))) == FourOnes(w)
  {
  }

  lemma EightBits(w: Word)
    ensures FourOnes(FourOnes(w)) == EightOnes(w)
  {
  }

  lemma FourMore(k: nat)
    ensures LowMask(k + 4) == FourOnes(LowMask(k))
  {
    hide NextMask;
    hide FourOnes;
    assert LowMask(k + 2) == NextMask(LowMask(k + 1));
    assert LowMask(k + 3) == NextMask(LowMask(k + 2));
    FourBits(LowMask(k));
  }

  lemma EightMore(k: nat)
    ensures LowMask(k + 8) == EightOnes(LowMask(k))
  {
    hide LowMask;
    hide FourOnes;
    hide EightOnes;
    FourMore(k);
    FourMore(k + 4);
    EightBits(LowMask(k));
  }

  lemma AllEights()
    ensures LowMask(0) == 0 && EightOnes(EightOnes(EightOnes(EightOnes(0)))) == 0xffff_ffff
  {
  }

  lemma MaskOf32()
    ensures LowMask(32) == 0xffff_ffff
  {
    hide LowMask;
    hide EightOnes;
    AllEights();
    EightMore(0);
    EightMore(8);
    EightMore(16);
    EightMore(24);
  }

  lemma LowHalfSet(w: Word)
    requires LowHalf(w) != 0
    ensures LowSet(w, 32)
  {
    MaskOf32();
    MeetsLow(w, 32);
  }

  /** The loop that moves the mask down to its lowest set bit. */
  method Normalize(tagmask: Word) returns (m: Word, shift: nat)
    requires LowHalf(tagmask) != 0
    ensures Odd(m) && shift < 32 && ShiftLeft(m, shift) == tagmask
  {
    hide Odd;
    hide Halved;
    hide Doubled;
    hide LowHalf;
    m, shift := tagmask, 0;
    LowHalfSet(tagmask);
    while !Odd(m)
      invariant shift < 32 && ShiftLeft(m, shift) == tagmask && LowSet(m, 32 - shift)
      decreases 32 - shift
    {
      HalvedEven(m);
      DoubleFirst(Halved(m), shift);
      ShiftNext(Halved(m), shift);
      m := Halved(m);
      shift := shift + 1;
    }
  }

  lemma MarkerNext(mask: Word, here: Word)
    requires here == MarkerFor(mask)
    ensures Doubled(here) == MarkerFor(Doubled(mask))
  {
  }

  /** Shifting the marker into place is taking the marker of the mask. */
  lemma {:induction false} MarkerShifts(m: Word, n: nat)
    ensures ShiftLeft(MarkerFor(m), n) == MarkerFor(ShiftLeft(m, n))
  {
    hide MarkerFor;
    hide Doubled;
    if n > 0 {
      MarkerShifts(m, n - 1);
      ShiftNext(MarkerFor(m), n - 1);
      ShiftNext(m, n - 1);
      MarkerNext(ShiftLeft(m, n - 1), ShiftLeft(MarkerFor(m), n - 1));
    }
  }

  /** dbzfresh, as far as the configuration goes, and the masks that dbminit
      shifts into place. */
  method Configure(size: int, cmap: char, tagmask: Word) returns (r: Option<Fresh>)
    ensures r.None? <==> Preposterous(size) || CaseFor(cmap).None?
    ensures r.Some? ==>
              && r.value.conf.tsize == (if size == 0 then DEFSIZE else size)
              && Some(r.value.casemap) == CaseFor(cmap)
              && r.value.conf.bits == TagBits(tagmask) && r.value.conf.here == TagHere(tagmask)
    ensures r.Some? ==> (r.value.conf.Ok() <==> LowHalf(tagmask) <= 1 || !ReachesTop(tagmask))
    ensures r.Some? && LowHalf(tagmask) <= 1 ==> r.value.conf.shift == if LowHalf(tagmask) == 0 then TAGSHIFT else 0
    ensures r.Some? && LowHalf(tagmask) > 1 ==>
              exists m: Word :: Odd(m) && ShiftLeft(m, r.value.conf.shift) == tagmask
  {
    hide Odd;
    hide MarkerFor;
    hide ShiftLeft;
    hide ReachesTop;
    FreshTagsWorkIff(tagmask);
    if size != 0 && size < 2 {
      return None;
    }
    var tsize := if size != 0 then size else DEFSIZE;
    var casemap := CaseFor(cmap);
    if casemap.None? {
      return None;
    }
    if LowHalf(tagmask) == 0 {
      return Some(Fresh(Config(tsize, DEFBITS, DEFHERE, TAGSHIFT), casemap.value));
    }
    if LowHalf(tagmask) == 1 {
      return Some(Fresh(Config(tsize, 0, 0, 0), casemap.value));
    }
    var m, shift := Normalize(tagmask);
    MarkerShifts(m, shift);
    r := Some(Fresh(Config(tsize, ShiftLeft(m, shift), ShiftLeft(MarkerFor(m), shift), shift), casemap.value));
  }

  /** The masks that arguments lead to. */
  function TagBits(tagmask: Word): Word {
    if LowHalf(tagmask) == 0 then DEFBITS else if LowHalf(tagmask) == 1 then 0 else tagmask
  }

  function TagHere(tagmask: Word): Word {
    if LowHalf(tagmask) == 0 then DEFHERE else if LowHalf(tagmask) == 1 then 0 else MarkerFor(tagmask)
  }

  /** All bits from the lowest set one up to the top are set. */
  predicate ReachesTop(w: Word) { w | (w - 1) == ALL_ONES }

  lemma NoRoomForMarker(w: Word)
    ensures w != 0 ==> (MarkerFor(w) == 0 <==> ReachesTop(w))
  {
  }

  lemma MarkerIsApart(w: Word)
    ensures w & MarkerFor(w) == 0
  {
  }

  /** A fresh database keeps tagged values apart unless the mask asked for has
      no clear bit above its lowest set one: then there is no marker. */
  lemma FreshTagsWorkIff(tagmask: Word)
    ensures Disjoint(TagBits(tagmask), TagHere(tagmask)) <==> LowHalf(tagmask) <= 1 || !ReachesTop(tagmask)
  {
    hide MarkerFor;
    hide ReachesTop;
    ShippedTagsAreDisjoint();
    NoRoomForMarker(tagmask);
    MarkerIsApart(tagmask);
  }

  /** Such a mask, and an offset that comes back changed. */
  lemma TopMaskCorrupts()
    ensures var mask: Word := 0xffff_ffff_ff00_0000;
            && TagHere(mask) == 0 && !Disjoint(TagBits(mask), TagHere(mask))
            && Candidate(TagBits(mask), TagHere(mask), 0x0100_0000, Encode(TagBits(mask), TagHere(mask), 0x0100_0000, 0))
               == Some(0x0100_0000)
  {
  }

  // ---------- what the tags are for ----------

  lemma {:induction false} ShiftTwice(w: Word, m: nat, n: nat)
    ensures ShiftLeft(ShiftLeft(w, m), n) == ShiftLeft(w, m + n)
  {
    hide Doubled;
    hide ShiftLeft;
    if n > 0 {
      ShiftTwice(w, m, n - 1);
      ShiftNext(ShiftLeft(w, m), n - 1);
      ShiftNext(w, m + n - 1);
    } else {
      ShiftNext(ShiftLeft(w, m), 0);
    }
  }

  function Doubled4(w: Word): Word { Doubled(Doubled(Doubled(Doubled(w)))) }

  lemma ShiftFour(w: Word)
    ensures ShiftLeft(w, 4) == Doubled4(w)
  {
    hide Doubled;
    hide ShiftLeft;
    ShiftNext(w, 0);
    ShiftNext(w, 1);
    ShiftNext(w, 2);
    ShiftNext(w, 3);
  }

  lemma FourPlaces(w: Word)
    ensures Doubled4(w) == w << 4
  {
  }

  lemma ShiftBy24(w: Word)
    ensures ShiftLeft(w, 24) == w << 24
  {
    hide ShiftLeft;
    hide Doubled4;
    var w1 := ShiftLeft(w, 4);
    var w2 := ShiftLeft(w1, 4);
    var w3 := ShiftLeft(w2, 4);
    var w4 := ShiftLeft(w3, 4);
    var w5 := ShiftLeft(w4, 4);
    ShiftTwice(w, 4, 4);
    ShiftTwice(w, 8, 4);
    ShiftTwice(w, 12, 4);
    ShiftTwice(w, 16, 4);
    ShiftTwice(w, 20, 4);
    FourAt(w);
    FourAt(w1);
    FourAt(w2);
    FourAt(w3);
    FourAt(w4);
    FourAt(w5);
    SixTimes(w);
  }

  lemma FourAt(w: Word)
    ensures ShiftLeft(w, 4) == w << 4
  {
    ShiftFour(w);
    FourPlaces(w);
  }

  lemma SixTimes(w: Word)
    ensures (((((w << 4) << 4) << 4) << 4) << 4) << 4 == w << 24
  {
  }

  lemma LowSeven(q: Word, r: Word)
    ensures (q << 24) & DEFBITS == (r << 24) & DEFBITS <==> q & 0x7f == r & 0x7f
  {
  }

  /** With the default masks, a search passes by what was stored under a hash
      code whose quotient differs in the low seven bits, and nothing else. */
  lemma TagsTellApart(q: Word, r: Word, value: Word)
    requires value & (DEFBITS | DEFHERE) == 0
    ensures Untagged(DEFBITS, DEFHERE, MakeTag(DEFBITS, q, TAGSHIFT), value | MakeTag(DEFBITS, r, TAGSHIFT) | DEFHERE)
            == if q & 0x7f == r & 0x7f then Some(value) else None
  {
    hide Untagged;
    hide ShiftLeft;
    ShiftBy24(q);
    ShiftBy24(r);
    LowSeven(q, r);
    ShippedTagsAreDisjoint();
    MarkerIsSet();
    TaggedSlot(DEFBITS, DEFHERE, MakeTag(DEFBITS, r, TAGSHIFT), MakeTag(DEFBITS, q, TAGSHIFT), value);
  }

  lemma MarkerIsSet()
    ensures DEFHERE != 0 && DEFBITS & DEFHERE == 0
  {
  }

  /** The tag of a hash code is that of its quotient by the table size. */
  lemma TagOfQuotient(c: Config, h: nat, q: nat)
    requires c.Ok() && h < 0x8000_0000 && c.tsize * q <= h < c.tsize * q + c.tsize
    ensures q < 0x8000_0000 && TagOf(c, h) == MakeTag(c.bits, q as Word, c.shift)
  {
    hide MakeTag;
    hide Disjoint;
    hide Quotient;
    QuotientIs(h, c.tsize, q);
  }

  lemma QuotientIs(h: nat, tsize: nat, q: nat)
    requires 0 < tsize && h < 0x8000_0000 && tsize * q <= h < tsize * q + tsize
    ensures q < 0x8000_0000 && Quotient(h, tsize) == q as Word
  {
    Divided(h, tsize, q);
  }

  lemma Divided(h: nat, tsize: nat, q: nat)
    requires 0 < tsize && tsize * q <= h < tsize * q + tsize
    ensures h / tsize == q <= h
  {
    ModUnique(h, tsize, q, h - tsize * q);
    Primes.MulMono(q, 1, tsize);
  }
}
