/** What one slot of a dbz table holds: a biased file offset, tagged with a
    few bits of the key's hash when the offset leaves room for them.
    Throughout, `bits` and `here` are the pre-shifted tagbits and taghere. */
module DbzSlots {
  import opened Options

  /** An of_t: a long, seen as its 64 bits. */
  type Word = bv64

  const VACANT: Word := 0
  const ALL_ONES: Word := 0xFFFF_FFFF_FFFF_FFFF

  function Bias(o: Word): Word { o + 1 }

  function Unbias(o: Word): Word { o - 1 }

  function ShiftLeft(w: Word, n: nat): Word {
    if n == 0 then w else ShiftLeft(w, n - 1) << 1
  }

  /** MKTAG: the tag is taken from the hash quotient. */
  function MakeTag(bits: Word, quotient: Word, shift: nat): (tag: Word)
    ensures tag & bits == tag
  {
    ShiftLeft(quotient, shift) & bits
  }

  /** The slot contents `set` writes for `value`: tagged when no tag bit is
      in use (CANTAG) and the biased result would not look vacant. */
  function Encode(bits: Word, here: Word, tag: Word, value: Word): Word {
    if value & (bits | here) == 0 && value | tag | here != ALL_ONES
    then Bias(value | tag | here)
    else Bias(value)
  }

  /** The value `search` returns for the unbiased contents of an occupied
      slot, or None when the tag says that it belongs to another key. */
  function Untagged(bits: Word, here: Word, tag: Word, v: Word): Option<Word> {
    if v & here == 0 then Some(v)
    else if v & bits == tag then Some(v & !(bits | here))
    else None
  }

  function Candidate(bits: Word, here: Word, tag: Word, slot: Word): Option<Word> {
    Untagged(bits, here, tag, Unbias(slot))
  }

  /** Configurations in which the marker can be told from the tag, and which
      do not tag without a marker. */
  predicate Disjoint(bits: Word, here: Word) {
    bits & here == 0 && (here == 0 ==> bits == 0)
  }

  /** TAGENB, TAGMASK and TAGSHIFT of a fresh database, and "no tags". */
  lemma ShippedTagsAreDisjoint()
    ensures Disjoint(0x7f << 24, 0x80 << 24) && Disjoint(0, 0)
  {
  }

  lemma MarkerIsSeen(here: Word, tag: Word, value: Word)
    ensures (value | tag | here) & here == here
  {
  }

  lemma TagIsSeen(bits: Word, here: Word, tag: Word, value: Word)
    requires bits & here == 0 && tag & bits == tag && value & (bits | here) == 0
    ensures (value | tag | here) & bits == tag
  {
    assert value & bits == 0;
  }

  lemma ValueIsSeen(bits: Word, here: Word, tag: Word, value: Word)
    requires tag & bits == tag && value & (bits | here) == 0
    ensures (value | tag | here) & !(bits | here) == value
  {
  }

  lemma UnbiasBias(o: Word)
    ensures Unbias(Bias(o)) == o
    ensures Bias(o) == VACANT <==> o == ALL_ONES
  {
  }

  lemma TaggedSlot(bits: Word, here: Word, tag: Word, wanted: Word, value: Word)
    requires bits & here == 0 && here != 0 && tag & bits == tag && value & (bits | here) == 0
    ensures Untagged(bits, here, wanted, value | tag | here) ==
            if tag == wanted then Some(value) else None
  {
    MarkerIsSeen(here, tag, value);
    TagIsSeen(bits, here, tag, value);
    ValueIsSeen(bits, here, tag, value);
  }

  lemma NoTagging(tag: Word, value: Word)
    requires tag & 0 == tag
    ensures value | tag | 0 == value
  {
  }

  lemma NotVacant(bits: Word, here: Word, tag: Word, value: Word)
    requires value != ALL_ONES
    ensures Encode(bits, here, tag, value) != VACANT
  {
    UnbiasBias(value | tag | here);
    UnbiasBias(value);
  }

  /** A stored value comes back unchanged to a search with the tag it was
      stored under; any other search gets the stored value or passes by. */
  lemma SlotRoundTrip(bits: Word, here: Word, tag: Word, value: Word, wanted: Word)
    requires bits & here == 0 && (here == 0 ==> bits == 0)
    requires tag & bits == tag && value & here == 0
    ensures var seen := Candidate(bits, here, wanted, Encode(bits, here, tag, value));
            seen == Some(value) || (seen == None && wanted != tag)
  {
    UnbiasBias(value | tag | here);
    UnbiasBias(value);
    if value & (bits | here) == 0 && value | tag | here != ALL_ONES {
      if here == 0 {
        NoTagging(tag, value);
      } else {
        TaggedSlot(bits, here, tag, wanted, value);
      }
    }
  }

  lemma LostUnderOverlap(bits: Word, here: Word)
    requires bits & here != 0 && here != ALL_ONES
    ensures Candidate(bits, here, 0, Encode(bits, here, 0, 0)) == None
  {
    UnbiasBias(here);
    assert 0 | 0 | here == here;
    assert 0 & (bits | here) == 0;
    assert here & here == here;
    assert here & bits == bits & here;
  }

  lemma CorruptWithoutMarker(bits: Word, tag: Word)
    requires tag != ALL_ONES
    ensures Candidate(bits, 0, tag, Encode(bits, 0, tag, 0)) == Some(tag)
  {
    UnbiasBias(tag);
    assert 0 | tag | 0 == tag;
  }

  lemma OnlyZeroFits(bits: Word, tag: Word, value: Word)
    requires value & ALL_ONES == 0
    ensures Candidate(bits, ALL_ONES, tag, Encode(bits, ALL_ONES, tag, value)) == Some(value)
  {
    assert value == 0;
    UnbiasBias(value);
    assert value | tag | ALL_ONES == ALL_ONES;
  }

  predicate Keeps(bits: Word, here: Word, tag: Word, value: Word) {
    tag & bits == tag && value & here == 0 ==>
      Candidate(bits, here, tag, Encode(bits, here, tag, value)) == Some(value)
  }

  /** Disjointness is exactly what tagging needs, apart from the degenerate
      marker that leaves 0 as the only storable offset. */
  lemma TaggingWorksIffDisjoint(bits: Word, here: Word)
    ensures (forall tag: Word, value: Word :: Keeps(bits, here, tag, value)) <==>
            Disjoint(bits, here) || here == ALL_ONES
  {
    if Disjoint(bits, here) || here == ALL_ONES {
      forall tag: Word, value: Word
        ensures Keeps(bits, here, tag, value)
      {
        DisjointKeeps(bits, here, tag, value);
      }
    } else {
      var tag := OverlapLoses(bits, here);
      assert !Keeps(bits, here, tag, 0);
    }
  }

  lemma DisjointKeeps(bits: Word, here: Word, tag: Word, value: Word)
    requires Disjoint(bits, here) || here == ALL_ONES
    ensures Keeps(bits, here, tag, value)
  {
    if tag & bits == tag && value & here == 0 {
      if here == ALL_ONES {
        OnlyZeroFits(bits, tag, value);
      } else {
        SlotRoundTrip(bits, here, tag, value, tag);
      }
    }
  }

  lemma OverlapLoses(bits: Word, here: Word) returns (tag: Word)
    requires !Disjoint(bits, here) && here != ALL_ONES
    ensures !Keeps(bits, here, tag, 0)
  {
    if bits & here != 0 {
      tag := 0;
      LostUnderOverlap(bits, here);
    } else {
      tag := if bits == ALL_ONES then 1 else bits;
      CorruptWithoutMarker(bits, tag);
    }
  }
}
