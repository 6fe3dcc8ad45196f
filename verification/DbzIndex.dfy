/** The abstract view of a dbz database: the list of everything ever stored,
    and how the slot tables represent it. */
module DbzIndex {
  import opened DbzProbe
  import opened DbzSlots
  import opened DbzHash

  /** The parts of struct dbzconfig that placing and reading slots need. */
  datatype Config = Config(tsize: nat, bits: Word, here: Word, shift: nat) {
    predicate Ok() { tsize > 0 && Disjoint(bits, here) }
  }

  datatype Entry = Entry(key: string, value: Word)

  /** `log` lists the stored pairs in order; entry i was stored at the at[i]-th
      place of its key's probe sequence; `owner` says which entry a place holds. */
  datatype Index = Index(log: seq<Entry>, at: seq<nat>, owner: map<nat, nat>)

  const EMPTY := Index([], [], map[])

  function Quotient(h: nat, tsize: nat): Word
    requires tsize > 0 && h < 0x8000_0000
  {
    (h / tsize) as Word
  }

  /** The tag a search for a key with hash code `h` looks for. */
  function TagOf(c: Config, h: nat): (tag: Word)
    requires c.Ok() && h < 0x8000_0000
    ensures tag & c.bits == tag
  {
    MakeTag(c.bits, Quotient(h, c.tsize), c.shift)
  }

  /** Reading beyond what was ever written gives vacant slots. */
  function SlotAt(view: seq<Word>, p: nat): Word {
    if p < |view| then view[p] else VACANT
  }

  function PlaceOf(c: Config, ix: Index, i: nat): nat
    requires c.Ok() && i < |ix.log| == |ix.at|
  {
    Probe(c.tsize, HashOf(ix.log[i].key), ix.at[i])
  }

  predicate Storable(c: Config, value: Word) {
    value & c.here == 0 && value != ALL_ONES
  }

  function SlotFor(c: Config, e: Entry): Word
    requires c.Ok()
  {
    Encode(c.bits, c.here, TagOf(c, HashOf(e.key)), e.value)
  }

  ghost predicate Holds(c: Config, view: seq<Word>, ix: Index, i: nat)
    requires c.Ok() && i < |ix.log| == |ix.at|
  {
    var p := PlaceOf(c, ix, i);
    && Storable(c, ix.log[i].value)
    && SlotAt(view, p) == SlotFor(c, ix.log[i])
    && p in ix.owner && ix.owner[p] == i
  }

  /** Everything on entry i's probe path before its place was stored earlier. */
  ghost predicate PathEarlier(c: Config, ix: Index, i: nat)
    requires c.Ok() && i < |ix.log| == |ix.at|
  {
    forall k: nat :: k < ix.at[i] ==> EarlierAt(c, ix, i, k)
  }

  ghost predicate EarlierAt(c: Config, ix: Index, i: nat, k: nat)
    requires c.Ok() && i < |ix.log| == |ix.at|
  {
    var p := Probe(c.tsize, HashOf(ix.log[i].key), k);
    p in ix.owner && ix.owner[p] < i
  }

  /** A place is occupied exactly when it is the place of its owner. */
  ghost predicate Claimed(c: Config, view: seq<Word>, ix: Index, p: nat)
    requires c.Ok() && |ix.log| == |ix.at|
  {
    && (SlotAt(view, p) != VACANT <==> p in ix.owner)
    && (p in ix.owner ==> ix.owner[p] < |ix.log| && PlaceOf(c, ix, ix.owner[p]) == p)
  }

  ghost predicate Represents(c: Config, view: seq<Word>, ix: Index)
    requires c.Ok()
  {
    && |ix.at| == |ix.log|
    && (forall i: nat :: i < |ix.log| ==> Holds(c, view, ix, i))
    && (forall i: nat :: i < |ix.log| ==> PathEarlier(c, ix, i))
    && (forall p: nat :: Claimed(c, view, ix, p))
  }

  lemma EmptyRepresents(c: Config, view: seq<Word>)
    requires c.Ok() && forall p: nat :: SlotAt(view, p) == VACANT
    ensures Represents(c, view, EMPTY)
  {
  }

  /** Probes 0..k of `h` all look at occupied slots. */
  ghost predicate Occupied(c: Config, view: seq<Word>, h: nat, k: nat)
    requires c.Ok()
  {
    forall j: nat :: j < k ==> OccupiedAt(c, view, h, j)
  }

  predicate OccupiedAt(c: Config, view: seq<Word>, h: nat, j: nat)
    requires c.Ok()
  {
    SlotAt(view, Probe(c.tsize, h, j)) != VACANT
  }

  /** Where a search that skips everything stops. */
  ghost predicate FirstVacancy(c: Config, view: seq<Word>, h: nat, k: nat)
    requires c.Ok()
  {
    Occupied(c, view, h, k) && !OccupiedAt(c, view, h, k)
  }

  function Append(c: Config, ix: Index, e: Entry, k: nat): Index
    requires c.Ok()
  {
    Index(ix.log + [e], ix.at + [k], ix.owner[Probe(c.tsize, HashOf(e.key), k) := |ix.log|])
  }

  /** Filling the first vacant slot of a key's probe sequence keeps the
      representation, with the new pair at the end of the list. */
  lemma StoreRepresents(c: Config, view: seq<Word>, view': seq<Word>, ix: Index, e: Entry, k: nat)
    requires c.Ok() && Represents(c, view, ix) && Storable(c, e.value)
    requires FirstVacancy(c, view, HashOf(e.key), k)
    requires forall p: nat :: SlotAt(view', p) ==
               if p == Probe(c.tsize, HashOf(e.key), k) then SlotFor(c, e) else SlotAt(view, p)
    ensures Represents(c, view', Append(c, ix, e, k))
  {
    var ix' := Append(c, ix, e, k);
    forall i: nat | i < |ix'.log|
      ensures Holds(c, view', ix', i)
      ensures PathEarlier(c, ix', i)
    {
      if i < |ix.log| {
        EntryKept(c, view, view', ix, e, k, i);
        PathKept(c, view, ix, e, k, i);
      } else {
        NewPath(c, view, ix, e, k);
      }
    }
    forall p: nat
      ensures Claimed(c, view', ix', p)
    {
      ClaimKept(c, view, view', ix, e, k, p);
    }
  }

  lemma EntryKept(c: Config, view: seq<Word>, view': seq<Word>, ix: Index, e: Entry, k: nat, i: nat)
    requires c.Ok() && Represents(c, view, ix) && i < |ix.log|
    requires !OccupiedAt(c, view, HashOf(e.key), k)
    requires forall p: nat :: p != Probe(c.tsize, HashOf(e.key), k) ==> SlotAt(view', p) == SlotAt(view, p)
    ensures Holds(c, view', Append(c, ix, e, k), i)
  {
    assert Holds(c, view, ix, i);
    assert Claimed(c, view, ix, PlaceOf(c, ix, i));
    assert PlaceOf(c, Append(c, ix, e, k), i) == PlaceOf(c, ix, i);
  }

  lemma NewPath(c: Config, view: seq<Word>, ix: Index, e: Entry, k: nat)
    requires c.Ok() && Represents(c, view, ix)
    requires FirstVacancy(c, view, HashOf(e.key), k)
    ensures PathEarlier(c, Append(c, ix, e, k), |ix.log|)
  {
    var ix' := Append(c, ix, e, k);
    var n := |ix.log|;
    forall j: nat | j < ix'.at[n]
      ensures EarlierAt(c, ix', n, j)
    {
      var p := Probe(c.tsize, HashOf(e.key), j);
      assert OccupiedAt(c, view, HashOf(e.key), j);
      assert Claimed(c, view, ix, p);
    }
  }

  lemma PathKept(c: Config, view: seq<Word>, ix: Index, e: Entry, k: nat, i: nat)
    requires c.Ok() && Represents(c, view, ix) && i < |ix.log|
    requires !OccupiedAt(c, view, HashOf(e.key), k)
    ensures PathEarlier(c, Append(c, ix, e, k), i)
  {
    var ix' := Append(c, ix, e, k);
    assert PathEarlier(c, ix, i);
    forall j: nat | j < ix'.at[i]
      ensures EarlierAt(c, ix', i, j)
    {
      assert EarlierAt(c, ix, i, j);
      assert Claimed(c, view, ix, Probe(c.tsize, HashOf(ix.log[i].key), j));
    }
  }

  lemma ClaimKept(c: Config, view: seq<Word>, view': seq<Word>, ix: Index, e: Entry, k: nat, p: nat)
    requires c.Ok() && Represents(c, view, ix) && Storable(c, e.value)
    requires forall p: nat :: SlotAt(view', p) ==
               if p == Probe(c.tsize, HashOf(e.key), k) then SlotFor(c, e) else SlotAt(view, p)
    ensures Claimed(c, view', Append(c, ix, e, k), p)
  {
    assert Claimed(c, view, ix, p);
    NotVacant(c.bits, c.here, TagOf(c, HashOf(e.key)), e.value);
  }
}
