/** Why a walk along a key's probe sequence agrees with the list of stored
    pairs. */
module DbzLookup {
  import opened Options
  import opened DbzProbe
  import opened DbzSlots
  import opened DbzOffsets
  import opened DbzHash
  import opened DbzIndex
  import opened DbzKeys

  /** The offset stored first under `key`. */
  function Lookup(log: seq<Entry>, key: string): Option<Word> {
    if log == [] then None
    else if log[0].key == key then Some(log[0].value)
    else Lookup(log[1..], key)
  }

  lemma {:induction false} LookupNone(log: seq<Entry>, key: string)
    ensures Lookup(log, key).None? <==> forall i: nat :: i < |log| ==> log[i].key != key
  {
    if log != [] && log[0].key != key {
      LookupNone(log[1..], key);
      assert forall i: nat :: 0 < i < |log| ==> log[i] == log[1..][i - 1];
      assert forall i: nat :: i < |log[1..]| ==> log[1..][i] == log[i + 1];
    }
  }

  lemma {:induction false} LookupFirst(log: seq<Entry>, key: string, j: nat)
    requires j < |log| && log[j].key == key
    requires forall i: nat :: i < j ==> log[i].key != key
    ensures Lookup(log, key) == Some(log[j].value)
  {
    if j > 0 {
      assert log[0].key != key;
      assert forall i: nat :: i < |log[1..]| ==> log[1..][i] == log[i + 1];
      LookupFirst(log[1..], key, j - 1);
    }
  }

  lemma {:induction false} FirstPair(log: seq<Entry>, key: string) returns (i: nat)
    requires Lookup(log, key).Some?
    ensures i < |log| && log[i].key == key && Lookup(log, key) == Some(log[i].value)
    ensures forall j: nat :: j < i ==> log[j].key != key
  {
    if log[0].key == key {
      i := 0;
    } else {
      i := FirstPair(log[1..], key);
      i := i + 1;
    }
  }

  lemma {:induction false} LookupAppend(log: seq<Entry>, e: Entry, key: string)
    ensures Lookup(log + [e], key) ==
            if Lookup(log, key).None? && e.key == key then Some(e.value) else Lookup(log, key)
  {
    if log != [] {
      assert (log + [e])[1..] == log[1..] + [e];
      LookupAppend(log[1..], e, key);
    }
  }

  /** The base file holds, at each stored offset, the key it was stored under. */
  ghost predicate Consistent(st: Style, base: string, log: seq<Entry>) {
    forall i: nat :: i < |log| ==>
      0 < |log[i].key| && Matches(st, base, log[i].key, Pos(log[i].value))
  }

  /** The base file is only ever appended to. */
  ghost predicate Ascending(log: seq<Entry>) {
    forall i: nat, j: nat :: i < j < |log| ==> Pos(log[i].value) <= Pos(log[j].value)
  }

  /** The key has a pair before pair i. */
  ghost predicate StoredBefore(log: seq<Entry>, key: string, i: nat)
    requires i <= |log|
  {
    exists j: nat :: j < i && log[j].key == key
  }

  /** Pair i was stored under another key, before this one, and reads like this
      one. */
  ghost predicate Misleads(st: Style, base: string, log: seq<Entry>, key: string, i: nat)
    requires 0 < |key| && i < |log|
  {
    log[i].key != key && Matches(st, base, key, Pos(log[i].value)) && !StoredBefore(log, key, i)
  }

  /** No pair stored before the key's first one reads like it, unless it has
      the same offset. What was stored later does not matter. */
  ghost predicate Unshadowed(st: Style, base: string, log: seq<Entry>, key: string)
    requires 0 < |key|
  {
    forall i: nat :: i < |log| && Misleads(st, base, log, key, i) ==> Lookup(log, key) == Some(log[i].value)
  }

  /** The offset is the key's first one, or that of a pair that misleads. */
  ghost predicate RightOrMisled(st: Style, base: string, log: seq<Entry>, key: string, o: Word)
    requires 0 < |key|
  {
    exists i: nat :: i < |log| && log[i].value == o &&
      (Misleads(st, base, log, key, i) || Lookup(log, key) == Some(o))
  }

  /** What a search for hash code `h` gets at its k-th probe. */
  function SeenAt(c: Config, view: seq<Word>, h: nat, k: nat): Option<Word>
    requires c.Ok() && h < 0x8000_0000
  {
    Candidate(c.bits, c.here, TagOf(c, h), SlotAt(view, Probe(c.tsize, h, k)))
  }

  /** fetch goes on past the k-th probe. */
  ghost predicate PassedBy(c: Config, st: Style, base: string, view: seq<Word>, key: string, k: nat)
    requires c.Ok() && 0 < |key|
  {
    && OccupiedAt(c, view, HashOf(key), k)
    && match SeenAt(c, view, HashOf(key), k)
       case None => true
       case Some(o) => !ShortRead(base, key, Pos(o)) && !Matches(st, base, key, Pos(o))
  }

  /** A candidate too near the end of the base file to be read. */
  predicate DeadEnd(base: string, key: string, seen: Option<Word>) {
    seen.Some? && ShortRead(base, key, Pos(seen.value))
  }

  /** The walk of fetch ends at the k-th probe, with this answer: it goes past
      everything before, and stops at a candidate whose text matches, at a
      vacant slot, or at a candidate that cannot be read. */
  ghost predicate WalkEnds(c: Config, st: Style, base: string, view: seq<Word>, key: string, k: nat, r: Option<Word>)
    requires c.Ok() && 0 < |key|
  {
    && (forall j: nat :: j < k ==> PassedBy(c, st, base, view, key, j))
    && match r
       case Some(o) => OccupiedAt(c, view, HashOf(key), k) && SeenAt(c, view, HashOf(key), k) == r &&
                       Matches(st, base, key, Pos(o))
       case None => !OccupiedAt(c, view, HashOf(key), k) ||
                    DeadEnd(base, key, SeenAt(c, view, HashOf(key), k))
  }

  /** An occupied probe yields the offset of the entry there, or nothing;
      the key's own entry always yields its offset. */
  lemma OccupiedSeen(c: Config, view: seq<Word>, ix: Index, h: nat, k: nat)
    requires c.Ok() && h < 0x8000_0000 && Represents(c, view, ix)
    requires OccupiedAt(c, view, h, k)
    ensures Probe(c.tsize, h, k) in ix.owner
    ensures var j := ix.owner[Probe(c.tsize, h, k)];
            && j < |ix.log|
            && (SeenAt(c, view, h, k) == Some(ix.log[j].value) ||
                (SeenAt(c, view, h, k) == None && HashOf(ix.log[j].key) != h))
  {
    hide Candidate;
    hide SlotFor;
    hide Probe;
    assert Claimed(c, view, ix, Probe(c.tsize, h, k));
    var j := ix.owner[Probe(c.tsize, h, k)];
    assert Holds(c, view, ix, j);
    EntrySeen(c, h, ix.log[j]);
  }

  /** What a search gets from the slot of an entry. */
  lemma EntrySeen(c: Config, h: nat, e: Entry)
    requires c.Ok() && h < 0x8000_0000 && Storable(c, e.value)
    ensures var seen := Candidate(c.bits, c.here, TagOf(c, h), SlotFor(c, e));
            seen == Some(e.value) || (seen == None && HashOf(e.key) != h)
  {
    hide Candidate;
    hide Encode;
    hide TagOf;
    hide HashOf;
    hide Storable;
    hide Disjoint;
    TaggedSeen(c, TagOf(c, HashOf(e.key)), TagOf(c, h), e.value);
  }

  lemma TaggedSeen(c: Config, tag: Word, wanted: Word, value: Word)
    requires c.Ok() && Storable(c, value) && tag & c.bits == tag
    ensures var seen := Candidate(c.bits, c.here, wanted, Encode(c.bits, c.here, tag, value));
            seen == Some(value) || (seen == None && wanted != tag)
  {
    hide Candidate;
    hide Encode;
    SlotRoundTrip(c.bits, c.here, tag, value, wanted);
  }

  /** What was stored earlier can be read as far as what was stored later. */
  lemma EarlierIsReadable(st: Style, base: string, log: seq<Entry>, j: nat, i: nat)
    requires j <= i < |log| && Consistent(st, base, log) && Ascending(log)
    ensures !ShortRead(base, log[i].key, Pos(log[j].value))
  {
    assert Matches(st, base, log[i].key, Pos(log[i].value));
  }

  /** Up to its own place, a stored key's path is occupied by entries stored
      no later than it. */
  lemma PathIsOccupied(c: Config, view: seq<Word>, ix: Index, i: nat, k: nat)
    requires c.Ok() && Represents(c, view, ix) && i < |ix.log| && k <= ix.at[i]
    ensures var p := Probe(c.tsize, HashOf(ix.log[i].key), k);
            OccupiedAt(c, view, HashOf(ix.log[i].key), k) && p in ix.owner && ix.owner[p] <= i
    ensures k == ix.at[i] ==> ix.owner[Probe(c.tsize, HashOf(ix.log[i].key), k)] == i
  {
    var p := Probe(c.tsize, HashOf(ix.log[i].key), k);
    assert Holds(c, view, ix, i) && PathEarlier(c, ix, i);
    assert k < ix.at[i] ==> EarlierAt(c, ix, i, k);
    assert Claimed(c, view, ix, p);
  }

  /** ... and all of them can be read far enough to compare with its key. */
  lemma PathIsReadable(c: Config, st: Style, base: string, view: seq<Word>, ix: Index, i: nat, k: nat)
    requires c.Ok() && Represents(c, view, ix) && i < |ix.log| && k <= ix.at[i]
    requires Consistent(st, base, ix.log) && Ascending(ix.log)
    ensures var h := HashOf(ix.log[i].key);
            SeenAt(c, view, h, k).Some? ==>
              !ShortRead(base, ix.log[i].key, Pos(SeenAt(c, view, h, k).value))
    ensures k == ix.at[i] ==> SeenAt(c, view, HashOf(ix.log[i].key), k) == Some(ix.log[i].value)
  {
    PathIsOccupied(c, view, ix, i, k);
    OccupiedSeen(c, view, ix, HashOf(ix.log[i].key), k);
    EarlierIsReadable(st, base, ix.log, ix.owner[Probe(c.tsize, HashOf(ix.log[i].key), k)], i);
  }

  /** A walk that has passed k probes by has not gone past a stored key. */
  lemma WalkStopsInTime(c: Config, st: Style, base: string, view: seq<Word>, ix: Index, i: nat, k: nat)
    requires c.Ok() && Represents(c, view, ix) && i < |ix.log|
    requires Consistent(st, base, ix.log) && Ascending(ix.log)
    requires forall j: nat :: j < k ==> PassedBy(c, st, base, view, ix.log[i].key, j)
    ensures k <= ix.at[i]
  {
    PathIsReadable(c, st, base, view, ix, i, ix.at[i]);
    assert Matches(st, base, ix.log[i].key, Pos(ix.log[i].value));
    assert !PassedBy(c, st, base, view, ix.log[i].key, ix.at[i]);
  }

  /** Stopping at a vacant slot, or at a short read, means that the key was
      never stored. */
  lemma MissIsRight(c: Config, st: Style, base: string, view: seq<Word>, ix: Index, key: string, k: nat)
    requires c.Ok() && Represents(c, view, ix) && 0 < |key|
    requires Consistent(st, base, ix.log) && Ascending(ix.log)
    requires WalkEnds(c, st, base, view, key, k, None)
    ensures Lookup(ix.log, key) == None
  {
    LookupNone(ix.log, key);
    forall i: nat | i < |ix.log|
      ensures ix.log[i].key != key
    {
      if ix.log[i].key == key {
        WalkStopsInTime(c, st, base, view, ix, i, k);
        PathIsOccupied(c, view, ix, i, k);
        PathIsReadable(c, st, base, view, ix, i, k);
      }
    }
  }

  /** A match is the earliest pair stored under the key, or a pair that was
      stored under another key before it. */
  lemma HitIsRight(c: Config, st: Style, base: string, view: seq<Word>, ix: Index, key: string, k: nat, o: Word)
    requires c.Ok() && Represents(c, view, ix) && 0 < |key|
    requires Consistent(st, base, ix.log) && Ascending(ix.log)
    requires WalkEnds(c, st, base, view, key, k, Some(o))
    ensures RightOrMisled(st, base, ix.log, key, o)
    ensures Unshadowed(st, base, ix.log, key) ==> Lookup(ix.log, key) == Some(o)
  {
    OccupiedSeen(c, view, ix, HashOf(key), k);
    var j := ix.owner[Probe(c.tsize, HashOf(key), k)];
    forall i: nat | i < j
      ensures ix.log[i].key != key
    {
      if ix.log[i].key == key {
        WalkStopsInTime(c, st, base, view, ix, i, k);
        PathIsOccupied(c, view, ix, i, k);
      }
    }
    if ix.log[j].key == key {
      LookupFirst(ix.log, key, j);
    } else {
      assert Misleads(st, base, ix.log, key, j);
    }
  }

  // ---------- where keys cannot miss each other ----------

  /** One slot and no tags: all keys take the same path, and a search sees
      everything that is on it. */
  predicate OnePath(c: Config) { c.tsize == 1 && c.bits == 0 }

  ghost predicate NothingReads(st: Style, base: string, log: seq<Entry>, key: string)
    requires 0 < |key|
  {
    forall i: nat :: i < |log| ==> !Matches(st, base, key, Pos(log[i].value))
  }

  lemma NoTagBits(v: Word)
    ensures v & 0 == 0
  {
  }

  /** Without tags, a search sees every pair it comes to. */
  lemma UntaggedSeen(c: Config, view: seq<Word>, ix: Index, h: nat, k: nat)
    requires c.Ok() && c.bits == 0 && h < 0x8000_0000 && Represents(c, view, ix) && OccupiedAt(c, view, h, k)
    ensures Probe(c.tsize, h, k) in ix.owner
    ensures var j := ix.owner[Probe(c.tsize, h, k)];
            j < |ix.log| && SeenAt(c, view, h, k) == Some(ix.log[j].value)
  {
    OccupiedSeen(c, view, ix, h, k);
    NoTagBits(Unbias(SlotAt(view, Probe(c.tsize, h, k))));
    NoTag(MakeTag(0, Quotient(h, c.tsize), c.shift));
  }

  lemma NoTag(tag: Word)
    ensures tag & 0 == tag ==> tag == 0
  {
  }

  lemma OneProbe(h: nat, k: nat)
    ensures Probe(1, h, k) == k / MAXRUN
  {
  }

  /** On one path, a pair lies behind all that were stored before it. */
  lemma EarlierLiesBefore(c: Config, view: seq<Word>, ix: Index, i: nat, q: nat)
    requires c.Ok() && OnePath(c) && Represents(c, view, ix) && i < |ix.log| && q < PlaceOf(c, ix, i)
    ensures SlotAt(view, q) != VACANT && q in ix.owner && ix.owner[q] < i
  {
    var h := HashOf(ix.log[i].key);
    OneProbe(h, ix.at[i]);
    OneProbe(h, MAXRUN * q);
    assert PathEarlier(c, ix, i) && EarlierAt(c, ix, i, MAXRUN * q);
    assert Claimed(c, view, ix, q);
  }

  /** On one path, a fetch fails only if no pair at all reads like the key. */
  lemma OnePathMiss(c: Config, st: Style, base: string, view: seq<Word>, ix: Index, key: string, k: nat)
    requires c.Ok() && OnePath(c) && Represents(c, view, ix) && 0 < |key| && Ascending(ix.log)
    requires WalkEnds(c, st, base, view, key, k, None)
    ensures NothingReads(st, base, ix.log, key)
  {
    forall i: nat | i < |ix.log|
      ensures !Matches(st, base, key, Pos(ix.log[i].value))
    {
      OnePathMisses(c, st, base, view, ix, key, k, i);
    }
  }

  lemma OnePathMisses(c: Config, st: Style, base: string, view: seq<Word>, ix: Index, key: string, k: nat, i: nat)
    requires c.Ok() && OnePath(c) && Represents(c, view, ix) && 0 < |key| && Ascending(ix.log) && i < |ix.log|
    requires WalkEnds(c, st, base, view, key, k, None)
    ensures !Matches(st, base, key, Pos(ix.log[i].value))
  {
    hide Candidate;
    hide SlotFor;
    hide Probe;
    hide HashOf;
    var h, p, q := HashOf(key), PlaceOf(c, ix, i), k / MAXRUN;
    OneProbe(h, k);
    OneProbe(h, MAXRUN * p);
    assert Holds(c, view, ix, i) && Claimed(c, view, ix, p);
    UntaggedSeen(c, view, ix, h, MAXRUN * p);
    if MAXRUN * p < k {
      assert PassedBy(c, st, base, view, key, MAXRUN * p);
    } else if q < p {
      EarlierLiesBefore(c, view, ix, i, q);
      UntaggedSeen(c, view, ix, h, k);
    } else {
      UntaggedSeen(c, view, ix, h, k);
    }
  }
}
