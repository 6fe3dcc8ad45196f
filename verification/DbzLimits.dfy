/** Exactly when dbz answers like the list of stored pairs. */
module DbzLimits {
  import opened Options
  import opened DbzProbe
  import opened DbzSlots
  import opened DbzOffsets
  import opened DbzHash
  import opened DbzIndex
  import opened DbzKeys
  import opened DbzLookup
  import opened DbzKeysTheory

  /** Every walk for the key, in every table that holds these pairs, ends with
      the answer of the list. The tables are of every size from 1 up, where all
      keys share one path; in larger ones a wrong answer also takes keys that
      meet. */
  ghost predicate AlwaysRight(st: Style, base: string, log: seq<Entry>, key: string)
    requires 0 < |key|
  {
    forall c: Config, view: seq<Word>, ix: Index, k: nat, r: Option<Word> ::
      c.Ok() && Represents(c, view, ix) && ix.log == log && WalkEnds(c, st, base, view, key, k, r)
      ==> r == Lookup(log, key)
  }

  predicate AllStorable(log: seq<Entry>) {
    forall i: nat :: i < |log| ==> log[i].value != ALL_ONES
  }

  // ---------- a table with one slot: every key takes the same path ----------

  const ONE := Config(1, 0, 0, 0)

  function OneView(log: seq<Entry>): (view: seq<Word>)
    ensures |view| == |log| && forall i: nat :: i < |log| ==> view[i] == SlotFor(ONE, log[i])
  {
    seq(|log|, i requires 0 <= i < |log| => SlotFor(ONE, log[i]))
  }

  function Places(n: nat): (at: seq<nat>)
    ensures |at| == n && forall i: nat :: i < n ==> at[i] == MAXRUN * i
  {
    seq(n, i requires 0 <= i < n => MAXRUN * i)
  }

  function Owners(n: nat): (owner: map<nat, nat>)
    ensures forall i: nat :: i in owner <==> i < n
    ensures forall i: nat :: i < n ==> owner[i] == i
  {
    if n == 0 then map[] else Owners(n - 1)[n - 1 := n - 1]
  }

  function OneIndex(log: seq<Entry>): Index {
    Index(log, Places(|log|), Owners(|log|))
  }

  lemma OneSlotTaken(e: Entry)
    requires e.value != ALL_ONES
    ensures Storable(ONE, e.value) && SlotFor(ONE, e) != VACANT
  {
    NoTagBits(e.value);
    NotVacant(0, 0, TagOf(ONE, HashOf(e.key)), e.value);
  }

  lemma OneRepresents(log: seq<Entry>)
    requires AllStorable(log)
    ensures Represents(ONE, OneView(log), OneIndex(log))
  {
    hide SlotFor;
    hide Probe;
    hide Storable;
    hide HashOf;
    var view, ix := OneView(log), OneIndex(log);
    forall i: nat | i < |log|
      ensures Holds(ONE, view, ix, i)
      ensures PathEarlier(ONE, ix, i)
    {
      OneSlotTaken(log[i]);
      OneProbe(HashOf(log[i].key), MAXRUN * i);
      forall k: nat | k < ix.at[i]
        ensures EarlierAt(ONE, ix, i, k)
      {
        OneProbe(HashOf(log[i].key), k);
      }
    }
    forall p: nat
      ensures Claimed(ONE, view, ix, p)
    {
      if p < |log| {
        OneSlotTaken(log[p]);
        OneProbe(HashOf(log[p].key), MAXRUN * p);
      }
    }
  }

  lemma OneSeen(log: seq<Entry>, h: nat, k: nat)
    requires AllStorable(log) && h < 0x8000_0000 && k / MAXRUN < |log|
    ensures OccupiedAt(ONE, OneView(log), h, k)
    ensures SeenAt(ONE, OneView(log), h, k) == Some(log[k / MAXRUN].value)
  {
    var e := log[k / MAXRUN];
    OneProbe(h, k);
    OneSlotTaken(e);
    OneCandidate(e, h);
  }

  /** Without tags, every search sees every entry. */
  lemma OneCandidate(e: Entry, h: nat)
    requires e.value != ALL_ONES && h < 0x8000_0000
    ensures Candidate(0, 0, TagOf(ONE, h), SlotFor(ONE, e)) == Some(e.value)
  {
    EntrySeen(ONE, h, e);
    NoTagBits(Unbias(SlotFor(ONE, e)));
  }

  /** The first pair that reads like the key. */
  lemma {:induction false} FirstMatch(st: Style, base: string, log: seq<Entry>, key: string, j: nat) returns (m: nat)
    requires 0 < |key| && j < |log| && Matches(st, base, key, Pos(log[j].value))
    ensures m <= j && Matches(st, base, key, Pos(log[m].value))
    ensures forall i: nat :: i < m ==> !Matches(st, base, key, Pos(log[i].value))
  {
    if i: nat :| i < j && Matches(st, base, key, Pos(log[i].value)) {
      m := FirstMatch(st, base, log, key, i);
    } else {
      m := j;
    }
  }

  /** With one slot, the walk ends at the first pair that reads like the key. */
  lemma OneWalk(st: Style, base: string, log: seq<Entry>, key: string, m: nat)
    requires AllStorable(log) && Ascending(log) && 0 < |key| && m < |log|
    requires Matches(st, base, key, Pos(log[m].value))
    requires forall i: nat :: i < m ==> !Matches(st, base, key, Pos(log[i].value))
    ensures WalkEnds(ONE, st, base, OneView(log), key, MAXRUN * m, Some(log[m].value))
  {
    hide OccupiedAt;
    hide SeenAt;
    hide HashOf;
    hide PassedBy;
    hide Matches;
    forall k: nat | k < MAXRUN * m
      ensures PassedBy(ONE, st, base, OneView(log), key, k)
    {
      OnePassed(st, base, log, key, m, k);
    }
    OneSeen(log, HashOf(key), MAXRUN * m);
  }

  lemma OnePassed(st: Style, base: string, log: seq<Entry>, key: string, m: nat, k: nat)
    requires AllStorable(log) && Ascending(log) && 0 < |key| && m < |log| && k < MAXRUN * m
    requires Matches(st, base, key, Pos(log[m].value)) && !Matches(st, base, key, Pos(log[k / MAXRUN].value))
    ensures PassedBy(ONE, st, base, OneView(log), key, k)
  {
    hide OccupiedAt;
    hide SeenAt;
    hide HashOf;
    OneSeen(log, HashOf(key), k);
    assert Pos(log[k / MAXRUN].value) <= Pos(log[m].value);
  }

  /** The first match is wrong, if some pair misleads and has another offset. */
  lemma FirstMatchIsWrong(st: Style, base: string, log: seq<Entry>, key: string, j: nat, m: nat)
    requires 0 < |key| && m <= j < |log| && Consistent(st, base, log) && Ascending(log)
    requires Misleads(st, base, log, key, j) && Lookup(log, key) != Some(log[j].value)
    ensures Lookup(log, key) != Some(log[m].value)
  {
    LookupNone(log, key);
    if Lookup(log, key) == Some(log[m].value) {
      var i := FirstPair(log, key);
      assert i > j;
      PosIsInjective(log[j].value, log[i].value);
    }
  }

  /** dbz answers like the list, in every table, if and only if no pair stored
      before the key's first one reads like it at another offset. */
  lemma AlwaysRightIffUnshadowed(st: Style, base: string, log: seq<Entry>, key: string)
    requires 0 < |key| && Consistent(st, base, log) && Ascending(log) && AllStorable(log)
    ensures AlwaysRight(st, base, log, key) <==> Unshadowed(st, base, log, key)
  {
    if Unshadowed(st, base, log, key) {
      forall c: Config, view: seq<Word>, ix: Index, k: nat, r: Option<Word> |
        c.Ok() && Represents(c, view, ix) && ix.log == log && WalkEnds(c, st, base, view, key, k, r)
        ensures r == Lookup(log, key)
      {
        match r
        case None => MissIsRight(c, st, base, view, ix, key, k);
        case Some(o) => HitIsRight(c, st, base, view, ix, key, k, o);
      }
    } else {
      var j: nat :| j < |log| && Misleads(st, base, log, key, j) && Lookup(log, key) != Some(log[j].value);
      OneSlotIsWrong(st, base, log, key, j);
    }
  }

  lemma OneSlotIsWrong(st: Style, base: string, log: seq<Entry>, key: string, j: nat)
    requires 0 < |key| && Consistent(st, base, log) && Ascending(log) && AllStorable(log)
    requires j < |log| && Misleads(st, base, log, key, j) && Lookup(log, key) != Some(log[j].value)
    ensures !AlwaysRight(st, base, log, key)
  {
    hide Represents;
    hide WalkEnds;
    hide Unshadowed;
    hide Matches;
    var m := FirstMatch(st, base, log, key, j);
    FirstMatchIsWrong(st, base, log, key, j, m);
    OneWalk(st, base, log, key, m);
    OneRepresents(log);
  }

  /** For keys without a NUL: if and only if no proper extension was stored
      before the key's first pair. */
  lemma BareKeysAreRightIff(st: Style, base: string, log: seq<Entry>, key: string)
    requires PlainKey(st, key) && |key| < DBZMAXKEY && BareLines(st, base, log)
    requires Ascending(log) && AllStorable(log)
    ensures AlwaysRight(st, base, log, key) <==> NoEarlierExtension(log, key)
  {
    BareKeysAreUnshadowed(st, base, log, key);
    AlwaysRightIffUnshadowed(st, base, log, key);
  }
}
