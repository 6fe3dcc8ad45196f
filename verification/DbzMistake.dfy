/** A wrong answer of dbz, in the table that this program makes. */
module DbzMistake {
  import opened Options
  import opened DbzProbe
  import opened DbzSlots
  import opened DbzOffsets
  import opened DbzHash
  import opened DbzIndex
  import opened DbzKeys
  import opened DbzLookup
  import opened DbzKeysTheory
  import opened Dbz

  const BARE := Style('0', '\t')
  const LONG_KEY := "<1@a.baebo>"
  const SHORT_KEY := "<1@a.b"
  const ONE_LINE := "<1@a.baebo>\tx\n"
  const ONE_ENTRY := [Entry(LONG_KEY, 0)]

  /** The table of an index that makedbz makes: 150001 slots, no tags. */
  const MADE := Config(150001, 0, 0, 0)

  // ---------- hashing the two keys ----------

  function Term(i: bv32, bit: bv32, term: bv32): bv32 { if i & bit != 0 then term else 0 }

  function Plus(a: bv32, b: bv32): bv32 { a ^ b }

  function Terms(i: bv32): bv32 {
    Plus(Plus(Plus(Plus(Plus(Plus(Plus(0, Term(i, 0x40, 0x0120_0000)), Term(i, 0x20, 0x0240_0000)), Term(i, 0x10, 0x0480_0000)),
      Term(i, 8, 0x0900_0000)), Term(i, 4, 0x1200_0000)), Term(i, 2, 0x2400_0000)), Term(i, 1, 0x4800_0000))
  }

  lemma FeedbackIsTerms(i: bv32)
    ensures Feedback(i, 0) == Terms(i)
  {
    hide Feedback;
    hide Term;
    hide Plus;
    hide BitAt;
    hide TermAt;
    PlacesOf7();
    FeedbackIs(i, 0);
    FeedbackNext(i, 6, 0x40, 0x0120_0000);
    FeedbackNext(i, 5, 0x20, 0x0240_0000);
    FeedbackNext(i, 4, 0x10, 0x0480_0000);
    FeedbackNext(i, 3, 0x8, 0x0900_0000);
    FeedbackNext(i, 2, 0x4, 0x1200_0000);
    FeedbackNext(i, 1, 0x2, 0x2400_0000);
    FeedbackNext(i, 0, 0x1, 0x4800_0000);
  }

  function BitAt(j: nat): bv32
    requires j < 7
  {
    1 << j
  }

  function TermAt(j: nat): bv32
    requires j < 7
  {
    POLY >> j
  }

  lemma PlacesOf7()
    ensures BitAt(0) == 1 && BitAt(1) == 2 && BitAt(2) == 4 && BitAt(3) == 8 && BitAt(4) == 0x10 && BitAt(5) == 0x20
    ensures BitAt(6) == 0x40 && TermAt(6) == 0x0120_0000
    ensures TermAt(0) == 0x4800_0000 && TermAt(1) == 0x2400_0000 && TermAt(2) == 0x1200_0000
    ensures TermAt(3) == 0x0900_0000 && TermAt(4) == 0x0480_0000 && TermAt(5) == 0x0240_0000
  {
  }

  lemma FeedbackNext(i: bv32, j: nat, bit: bv32, term: bv32)
    requires j < 7 && bit == BitAt(j) && term == TermAt(j)
    ensures Feedback(i, j) == Plus(Feedback(i, j + 1), Term(i, bit, term))
  {
    FeedbackIs(i, j);
    hide Feedback;
    hide BitAt;
    hide TermAt;
    PlusZero(Feedback(i, j + 1));
  }

  lemma FeedbackIs(i: bv32, j: nat)
    requires j < 7
    ensures Feedback(i, j) ==
            if i & BitAt(j) != 0 then Plus(Feedback(i, j + 1), TermAt(j)) else Feedback(i, j + 1)
    ensures Feedback(i, 7) == 0
  {
  }

  lemma PlusZero(x: bv32)
    ensures Plus(x, 0) == x
  {
  }

  // ---------- what the table of the hash holds ----------

  /** One step of the shift register of the 31-bit polynomial. */
  function Step31(x: bv32): bv32 { if x & 1 == 1 then (x >> 1) ^ POLY else x >> 1 }

  function Serial7(x: bv32): bv32 { Step31(Step31(Step31(Step31(Step31(Step31(Step31(x))))))) }

  /** Seven bits in the opposite order. */
  function Mirror(i: bv32): bv32 {
    ((i & 1) << 6) | ((i & 2) << 4) | ((i & 4) << 2) | (i & 8) | ((i >> 2) & 4) | ((i >> 4) & 2) | ((i >> 6) & 1)
  }

  lemma TermsAreMirrored(i: bv32)
    ensures Terms(i) == Serial7(Mirror(i))
  {
    hide Terms;
    hide Serial7;
    hide Mirror;
    Mirrored0(i);
    Mirrored1(i);
    Mirrored2(i);
    Mirrored3(i);
    TopBits(i);
  }

  lemma TopBits(i: bv32)
    ensures i & 0x60 == 0 || i & 0x60 == 0x20 || i & 0x60 == 0x40 || i & 0x60 == 0x60
  {
  }

  lemma Mirrored0(i: bv32)
    ensures i & 0x60 == 0 ==> Terms(i) == Serial7(Mirror(i))
  {
  }

  lemma Mirrored1(i: bv32)
    ensures i & 0x60 == 0x20 ==> Terms(i) == Serial7(Mirror(i))
  {
  }

  lemma Mirrored2(i: bv32)
    ensures i & 0x60 == 0x40 ==> Terms(i) == Serial7(Mirror(i))
  {
  }

  lemma Mirrored3(i: bv32)
    ensures i & 0x60 == 0x60 ==> Terms(i) == Serial7(Mirror(i))
  {
  }

  /** The table holds what seven steps of the register make of the mirrored
      index, so that the hash is not the CRC that it is called. */
  lemma TableIsMirrored(i: bv32)
    ensures Feedback(i, 0) == Serial7(Mirror(i))
    ensures Feedback(1, 0) != Serial7(1)
  {
    FeedbackIsTerms(i);
    FeedbackIsTerms(1);
    TermsAreMirrored(i);
    FirstEntry();
    hide Feedback;
    hide Terms;
  }

  lemma FirstEntry()
    ensures Terms(1) == 0x4800_0000 && Serial7(1) == 0x0120_0000
  {
  }

  lemma StepIs(sum: bv32, c: char, low: bv32)
    requires Low(c) == low
    ensures Step(sum, Low(c)) == (sum >> 7) ^ Terms((sum ^ low) & 0x7f)
  {
    FeedbackIsTerms((sum ^ low) & 0x7f);
  }

  lemma LowOf(c: char, n: nat, w: bv32)
    requires c as int == n < 128 && n as bv32 == w
    ensures Low(c) == w
  {
  }

  lemma LowBits()
    ensures Low('.') == 0x2e
    ensures Low('1') == 0x31
    ensures Low('<') == 0x3c
    ensures Low('>') == 0x3e
    ensures Low('@') == 0x40
    ensures Low('a') == 0x61
    ensures Low('b') == 0x62
    ensures Low('e') == 0x65
    ensures Low('o') == 0x6f
  {
    hide Low;
    LowOf('.', 46, 0x2e);
    LowOf('1', 49, 0x31);
    LowOf('<', 60, 0x3c);
    LowOf('>', 62, 0x3e);
    LowOf('@', 64, 0x40);
    LowOf('a', 97, 0x61);
    LowOf('b', 98, 0x62);
    LowOf('e', 101, 0x65);
    LowOf('o', 111, 0x6f);
  }

  /** The register after each character of the longer key. */
  lemma LongKeySteps()
    ensures Step(0x0000_0000, Low('<')) == 0x1dc0_0000
    ensures Step(0x1dc0_0000, Low('1')) == 0x4efb_8000
    ensures Step(0x4efb_8000, Low('@')) == 0x01bd_f700
    ensures Step(0x01bd_f700, Low('a')) == 0x4b63_7bee
    ensures Step(0x4b63_7bee, Low('.')) == 0x01b6_c6f7
    ensures Step(0x01b6_c6f7, Low('b')) == 0x5e83_6d8d
    ensures Step(0x5e83_6d8d, Low('a')) == 0x18dd_06db
    ensures Step(0x18dd_06db, Low('e')) == 0x39f1_ba0d
    ensures Step(0x39f1_ba0d, Low('b')) == 0x7413_e374
    ensures Step(0x7413_e374, Low('o')) == 0x6168_27c6
    ensures Step(0x6168_27c6, Low('>')) == 0x0e22_d04f
  {
    hide Step;
    hide Low;
    LowBits();
    LongKeyTerms();
    hide Terms;
    StepIs(0x0000_0000, '<', 0x3c);
    StepIs(0x1dc0_0000, '1', 0x31);
    StepIs(0x4efb_8000, '@', 0x40);
    StepIs(0x01bd_f700, 'a', 0x61);
    StepIs(0x4b63_7bee, '.', 0x2e);
    StepIs(0x01b6_c6f7, 'b', 0x62);
    StepIs(0x5e83_6d8d, 'a', 0x61);
    StepIs(0x18dd_06db, 'e', 0x65);
    StepIs(0x39f1_ba0d, 'b', 0x62);
    StepIs(0x7413_e374, 'o', 0x6f);
    StepIs(0x6168_27c6, '>', 0x3e);
  }

  lemma LongKeyTerms()
    ensures (0x0000_0000 >> 7) ^ Terms((0x0000_0000 ^ 0x3c) & 0x7f) == 0x1dc0_0000
    ensures (0x1dc0_0000 >> 7) ^ Terms((0x1dc0_0000 ^ 0x31) & 0x7f) == 0x4efb_8000
    ensures (0x4efb_8000 >> 7) ^ Terms((0x4efb_8000 ^ 0x40) & 0x7f) == 0x01bd_f700
    ensures (0x01bd_f700 >> 7) ^ Terms((0x01bd_f700 ^ 0x61) & 0x7f) == 0x4b63_7bee
    ensures (0x4b63_7bee >> 7) ^ Terms((0x4b63_7bee ^ 0x2e) & 0x7f) == 0x01b6_c6f7
    ensures (0x01b6_c6f7 >> 7) ^ Terms((0x01b6_c6f7 ^ 0x62) & 0x7f) == 0x5e83_6d8d
    ensures (0x5e83_6d8d >> 7) ^ Terms((0x5e83_6d8d ^ 0x61) & 0x7f) == 0x18dd_06db
    ensures (0x18dd_06db >> 7) ^ Terms((0x18dd_06db ^ 0x65) & 0x7f) == 0x39f1_ba0d
    ensures (0x39f1_ba0d >> 7) ^ Terms((0x39f1_ba0d ^ 0x62) & 0x7f) == 0x7413_e374
    ensures (0x7413_e374 >> 7) ^ Terms((0x7413_e374 ^ 0x6f) & 0x7f) == 0x6168_27c6
    ensures (0x6168_27c6 >> 7) ^ Terms((0x6168_27c6 ^ 0x3e) & 0x7f) == 0x0e22_d04f
  {
  }

  lemma {:induction false} StepsOf(sum: bv32, name: string, c: char)
    requires sum < 0x8000_0000
    ensures HashFrom(sum, name + [c]) == Step(HashFrom(sum, name), Low(c))
    decreases |name|
  {
    hide Step;
    hide Low;
    if name == "" {
      assert (name + [c])[1..] == "";
    } else {
      assert (name + [c])[1..] == name[1..] + [c];
      StepsOf(Step(sum, Low(name[0])), name[1..], c);
    }
  }

  lemma KeyHashes()
    ensures HashOf(SHORT_KEY) == 1585671565 && HashOf(LONG_KEY) == 237162575
  {
    hide Step;
    hide Low;
    hide HashFrom;
    LongKeySteps();
    NoHash();
    assert "<" == "" + ['<'];
    StepsOf(0, "", '<');
    assert "<1" == "<" + ['1'];
    StepsOf(0, "<", '1');
    assert "<1@" == "<1" + ['@'];
    StepsOf(0, "<1", '@');
    assert "<1@a" == "<1@" + ['a'];
    StepsOf(0, "<1@", 'a');
    assert "<1@a." == "<1@a" + ['.'];
    StepsOf(0, "<1@a", '.');
    assert "<1@a.b" == "<1@a." + ['b'];
    StepsOf(0, "<1@a.", 'b');
    assert "<1@a.ba" == "<1@a.b" + ['a'];
    StepsOf(0, "<1@a.b", 'a');
    assert "<1@a.bae" == "<1@a.ba" + ['e'];
    StepsOf(0, "<1@a.ba", 'e');
    assert "<1@a.baeb" == "<1@a.bae" + ['b'];
    StepsOf(0, "<1@a.bae", 'b');
    assert "<1@a.baebo" == "<1@a.baeb" + ['o'];
    StepsOf(0, "<1@a.baeb", 'o');
    assert "<1@a.baebo>" == "<1@a.baebo" + ['>'];
    StepsOf(0, "<1@a.baebo", '>');
  }

  lemma NoHash()
    ensures HashFrom(0, "") == 0
  {
  }

  /** The two keys share their path, in every table whose only pair is the
      longer one: it lies where both of them begin. */
  lemma OnlyPairAtHome(c: Config, view: seq<Word>, ix: Index)
    requires c.Ok() && Represents(c, view, ix) && |ix.log| == 1
    ensures var p := Probe(c.tsize, HashOf(ix.log[0].key), 0);
            SlotAt(view, p) != VACANT && p in ix.owner && ix.owner[p] == 0
  {
    assert Holds(c, view, ix, 0) && PathEarlier(c, ix, 0);
    assert ix.at[0] > 0 ==> EarlierAt(c, ix, 0, 0);
    assert Claimed(c, view, ix, PlaceOf(c, ix, 0));
  }

  /** So every walk for the other key ends there. */
  lemma CollidingWalk(c: Config, st: Style, base: string, view: seq<Word>, ix: Index, key: string, k: nat, r: Option<Word>)
    requires c.Ok() && c.bits == 0 && Represents(c, view, ix) && |ix.log| == 1 && 0 < |key|
    requires HashOf(key) % c.tsize == HashOf(ix.log[0].key) % c.tsize
    requires Matches(st, base, key, Pos(ix.log[0].value)) && WalkEnds(c, st, base, view, key, k, r)
    ensures r == Some(ix.log[0].value)
  {
    hide HashOf;
    hide TextMatches;
    var h := HashOf(key);
    OnlyPairAtHome(c, view, ix);
    assert Probe(c.tsize, h, 0) == Probe(c.tsize, HashOf(ix.log[0].key), 0);
    UntaggedSeen(c, view, ix, h, 0);
    assert !PassedBy(c, st, base, view, key, 0);
  }

  /** The answer for a key that was never stored, in every such table. */
  lemma ShortKeyIsMistaken(view: seq<Word>, ix: Index, k: nat, r: Option<Word>)
    requires Represents(MADE, view, ix) && ix.log == ONE_ENTRY
    requires WalkEnds(MADE, BARE, ONE_LINE, view, SHORT_KEY, k, r)
    ensures r == Some(0)
  {
    hide HashOf;
    hide Represents;
    hide WalkEnds;
    hide Matches;
    LongIsWritten();
    KeyHashes();
    CollidingWalk(MADE, BARE, ONE_LINE, view, ix, SHORT_KEY, k, r);
  }

  lemma LongIsWritten()
    ensures BareLines(BARE, ONE_LINE, ONE_ENTRY) && PlainKey(BARE, SHORT_KEY)
    ensures Matches(BARE, ONE_LINE, SHORT_KEY, 0) && Pos(0) == 0
  {
    hide TextMatches;
    assert ONE_LINE[0..11] == LONG_KEY;
    BareKeyMatchesExtensions(BARE, ONE_LINE, SHORT_KEY, LONG_KEY, 0);
    assert SHORT_KEY[..KeySize(SHORT_KEY)] == SHORT_KEY;
    FirstPosition();
  }

  lemma FirstPosition()
    ensures Pos(0) == 0
  {
  }

  /** A bare key that was never stored can be found: it only has to be a
      proper prefix of a stored key, and to meet it on its path. */
  lemma BareKeyCanBeMistaken()
    ensures BareLines(BARE, ONE_LINE, ONE_ENTRY) && PlainKey(BARE, SHORT_KEY) && Lookup(ONE_ENTRY, SHORT_KEY) == None
    ensures forall view: seq<Word>, ix: Index, k: nat, r: Option<Word> ::
              Represents(MADE, view, ix) && ix.log == ONE_ENTRY && WalkEnds(MADE, BARE, ONE_LINE, view, SHORT_KEY, k, r)
              ==> r == Some(0)
  {
    hide Represents;
    hide WalkEnds;
    hide Matches;
    LongIsWritten();
    LookupNone(ONE_ENTRY, SHORT_KEY);
    forall view: seq<Word>, ix: Index, k: nat, r: Option<Word> |
      Represents(MADE, view, ix) && ix.log == ONE_ENTRY && WalkEnds(MADE, BARE, ONE_LINE, view, SHORT_KEY, k, r)
      ensures r == Some(0)
    {
      ShortKeyIsMistaken(view, ix, k, r);
    }
  }

  /** The same by the program's own steps: one message is recorded in a new
      index, and another one is found. */
  method MistakenFetch(incore: bool, writethrough: bool) returns (db: Database, r: Option<Word>)
    ensures db.Valid() && db.conf == MADE && db.base == ONE_LINE && db.Log() == ONE_ENTRY
    ensures r == Some(0) && Lookup(db.Log(), SHORT_KEY) == None
  {
    hide *;
    db := OneMessage(incore, writethrough);
    KeysKept();
    NotStored();
    r := db.DbzFetch(SHORT_KEY);
    StoredShortKey(db, r);
  }

  method OneMessage(incore: bool, writethrough: bool) returns (db: Database)
    ensures db.Valid() && db.conf == MADE && db.style == BARE && db.base == ONE_LINE && db.Log() == ONE_ENTRY
    ensures fresh(db) && fresh(db.tables)
  {
    hide Represents;
    hide HashOf;
    hide MapCase;
    hide FirstVacancy;
    KeysKept();
    NoMarker();
    db := Create(MADE, BARE, incore, writethrough);
    db.AppendBase(ONE_LINE);
    var ok := db.DbzStore(LONG_KEY, 0);
  }

  lemma NotStored()
    ensures Lookup(ONE_ENTRY, SHORT_KEY) == None
  {
    LookupNone(ONE_ENTRY, SHORT_KEY);
  }

  lemma KeysKept()
    ensures MapCase(BARE.casemap, LONG_KEY) == LONG_KEY && |LONG_KEY| < DBZMAXKEY && 0 < |SHORT_KEY|
    ensures MapCase(BARE.casemap, SHORT_KEY[..KeySize(SHORT_KEY)]) == SHORT_KEY
  {
    assert SHORT_KEY[..KeySize(SHORT_KEY)] == SHORT_KEY;
  }

  lemma NoMarker()
    ensures (0 as Word) & 0 == 0 && (0 as Word) != ALL_ONES
  {
  }

  lemma StoredShortKey(db: Database, r: Option<Word>)
    requires db.Valid() && db.conf == MADE && db.style == BARE && db.base == ONE_LINE && db.Log() == ONE_ENTRY
    requires db.Answers(SHORT_KEY, r)
    ensures r == Some(0)
  {
    hide Represents;
    hide WalkEnds;
    hide HashOf;
    var k: nat :| WalkEnds(MADE, BARE, ONE_LINE, db.View(), SHORT_KEY, k, r);
    ShortKeyIsMistaken(db.View(), db.index, k, r);
  }
}
