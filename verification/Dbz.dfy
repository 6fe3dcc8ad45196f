/** The dbz database itself: the slot tables, the base file they index, and
    the searches, fetches and stores that run over them. */
module Dbz {
  import opened Options
  import opened DbzProbe
  import opened DbzSlots
  import opened DbzOffsets
  import opened DbzHash
  import opened DbzIndex
  import opened DbzKeys
  import opened DbzLookup
  import opened DbzTables

  /** struct searcher, without the i/o error flag. */
  datatype Searcher = Searcher(place: nat, tabno: nat, run: nat, hash: nat, tag: Word, seen: bool) {
    /** How far along the probe sequence the current location is. */
    function Step(): int { tabno * MAXRUN + MAXRUN - run }

    /** The probe at which the next search starts looking. */
    function Next(): int { if seen then Step() + 1 else Step() }

    ghost predicate OnPath(c: Config)
      requires c.Ok()
    {
      && 1 <= run <= MAXRUN && hash < 0x8000_0000
      && place == Probe(c.tsize, hash, Step())
      && tag == TagOf(c, hash)
    }
  }

  /** Where a walk meets a vacant slot, that is the first one of its path. */
  lemma VacancyAfterPassing(c: Config, st: Style, base: string, view: seq<Word>, key: string, k: nat)
    requires c.Ok() && 0 < |key| && Passed(c, st, base, view, key, k)
    requires SlotAt(view, Probe(c.tsize, HashOf(key), k)) == VACANT
    ensures FirstVacancy(c, view, HashOf(key), k)
  {
    hide HashOf;
    hide Probe;
    hide Matches;
    hide Candidate;
  }

  /** A search from the beginning for hash code `h`. */
  function FreshSearch(c: Config, h: nat): (s: Searcher)
    requires c.Ok() && h < 0x8000_0000
    ensures s.OnPath(c) && s.hash == h && !s.seen && s.Step() == 0
  {
    ProbeStart(c.tsize, h);
    Searcher(h % c.tsize, 0, MAXRUN, h, TagOf(c, h), false)
  }

  /** The head of the search loop: the next location to be examined. */
  function Advance(c: Config, s: Searcher): (s': Searcher)
    requires c.Ok() && s.OnPath(c)
    ensures s'.OnPath(c) && s'.seen && s'.hash == s.hash && s'.Step() == s.Next()
  {
    if s.seen then
      ProbeStep(c.tsize, s.hash, s.Step());
      var tabno := if s.run - 1 <= 0 then s.tabno + 1 else s.tabno;
      var run := if s.run - 1 <= 0 then MAXRUN else s.run - 1;
      assert (s.Step() + 1) / MAXRUN == tabno;
      s.(run := run, tabno := tabno, place := (s.place + 1) % c.tsize + tabno * c.tsize)
    else
      s.(seen := true)
  }

  /** Only finitely many probes can find something. */
  function Horizon(view: seq<Word>): nat { MAXRUN * |view| }

  lemma WithinHorizon(c: Config, view: seq<Word>, h: nat, k: nat)
    requires c.Ok() && OccupiedAt(c, view, h, k)
    ensures k < Horizon(view)
  {
    if k >= Horizon(view) {
      ProbeBeyond(c.tsize, h, k, |view|);
    }
  }

  /** fetch has gone past the first k probes. */
  ghost predicate Passed(c: Config, st: Style, base: string, view: seq<Word>, key: string, k: int)
    requires c.Ok() && 0 < |key|
  {
    && (forall j: nat :: j < k ==> PassedBy(c, st, base, view, key, j))
    && (forall j: nat :: j < k ==> OccupiedAt(c, view, HashOf(key), j))
  }

  /** Slots k, k+1, ..., k'-1 are skipped by a search. */
  ghost predicate Skipped(c: Config, view: seq<Word>, h: nat, k: int, k': int)
    requires c.Ok() && h < 0x8000_0000
  {
    forall j: nat :: k <= j < k' ==> OccupiedAt(c, view, h, j) && SeenAt(c, view, h, j) == None
  }

  /** What a search skips is passed by too. */
  lemma PassOn(c: Config, st: Style, base: string, view: seq<Word>, key: string, k: int, k': int)
    requires c.Ok() && 0 < |key| && Passed(c, st, base, view, key, k)
    requires Skipped(c, view, HashOf(key), k, k')
    ensures Passed(c, st, base, view, key, k')
  {
    forall j: nat | j < k'
      ensures PassedBy(c, st, base, view, key, j)
      ensures OccupiedAt(c, view, HashOf(key), j)
    {
      if k <= j {
        assert OccupiedAt(c, view, HashOf(key), j);
      }
    }
  }

  lemma PassOver(c: Config, st: Style, base: string, view: seq<Word>, key: string, k: nat)
    requires c.Ok() && 0 < |key| && Passed(c, st, base, view, key, k)
    requires PassedBy(c, st, base, view, key, k)
    ensures Passed(c, st, base, view, key, k + 1)
  {
  }

  class Database {
    const conf: Config
    const style: Style
    const tables: Tables
    var base: string       // the base file
    var used: nat          // conf.used[0]
    var written: bool
    var srch: Searcher
    var resumable: bool    // prevp == &srch
    ghost var index: Index

    /** dbminit, once the tables are open: nothing has been searched yet. */
    constructor Open(conf: Config, style: Style, tables: Tables, base: string, used: nat, ghost index: Index)
      requires conf.Ok() && tables.Valid() && tables.tsize == conf.tsize
      requires Represents(conf, tables.View(), index) && tables.InStep()
      ensures Valid() && Log() == index.log && this.base == base && this.used == used
      ensures this.conf == conf && this.style == style && this.tables == tables && !resumable
    {
      this.conf, this.style, this.tables, this.base := conf, style, tables, base;
      this.used, written, srch, resumable := used, false, FreshSearch(conf, 0), false;
      this.index := index;
    }

    ghost predicate Shaped()
      reads tables, tables.corepag
    {
      conf.Ok() && tables.Valid() && tables.tsize == conf.tsize
    }

    ghost function View(): seq<Word>
      reads tables, tables.corepag
    {
      tables.View()
    }

    ghost predicate Valid()
      reads this, tables, tables.corepag
    {
      && Shaped()
      && Represents(conf, View(), index)
      && (resumable ==> StoppedAtVacancy())
      && (!written ==> tables.InStep())
    }

    /** The last failed fetch stopped at the first vacant slot of its path. */
    ghost predicate StoppedAtVacancy()
      requires conf.Ok()
      reads this`srch, tables, tables.corepag
    {
      srch.OnPath(conf) && FirstVacancy(conf, View(), srch.hash, srch.Step())
    }

    /** The pairs stored so far, in order. */
    ghost function Log(): seq<Entry>
      reads this`index
    {
      index.log
    }

    /** start, with a null `osp` when `resume` is false. */
    method Start(key: string, resume: bool)
      requires Shaped() && (resume ==> StoppedAtVacancy())
      modifies this`srch
      ensures srch.OnPath(conf) && srch.hash == HashOf(key) && !srch.seen
      ensures Occupied(conf, View(), srch.hash, srch.Step())
      ensures srch.Step() == 0 || (resume && StoppedAtVacancy())
    {
      var h := Hash(key);
      if resume && srch.hash == h {
        srch := srch.(seen := false);
      } else {
        srch := FreshSearch(conf, h);
      }
    }

    /** search: go on to the next slot that is vacant or could hold the key. */
    method Search() returns (r: Option<Word>)
      requires Shaped() && srch.OnPath(conf)
      modifies this`srch
      ensures srch.OnPath(conf) && srch.seen && srch.hash == old(srch.hash)
      ensures old(srch.Next()) <= srch.Step()
      ensures Skipped(conf, View(), srch.hash, old(srch.Next()), srch.Step())
      ensures r.Some? <==> OccupiedAt(conf, View(), srch.hash, srch.Step())
      ensures r.Some? ==> r == SeenAt(conf, View(), srch.hash, srch.Step())
    {
      ghost var view, k := View(), srch.Next();
      while true
        invariant srch.OnPath(conf) && srch.hash == old(srch.hash)
        invariant k <= srch.Next()
        invariant Skipped(conf, view, srch.hash, k, srch.Next())
        decreases Horizon(view) - srch.Next()
      {
        srch := Advance(conf, srch);
        var value := tables.Read(srch.place);
        if value == VACANT {
          return None;
        }
        WithinHorizon(conf, view, srch.hash, srch.Step());
        r := Candidate(conf.bits, conf.here, srch.tag, value);
        if r.Some? {
          return;
        }
      }
    }

    /** The loop of fetch: try the candidates on the key's path in turn. It
        gives up at a vacant slot or when the base file is too short. */
    method Walk(key: string) returns (r: Option<Word>)
      requires Shaped() && 0 < |key|
      requires srch.OnPath(conf) && srch.hash == HashOf(key) && !srch.seen && srch.Step() == 0
      modifies this`srch
      ensures srch.OnPath(conf) && srch.hash == HashOf(key)
      ensures Passed(conf, style, base, View(), key, srch.Step())
      ensures WalkEnds(conf, style, base, View(), key, srch.Step(), r)
    {
      ghost var view := View();
      while true
        invariant srch.OnPath(conf) && srch.hash == HashOf(key)
        invariant Passed(conf, style, base, view, key, srch.Next())
        decreases Horizon(view) - srch.Next()
      {
        ghost var k := srch.Next();
        r := Search();
        PassOn(conf, style, base, view, key, k, srch.Step());
        if r.None? || ShortRead(base, key, Pos(r.value)) {
          return None;
        }
        if Matches(style, base, key, Pos(r.value)) {
          return;
        }
        PassOver(conf, style, base, view, key, srch.Step());
        WithinHorizon(conf, view, srch.hash, srch.Step());
      }
    }

    /** A fetch answers as the list of stored pairs would: with the first
        offset stored under the key, or nothing when there is none. Only a
        pair stored before the key's first one whose text reads like the key
        can make it answer wrongly, and even then a key that was stored is
        found. */
    ghost predicate FetchIsRight(key: string, r: Option<Word>)
      requires 0 < |key|
      reads this`index, this`base
    {
      && (r.None? ==> Lookup(Log(), key) == None)
      && (r.Some? ==> RightOrMisled(style, base, Log(), key, r.value))
      && (Unshadowed(style, base, Log(), key) ==> r == Lookup(Log(), key))
    }

    /** A walk along the key's path in the present table ends with this answer. */
    ghost predicate Answers(key: string, r: Option<Word>)
      requires 0 < |key| && conf.Ok()
      reads this`base, tables, tables.corepag
    {
      exists k: nat :: WalkEnds(conf, style, base, View(), key, k, r)
    }

    /** Where the walk of a fetch may end decides its answer. */
    lemma Conclude(key: string, r: Option<Word>, k: nat)
      requires Shaped() && Represents(conf, View(), index) && 0 < |key|
      requires WalkEnds(conf, style, base, View(), key, k, r)
      ensures Answers(key, r)
      ensures Consistent(style, base, Log()) && Ascending(Log()) ==> FetchIsRight(key, r)
    {
      if Consistent(style, base, Log()) && Ascending(Log()) {
        if r.Some? {
          HitIsRight(conf, style, base, View(), index, key, k, r.value);
        } else {
          MissIsRight(conf, style, base, View(), index, key, k);
        }
      }
    }

    /** fetch: the offset stored under `key`, checked against the base file. */
    method Fetch(key: string) returns (r: Option<Word>)
      requires Valid() && 0 < |key|
      modifies this`srch, this`resumable
      ensures Valid()
      ensures Answers(key, r)
      ensures Consistent(style, base, Log()) && Ascending(Log()) ==> FetchIsRight(key, r)
    {
      hide Represents;
      hide FetchIsRight;
      hide Passed;
      hide WalkEnds;
      hide FirstVacancy;
      hide Consistent;
      hide Ascending;
      hide Answers;
      hide HashOf;
      hide TagOf;
      resumable := false;
      Start(key, false);
      r := Walk(key);
      Conclude(key, r, srch.Step());
      var value := tables.Read(srch.place);
      if value == VACANT {
        VacancyAfterPassing(conf, style, base, View(), key, srch.Step());
        resumable := true;
      }
    }

    /** The search loop of store: go on to the first vacant slot. */
    method FindVacancy()
      requires Shaped() && srch.OnPath(conf)
      requires Occupied(conf, View(), srch.hash, srch.Next())
      modifies this`srch
      ensures StoppedAtVacancy() && srch.hash == old(srch.hash)
    {
      ghost var view := View();
      while true
        invariant srch.OnPath(conf) && srch.hash == old(srch.hash)
        invariant Occupied(conf, view, srch.hash, srch.Next())
        decreases Horizon(view) - srch.Next()
      {
        var r := Search();
        if r.None? {
          return;
        }
        WithinHorizon(conf, view, srch.hash, srch.Step());
      }
    }

    /** The last pair went where a search from scratch for its key would have
        stopped, whether or not the search was resumed from a failed fetch. */
    ghost predicate StoredAtFirstVacancy(view: seq<Word>, key: string)
      requires conf.Ok()
      reads this`index
    {
      && 0 < |Log()| == |index.at|
      && FirstVacancy(conf, view, HashOf(key), index.at[|Log()| - 1])
    }

    /** store: add a pair, in the slot where a fetch just failed if it can. */
    method Store(key: string, value: Word) returns (ok: bool)
      requires Valid() && value != ALL_ONES
      modifies this`srch, this`resumable, this`used, this`written, this`index, tables, tables.corepag
      ensures Valid()
      ensures ok <==> |key| < DBZMAXKEY && value & conf.here == 0
      ensures Log() == if ok then old(Log()) + [Entry(key, value)] else old(Log())
      ensures ok ==> StoredAtFirstVacancy(old(View()), key)
      ensures used == if ok then old(used) + 1 else old(used)
    {
      hide Represents;
      hide HashOf;
      hide TagOf;
      hide FirstVacancy;
      hide Probe;
      if |key| >= DBZMAXKEY || value & conf.here != 0 {
        return false;
      }
      Start(key, resumable);
      FindVacancy();
      resumable := false;
      used := used + 1;
      written := true;
      Set(key, value);
      ok := true;
    }

    /** set: store a value into the vacant slot the search stopped at. */
    method Set(ghost key: string, value: Word)
      requires Shaped() && Represents(conf, View(), index) && Storable(conf, value)
      requires StoppedAtVacancy() && srch.hash == HashOf(key)
      modifies this`index, tables, tables.corepag
      ensures Shaped() && Represents(conf, View(), index)
      ensures Log() == old(Log()) + [Entry(key, value)]
      ensures StoredAtFirstVacancy(old(View()), key)
    {
      ghost var view, k := View(), srch.Step();
      tables.Write(srch.place, Encode(conf.bits, conf.here, srch.tag, value));
      StoreRepresents(conf, view, View(), index, Entry(key, value), k);
      index := Append(conf, index, Entry(key, value), k);
    }

    /** dbzfetch: fetch with case mapping built in; long keys are truncated. */
    method DbzFetch(key: string) returns (r: Option<Word>)
      requires Valid() && 0 < |key|
      modifies this`srch, this`resumable
      ensures Valid()
      ensures Answers(MapCase(style.casemap, key[..KeySize(key)]), r)
      ensures Consistent(style, base, Log()) && Ascending(Log()) ==>
                FetchIsRight(MapCase(style.casemap, key[..KeySize(key)]), r)
    {
      r := Fetch(MapCase(style.casemap, key[..KeySize(key)]));
    }

    /** dbzstore: store with case mapping built in; long keys are refused. */
    method DbzStore(key: string, value: Word) returns (ok: bool)
      requires Valid() && value != ALL_ONES
      modifies this`srch, this`resumable, this`used, this`written, this`index, tables, tables.corepag
      ensures Valid()
      ensures ok <==> |key| < DBZMAXKEY && value & conf.here == 0
      ensures Log() == if ok then old(Log()) + [Entry(MapCase(style.casemap, key), value)] else old(Log())
      ensures used == if ok then old(used) + 1 else old(used)
    {
      if |key| >= DBZMAXKEY {
        return false;
      }
      ok := Store(MapCase(style.casemap, key), value);
    }

    /** What the database's clients do to the base file: append to it. */
    method AppendBase(text: string)
      requires Valid()
      modifies this`base
      ensures Valid() && base == old(base) + text
    {
      base := base + text;
    }

    /** dbzsync, as dbmclose calls it: nothing to do unless a pair was stored,
        and putcore only when writes did not go through to the file. */
    method Sync()
      requires Valid()
      modifies tables
      ensures Valid() && tables.InStep() && Log() == old(Log())
    {
      if written && tables.corepag != null && !tables.writethrough {
        tables.PutCore();
      }
    }
  }

  /** dbmclose followed by dbminit: the stored pairs survive, whether or not
      the first table was or will be kept in core. */
  method Reopen(db: Database, incore: bool, writethrough: bool) returns (db': Database)
    requires db.Valid()
    modifies db.tables
    ensures db'.Valid() && db'.Log() == db.Log() && db'.base == db.base && db'.used == db.used
    ensures db'.conf == db.conf && db'.style == db.style
  {
    db.Sync();
    db.tables.FileIsView();
    var tables := new Tables.Open(db.conf.tsize, db.tables.pag, incore, writethrough);
    SameSlots(db.conf, db.View(), tables.View(), db.index);
    db' := new Database.Open(db.conf, db.style, tables, db.base, db.used, db.index);
  }

  /** dbzfresh: a new database with an empty .pag file. */
  method Create(conf: Config, style: Style, incore: bool, writethrough: bool) returns (db: Database)
    requires conf.Ok()
    ensures db.Valid() && db.Log() == [] && db.base == "" && db.used == 0
    ensures db.conf == conf && db.style == style
    ensures fresh(db) && fresh(db.tables) && (db.tables.corepag != null ==> fresh(db.tables.corepag))
  {
    var tables := new Tables.Open(conf.tsize, [], incore, writethrough);
    EmptyRepresents(conf, tables.View());
    db := new Database.Open(conf, style, tables, "", 0, EMPTY);
  }

  /** Only the contents of the slots matter. */
  lemma SameSlots(c: Config, view: seq<Word>, view': seq<Word>, ix: Index)
    requires c.Ok() && Represents(c, view, ix)
    requires forall p: nat :: SlotAt(view', p) == SlotAt(view, p)
    ensures Represents(c, view', ix)
  {
    forall i: nat | i < |ix.log|
      ensures Holds(c, view', ix, i)
      ensures PathEarlier(c, ix, i)
    {
      assert Holds(c, view, ix, i) && PathEarlier(c, ix, i);
    }
    forall p: nat
      ensures Claimed(c, view', ix, p)
    {
      assert Claimed(c, view, ix, p);
    }
  }
}
