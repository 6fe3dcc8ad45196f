/** The news history: a text file of lines, its dbz index, and the layer that
    keeps one line per message. */
module History {
  import opened Options
  import opened DbzSlots
  import opened DbzOffsets
  import opened DbzIndex
  import opened DbzKeys
  import opened DbzLookup
  import opened DbzKeysTheory
  import opened Dbz
  import opened HistoryText
  import opened HistoryDates
  import opened HistoryKept
  import opened HistoryCopy

  /** What HISfilesfor cuts out of a line. */
  function Content(l: string): string
    requires IsLine(l)
  {
    LineTabInside(l);
    l[Tab(l) + 1..|l| - 1]
  }

  /** The answer of HISfilesfor for a line, read off the line: the key, a tab,
      the answer, and the newline make it up. */
  predicate IsAnswer(l: string, key: string, r: string) {
    '\t' !in key && l == key + "\t" + r + "\n"
  }

  lemma ContentIsAnswer(l: string)
    requires IsLine(l)
    ensures IsAnswer(l, KeyOf(l), Content(l))
  {
    LineTabInside(l);
    KeyIsPlain(l);
    var t := Tab(l);
    assert l == l[..t] + [l[t]] + l[t + 1..|l| - 1] + [l[|l| - 1]];
  }

  /** Only one key and one answer make up a line. */
  lemma AnswerIsUnique(l: string, key: string, r: string, key': string, r': string)
    requires IsAnswer(l, key, r) && IsAnswer(l, key', r')
    ensures key == key' && r == r'
  {
    FirstTabAt(l, key, r + "\n");
    FirstTabAt(l, key', r' + "\n");
    assert l == key + "\t" + (r + "\n") && l == key' + "\t" + (r' + "\n");
    assert r == (r + "\n")[..|r|] && r' == (r' + "\n")[..|r'|];
  }

  lemma LineTabInside(l: string)
    requires IsLine(l)
    ensures 0 < Tab(l) < |l| - 1
  {
    assert l[|l| - 1] == '\n';
  }

  /** The line HISwrite prints. */
  function LineFor(key: string, date: int, paths: string): string {
    key + "\t" + Decimal(date) + "\t" + paths + "\n"
  }

  /** The offset is the start of line j. */
  ghost predicate StartsAt(lines: seq<string>, j: nat, o: Word)
    requires j < |lines|
  {
    Pos(o) == Start(lines, j)
  }

  /** A hit is the start of a line that begins with the key. */
  lemma HitIsLine(lines: seq<string>, key: string, o: Word)
    requires AllLines(lines) && |Join(lines)| < FILE_LIMIT
    requires PlainKey(HIS_STYLE, key) && |key| < DBZMAXKEY
    requires RightOrMisled(HIS_STYLE, Join(lines), EntriesOf(lines), key, o)
    ensures exists j: nat :: j < |lines| && StartsAt(lines, j, o) && ReadsAs(lines[j], key)
  {
    hide EntriesOf;
    hide Join;
    hide Matches;
    hide StartsAt;
    hide ReadsAs;
    hide BareLines;
    EntriesAreGood(lines);
    var base, log := Join(lines), EntriesOf(lines);
    var i := HitPair(base, log, key, o);
    MatchIsLine(lines, key, i);
  }

  lemma HitPair(base: string, log: seq<Entry>, key: string, o: Word) returns (i: nat)
    requires PlainKey(HIS_STYLE, key) && |key| < DBZMAXKEY && BareLines(HIS_STYLE, base, log)
    requires RightOrMisled(HIS_STYLE, base, log, key, o)
    ensures i < |log| && log[i].value == o && Matches(HIS_STYLE, base, key, Pos(o))
  {
    hide Matches;
    i :| i < |log| && log[i].value == o &&
         (Misleads(HIS_STYLE, base, log, key, i) || Lookup(log, key) == Some(o));
    if Lookup(log, key) == Some(o) {
      i := FirstPair(log, key);
      BareKeyMatchesExtensions(HIS_STYLE, base, key, key, Pos(o));
    }
  }

  lemma MatchIsLine(lines: seq<string>, key: string, i: nat)
    requires AllLines(lines) && |Join(lines)| < FILE_LIMIT && i < |EntriesOf(lines)|
    requires PlainKey(HIS_STYLE, key) && |key| < DBZMAXKEY
    requires BareLines(HIS_STYLE, Join(lines), EntriesOf(lines))
    requires Matches(HIS_STYLE, Join(lines), key, Pos(EntriesOf(lines)[i].value))
    ensures exists j: nat :: j < |lines| && StartsAt(lines, j, EntriesOf(lines)[i].value) && ReadsAs(lines[j], key)
  {
    hide EntriesOf;
    hide Join;
    hide KeyOf;
    hide Matches;
    var e := EntriesOf(lines)[i];
    var j := EntryIsLine(lines, i);
    BareKeyMatchesExtensions(HIS_STYLE, Join(lines), key, e.key, Pos(e.value));
    assert key[..KeySize(key)] == key;
    assert StartsAt(lines, j, e.value) && ReadsAs(lines[j], key);
  }

  lemma NothingIsRead(lines: seq<string>, key: string)
    requires AllLines(lines) && |Join(lines)| < FILE_LIMIT && PlainKey(HIS_STYLE, key) && |key| < DBZMAXKEY
    requires NothingReads(HIS_STYLE, Join(lines), EntriesOf(lines), key)
    ensures !HasReading(lines, key)
  {
    hide KeyOf;
    hide Matches;
    hide EntriesOf;
    EntriesAreGood(lines);
    assert key[..KeySize(key)] == key;
    if HasReading(lines, key) {
      var j: nat :| j < |lines| && ReadsAs(lines[j], key);
      var i := LineIsEntry(lines, j);
      var e := EntriesOf(lines)[i];
      BareKeyMatchesExtensions(HIS_STYLE, Join(lines), key, e.key, Pos(e.value));
    }
  }

  lemma LongIsNotFound(base: string, log: seq<Entry>, key: string, o: Word)
    requires PlainKey(HIS_STYLE, key) && |key| >= DBZMAXKEY && BareLines(HIS_STYLE, base, log)
    ensures Consistent(HIS_STYLE, base, log) && !RightOrMisled(HIS_STYLE, base, log, key[..KeySize(key)], o)
  {
    hide Matches;
    LongKeyMatchesNothing(HIS_STYLE, base, log, key);
    LookupNone(log, key[..KeySize(key)]);
  }

  /** What HISwrite's callers keep of a message-ID. */
  function KeyFor(mid: string): string { mid[..if |mid| < 510 then |mid| else 510] }

  class HistoryFile {
    var db: Database
    ghost var lines: seq<string>

    /** The index lists exactly the lines of the file whose keys fit. */
    ghost predicate Valid()
      reads this, db, db.tables, db.tables.corepag
    {
      && db.Valid() && db.style == HIS_STYLE && db.conf.here == 0
      && AllLines(lines) && db.base == Join(lines) && |db.base| < FILE_LIMIT
      && db.Log() == EntriesOf(lines)
    }

    constructor (db: Database)
      requires db.Valid() && db.style == HIS_STYLE && db.conf.here == 0
      requires db.base == "" && db.Log() == []
      ensures Valid() && lines == [] && this.db == db
    {
      this.db := db;
      lines := [];
    }

    /** dbzfetch on the history's index, in terms of lines. */
    method Lookup(key: string) returns (r: Option<Word>)
      requires Valid() && PlainKey(HIS_STYLE, key)
      modifies db`srch, db`resumable
      ensures Valid()
      ensures r.Some? ==> exists j: nat :: j < |lines| && StartsAt(lines, j, r.value) && ReadsAs(lines[j], key)
      ensures |key| < DBZMAXKEY && r.None? ==> FirstLine(lines, key).None?
      ensures |key| < DBZMAXKEY && r.None? && OnePath(db.conf) ==> !HasReading(lines, key)
      ensures |key| < DBZMAXKEY && ExtensionsFollow(lines, key) ==>
                r == match FirstLine(lines, key)
                     case None => None
                     case Some(i) => Some(ToOffset(Start(lines, i)))
      ensures |key| >= DBZMAXKEY ==> r == None
    {
      r := db.DbzFetch(key);
      EntriesAreGood(lines);
      BareKeyKept(key[..KeySize(key)]);
      FetchedIsLine(key, r);
    }

    /** The answer of fetch, read as a line number. */
    lemma FetchedIsLine(key: string, r: Option<Word>)
      requires Valid() && PlainKey(HIS_STYLE, key)
      requires db.Answers(key[..KeySize(key)], r)
      requires Consistent(HIS_STYLE, db.base, db.Log()) && Ascending(db.Log()) ==>
                 db.FetchIsRight(key[..KeySize(key)], r)
      ensures r.Some? ==> exists j: nat :: j < |lines| && StartsAt(lines, j, r.value) && ReadsAs(lines[j], key)
      ensures |key| < DBZMAXKEY && r.None? ==> FirstLine(lines, key).None?
      ensures |key| < DBZMAXKEY && r.None? && OnePath(db.conf) ==> !HasReading(lines, key)
      ensures |key| < DBZMAXKEY && ExtensionsFollow(lines, key) ==>
                r == match FirstLine(lines, key)
                     case None => None
                     case Some(i) => Some(ToOffset(Start(lines, i)))
      ensures |key| >= DBZMAXKEY ==> r == None
    {
      hide Join;
      hide EntriesOf;
      hide KeyOf;
      hide Matches;
      hide StartsAt;
      hide Represents;
      hide HasReading;
      hide ExtensionsFollow;
      hide RightOrMisled;
      hide Unshadowed;
      hide BareLines;
      EntriesAreGood(lines);
      if |key| < DBZMAXKEY {
        assert key[..KeySize(key)] == key;
        BareKeysAreUnshadowed(HIS_STYLE, db.base, db.Log(), key);
        LookupIsFirstLine(lines, key);
        ExtensionsOfEntries(lines, key);
        if r.Some? {
          HitIsLine(lines, key, r.value);
        } else if OnePath(db.conf) {
          MissReadsNothing(key);
        }
      } else if r.Some? {
        LongIsNotFound(db.base, db.Log(), key, r.value);
      }
    }

    /** Where all keys share one path, a miss means that no line starts with
        the key. */
    lemma MissReadsNothing(key: string)
      requires Valid() && PlainKey(HIS_STYLE, key) && |key| < DBZMAXKEY && OnePath(db.conf)
      requires db.Answers(key, None)
      ensures !HasReading(lines, key)
    {
      hide WalkEnds;
      hide KeyOf;
      hide Matches;
      var k: nat :| WalkEnds(db.conf, HIS_STYLE, db.base, db.View(), key, k, None);
      EntriesAreGood(lines);
      OnePathMiss(db.conf, HIS_STYLE, db.base, db.View(), db.index, key, k);
      NothingIsRead(lines, key);
    }

    /** HISfilesfor: find the line and cut its content out. */
    method FilesFor(key: string) returns (r: Option<string>)
      requires Valid() && PlainKey(HIS_STYLE, key)
      modifies db`srch, db`resumable
      ensures Valid()
      ensures r.Some? ==> exists j: nat :: j < |lines| && ReadsAs(lines[j], key) && IsAnswer(lines[j], KeyOf(lines[j]), r.value)
      ensures |key| < DBZMAXKEY && r.None? ==> FirstLine(lines, key).None?
      ensures |key| < DBZMAXKEY && ExtensionsFollow(lines, key) ==>
                match FirstLine(lines, key)
                case None => r == None
                case Some(i) => r.Some? && IsAnswer(lines[i], key, r.value)
      ensures |key| >= DBZMAXKEY ==> r == None
    {
      var val := Lookup(key);
      if val.None? {
        return None;
      }
      ghost var j: nat :| j < |lines| && StartsAt(lines, j, val.value) && ReadsAs(lines[j], key);
      ReadsLine(lines, j);
      ContentIsAnswer(lines[j]);
      r := ReadContent(db.base, Pos(val.value));
      if |key| < DBZMAXKEY && ExtensionsFollow(lines, key) {
        SameStart(val.value, j, key);
      }
    }

    lemma SameStart(o: Word, j: nat, key: string)
      requires Valid() && j < |lines| && Pos(o) == Start(lines, j)
      requires FirstLine(lines, key).Some? && o == ToOffset(Start(lines, FirstLine(lines, key).value))
      ensures j == FirstLine(lines, key).value
    {
      var i := FirstLine(lines, key).value;
      LineAtStart(lines, i);
      OffsetRoundTrip(Start(lines, i));
      StartsDiffer(lines, i, j);
    }

    /** Append a line to the file and, if its key fits, to the index. */
    method Append(line: string) returns (ok: bool)
      requires Valid() && IsLine(line) && |db.base| + |line| < FILE_LIMIT
      modifies this`lines, db, db.tables, db.tables.corepag
      ensures Valid() && lines == old(lines) + [line]
      ensures ok <==> |KeyOf(line)| < DBZMAXKEY
    {
      var offset := |db.base|;
      var key := KeyOf(line);
      JoinAppend(lines, line);
      EntriesAppend(lines, line);
      OffsetNotAllOnes(offset);
      BareKeyKept(key);
      NoMarker(ToOffset(offset));
      db.AppendBase(line);
      ok := db.DbzStore(key, ToOffset(offset));
      lines := lines + [line];
    }

    /** HISwrite: the line goes to the file even if its key is refused. */
    method Write(key: string, date: int, paths: string) returns (ok: bool)
      requires Valid() && Writable(key, date, paths)
      requires |db.base| + LEN < FILE_LIMIT
      modifies this`lines, db, db.tables, db.tables.corepag
      ensures Valid() && lines == old(lines) + [LineFor(key, date, paths)]
      ensures ok <==> |key| < DBZMAXKEY
    {
      LineForIsLine(key, date, paths);
      ok := Append(LineFor(key, date, paths));
    }

    /** storeDB: DBfetch, then DBstore if the message is not known yet. */
    method StoreDB(mid: string, paths: string, now: int) returns (r: int)
      requires Valid() && Writable(KeyFor(mid), now, paths)
      requires |db.base| + LEN < FILE_LIMIT
      modifies this`lines, db, db.tables, db.tables.corepag
      ensures Valid()
      ensures r == if |mid| < DBZMAXKEY then 0 else -1
      ensures lines == old(lines) || lines == old(lines) + [LineFor(KeyFor(mid), now, paths)]
      ensures |mid| < DBZMAXKEY && FirstLine(old(lines), mid).Some? ==> lines == old(lines)
      // A new message is taken, unless the index finds another for it.
      ensures |mid| < DBZMAXKEY && FirstLine(old(lines), mid).None? && ExtensionsFollow(old(lines), mid) ==>
                lines == old(lines) + [LineFor(mid, now, paths)]
      ensures |mid| >= DBZMAXKEY ==> lines == old(lines) + [LineFor(KeyFor(mid), now, paths)]
      // A second line for a key comes about exactly when the key is too long
      // for the index and there already.
      ensures DistinctKeys(old(lines)) ==>
                (DistinctKeys(lines) <==> |mid| < DBZMAXKEY || FirstLine(old(lines), KeyFor(mid)).None?)
    {
      var key := KeyFor(mid);
      assert |mid| < DBZMAXKEY ==> key == mid;
      var content := FilesFor(key);
      if content.Some? {
        return 0;
      }
      LineForIsLine(key, now, paths);
      AppendDistinctIff(lines, LineFor(key, now, paths));
      var ok := Write(key, now, paths);
      r := if ok then 0 else -1;
    }

    /** myHISwrite: add a line read from another history file, unless its key
        is there already. */
    method MyWrite(key: string, remain: string) returns (ok: bool)
      requires Valid() && IsLine(key + "\t" + remain) && KeyOf(key + "\t" + remain) == key
      requires |db.base| + |key| + 1 + |remain| < FILE_LIMIT
      modifies this`lines, db, db.tables, db.tables.corepag
      ensures Valid()
      ensures || (lines == old(lines) && |key| < DBZMAXKEY && HasReading(old(lines), key))
              || (lines == old(lines) + [key + "\t" + remain] && (|key| < DBZMAXKEY ==> NewKey(old(lines), key)))
      ensures |key| < DBZMAXKEY && ExtensionsFollow(old(lines), key) ==>
                (lines == old(lines) <==> FirstLine(old(lines), key).Some?)
      ensures |key| < DBZMAXKEY && OnePath(db.conf) ==> (lines == old(lines) <==> HasReading(old(lines), key))
    {
      KeyIsPlain(key + "\t" + remain);
      var val := Lookup(key);
      if val.Some? {
        return false;
      }
      ok := Append(key + "\t" + remain);
    }

    /** The copying loop of HISmaint, run on the new history: read the old
        file from `start` on, line by line, and write the recent lines. */
    method CopyRecent(text: string, start: nat, ghost from: seq<string>, now: int, expireDays: nat)
      requires Valid() && lines == []
      requires AllLines(from) && from != [] && text == Join(from) && |text| < FILE_LIMIT
      requires start == Start(from, 1) && CopyOf(from, 1, now, expireDays, []) && OnePathCopy(from, 1, now, expireDays) == []
      modifies this`lines, db, db.tables, db.tables.corepag
      ensures Valid() && CopyOf(from, |from|, now, expireDays, lines)
      ensures OnePath(db.conf) ==> lines == OnePathCopy(from, |from|, now, expireDays)
    {
      hide *;
      var pos := start;
      ghost var i := 1;
      StartsInFile(from, 1);
      while pos < |text|
        invariant 1 <= i <= |from| && pos == Start(from, i) <= |text|
        invariant Valid() && CopyOf(from, i, now, expireDays, lines)
        invariant OnePath(db.conf) ==> lines == OnePathCopy(from, i, now, expireDays)
        decreases |text| - pos
      {
        EndIsLast(from, i);
        FgetsReadsLine(from, i);
        var l := Fgets(text, pos);
        CopyLine(l, from, i, now, expireDays);
        StartsAscend(from, i, i + 1);
        pos := pos + |l|;
        i := i + 1;
        StartsInFile(from, i);
      }
      EndIsLast(from, i);
    }

    /** One round of the loop: split the line at its separator and write it
        if its date is recent. */
    method CopyLine(l: string, ghost from: seq<string>, ghost i: nat, now: int, expireDays: nat)
      requires AllLines(from) && i < |from| && l == from[i] && |Join(from)| < FILE_LIMIT
      requires Valid() && CopyOf(from, i, now, expireDays, lines)
      requires OnePath(db.conf) ==> lines == OnePathCopy(from, i, now, expireDays)
      modifies this`lines, db, db.tables, db.tables.corepag
      ensures Valid() && CopyOf(from, i + 1, now, expireDays, lines)
      ensures OnePath(db.conf) ==> lines == OnePathCopy(from, i + 1, now, expireDays)
    {
      hide CopyOf;
      hide OnePathCopy;
      hide KeyOf;
      hide RestOf;
      CopyStep(from, i, now, expireDays, lines);
      if Tab(l) == |l| {
        return;
      }
      if Atol(RestOf(l)) + 99600 * expireDays < now {
        return;
      }
      var ok := MyWrite(KeyOf(l), RestOf(l));
    }

    /** HISmaint: when the first line is old enough, rebuild the file from the
        lines after it, with a new index, and put the new file in its place. */
    method Maint(now: int, expireDays: nat)
      requires Valid()
      modifies this
      ensures Valid()
      ensures if Due(old(lines), now, expireDays)
              then CopyOf(old(lines), |old(lines)|, now, expireDays, lines) else lines == old(lines)
      ensures Due(old(lines), now, expireDays) && RecentInOrder(old(lines), |old(lines)|, now, expireDays) ==>
                lines == Kept(old(lines), |old(lines)|, now, expireDays)
      ensures Due(old(lines), now, expireDays) && OnePath(old(db).conf) ==>
                lines == OnePathCopy(old(lines), |old(lines)|, now, expireDays)
    {
      var text := db.base;
      if text == "" {
        NoLinesInEmpty(lines);
        return;
      }
      FgetsReadsLine(lines, 0);
      var first := Fgets(text, 0);
      var lasthist := Atol(RestOf(first));
      if lasthist + 86400 * expireDays * 2 >= now {
        return;
      }
      FirstLineIsDropped(lines, now, expireDays);
      Rebuild(|first|, now, expireDays);
    }

    /** The part of HISmaint between makedbz and HISsetup. */
    method Rebuild(start: nat, now: int, expireDays: nat)
      requires Valid() && lines != []
      requires start == Start(lines, 1) && Kept(lines, 1, now, expireDays) == []
      modifies this
      ensures Valid() && CopyOf(old(lines), |old(lines)|, now, expireDays, lines)
      ensures RecentInOrder(old(lines), |old(lines)|, now, expireDays) ==>
                lines == Kept(old(lines), |old(lines)|, now, expireDays)
      ensures OnePath(old(db).conf) ==> lines == OnePathCopy(old(lines), |old(lines)|, now, expireDays)
    {
      hide CopyOf;
      hide OnePathCopy;
      hide Kept;
      hide Start;
      hide Join;
      hide EntriesOf;
      hide RecentInOrder;
      DroppedIsSkipped(lines, now, expireDays);
      var other := Copied(db.conf, db.base, start, lines, now, expireDays);
      CopyMayBeKept(lines, now, expireDays, other.lines);
      lines := other.lines;
      db := Reopen(other.db, true, true);
    }
  }

  /** The copy is the lines to keep, if extensions follow their keys. */
  lemma CopyMayBeKept(from: seq<string>, now: int, expireDays: nat, lines: seq<string>)
    requires AllLines(from) && CopyOf(from, |from|, now, expireDays, lines)
    ensures RecentInOrder(from, |from|, now, expireDays) ==> lines == Kept(from, |from|, now, expireDays)
  {
    if RecentInOrder(from, |from|, now, expireDays) {
      CopyIsKept(from, |from|, now, expireDays, lines);
    }
  }

  lemma DroppedIsSkipped(from: seq<string>, now: int, expireDays: nat)
    requires from != [] && Kept(from, 1, now, expireDays) == []
    ensures CopyOf(from, 1, now, expireDays, []) && OnePathCopy(from, 1, now, expireDays) == []
  {
    hide Recent;
    KeptFirst(from, now, expireDays);
    assert CopyOf(from, 0, now, expireDays, []) && OnePathCopy(from, 0, now, expireDays) == [];
  }

  lemma KeptFirst(from: seq<string>, now: int, expireDays: nat)
    requires from != []
    ensures Kept(from, 1, now, expireDays) == if Recent(from[0], now, expireDays) then [from[0]] else []
  {
    assert Kept(from, 0, now, expireDays) == [];
  }

  /** makedbz, myHISsetup: an empty history with an empty index. */
  method MakeHistory(conf: Config) returns (h: HistoryFile)
    requires conf.Ok() && conf.here == 0
    ensures h.Valid() && h.lines == [] && fresh(h) && h.db.conf == conf
    ensures fresh(h.db) && fresh(h.db.tables) && (h.db.tables.corepag != null ==> fresh(h.db.tables.corepag))
  {
    var db := Create(conf, HIS_STYLE, true, true);
    h := new HistoryFile(db);
  }

  /** What was written is found: the date and the paths, as they were given. */
  method WriteThenFind(h: HistoryFile, key: string, date: int, paths: string) returns (r: Option<string>)
    requires h.Valid() && Writable(key, date, paths) && |h.db.base| + LEN < FILE_LIMIT
    requires |key| < DBZMAXKEY && FirstLine(h.lines, key).None? && ExtensionsFollow(h.lines, key)
    modifies h`lines, h.db, h.db.tables, h.db.tables.corepag
    ensures h.Valid() && r == Some(Decimal(date) + "\t" + paths)
  {
    hide ExtensionsFollow;
    hide Decimal;
    hide Writable;
    ghost var before := h.lines;
    LineForIsLine(key, date, paths);
    var ok := h.Write(key, date, paths);
    LastIsFirst(before, LineFor(key, date, paths), key);
    r := h.FilesFor(key);
    WrittenAnswer(key, date, paths, r.value);
  }

  /** The same for storeDB. */
  method StoreThenFind(h: HistoryFile, mid: string, paths: string, now: int) returns (r: Option<string>)
    requires h.Valid() && Writable(mid, now, paths) && |h.db.base| + LEN < FILE_LIMIT
    requires |mid| < DBZMAXKEY && FirstLine(h.lines, mid).None? && ExtensionsFollow(h.lines, mid)
    modifies h`lines, h.db, h.db.tables, h.db.tables.corepag
    ensures h.Valid() && r == Some(Decimal(now) + "\t" + paths)
  {
    hide ExtensionsFollow;
    hide Decimal;
    hide Writable;
    ghost var before := h.lines;
    assert KeyFor(mid) == mid;
    LineForIsLine(mid, now, paths);
    var stored := h.StoreDB(mid, paths, now);
    LastIsFirst(before, LineFor(mid, now, paths), mid);
    r := h.FilesFor(mid);
    WrittenAnswer(mid, now, paths, r.value);
  }

  lemma LastIsFirst(lines: seq<string>, l: string, key: string)
    requires AllLines(lines) && IsLine(l) && KeyOf(l) == key && FirstLine(lines, key).None?
    requires ExtensionsFollow(lines, key)
    ensures AllLines(lines + [l]) && FirstLine(lines + [l], key) == Some(|lines|) && (lines + [l])[|lines|] == l
    ensures ExtensionsFollow(lines + [l], key)
  {
    hide KeyOf;
    OneMoreLine(lines, l, key);
    assert (lines + [l])[..|lines|] == lines;
  }

  lemma WrittenAnswer(key: string, date: int, paths: string, r: string)
    requires '\t' !in key && IsAnswer(LineFor(key, date, paths), key, r)
    ensures r == Decimal(date) + "\t" + paths
  {
    hide Decimal;
    var d := Decimal(date);
    assert LineFor(key, date, paths) == key + "\t" + (d + "\t" + paths) + "\n";
    AnswerIsUnique(LineFor(key, date, paths), key, r, key, d + "\t" + paths);
  }

  const OVERLONG: string := seq(DBZMAXKEY, (_: int) => 'a')

  /** One message-ID of 255 characters, stored twice, gets two equal lines. */
  method OverlongIsStoredTwice(conf: Config) returns (h: HistoryFile)
    requires conf.Ok() && conf.here == 0
    ensures h.Valid() && h.lines == [LineFor(OVERLONG, 0, ""), LineFor(OVERLONG, 0, "")]
    ensures !DistinctKeys(h.lines)
  {
    hide LineFor;
    hide Writable;
    hide Join;
    hide EntriesOf;
    hide AllLines;
    hide ExtensionsFollow;
    hide DistinctKeys;
    OverlongIsWritable();
    h := MakeHistory(conf);
    ghost var l := LineFor(OVERLONG, 0, "");
    var r := h.StoreDB(OVERLONG, "", 0);
    assert h.lines == [l];
    r := h.StoreDB(OVERLONG, "", 0);
    assert h.lines == [l, l];
    SameKeys(l);
  }

  lemma SameKeys(l: string)
    ensures !DistinctKeys([l, l])
  {
    assert KeyOf([l, l][0]) == KeyOf([l, l][1]);
  }

  lemma OverlongIsWritable()
    ensures Writable(OVERLONG, 0, "") && KeyFor(OVERLONG) == OVERLONG
    ensures Join([]) == "" && |Join([LineFor(OVERLONG, 0, "")])| < LEN
  {
    assert Decimal(0) == "0";
    assert Join([LineFor(OVERLONG, 0, "")]) == Join([LineFor(OVERLONG, 0, "")][..0]) + LineFor(OVERLONG, 0, "");
  }

  method Copied(conf: Config, text: string, start: nat, ghost from: seq<string>, now: int, expireDays: nat)
    returns (h: HistoryFile)
    requires conf.Ok() && conf.here == 0
    requires AllLines(from) && from != [] && text == Join(from) && |text| < FILE_LIMIT
    requires start == Start(from, 1) && CopyOf(from, 1, now, expireDays, []) && OnePathCopy(from, 1, now, expireDays) == []
    ensures h.Valid() && CopyOf(from, |from|, now, expireDays, h.lines)
    ensures OnePath(conf) ==> h.lines == OnePathCopy(from, |from|, now, expireDays)
    ensures fresh(h) && fresh(h.db) && fresh(h.db.tables)
  {
    h := MakeHistory(conf);
    h.CopyRecent(text, start, from, now, expireDays);
  }

  /** What one round of copying has to do. */
  lemma CopyStep(from: seq<string>, i: nat, now: int, expireDays: nat, lines: seq<string>)
    requires AllLines(from) && i < |from| && CopyOf(from, i, now, expireDays, lines)
    ensures var l := from[i];
            && Tab(l) < |l| && KeyOf(l) + "\t" + RestOf(l) == l
            && |Join(lines)| + |l| <= |Join(from)|
            && (MaySkip(lines, l, now, expireDays) ==> CopyOf(from, i + 1, now, expireDays, lines))
            && (MayAdd(lines, l, now, expireDays) ==> CopyOf(from, i + 1, now, expireDays, lines + [l]))
            && (lines == OnePathCopy(from, i, now, expireDays) ==>
                  OnePathCopy(from, i + 1, now, expireDays) ==
                  if Recent(l, now, expireDays) && !(|KeyOf(l)| < DBZMAXKEY && HasReading(lines, KeyOf(l)))
                  then lines + [l] else lines)
  {
    hide MaySkip;
    hide MayAdd;
    hide Join;
    KeyIsPlain(from[i]);
    LineTabInside(from[i]);
    CopyFits(from, i, now, expireDays, lines);
    NextStart(from, i);
    StartsInFile(from, i + 1);
    assert (lines + [from[i]])[..|lines|] == lines;
  }

  lemma NoLinesInEmpty(lines: seq<string>)
    requires AllLines(lines)
    ensures Join(lines) == "" <==> lines == []
  {
  }

  lemma EndIsLast(lines: seq<string>, i: nat)
    requires AllLines(lines) && i <= |lines|
    ensures Start(lines, i) == |Join(lines)| <==> i == |lines|
    ensures Start(lines, 0) == 0
  {
    assert lines[..|lines|] == lines;
    if i < |lines| {
      StartsAscend(lines, i, |lines|);
    }
  }

  /** What HISwrite may be given so that the line can be read back. */
  predicate Writable(key: string, date: int, paths: string) {
    && PlainKey(HIS_STYLE, key) && '\n' !in key
    && '\n' !in paths && NUL !in paths
    && |LineFor(key, date, paths)| < LEN
  }

  lemma LineForIsLine(key: string, date: int, paths: string)
    requires Writable(key, date, paths)
    ensures IsLine(LineFor(key, date, paths)) && KeyOf(LineFor(key, date, paths)) == key
    ensures Atol(RestOf(LineFor(key, date, paths))) == date
  {
    var d := Decimal(date);
    var l, body := LineFor(key, date, paths), key + "\t" + d + "\t" + paths;
    DecimalIsPlain(date);
    assert '\n' !in d && NUL !in d;
    assert l == body + "\n" && l[..|l| - 1] == body;
    assert l[0] == key[0] && l[|key|] == '\t';
    KeyAndDate(key, date, paths);
  }

  /** A line is kept for 99600 seconds per day of expiry after its date, and the
      file is rebuilt when twice as many days of 86400 seconds have passed since
      the date of its first line. */
  lemma HowLongKept(key: string, date: int, paths: string, more: seq<string>, expireDays: nat, now: int)
    requires Writable(key, date, paths)
    ensures var l := LineFor(key, date, paths);
            && (Recent(l, now, expireDays) <==> now - date <= 99600 * expireDays)
            && (Due([l] + more, now, expireDays) <==> now - date > 172800 * expireDays)
  {
    LineForIsLine(key, date, paths);
  }

  lemma KeyAndDate(key: string, date: int, paths: string)
    requires '\t' !in key
    ensures KeyOf(LineFor(key, date, paths)) == key
    ensures Atol(RestOf(LineFor(key, date, paths))) == date
  {
    hide Atol;
    hide Decimal;
    var tail, rest := Decimal(date) + "\t" + paths + "\n", "\t" + paths + "\n";
    assert LineFor(key, date, paths) == key + "\t" + tail;
    FirstTabAt(LineFor(key, date, paths), key, tail);
    assert tail == Decimal(date) + rest;
    DateRoundTrip(date, rest);
  }

  lemma FirstTabAt(l: string, key: string, tail: string)
    requires l == key + "\t" + tail && '\t' !in key
    ensures Tab(l) == |key| && KeyOf(l) == key && RestOf(l) == tail
  {
    assert l[|key|] == '\t';
    assert forall i :: 0 <= i < |key| ==> l[i] == key[i];
    assert forall i :: 0 <= i < Tab(l) ==> l[..Tab(l)][i] == l[i];
  }

  lemma DecimalIsPlain(n: int)
    ensures forall i :: 0 <= i < |Decimal(n)| ==> Decimal(n)[i] == '-' || IsDigit(Decimal(n)[i])
  {
    DigitsAreDigits(if n < 0 then -n else n);
  }

  /** One read of LEN-1 bytes at an offset. */
  function Chunk(base: string, o: nat): string {
    if o >= |base| then "" else if o + LEN - 1 <= |base| then base[o..o + LEN - 1] else base[o..]
  }

  /** The tail of HISfilesfor: cut what was read at its newline, and go past
      its first separator. (A line longer than one read is not modelled.) */
  function Cut(chunk: string): Option<string> {
    match IndexOf(chunk, '\n')
    case None => None
    case Some(nl) =>
      match IndexOf(chunk[..nl], '\t')
      case None => None
      case Some(tab) => Some(chunk[..nl][tab + 1..])
  }

  function ReadContent(base: string, o: nat): Option<string> { Cut(Chunk(base, o)) }

  lemma ChunkHasLine(base: string, o: nat, l: string)
    requires o + |l| <= |base| && base[o..o + |l|] == l && 0 < |l| < LEN
    ensures |l| <= |Chunk(base, o)| && Chunk(base, o)[..|l|] == l
  {
    forall i | 0 <= i < |l|
      ensures Chunk(base, o)[i] == l[i]
    {
      assert base[o..o + |l|][i] == base[o + i];
    }
  }

  lemma CutLine(l: string, chunk: string)
    requires IsLine(l) && |l| <= |chunk| && chunk[..|l|] == l
    ensures Cut(chunk) == Some(Content(l))
  {
    NewlineOfPrefix(l, chunk);
    var text := chunk[..|l| - 1];
    assert text == l[..|l| - 1] by { assert text == chunk[..|l|][..|l| - 1]; }
    LineTabInside(l);
    FirstTab(l, text);
    assert text[Tab(l) + 1..] == l[Tab(l) + 1..|l| - 1];
  }

  lemma ReadsLine(lines: seq<string>, j: nat)
    requires AllLines(lines) && j < |lines|
    ensures ReadContent(Join(lines), Start(lines, j)) == Some(Content(lines[j]))
  {
    hide Cut;
    hide Chunk;
    hide KeyOf;
    LineAtStart(lines, j);
    ChunkHasLine(Join(lines), Start(lines, j), lines[j]);
    CutLine(lines[j], Chunk(Join(lines), Start(lines, j)));
  }

  lemma NoMarker(o: Word)
    ensures o & 0 == 0
  {
  }

  lemma BareKeyKept(key: string)
    ensures MapCase(HIS_STYLE.casemap, key) == key
  {
  }

  lemma FirstTab(l: string, text: string)
    requires IsLine(l) && text == l[..|l| - 1]
    ensures IndexOf(text, '\t') == Some(Tab(l))
  {
    LineTabInside(l);
    var t := Tab(l);
    assert text[t] == '\t';
    var i := IndexOf(text, '\t').value;
    assert forall k :: 0 <= k < t ==> l[..t][k] == text[k];
    assert forall k :: 0 <= k < i ==> text[..i][k] == text[k];
  }

  /** Lines are not empty, so distinct lines start at distinct places. */
  lemma {:induction false} StartsDiffer(lines: seq<string>, i: nat, j: nat)
    requires i < |lines| && j < |lines| && AllLines(lines) && Start(lines, i) == Start(lines, j)
    ensures i == j
  {
    if i < j {
      StartsAscend(lines, i, j);
    } else if j < i {
      StartsAscend(lines, j, i);
    }
  }

  lemma {:induction false} StartsAscend(lines: seq<string>, i: nat, j: nat)
    requires i < j <= |lines| && AllLines(lines)
    ensures Start(lines, i) < Start(lines, j)
  {
    var n := j - 1;
    assert lines[..j][..n] == lines[..n];
    if i < n {
      StartsAscend(lines, i, n);
    }
  }
}
