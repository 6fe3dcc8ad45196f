/** The history file as text: lines, their keys and dates, and the entries
    an index of the file must hold. */
module HistoryText {
  import opened Options
  import opened DbzSlots
  import opened DbzOffsets
  import opened DbzIndex
  import opened DbzKeys
  import opened DbzLookup
  import opened DbzKeysTheory
  import opened DbzLimits

  const LEN: nat := 1024
  const HIS_STYLE := Style('0', '\t')

  /** A line as HISfilesfor and fgets can read it back: a key, the field
      separator, the rest, and a newline at the very end. */
  predicate IsLine(l: string) {
    && 0 < |l| < LEN && NUL !in l
    && l[|l| - 1] == '\n' && '\n' !in l[..|l| - 1]
    && '\t' in l && l[0] != '\t'
  }

  /** strchr for the separator; the end of the line if there is none. */
  function Tab(l: string): (t: nat)
    ensures t <= |l| && '\t' !in l[..t]
    ensures t < |l| ==> l[t] == '\t'
    ensures t == |l| <==> '\t' !in l
  {
    match IndexOf(l, '\t')
    case Some(t) => t
    case None => |l|
  }

  function KeyOf(l: string): string { l[..Tab(l)] }

  function RestOf(l: string): string { if Tab(l) < |l| then l[Tab(l) + 1..] else "" }

  predicate AllLines(lines: seq<string>) {
    forall i :: 0 <= i < |lines| ==> IsLine(lines[i])
  }

  function Join(lines: seq<string>): string {
    if lines == [] then "" else Join(lines[..|lines| - 1]) + lines[|lines| - 1]
  }

  lemma JoinAppend(lines: seq<string>, l: string)
    ensures Join(lines + [l]) == Join(lines) + l
  {
    assert (lines + [l])[..|lines|] == lines;
  }

  /** Where line i starts. */
  function Start(lines: seq<string>, i: nat): nat
    requires i <= |lines|
  {
    |Join(lines[..i])|
  }

  lemma {:induction false} JoinSplit(lines: seq<string>, i: nat)
    requires i <= |lines|
    ensures Join(lines) == Join(lines[..i]) + Join(lines[i..])
  {
    if i < |lines| {
      var n := |lines| - 1;
      JoinSplit(lines[..n], i);
      assert lines[..n][..i] == lines[..i];
      assert lines[i..][..|lines[i..]| - 1] == lines[..n][i..];
      assert lines[i..][|lines[i..]| - 1] == lines[n];
    } else {
      assert lines[..i] == lines;
    }
  }

  lemma {:induction false} JoinFirst(lines: seq<string>)
    requires lines != []
    ensures Join(lines) == lines[0] + Join(lines[1..])
  {
    JoinSplit(lines, 1);
    assert lines[..1] == [lines[0]];
    assert Join([lines[0]]) == Join([]) + lines[0] by { JoinAppend([], lines[0]); assert [] + [lines[0]] == [lines[0]]; }
  }

  /** The entries of an index of the file: every line whose key can be stored. */
  function EntriesOf(lines: seq<string>): (log: seq<Entry>)
    requires AllLines(lines) && |Join(lines)| < FILE_LIMIT
  {
    if lines == [] then []
    else
      var init, last := lines[..|lines| - 1], lines[|lines| - 1];
      EntriesOf(init) +
      if |KeyOf(last)| < DBZMAXKEY then [Entry(KeyOf(last), ToOffset(|Join(init)|))] else []
  }

  lemma EntriesAppend(lines: seq<string>, l: string)
    requires AllLines(lines + [l]) && |Join(lines + [l])| < FILE_LIMIT
    ensures AllLines(lines) && |Join(lines)| < FILE_LIMIT
    ensures EntriesOf(lines + [l]) == EntriesOf(lines) +
            if |KeyOf(l)| < DBZMAXKEY then [Entry(KeyOf(l), ToOffset(|Join(lines)|))] else []
  {
    JoinAppend(lines, l);
    assert (lines + [l])[..|lines|] == lines;
    assert forall i :: 0 <= i < |lines| ==> (lines + [l])[i] == lines[i];
  }

  /** Keys of lines are plain. */
  lemma KeyIsPlain(l: string)
    requires IsLine(l)
    ensures PlainKey(HIS_STYLE, KeyOf(l)) && '\n' !in KeyOf(l)
    ensures KeyOf(l) + "\t" + RestOf(l) == l
  {
    var t := Tab(l);
    assert t < |l| - 1 by {
      assert l[|l| - 1] == '\n';
    }
    forall i | 0 <= i < t
      ensures l[..t][i] != NUL && l[..t][i] != '\n'
    {
      assert l[..|l| - 1][i] != '\n';
    }
    assert l == l[..t] + [l[t]] + l[t + 1..];
  }

  /** An index of the file satisfies everything fetch relies on. */
  lemma {:induction false} EntriesAreGood(lines: seq<string>)
    requires AllLines(lines) && |Join(lines)| < FILE_LIMIT
    ensures BareLines(HIS_STYLE, Join(lines), EntriesOf(lines))
    ensures StrictlyAscending(EntriesOf(lines)) && EntriesBelow(EntriesOf(lines), |Join(lines)|)
  {
    if lines != [] {
      var n := |lines| - 1;
      EntriesAreGood(lines[..n]);
      BareLinesStay(Join(lines[..n]), lines[n], EntriesOf(lines[..n]));
      LineIsWritten(Join(lines[..n]), lines[n]);
      KeyIsPlain(lines[n]);
      OffsetRoundTrip(|Join(lines[..n])|);
      NewEntryIsGood(Join(lines), EntriesOf(lines[..n]), |Join(lines[..n])|, KeyOf(lines[n]));
    }
  }

  ghost predicate StrictlyAscending(log: seq<Entry>) {
    forall i: nat, j: nat :: i < j < |log| ==> Pos(log[i].value) < Pos(log[j].value)
  }

  ghost predicate EntriesBelow(log: seq<Entry>, n: nat) {
    forall i: nat :: i < |log| ==> Pos(log[i].value) < n
  }

  lemma BareLinesStay(base: string, more: string, log: seq<Entry>)
    requires BareLines(HIS_STYLE, base, log)
    ensures BareLines(HIS_STYLE, base + more, log)
  {
    forall i: nat | i < |log|
      ensures WrittenAt(HIS_STYLE, base + more, log[i].key, Pos(log[i].value))
    {
      WrittenStays(base, more, log[i].key, Pos(log[i].value));
    }
  }

  lemma NewEntryIsGood(base: string, log: seq<Entry>, o: nat, key: string)
    requires BareLines(HIS_STYLE, base, log) && StrictlyAscending(log) && EntriesBelow(log, o)
    requires o < FILE_LIMIT && Pos(ToOffset(o)) == o < |base|
    requires PlainKey(HIS_STYLE, key) && WrittenAt(HIS_STYLE, base, key, o)
    ensures var log' := log + if |key| < DBZMAXKEY then [Entry(key, ToOffset(o))] else [];
            BareLines(HIS_STYLE, base, log') && StrictlyAscending(log') && EntriesBelow(log', |base|)
  {
  }

  lemma WrittenStays(base: string, more: string, key: string, o: nat)
    requires WrittenAt(HIS_STYLE, base, key, o)
    ensures WrittenAt(HIS_STYLE, base + more, key, o)
  {
    assert (base + more)[o..o + |key|] == base[o..o + |key|];
  }

  lemma LineIsWritten(base: string, l: string)
    requires '\t' in l
    ensures WrittenAt(HIS_STYLE, base + l, KeyOf(l), |base|)
  {
    assert (base + l)[|base|..|base| + Tab(l)] == l[..Tab(l)];
  }

  /** The first line with the given key. */
  function FirstLine(lines: seq<string>, key: string): (r: Option<nat>)
    requires AllLines(lines)
    ensures r.Some? ==> r.value < |lines| && KeyOf(lines[r.value]) == key
    ensures r.Some? ==> forall i :: 0 <= i < r.value ==> KeyOf(lines[i]) != key
    ensures r.None? ==> forall i :: 0 <= i < |lines| ==> KeyOf(lines[i]) != key
  {
    if lines == [] then None
    else
      var n := |lines| - 1;
      match FirstLine(lines[..n], key)
      case Some(i) => Some(i)
      case None => if KeyOf(lines[n]) == key then Some(n) else None
  }

  lemma StartsInFile(lines: seq<string>, i: nat)
    requires i <= |lines|
    ensures Start(lines, i) <= |Join(lines)|
  {
    JoinSplit(lines, i);
  }

  /** What a lookup in the index means for the file. */
  lemma {:induction false} LookupIsFirstLine(lines: seq<string>, key: string)
    requires AllLines(lines) && |Join(lines)| < FILE_LIMIT && |key| < DBZMAXKEY
    ensures Lookup(EntriesOf(lines), key) ==
            match FirstLine(lines, key)
            case None => None
            case Some(i) => Some(ToOffset(Start(lines, i)))
  {
    if lines != [] {
      var n := |lines| - 1;
      LookupIsFirstLine(lines[..n], key);
      LookupOneMore(lines, key);
      match FirstLine(lines[..n], key) {
        case None => assert lines[..n] == lines[..|lines| - 1];
        case Some(i) => assert lines[..n][..i] == lines[..i];
      }
    }
  }

  lemma LookupOneMore(lines: seq<string>, key: string)
    requires lines != [] && AllLines(lines) && |Join(lines)| < FILE_LIMIT && |key| < DBZMAXKEY
    ensures var n := |lines| - 1;
            var before := Lookup(EntriesOf(lines[..n]), key);
            Lookup(EntriesOf(lines), key) ==
            if before.None? && KeyOf(lines[n]) == key then Some(ToOffset(Start(lines, n))) else before
  {
    var n := |lines| - 1;
    LookupAppend(EntriesOf(lines[..n]), Entry(KeyOf(lines[n]), ToOffset(|Join(lines[..n])|)), key);
    assert EntriesOf(lines[..n]) + [] == EntriesOf(lines[..n]);
  }

  /** Each entry points at the start of the line it was made for. */
  lemma {:induction false} EntryIsLine(lines: seq<string>, i: nat) returns (j: nat)
    requires AllLines(lines) && |Join(lines)| < FILE_LIMIT && i < |EntriesOf(lines)|
    ensures j < |lines| && Pos(EntriesOf(lines)[i].value) == Start(lines, j)
    ensures EntriesOf(lines)[i].key == KeyOf(lines[j]) && |KeyOf(lines[j])| < DBZMAXKEY
  {
    var n := |lines| - 1;
    if i < |EntriesOf(lines[..n])| {
      j := EntryIsLine(lines[..n], i);
      assert lines[..n][..j] == lines[..j];
    } else {
      j := n;
      OffsetRoundTrip(|Join(lines[..n])|);
    }
  }

  /** Each line whose key fits has its entry. */
  lemma {:induction false} LineIsEntry(lines: seq<string>, j: nat) returns (i: nat)
    requires AllLines(lines) && |Join(lines)| < FILE_LIMIT && j < |lines| && |KeyOf(lines[j])| < DBZMAXKEY
    ensures i < |EntriesOf(lines)| && EntriesOf(lines)[i].key == KeyOf(lines[j])
  {
    hide KeyOf;
    hide Join;
    hide EntriesOf;
    var n := |lines| - 1;
    var init := lines[..n];
    assert lines == init + [lines[n]];
    EntriesAppend(init, lines[n]);
    if j < n {
      i := LineIsEntry(init, j);
    } else {
      i := |EntriesOf(init)|;
    }
  }

  /** The file from the start of line j on. */
  lemma LineAtStart(lines: seq<string>, j: nat)
    requires j < |lines|
    ensures Start(lines, j) + |lines[j]| <= |Join(lines)|
    ensures Join(lines)[Start(lines, j)..Start(lines, j) + |lines[j]|] == lines[j]
  {
    JoinSplit(lines, j);
    JoinFirst(lines[j..]);
    hide Join;
    SliceInside(Join(lines[..j]), lines[j], Join(lines[j..][1..]));
  }

  lemma SliceInside(a: string, b: string, c: string)
    ensures var s := a + (b + c); |a| + |b| <= |s| && s[|a|..|a| + |b|] == b
  {
  }

  /** The key of the line fits the index, and the line starts with `key`. */
  predicate ReadsAs(l: string, key: string) {
    |KeyOf(l)| < DBZMAXKEY && key <= KeyOf(l)
  }

  ghost predicate SeenKey(lines: seq<string>, key: string, n: nat)
    requires n <= |lines|
  {
    exists i: nat :: i < n && KeyOf(lines[i]) == key
  }

  /** Lines whose indexed key properly extends this one come after a line with
      the key itself. */
  ghost predicate ExtensionsFollow(lines: seq<string>, key: string) {
    forall i: nat :: i < |lines| && ReadsAs(lines[i], key) && KeyOf(lines[i]) != key ==> SeenKey(lines, key, i)
  }

  /** In the index, that is what decides. */
  lemma {:induction false} ExtensionsOfEntries(lines: seq<string>, key: string)
    requires AllLines(lines) && |Join(lines)| < FILE_LIMIT && |key| < DBZMAXKEY
    ensures ExtensionsFollow(lines, key) <==> NoEarlierExtension(EntriesOf(lines), key)
  {
    hide KeyOf;
    hide Join;
    if lines != [] {
      var n := |lines| - 1;
      var init, last := lines[..n], lines[n];
      assert lines == init + [last];
      EntriesAppend(init, last);
      ExtensionsOfEntries(init, key);
      LookupIsFirstLine(init, key);
      OneMoreLine(init, last, key);
      if |KeyOf(last)| < DBZMAXKEY {
        OneMoreEntry(EntriesOf(init), Entry(KeyOf(last), ToOffset(|Join(init)|)), key);
      } else {
        assert EntriesOf(lines) == EntriesOf(init);
      }
    }
  }

  lemma OneMoreLine(lines: seq<string>, l: string, key: string)
    requires AllLines(lines)
    ensures ExtensionsFollow(lines + [l], key) <==>
            ExtensionsFollow(lines, key) && (ReadsAs(l, key) && KeyOf(l) != key ==> FirstLine(lines, key).Some?)
  {
    hide KeyOf;
    hide ReadsAs;
    var all, n := lines + [l], |lines|;
    assert SeenKey(all, key, n) <==> FirstLine(lines, key).Some? by {
      if FirstLine(lines, key).Some? {
        assert KeyOf(all[FirstLine(lines, key).value]) == key;
      }
    }
    forall i: nat | i < n
      ensures all[i] == lines[i] && (SeenKey(all, key, i) <==> SeenKey(lines, key, i))
    {
      assert forall k: nat :: k < i ==> all[k] == lines[k];
    }
    assert all[n] == l;
  }

  lemma OneMoreEntry(log: seq<Entry>, e: Entry, key: string)
    ensures NoEarlierExtension(log + [e], key) <==>
            NoEarlierExtension(log, key) && (ProperPrefix(key, e.key) ==> Lookup(log, key).Some?)
  {
    hide ProperPrefix;
    var all, n := log + [e], |log|;
    LookupNone(log, key);
    assert forall i: nat :: i < n ==> all[i] == log[i];
    assert StoredBefore(all, key, n) <==> Lookup(log, key).Some?;
    forall i: nat | i < n
      ensures StoredBefore(all, key, i) <==> StoredBefore(log, key, i)
    {
      assert forall k: nat :: k < i ==> all[k] == log[k];
    }
    assert all[n] == e;
  }

  lemma EntriesStorable(lines: seq<string>)
    requires AllLines(lines) && |Join(lines)| < FILE_LIMIT
    ensures AllStorable(EntriesOf(lines))
  {
    hide KeyOf;
    hide Join;
    forall i: nat | i < |EntriesOf(lines)|
      ensures EntriesOf(lines)[i].value != ALL_ONES
    {
      var j := EntryIsLine(lines, i);
      StartsInFile(lines, j);
      NotAllOnes(EntriesOf(lines)[i].value);
    }
  }

  lemma NotAllOnes(o: Word)
    requires Pos(o) < FILE_LIMIT
    ensures o != ALL_ONES
  {
    AllOnesNumber(8);
  }

  /** dbz finds the first line of a key, or rightly nothing, in every table
      that lists the file, exactly then. */
  lemma IndexIsRightIff(lines: seq<string>, key: string)
    requires AllLines(lines) && |Join(lines)| < FILE_LIMIT
    requires PlainKey(HIS_STYLE, key) && |key| < DBZMAXKEY
    ensures AlwaysRight(HIS_STYLE, Join(lines), EntriesOf(lines), key) <==> ExtensionsFollow(lines, key)
  {
    hide AlwaysRight;
    hide BareLines;
    hide ExtensionsFollow;
    hide NoEarlierExtension;
    hide EntriesOf;
    hide Join;
    EntriesAreGood(lines);
    ExtensionsOfEntries(lines, key);
    EntriesStorable(lines);
    BareKeysAreRightIff(HIS_STYLE, Join(lines), EntriesOf(lines), key);
  }
}
