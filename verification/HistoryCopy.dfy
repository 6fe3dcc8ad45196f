/** What copying recent lines through the index makes of a history file, and
    exactly when that is the lines that should be kept. */
module HistoryCopy {
  import opened DbzKeys
  import opened HistoryText
  import opened HistoryKept

  /** Some indexed line starts with the key. */
  ghost predicate HasReading(lines: seq<string>, key: string) {
    exists k :: 0 <= k < |lines| && ReadsAs(lines[k], key)
  }

  /** myHISwrite may leave the line out: it is old, or the index may answer. */
  ghost predicate MaySkip(lines: seq<string>, l: string, now: int, expireDays: nat) {
    Recent(l, now, expireDays) ==> |KeyOf(l)| < DBZMAXKEY && HasReading(lines, KeyOf(l))
  }

  /** myHISwrite may add the line: it is recent, and not known. */
  ghost predicate MayAdd(lines: seq<string>, l: string, now: int, expireDays: nat) {
    Recent(l, now, expireDays) && (|KeyOf(l)| < DBZMAXKEY ==> NewKey(lines, KeyOf(l)))
  }

  /** The lines that copying the first n may lead to, in order. */
  ghost predicate CopyOf(from: seq<string>, n: nat, now: int, expireDays: nat, lines: seq<string>)
    requires n <= |from|
  {
    if n == 0 then lines == []
    else
      || (CopyOf(from, n - 1, now, expireDays, lines) && MaySkip(lines, from[n - 1], now, expireDays))
      || (lines != [] && lines[|lines| - 1] == from[n - 1]
          && MayAdd(lines[..|lines| - 1], from[n - 1], now, expireDays)
          && CopyOf(from, n - 1, now, expireDays, lines[..|lines| - 1]))
  }

  /** A recent line with the key comes before line j. */
  ghost predicate RecentBefore(from: seq<string>, j: nat, key: string, now: int, expireDays: nat)
    requires j <= |from|
  {
    exists i: nat :: i < j && Recent(from[i], now, expireDays) && KeyOf(from[i]) == key
  }

  /** Recent line i has a key that an earlier recent line j extends. */
  ghost predicate ExtendedEarlier(from: seq<string>, i: nat, j: nat, now: int, expireDays: nat) {
    && j < i < |from| && Recent(from[i], now, expireDays) && Recent(from[j], now, expireDays)
    && ReadsAs(from[j], KeyOf(from[i])) && KeyOf(from[j]) != KeyOf(from[i])
  }

  /** Among recent lines, an extension of a key comes after the key. */
  ghost predicate RecentInOrder(from: seq<string>, n: nat, now: int, expireDays: nat)
    requires n <= |from|
  {
    forall i: nat, j: nat :: i < n && ExtendedEarlier(from, i, j, now, expireDays) ==>
      RecentBefore(from, j, KeyOf(from[i]), now, expireDays)
  }

  /** Every line of a copy is a recent line of the file. */
  lemma {:induction false} CopyIsRecent(from: seq<string>, n: nat, now: int, expireDays: nat, lines: seq<string>)
    requires n <= |from| && CopyOf(from, n, now, expireDays, lines)
    ensures forall k :: 0 <= k < |lines| ==> Recent(lines[k], now, expireDays) && lines[k] in from[..n]
    ensures AllLines(from) ==> AllLines(lines)
  {
    hide Recent;
    hide IsLine;
    hide KeyOf;
    if n > 0 {
      assert from[..n] == from[..n - 1] + [from[n - 1]];
      if CopyOf(from, n - 1, now, expireDays, lines) {
        CopyIsRecent(from, n - 1, now, expireDays, lines);
      } else {
        CopyIsRecent(from, n - 1, now, expireDays, lines[..|lines| - 1]);
      }
    }
  }

  /** Keys that fit the index occur once in every copy. */
  lemma {:induction false} CopyIsDistinct(from: seq<string>, n: nat, now: int, expireDays: nat, lines: seq<string>)
    requires n <= |from| && CopyOf(from, n, now, expireDays, lines)
    requires forall i :: 0 <= i < |from| ==> |KeyOf(from[i])| < DBZMAXKEY
    ensures DistinctKeys(lines)
  {
    hide KeyOf;
    hide Recent;
    hide ReadsAs;
    if n > 0 {
      if CopyOf(from, n - 1, now, expireDays, lines) {
        CopyIsDistinct(from, n - 1, now, expireDays, lines);
      } else {
        var init := lines[..|lines| - 1];
        CopyIsDistinct(from, n - 1, now, expireDays, init);
        DistinctAppend(init, from[n - 1], true);
        assert lines == init + [from[n - 1]];
      }
    }
  }

  /** No recent line is lost without another line that its key is found in. */
  lemma {:induction false} CopyCovers(from: seq<string>, n: nat, now: int, expireDays: nat, lines: seq<string>, i: nat)
    requires i < n <= |from| && CopyOf(from, n, now, expireDays, lines)
    requires Recent(from[i], now, expireDays)
    ensures from[i] in lines || HasReading(lines, KeyOf(from[i]))
  {
    hide Recent;
    hide KeyOf;
    hide ReadsAs;
    if CopyOf(from, n - 1, now, expireDays, lines) && MaySkip(lines, from[n - 1], now, expireDays) {
      if i < n - 1 {
        CopyCovers(from, n - 1, now, expireDays, lines, i);
      }
    } else if i < n - 1 {
      var init := lines[..|lines| - 1];
      CopyCovers(from, n - 1, now, expireDays, init, i);
      ReadingStays(init, lines, KeyOf(from[i]));
    }
  }

  lemma ReadingStays(init: seq<string>, lines: seq<string>, key: string)
    requires init <= lines
    ensures HasReading(init, key) ==> HasReading(lines, key)
  {
    if k :| 0 <= k < |init| && ReadsAs(init[k], key) {
      assert lines[k] == init[k];
    }
  }

  lemma {:induction false} CopyFits(from: seq<string>, n: nat, now: int, expireDays: nat, lines: seq<string>)
    requires n <= |from| && CopyOf(from, n, now, expireDays, lines)
    ensures |Join(lines)| <= Start(from, n)
  {
    hide MaySkip;
    hide MayAdd;
    if n > 0 {
      NextStart(from, n - 1);
      if CopyOf(from, n - 1, now, expireDays, lines) {
        CopyFits(from, n - 1, now, expireDays, lines);
      } else {
        CopyFits(from, n - 1, now, expireDays, lines[..|lines| - 1]);
      }
    }
  }

  /** When extensions come late, there is one copy: the lines to keep. */
  lemma {:induction false} CopyIsKept(from: seq<string>, n: nat, now: int, expireDays: nat, lines: seq<string>)
    requires n <= |from| && AllLines(from) && CopyOf(from, n, now, expireDays, lines)
    requires RecentInOrder(from, n, now, expireDays)
    ensures lines == Kept(from, n, now, expireDays)
  {
    hide Recent;
    hide KeyOf;
    hide Keeps;
    hide MaySkip;
    hide MayAdd;
    if n > 0 {
      var kept := Kept(from, n - 1, now, expireDays);
      assert RecentInOrder(from, n - 1, now, expireDays);
      if CopyOf(from, n - 1, now, expireDays, lines) && MaySkip(lines, from[n - 1], now, expireDays) {
        CopyIsKept(from, n - 1, now, expireDays, lines);
        SkipIsRight(from, n - 1, now, expireDays);
      } else {
        CopyIsKept(from, n - 1, now, expireDays, lines[..|lines| - 1]);
        AddIsRight(from, n - 1, now, expireDays);
        assert lines == kept + [from[n - 1]];
      }
    }
  }

  lemma SkipIsRight(from: seq<string>, i: nat, now: int, expireDays: nat)
    requires i < |from| && RecentInOrder(from, i + 1, now, expireDays)
    requires MaySkip(Kept(from, i, now, expireDays), from[i], now, expireDays)
    ensures !Keeps(from, i, now, expireDays)
  {
    var kept, key := Kept(from, i, now, expireDays), KeyOf(from[i]);
    if Recent(from[i], now, expireDays) {
      var k :| 0 <= k < |kept| && ReadsAs(kept[k], key);
      var j := KeptIsLine(from, i, now, expireDays, k);
      assert KeyOf(from[j]) == key || ExtendedEarlier(from, i, j, now, expireDays);
    }
  }

  lemma AddIsRight(from: seq<string>, i: nat, now: int, expireDays: nat)
    requires i < |from| && AllLines(from)
    requires MayAdd(Kept(from, i, now, expireDays), from[i], now, expireDays)
    ensures Keeps(from, i, now, expireDays)
  {
    if |KeyOf(from[i])| < DBZMAXKEY {
      KeptKeys(from, i, now, expireDays, KeyOf(from[i]));
    }
  }

  /** The copy that is made when the index misses nothing: one slot, no tags. */
  ghost function OnePathCopy(from: seq<string>, n: nat, now: int, expireDays: nat): seq<string>
    requires n <= |from|
  {
    if n == 0 then []
    else
      var lines, l := OnePathCopy(from, n - 1, now, expireDays), from[n - 1];
      if Recent(l, now, expireDays) && !(|KeyOf(l)| < DBZMAXKEY && HasReading(lines, KeyOf(l))) then lines + [l] else lines
  }

  lemma {:induction false} OnePathIsCopy(from: seq<string>, n: nat, now: int, expireDays: nat)
    requires n <= |from|
    ensures CopyOf(from, n, now, expireDays, OnePathCopy(from, n, now, expireDays))
  {
    hide Recent;
    hide KeyOf;
    if n > 0 {
      OnePathIsCopy(from, n - 1, now, expireDays);
      var lines, l := OnePathCopy(from, n - 1, now, expireDays), from[n - 1];
      UnreadIsNew(lines, KeyOf(l));
      assert (lines + [l])[..|lines|] == lines;
    }
  }

  lemma UnreadIsNew(lines: seq<string>, key: string)
    ensures |key| < DBZMAXKEY && !HasReading(lines, key) ==> NewKey(lines, key)
  {
    hide KeyOf;
    if |key| < DBZMAXKEY && !HasReading(lines, key) {
      forall i | 0 <= i < |lines|
        ensures KeyOf(lines[i]) != key
      {
        assert !ReadsAs(lines[i], key);
      }
    }
  }

  /** A recent line with an extension of the key, and none with the key before. */
  ghost predicate ComesFirst(from: seq<string>, j: nat, key: string, now: int, expireDays: nat) {
    && j < |from| && Recent(from[j], now, expireDays) && ReadsAs(from[j], key) && KeyOf(from[j]) != key
    && !RecentBefore(from, j, key, now, expireDays)
  }

  /** Then that copy never gets a line with the key. */
  lemma {:induction false} OnePathLoses(from: seq<string>, n: nat, now: int, expireDays: nat, key: string, j: nat)
    requires j < n <= |from| && ComesFirst(from, j, key, now, expireDays)
    ensures var lines := OnePathCopy(from, n, now, expireDays);
            NewKey(lines, key) && HasReading(lines, key)
  {
    hide Recent;
    hide KeyOf;
    hide ReadsAs;
    var lines, l := OnePathCopy(from, n - 1, now, expireDays), from[n - 1];
    KeyIsShort(from[j], key);
    if n - 1 > j {
      OnePathLoses(from, n - 1, now, expireDays, key, j);
    } else {
      OnePathBefore(from, j, now, expireDays, key);
      ReadingOfLonger(lines, l, key);
    }
    ReadingStays(lines, lines + [l], key);
    assert (lines + [l])[|lines|] == l;
  }

  lemma KeyIsShort(l: string, key: string)
    requires ReadsAs(l, key)
    ensures |key| < DBZMAXKEY
  {
  }

  lemma ReadingOfLonger(lines: seq<string>, l: string, key: string)
    requires ReadsAs(l, key)
    ensures HasReading(lines, KeyOf(l)) ==> HasReading(lines, key)
    ensures HasReading(lines + [l], key)
    ensures |KeyOf(l)| < DBZMAXKEY
  {
    hide KeyOf;
    assert (lines + [l])[|lines|] == l;
    if k :| 0 <= k < |lines| && ReadsAs(lines[k], KeyOf(l)) {
      assert ReadsAs(lines[k], key);
    }
  }

  lemma OnePathBefore(from: seq<string>, j: nat, now: int, expireDays: nat, key: string)
    requires ComesFirst(from, j, key, now, expireDays)
    ensures NewKey(OnePathCopy(from, j, now, expireDays), key)
  {
    hide Recent;
    hide KeyOf;
    hide ReadsAs;
    var lines := OnePathCopy(from, j, now, expireDays);
    OnePathIsCopy(from, j, now, expireDays);
    CopyIsRecent(from, j, now, expireDays, lines);
    forall k | 0 <= k < |lines|
      ensures KeyOf(lines[k]) != key
    {
      var i: nat :| i < j && from[..j][i] == lines[k];
      assert from[i] == lines[k];
    }
  }

  /** So where all keys share one path, the copy is the lines to keep if and
      only if extensions follow their keys. */
  lemma OnePathIsKeptIff(from: seq<string>, n: nat, now: int, expireDays: nat)
    requires n <= |from| && AllLines(from)
    ensures OnePathCopy(from, n, now, expireDays) == Kept(from, n, now, expireDays)
            <==> RecentInOrder(from, n, now, expireDays)
  {
    hide CopyOf;
    hide Recent;
    OnePathIsCopy(from, n, now, expireDays);
    if RecentInOrder(from, n, now, expireDays) {
      CopyIsKept(from, n, now, expireDays, OnePathCopy(from, n, now, expireDays));
    } else {
      var i: nat, j: nat :| i < n && ExtendedEarlier(from, i, j, now, expireDays)
                            && !RecentBefore(from, j, KeyOf(from[i]), now, expireDays);
      KeyIsShort(from[j], KeyOf(from[i]));
      OnePathLoses(from, n, now, expireDays, KeyOf(from[i]), j);
      KeptKeys(from, n, now, expireDays, KeyOf(from[i]));
    }
  }

  /** Whatever the index answers where it may err, maintenance keeps the lines
      it should, if and only if extensions follow their keys. */
  lemma CopyIsKeptIff(from: seq<string>, n: nat, now: int, expireDays: nat)
    requires n <= |from| && AllLines(from)
    ensures (forall lines :: CopyOf(from, n, now, expireDays, lines) ==> lines == Kept(from, n, now, expireDays))
            <==> RecentInOrder(from, n, now, expireDays)
  {
    hide CopyOf;
    if RecentInOrder(from, n, now, expireDays) {
      forall lines | CopyOf(from, n, now, expireDays, lines)
        ensures lines == Kept(from, n, now, expireDays)
      {
        CopyIsKept(from, n, now, expireDays, lines);
      }
    } else {
      OnePathIsCopy(from, n, now, expireDays);
      OnePathIsKeptIff(from, n, now, expireDays);
    }
  }
}
