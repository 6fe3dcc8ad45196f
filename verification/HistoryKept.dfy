/** Which lines history maintenance keeps. */
module HistoryKept {
  import opened Options
  import opened DbzKeys
  import opened HistoryText
  import opened HistoryDates

  /** The date of a line is recent enough to keep it. */
  predicate Recent(l: string, now: int, expireDays: nat) {
    Atol(RestOf(l)) + 99600 * expireDays >= now
  }

  /** The first line is old enough for maintenance to rebuild the file. */
  predicate Due(lines: seq<string>, now: int, expireDays: nat) {
    lines != [] && Atol(RestOf(lines[0])) + 86400 * expireDays * 2 < now
  }

  /** Line i is recent, and no earlier recent line has its key. Keys too long
      for the index are not recognized again. */
  predicate Keeps(lines: seq<string>, i: nat, now: int, expireDays: nat)
    requires i < |lines|
  {
    && Recent(lines[i], now, expireDays)
    && (|KeyOf(lines[i])| < DBZMAXKEY ==>
          forall j :: 0 <= j < i && Recent(lines[j], now, expireDays) ==> KeyOf(lines[j]) != KeyOf(lines[i]))
  }

  /** The kept lines among the first n, in order. */
  function Kept(lines: seq<string>, n: nat, now: int, expireDays: nat): seq<string>
    requires n <= |lines|
  {
    if n == 0 then []
    else Kept(lines, n - 1, now, expireDays) + if Keeps(lines, n - 1, now, expireDays) then [lines[n - 1]] else []
  }

  /** Every kept line is a line of the file that deserves it. */
  lemma {:induction false} KeptIsLine(lines: seq<string>, n: nat, now: int, expireDays: nat, i: nat) returns (j: nat)
    requires n <= |lines| && i < |Kept(lines, n, now, expireDays)|
    ensures j < n && Keeps(lines, j, now, expireDays) && lines[j] == Kept(lines, n, now, expireDays)[i]
  {
    hide Keeps;
    if i < |Kept(lines, n - 1, now, expireDays)| {
      j := KeptIsLine(lines, n - 1, now, expireDays, i);
    } else {
      j := n - 1;
    }
  }

  lemma KeptAllLines(lines: seq<string>, n: nat, now: int, expireDays: nat)
    requires n <= |lines| && AllLines(lines)
    ensures AllLines(Kept(lines, n, now, expireDays))
  {
    forall i | 0 <= i < |Kept(lines, n, now, expireDays)|
      ensures IsLine(Kept(lines, n, now, expireDays)[i])
    {
      var j := KeptIsLine(lines, n, now, expireDays, i);
    }
  }

  /** The key of a recent line is among the kept ones, and no other is. */
  lemma {:induction false} KeptKeys(lines: seq<string>, n: nat, now: int, expireDays: nat, key: string)
    requires n <= |lines| && AllLines(lines) && |key| < DBZMAXKEY
    ensures AllLines(Kept(lines, n, now, expireDays))
    ensures FirstLine(Kept(lines, n, now, expireDays), key).Some? <==>
            exists j :: 0 <= j < n && Recent(lines[j], now, expireDays) && KeyOf(lines[j]) == key
  {
    KeptAllLines(lines, n, now, expireDays);
    var kept := Kept(lines, n, now, expireDays);
    if FirstLine(kept, key).Some? {
      var j := KeptIsLine(lines, n, now, expireDays, FirstLine(kept, key).value);
      assert KeyOf(lines[j]) == key;
    }
    if j :| 0 <= j < n && Recent(lines[j], now, expireDays) && KeyOf(lines[j]) == key {
      var i := FirstRecent(lines, j, now, expireDays);
      KeptContains(lines, n, now, expireDays, i);
    }
  }

  lemma {:induction false} FirstRecent(lines: seq<string>, j: nat, now: int, expireDays: nat) returns (i: nat)
    requires j < |lines| && Recent(lines[j], now, expireDays) && |KeyOf(lines[j])| < DBZMAXKEY
    ensures i <= j && Keeps(lines, i, now, expireDays) && KeyOf(lines[i]) == KeyOf(lines[j])
  {
    if j': nat :| j' < j && Recent(lines[j'], now, expireDays) && KeyOf(lines[j']) == KeyOf(lines[j]) {
      i := FirstRecent(lines, j', now, expireDays);
    } else {
      i := j;
    }
  }

  lemma {:induction false} KeptContains(lines: seq<string>, n: nat, now: int, expireDays: nat, i: nat)
    requires i < n <= |lines| && Keeps(lines, i, now, expireDays)
    ensures lines[i] in Kept(lines, n, now, expireDays)
  {
    hide Keeps;
    if i < n - 1 {
      KeptContains(lines, n - 1, now, expireDays, i);
    }
  }

  predicate DistinctKeys(lines: seq<string>) {
    forall i, j :: 0 <= i < j < |lines| ==> KeyOf(lines[i]) != KeyOf(lines[j])
  }

  lemma KeptKeyIsNew(lines: seq<string>, n: nat, now: int, expireDays: nat)
    requires n < |lines| && |KeyOf(lines[n])| < DBZMAXKEY
    ensures Keeps(lines, n, now, expireDays) ==> NewKey(Kept(lines, n, now, expireDays), KeyOf(lines[n]))
  {
    forall i | 0 <= i < |Kept(lines, n, now, expireDays)| && Keeps(lines, n, now, expireDays)
      ensures KeyOf(Kept(lines, n, now, expireDays)[i]) != KeyOf(lines[n])
    {
      var j := KeptIsLine(lines, n, now, expireDays, i);
    }
  }

  /** One line per key is kept, as long as the keys fit the index. */
  lemma {:induction false} KeptAreDistinct(lines: seq<string>, n: nat, now: int, expireDays: nat)
    requires n <= |lines|
    requires forall i :: 0 <= i < |lines| ==> |KeyOf(lines[i])| < DBZMAXKEY
    ensures DistinctKeys(Kept(lines, n, now, expireDays))
  {
    hide Keeps;
    hide KeyOf;
    if n > 0 {
      KeptAreDistinct(lines, n - 1, now, expireDays);
      KeptKeyIsNew(lines, n - 1, now, expireDays);
      var before, keep := Kept(lines, n - 1, now, expireDays), Keeps(lines, n - 1, now, expireDays);
      DistinctAppend(before, lines[n - 1], keep);
      var after := before + if keep then [lines[n - 1]] else [];
      assert after == Kept(lines, n, now, expireDays);
    }
  }

  predicate NewKey(lines: seq<string>, key: string) {
    forall i :: 0 <= i < |lines| ==> KeyOf(lines[i]) != key
  }

  lemma AppendDistinctIff(lines: seq<string>, l: string)
    requires AllLines(lines)
    ensures DistinctKeys(lines + [l]) <==> DistinctKeys(lines) && FirstLine(lines, KeyOf(l)).None?
  {
    var all := lines + [l];
    assert forall i :: 0 <= i < |lines| ==> all[i] == lines[i];
    if FirstLine(lines, KeyOf(l)).Some? {
      assert KeyOf(all[FirstLine(lines, KeyOf(l)).value]) == KeyOf(all[|lines|]);
    }
  }

  lemma DistinctAppend(lines: seq<string>, l: string, keep: bool)
    requires DistinctKeys(lines) && (keep ==> NewKey(lines, KeyOf(l)))
    ensures DistinctKeys(lines + if keep then [l] else [])
  {
  }

  /** The line that makes maintenance due is never one of those kept, so it
      is right not to read it again. */
  lemma FirstLineIsDropped(lines: seq<string>, now: int, expireDays: nat)
    requires Due(lines, now, expireDays)
    ensures Kept(lines, 1, now, expireDays) == []
  {
    assert 86400 * expireDays * 2 >= 99600 * expireDays;
  }

  /** fgets with a buffer of 4096 bytes, at position `pos`. */
  function Fgets(text: string, pos: nat): string
    requires pos <= |text|
  {
    var rest := text[pos..];
    var limit := if |rest| < 4095 then |rest| else 4095;
    match IndexOf(rest[..limit], '\n')
    case Some(nl) => rest[..nl + 1]
    case None => rest[..limit]
  }

  /** Reading line by line gets the lines. */
  lemma FgetsReadsLine(lines: seq<string>, i: nat)
    requires AllLines(lines) && i < |lines|
    ensures Start(lines, i) <= |Join(lines)|
    ensures Fgets(Join(lines), Start(lines, i)) == lines[i]
    ensures Start(lines, i + 1) == Start(lines, i) + |lines[i]|
  {
    LineAtStart(lines, i);
    LineFromText(Join(lines), Start(lines, i), lines[i]);
    NextStart(lines, i);
  }

  lemma NextStart(lines: seq<string>, i: nat)
    requires i < |lines|
    ensures Start(lines, i + 1) == Start(lines, i) + |lines[i]|
  {
    assert lines[..i + 1] == lines[..i] + [lines[i]];
    JoinAppend(lines[..i], lines[i]);
  }

  lemma LineFromText(text: string, pos: nat, l: string)
    requires IsLine(l) && pos + |l| <= |text| && text[pos..pos + |l|] == l
    ensures Fgets(text, pos) == l
  {
    var rest := text[pos..];
    assert rest[..|l|] == l;
    var limit := if |rest| < 4095 then |rest| else 4095;
    var window := rest[..limit];
    assert window[..|l|] == l;
    NewlineOfPrefix(l, window);
  }

  lemma NewlineOfPrefix(l: string, text: string)
    requires IsLine(l) && |l| <= |text| && text[..|l|] == l
    ensures IndexOf(text, '\n') == Some(|l| - 1)
  {
    var n := |l| - 1;
    assert forall k :: 0 <= k < |l| ==> text[..|l|][k] == text[k];
    assert text[n] == '\n';
    var i := IndexOf(text, '\n').value;
    assert forall k :: 0 <= k < n ==> l[..n][k] == text[k];
    assert forall k :: 0 <= k < i ==> text[..i][k] == text[k];
  }
}
