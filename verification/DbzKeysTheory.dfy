/** When reading the base file cannot take one key for another. */
module DbzKeysTheory {
  import opened Options
  import opened DbzOffsets
  import opened DbzIndex
  import opened DbzKeys
  import opened DbzLookup

  /** A separator that case mapping leaves alone and never produces. */
  predicate PlainSeparator(sep: char) {
    sep != '@' && sep != NUL && !('A' <= sep <= 'Z') && !('a' <= sep <= 'z')
  }

  /** At `o` the base file has the key text and then the field separator. */
  predicate WrittenAt(st: Style, base: string, raw: string, o: nat) {
    o + |raw| + 1 <= |base| && base[o..o + |raw|] == raw && base[o + |raw|] == st.fieldsep
  }

  /** Case mapping keeps the separator and NUL, and makes neither. */
  lemma MapCaseAt(casemap: char, sep: char, s: string, i: nat)
    requires PlainSeparator(sep) && i < |s|
    ensures MapCase(casemap, s)[i] == s[i] || MapCase(casemap, s)[i] == Lower(s[i])
    ensures MapCase(casemap, s)[i] == sep <==> s[i] == sep
    ensures MapCase(casemap, s)[i] == NUL <==> s[i] == NUL
  {
  }

  predicate IsPostmaster(local: string) { |local| == 11 && LowerAll(local[1..]) == "postmaster" }

  /** Under 'C', the local part of a message-ID keeps its case and the domain
      loses it; postmaster's address loses it altogether. */
  lemma DomainIsMapped(local: string, domain: string)
    requires '@' !in local
    ensures MapCase('C', local) == local
    ensures domain != "" && domain[0] == '@' ==>
              MapCase('C', local + domain) == if IsPostmaster(local) then LowerAll(local + domain) else local + LowerAll(domain)
  {
    NoDomain(local);
    if domain != "" && domain[0] == '@' {
      DomainPoint(local, domain);
      if IsPostmaster(local) {
        MappedWhole('C', local + domain);
      } else {
        MappedFrom('C', local, domain);
      }
    }
  }

  lemma MappedWhole(casemap: char, s: string)
    requires CiPoint(casemap, s) == 0
    ensures MapCase(casemap, s) == LowerAll(s)
  {
  }

  lemma MappedFrom(casemap: char, a: string, b: string)
    requires CiPoint(casemap, a + b) == |a|
    ensures MapCase(casemap, a + b) == a + LowerAll(b)
  {
    forall i | 0 <= i < |a + b|
      ensures MapCase(casemap, a + b)[i] == (a + LowerAll(b))[i]
    {
    }
  }

  lemma NoDomain(local: string)
    requires '@' !in local
    ensures MapCase('C', local) == local
  {
    assert IndexOf(local, '@').None?;
  }

  lemma DomainPoint(local: string, domain: string)
    requires '@' !in local && domain != "" && domain[0] == '@'
    ensures CiPoint('C', local + domain) == if IsPostmaster(local) then 0 else |local|
  {
    hide LowerAll;
    var s, n := local + domain, |local|;
    assert s[n] == '@';
    var i := IndexOf(s, '@').value;
    assert forall k :: 0 <= k < n ==> s[k] == local[k];
    assert forall k :: 0 <= k < i ==> s[..i][k] == s[k];
    assert n == 11 ==> s[1..11] == local[1..];
  }

  /** Only the letters A to Z have another lower case. */
  lemma LowerLetters(c: char)
    ensures Lower(c) == if c in "ABCDEFGHIJKLMNOPQRSTUVWXYZ" then (c as int + ('a' as int - 'A' as int)) as char else c
  {
  }

  /** Under '=' exactly the keys that differ in case are the same. */
  lemma SameUnderMap(s: string, t: string)
    ensures MapCase('=', s) == MapCase('=', t) <==>
            |s| == |t| && forall i :: 0 <= i < |s| ==> Lower(s[i]) == Lower(t[i])
    ensures MapCase('0', s) == s
  {
    var a, b := MapCase('=', s), MapCase('=', t);
    assert forall i :: 0 <= i < |s| ==> a[i] == Lower(s[i]);
    assert forall i :: 0 <= i < |t| ==> b[i] == Lower(t[i]);
  }

  /** Where a key becomes case-insensitive does not depend on the character
      that ends it. */
  lemma CiPointOfEnd(casemap: char, s: string, a: char, b: char)
    requires a != '@' && b != '@'
    ensures var ca, cb := CiPoint(casemap, s + [a]), CiPoint(casemap, s + [b]);
            ca == cb || (ca >= |s| && cb >= |s|)
  {
    var x, y := s + [a], s + [b];
    assert forall i :: 0 <= i < |s| ==> x[i] == y[i];
    SameFirst(x, y, |s|);
    if IndexOf(x, '@') == Some(11) {
      assert x[1..11] == y[1..11];
    }
  }

  lemma SameFirst(x: string, y: string, n: nat)
    requires |x| == |y| == n + 1 && x[n] != '@' && y[n] != '@'
    requires forall i :: 0 <= i < n ==> x[i] == y[i]
    ensures IndexOf(x, '@') == IndexOf(y, '@')
    ensures IndexOf(x, '@').Some? ==> IndexOf(x, '@').value < n
  {
    var i, j := IndexOf(x, '@'), IndexOf(y, '@');
    if i.Some? {
      assert forall k :: 0 <= k < i.value ==> x[..i.value][k] == x[k];
      assert y[i.value] == '@';
    }
    if j.Some? {
      assert forall k :: 0 <= k < j.value ==> y[..j.value][k] == y[k];
      assert x[j.value] == '@';
    }
  }

  lemma MapCaseOfEnd(casemap: char, s: string, a: char, b: char)
    requires a != '@' && b != '@'
    ensures MapCase(casemap, s + [a])[..|s|] == MapCase(casemap, s + [b])[..|s|]
  {
    CiPointOfEnd(casemap, s, a, b);
  }

  /** A key handed over with its terminating NUL. */
  function NulKey(st: Style, raw: string): string {
    MapCase(st.casemap, raw + [NUL])
  }

  /** A key made of ordinary characters only. */
  predicate PlainKey(st: Style, raw: string) {
    0 < |raw| && NUL !in raw && st.fieldsep !in raw
  }

  lemma NulKeyEnds(st: Style, raw: string)
    requires PlainSeparator(st.fieldsep) && PlainKey(st, raw) && |raw| + 1 < DBZMAXKEY
    ensures |NulKey(st, raw)| == |raw| + 1 == KeySize(NulKey(st, raw)) && NulKey(st, raw)[|raw|] == NUL
    ensures forall i :: 0 <= i < |raw| ==> NulKey(st, raw)[i] != st.fieldsep && NulKey(st, raw)[i] != NUL
  {
    MapCaseAt(st.casemap, st.fieldsep, raw + [NUL], |raw|);
    forall i | 0 <= i < |raw|
      ensures NulKey(st, raw)[i] != st.fieldsep && NulKey(st, raw)[i] != NUL
    {
      MapCaseAt(st.casemap, st.fieldsep, raw + [NUL], i);
    }
  }

  /** With the NUL, the text of another key is never taken for this one,
      whatever the case map: NUL-terminated keys are found exactly. */
  lemma NulKeyMatchesOnlyItself(st: Style, base: string, raw: string, stored: string, o: nat)
    requires PlainSeparator(st.fieldsep) && PlainKey(st, raw) && PlainKey(st, stored)
    requires |raw| + 1 < DBZMAXKEY && |stored| + 1 < DBZMAXKEY
    requires WrittenAt(st, base, stored, o)
    ensures Matches(st, base, NulKey(st, raw), o) <==> NulKey(st, raw) == NulKey(st, stored)
  {
    var key := NulKey(st, raw);
    NulKeyEnds(st, raw);
    NulKeyEnds(st, stored);
    if ShortRead(base, key, o) {
      assert |key| != |NulKey(st, stored)|;
    } else {
      TextAt(st, base, stored, o, KeySize(key));
      NulKeyAgainstText(st, raw, stored, TextRead(base, key, o));
    }
  }

  lemma TextAt(st: Style, base: string, stored: string, o: nat, n: nat)
    requires WrittenAt(st, base, stored, o) && o + n <= |base|
    ensures forall i :: 0 <= i < n && i < |stored| ==> base[o..o + n][i] == stored[i]
    ensures |stored| < n ==> base[o..o + n][|stored|] == st.fieldsep
  {
    forall i | 0 <= i < n && i < |stored|
      ensures base[o..o + n][i] == stored[i]
    {
      assert base[o..o + |stored|][i] == stored[i];
    }
  }

  lemma NulKeyAgainstText(st: Style, raw: string, stored: string, text: string)
    requires PlainSeparator(st.fieldsep) && PlainKey(st, raw) && PlainKey(st, stored)
    requires |raw| + 1 < DBZMAXKEY && |stored| + 1 < DBZMAXKEY && |text| == |raw| + 1
    requires forall i :: 0 <= i < |text| && i < |stored| ==> text[i] == stored[i]
    requires |stored| < |text| ==> text[|stored|] == st.fieldsep
    ensures |NulKey(st, raw)| == |text|
    ensures TextMatches(st, NulKey(st, raw), text) <==> NulKey(st, raw) == NulKey(st, stored)
  {
    hide NulKey;
    hide TextMatches;
    hide MapCase;
    NulKeyEnds(st, raw);
    NulKeyEnds(st, stored);
    if |raw| == |stored| {
      assert text == stored + [st.fieldsep];
      SameLengthText(st, NulKey(st, raw), stored);
    } else {
      OtherLengthText(st, raw, text, |stored|);
    }
  }

  /** A text that ends, or goes on, where the key does not. */
  lemma OtherLengthText(st: Style, raw: string, text: string, m: nat)
    requires PlainSeparator(st.fieldsep) && PlainKey(st, raw) && |raw| + 1 < DBZMAXKEY
    requires |text| == |raw| + 1 && m != |raw|
    requires if m < |raw| then text[m] == st.fieldsep else text[|raw|] != NUL && text[|raw|] != st.fieldsep
    ensures |NulKey(st, raw)| == |text| && !TextMatches(st, NulKey(st, raw), text)
  {
    hide NulKey;
    hide MapCase;
    var key := NulKey(st, raw);
    NulKeyEnds(st, raw);
    assert key[..KeySize(key)] == key;
    MapCaseAt(st.casemap, st.fieldsep, text, |raw|);
    if m < |raw| {
      MapCaseAt(st.casemap, st.fieldsep, text, m);
      SeparatorInside(key, MapCase(st.casemap, text), |raw|, m, st.fieldsep);
    }
  }

  lemma SeparatorInside(key: string, mapped: string, n: nat, i: nat, sep: char)
    requires i < n < |key| && n < |mapped| && mapped[i] == sep && key[i] != sep
    ensures mapped[..n] != key[..n]
  {
    assert mapped[..n][i] != key[..n][i];
  }

  lemma SameLengthText(st: Style, key: string, stored: string)
    requires PlainSeparator(st.fieldsep) && PlainKey(st, stored) && |stored| + 1 < DBZMAXKEY
    requires |key| == |stored| + 1 && key[|stored|] == NUL
    ensures TextMatches(st, key, stored + [st.fieldsep]) <==> key == NulKey(st, stored)
  {
    NulKeyEnds(st, stored);
    MapCaseAt(st.casemap, st.fieldsep, stored + [st.fieldsep], |stored|);
    MapCaseOfEnd(st.casemap, stored, st.fieldsep, NUL);
    SameButEnd(key, NulKey(st, stored), |stored|);
    var mapped := MapCase(st.casemap, stored + [st.fieldsep]);
    assert key[..KeySize(key)] == key;
    assert SameKey(st, key, mapped) <==> mapped[..|stored|] == key[..|stored|];
  }

  lemma SameButEnd(a: string, b: string, n: nat)
    requires |a| == |b| == n + 1 && a[n] == b[n]
    ensures a[..n] == b[..n] <==> a == b
  {
    assert a == a[..n] + [a[n]] && b == b[..n] + [b[n]];
  }

  /** Every stored pair is a plain key whose line is in the base file. */
  ghost predicate NulLines(st: Style, base: string, log: seq<Entry>, raws: seq<string>) {
    && |raws| == |log|
    && forall i: nat :: i < |log| ==>
         && PlainKey(st, raws[i]) && |raws[i]| + 1 < DBZMAXKEY
         && WrittenAt(st, base, raws[i], Pos(log[i].value))
         && log[i].key == NulKey(st, raws[i])
  }

  lemma NulKeysAreUnshadowed(st: Style, base: string, log: seq<Entry>, raws: seq<string>, raw: string)
    requires PlainSeparator(st.fieldsep) && PlainKey(st, raw) && |raw| + 1 < DBZMAXKEY
    requires NulLines(st, base, log, raws)
    ensures Consistent(st, base, log)
    ensures forall i: nat :: i < |log| && Matches(st, base, NulKey(st, raw), Pos(log[i].value))
                             ==> log[i].key == NulKey(st, raw)
    ensures Unshadowed(st, base, log, NulKey(st, raw))
  {
    forall i: nat | i < |log|
      ensures 0 < |log[i].key| && Matches(st, base, log[i].key, Pos(log[i].value))
      ensures Matches(st, base, NulKey(st, raw), Pos(log[i].value)) ==> log[i].key == NulKey(st, raw)
    {
      NulKeyMatchesOnlyItself(st, base, raws[i], raws[i], Pos(log[i].value));
      NulKeyMatchesOnlyItself(st, base, raw, raws[i], Pos(log[i].value));
    }
  }

  /** Keys as this repository uses them: no NUL, no case mapping. */
  ghost predicate BareLines(st: Style, base: string, log: seq<Entry>) {
    && st.casemap == '0'
    && forall i: nat :: i < |log| ==>
         && PlainKey(st, log[i].key) && |log[i].key| < DBZMAXKEY
         && WrittenAt(st, base, log[i].key, Pos(log[i].value))
  }

  /** Without the NUL, a key matches the text of exactly those stored keys
      that it, or the part of it that is compared, is a prefix of. */
  lemma BareKeyMatchesExtensions(st: Style, base: string, key: string, stored: string, o: nat)
    requires st.casemap == '0' && PlainKey(st, key) && PlainKey(st, stored)
    requires WrittenAt(st, base, stored, o)
    ensures Matches(st, base, key, o) <==> key[..KeySize(key)] <= stored
  {
    var n := KeySize(key);
    if |base| >= o + n {
      TextAt(st, base, stored, o, n);
    }
  }

  predicate ProperPrefix(a: string, b: string) { a < b }

  /** No proper extension of the key was stored before its first pair. */
  ghost predicate NoEarlierExtension(log: seq<Entry>, key: string) {
    forall i: nat :: i < |log| && ProperPrefix(key, log[i].key) ==> StoredBefore(log, key, i)
  }

  /** So bare keys are taken for another exactly when that one extends them
      and was stored before. */
  lemma BareKeysAreUnshadowed(st: Style, base: string, log: seq<Entry>, key: string)
    requires PlainKey(st, key) && |key| < DBZMAXKEY && BareLines(st, base, log)
    ensures Consistent(st, base, log)
    ensures Unshadowed(st, base, log, key) <==> NoEarlierExtension(log, key)
  {
    hide Matches;
    forall i: nat | i < |log|
      ensures 0 < |log[i].key| && Matches(st, base, log[i].key, Pos(log[i].value))
      ensures Matches(st, base, key, Pos(log[i].value)) && log[i].key != key <==> ProperPrefix(key, log[i].key)
      ensures ProperPrefix(key, log[i].key) ==> Lookup(log, key) != Some(log[i].value)
    {
      BareKeyMatchesExtensions(st, base, log[i].key, log[i].key, Pos(log[i].value));
      BareKeyMatchesExtensions(st, base, key, log[i].key, Pos(log[i].value));
      if ProperPrefix(key, log[i].key) && Lookup(log, key) == Some(log[i].value) {
        var j := FirstPair(log, key);
        OffsetsDiffer(st, base, key, log[i].key, Pos(log[i].value));
      }
    }
  }

  /** A key and its extension cannot be written at the same place. */
  lemma OffsetsDiffer(st: Style, base: string, key: string, longer: string, o: nat)
    requires WrittenAt(st, base, key, o) && WrittenAt(st, base, longer, o) && PlainKey(st, longer)
    ensures !ProperPrefix(key, longer)
  {
    WrittenChar(st, base, longer, o, if |key| < |longer| then |key| else 0);
  }

  lemma WrittenChar(st: Style, base: string, raw: string, o: nat, i: nat)
    requires WrittenAt(st, base, raw, o) && i < |raw|
    ensures base[o + i] == raw[i]
  {
    assert base[o..o + |raw|][i] == base[o + i];
  }

  /** A key too long to be stored matches nothing. */
  lemma LongKeyMatchesNothing(st: Style, base: string, log: seq<Entry>, key: string)
    requires PlainKey(st, key) && |key| >= DBZMAXKEY && BareLines(st, base, log)
    ensures Consistent(st, base, log)
    ensures forall i: nat :: i < |log| ==> !Matches(st, base, key[..KeySize(key)], Pos(log[i].value))
  {
    var k := key[..KeySize(key)];
    forall i: nat | i < |log|
      ensures 0 < |log[i].key| && Matches(st, base, log[i].key, Pos(log[i].value))
      ensures !Matches(st, base, k, Pos(log[i].value))
    {
      BareKeyMatchesExtensions(st, base, log[i].key, log[i].key, Pos(log[i].value));
      BareKeyMatchesExtensions(st, base, k, log[i].key, Pos(log[i].value));
    }
  }
}
