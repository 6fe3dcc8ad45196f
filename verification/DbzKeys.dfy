/** Keys: case mapping, and the comparison of a key with the base file. */
module DbzKeys {
  import opened Options

  const DBZMAXKEY: nat := 255
  const NUL: char := '\0'

  /** The configured case map and field separator. */
  datatype Style = Style(casemap: char, fieldsep: char)

  function Lower(c: char): char {
    if 'A' <= c <= 'Z' then c + 32 as char else c
  }

  function LowerAll(s: string): (r: string)
    ensures |r| == |s| && forall i :: 0 <= i < |s| ==> r[i] == Lower(s[i])
  {
    seq(|s|, i requires 0 <= i < |s| => Lower(s[i]))
  }

  /** memchr, strchr: the first occurrence of `c`. */
  function IndexOf(s: string, c: char): (r: Option<nat>)
    ensures r.Some? ==> r.value < |s| && s[r.value] == c && c !in s[..r.value]
    ensures r.None? <==> c !in s
  {
    if s == "" then None
    else if s[0] == c then Some(0)
    else
      var rest := IndexOf(s[1..], c);
      assert forall i | 0 < i < |s| :: s[i] == s[1..][i - 1];
      match rest
      case None => None
      case Some(i) =>
        assert s[..i + 1] == [s[0]] + s[1..][..i];
        Some(i + 1)
  }

  /** cipoint: where the key becomes case-insensitive; |s| for nowhere. */
  function CiPoint(casemap: char, s: string): (c: nat)
    ensures c <= |s|
  {
    match casemap
    case 'C' =>
      (match IndexOf(s, '@')
       case None => |s|
       case Some(p) => if p == 11 && LowerAll(s[1..11]) == "postmaster" then 0 else p)
    case '=' => 0
    case _ => |s|
  }

  function MapCase(casemap: char, s: string): (r: string)
    ensures |r| == |s|
    ensures forall i :: 0 <= i < |s| ==> r[i] == if i < CiPoint(casemap, s) then s[i] else Lower(s[i])
  {
    var c := CiPoint(casemap, s);
    s[..c] + LowerAll(s[c..])
  }

  /** The number of bytes fetch reads and compares. */
  function KeySize(key: string): nat {
    if |key| >= DBZMAXKEY then DBZMAXKEY else |key|
  }

  /** fread of keysize bytes at offset `o` gives fewer. */
  predicate ShortRead(base: string, key: string, o: nat) {
    o + KeySize(key) > |base|
  }

  function TextRead(base: string, key: string, o: nat): (text: string)
    requires !ShortRead(base, key, o)
    ensures |text| == KeySize(key)
  {
    base[o..o + KeySize(key)]
  }

  /** The test fetch makes on the text it read. A NUL that ends the key is
      not compared: the text must then have the separator or a NUL there. */
  predicate TextMatches(st: Style, key: string, text: string)
    requires 0 < |key| && |text| == KeySize(key)
  {
    SameKey(st, key[..KeySize(key)], MapCase(st.casemap, text))
  }

  /** memcmp on the compared part, and the test of *sepp. */
  predicate SameKey(st: Style, key: string, mapped: string)
    requires 0 < |key| == |mapped|
  {
    var n := |key| - 1;
    if key[n] == NUL then mapped[..n] == key[..n] && (mapped[n] == st.fieldsep || mapped[n] == NUL)
    else mapped == key
  }

  predicate Matches(st: Style, base: string, key: string, o: nat)
    requires 0 < |key|
  {
    !ShortRead(base, key, o) && TextMatches(st, key, TextRead(base, key, o))
  }

  /** Appending to the base file changes no comparison that found its text. */
  lemma MatchesKept(st: Style, base: string, more: string, key: string, o: nat)
    requires 0 < |key| && Matches(st, base, key, o)
    ensures Matches(st, base + more, key, o)
  {
    hide MapCase;
    hide SameKey;
    assert (base + more)[o..o + KeySize(key)] == base[o..o + KeySize(key)];
  }
}
