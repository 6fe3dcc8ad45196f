/** The language of patterns: what is written in one, what it means, and that
    the matcher decides just that. */
module WildmatPatterns {
  import opened Options
  import opened Wildmat

  /** What is written in a class behind its first character: one character, or
      a dash and the end of a range that begins with the character before. */
  datatype Item = One(c: Char) | To(c: Char)

  /** What a pattern is made of. A backslash at the very end quotes nothing. */
  datatype Token =
    | Stars
    | AnyOne
    | Exactly(c: Char, quoted: bool)
    | OneOf(inverted: bool, first: Char, rest: seq<Item>)
    | Dangling

  // ---------- how it is written ----------

  function PrintItem(it: Item): (s: seq<Char>)
    ensures |s| > 0
  {
    if it.To? then [DASH, it.c] else [it.c]
  }

  function PrintItems(items: seq<Item>): seq<Char> {
    if items == [] then [] else PrintItem(items[0]) + PrintItems(items[1..])
  }

  function Print(tok: Token): (s: seq<Char>)
    ensures |s| > 0
  {
    match tok
    case Stars => [STAR]
    case AnyOne => [QUERY]
    case Exactly(c, quoted) => if quoted then [BACKSLASH, c] else [c]
    case OneOf(inverted, first, rest) =>
      [OPEN] + (if inverted then [NEGATE_CLASS] else []) + [first] + PrintItems(rest) + [CLOSE]
    case Dangling => [BACKSLASH]
  }

  function PrintAll(toks: seq<Token>): seq<Char> {
    if toks == [] then [] else Print(toks[0]) + PrintAll(toks[1..])
  }

  /** A closing bracket or a dash can only be the first member, and a dash also
      the last one. */
  predicate ItemsOk(items: seq<Item>) {
    forall i :: 0 <= i < |items| ==>
      items[i].c != CLOSE && (items[i] == One(DASH) ==> i == |items| - 1)
  }

  predicate TokenOk(tok: Token) {
    match tok
    case Exactly(c, quoted) => quoted || (c != STAR && c != QUERY && c != OPEN && c != BACKSLASH)
    case OneOf(inverted, first, rest) => (inverted || first != NEGATE_CLASS) && ItemsOk(rest)
    case _ => true
  }

  predicate TokensOk(toks: seq<Token>) {
    forall i :: 0 <= i < |toks| ==> TokenOk(toks[i]) && (toks[i].Dangling? ==> i == |toks| - 1)
  }

  // ---------- what it means ----------

  /** Character c is in the class: it is written there, or in a range that is. */
  ghost predicate Contains(first: Char, rest: seq<Item>, c: Char) {
    c == first || HasItem(first, rest, c)
  }

  ghost predicate HasItem(before: Char, items: seq<Item>, c: Char) {
    exists i: nat :: i < |items| && ItemHas(before, items, i, c)
  }

  predicate ItemHas(before: Char, items: seq<Item>, i: nat, c: Char)
    requires i < |items|
  {
    InItem(if i == 0 then before else items[i - 1].c, items[i], c)
  }

  predicate InItem(before: Char, it: Item, c: Char) {
    if it.To? then before <= c <= it.c else c == it.c
  }

  /** The token stands for this piece of the text. */
  ghost predicate StandsFor(tok: Token, piece: seq<Char>) {
    match tok
    case Stars => true
    case AnyOne => |piece| == 1
    case Exactly(c, _) => piece == [c]
    case OneOf(inverted, first, rest) => |piece| == 1 && Contains(first, rest, piece[0]) != inverted
    case Dangling => piece == [NUL]
  }

  /** The text is cut into pieces, one for each token. */
  ghost predicate Cuts(toks: seq<Token>, text: seq<Char>, cuts: seq<nat>) {
    && |cuts| == |toks| + 1 && cuts[0] == 0 && cuts[|toks|] == |text|
    && forall i :: 0 <= i < |toks| ==> PieceOk(toks[i], text, cuts[i], cuts[i + 1])
  }

  ghost predicate PieceOk(tok: Token, text: seq<Char>, a: nat, b: nat) {
    a <= b <= |text| && StandsFor(tok, text[a..b])
  }

  ghost predicate Means(toks: seq<Token>, text: seq<Char>) {
    exists cuts: seq<nat> :: Cuts(toks, text, cuts)
  }

  // ---------- the parser reads what is written ----------

  function MemberOf(before: Char, it: Item): Member {
    if it.To? then Range(before, it.c) else Single(it.c)
  }

  function Members(before: Char, items: seq<Item>): seq<Member>
    decreases |items|
  {
    if items == [] then [] else [MemberOf(before, items[0])] + Members(items[0].c, items[1..])
  }

  function ElementOf(tok: Token): Element {
    match tok
    case Stars => Star
    case AnyOne => Any
    case Exactly(c, _) => Literal(c)
    case OneOf(inverted, first, rest) => Class(inverted, [Single(first)] + Members(first, rest))
    case Dangling => Literal(NUL)
  }

  function ElementsOf(toks: seq<Token>): seq<Element> {
    if toks == [] then [] else [ElementOf(toks[0])] + ElementsOf(toks[1..])
  }

  /** The pattern has this text at place k. */
  predicate At(p: seq<Char>, k: nat, s: seq<Char>) {
    k + |s| <= |p| && p[k..k + |s|] == s
  }

  lemma AtParts(p: seq<Char>, k: nat, s: seq<Char>, t: seq<Char>)
    ensures At(p, k, s + t) <==> At(p, k, s) && At(p, k + |s|, t)
  {
    if At(p, k, s + t) {
      assert p[k..k + |s|] == p[k..k + |s + t|][..|s|];
      assert p[k + |s|..k + |s| + |t|] == p[k..k + |s + t|][|s|..];
    }
    if At(p, k, s) && At(p, k + |s|, t) {
      assert p[k..k + |s| + |t|] == p[k..k + |s|] + p[k + |s|..k + |s| + |t|];
    }
  }

  lemma AtOne(p: seq<Char>, k: nat, c: Char)
    ensures At(p, k, [c]) <==> k < |p| && p[k] == c
  {
    if k < |p| {
      assert p[k..k + 1] == [p[k]];
    }
  }

  lemma AtTwo(p: seq<Char>, k: nat, c: Char, d: Char)
    ensures At(p, k, [c, d]) <==> k + 1 < |p| && p[k] == c && p[k + 1] == d
  {
    if k + 1 < |p| {
      assert p[k..k + 2] == [p[k], p[k + 1]];
    }
  }

  /** The rest of a class, up to its closing bracket. */
  lemma {:induction false} ParsesItems(p: seq<Char>, k: nat, before: Char, items: seq<Item>)
    requires ItemsOk(items) && At(p, k, PrintItems(items) + [CLOSE])
    ensures ParseMembers(p, k, before) == Some((Members(before, items), k + |PrintItems(items)|))
    decreases |items|
  {
    hide At;
    AtParts(p, k, PrintItems(items), [CLOSE]);
    AtOne(p, k + |PrintItems(items)|, CLOSE);
    if items != [] {
      var it, tail := items[0], items[1..];
      AtParts(p, k, PrintItem(it), PrintItems(tail));
      AtParts(p, k + |PrintItem(it)|, PrintItems(tail), [CLOSE]);
      AtOne(p, k, it.c);
      AtTwo(p, k, DASH, it.c);
      TailOk(items);
      ParsesItems(p, k + |PrintItem(it)|, it.c, tail);
    }
  }

  lemma TailOk(items: seq<Item>)
    requires ItemsOk(items) && items != []
    ensures ItemsOk(items[1..])
  {
    forall i | 0 <= i < |items[1..]|
      ensures items[1..][i] == items[i + 1]
    {
    }
  }

  function Head(inverted: bool): seq<Char> { if inverted then [OPEN, NEGATE_CLASS] else [OPEN] }

  /** A class, with its first member at place f. */
  lemma ClassParts(p: seq<Char>, i: nat, inverted: bool, first: Char, rest: seq<Item>)
    ensures var f := i + |Head(inverted)|;
            At(p, i, Print(OneOf(inverted, first, rest))) <==>
            && f < |p| && p[i] == OPEN && (inverted ==> p[i + 1] == NEGATE_CLASS) && p[f] == first
            && At(p, f + 1, PrintItems(rest) + [CLOSE])
    ensures |Print(OneOf(inverted, first, rest))| == |Head(inverted)| + |PrintItems(rest)| + 2
  {
    hide At;
    hide PrintItems;
    var tail := PrintItems(rest) + [CLOSE];
    assert Print(OneOf(inverted, first, rest)) == Head(inverted) + ([first] + tail);
    AtParts(p, i, Head(inverted), [first] + tail);
    AtOne(p, i, OPEN);
    AtTwo(p, i, OPEN, NEGATE_CLASS);
    AtParts(p, i + |Head(inverted)|, [first], tail);
    AtOne(p, i + |Head(inverted)|, first);
  }

  lemma ParsesClass(p: seq<Char>, i: nat, inverted: bool, first: Char, rest: seq<Item>)
    requires TokenOk(OneOf(inverted, first, rest)) && At(p, i, Print(OneOf(inverted, first, rest)))
    ensures i < |p| && p[i] == OPEN
    ensures ParseClass(p, i) ==
            Some((ElementOf(OneOf(inverted, first, rest)), i + |Print(OneOf(inverted, first, rest))| - 1))
  {
    hide At;
    hide Print;
    hide ItemsOk;
    hide PrintItems;
    hide Members;
    hide ParseMembers;
    ClassParts(p, i, inverted, first, rest);
    var f := i + |Head(inverted)|;
    ParsesItems(p, f + 1, first, rest);
    ParsesFirst(p, f, p[f - 1]);
  }

  /** An ordinary first member is parsed like the others. */
  lemma ParsesFirst(p: seq<Char>, f: nat, before: Char)
    requires f < |p| && ParseMembers(p, f + 1, p[f]).Some?
    ensures p[f] != CLOSE && p[f] != DASH ==>
              var found := ParseMembers(p, f + 1, p[f]).value;
              ParseMembers(p, f, before) == Some(([Single(p[f])] + found.0, found.1))
  {
  }

  lemma ParsesOne(p: seq<Char>, i: nat, tok: Token)
    requires TokenOk(tok) && At(p, i, Print(tok)) && (tok.Dangling? ==> i + 1 == |p|)
    ensures i < |p| && ParseOne(p, i) == Some((ElementOf(tok), i + |Print(tok)|))
  {
    match tok
    case OneOf(inverted, first, rest) => ParsesClass(p, i, inverted, first, rest);
    case Exactly(c, quoted) =>
      AtOne(p, i, c);
      AtTwo(p, i, BACKSLASH, c);
    case Stars => AtOne(p, i, STAR);
    case AnyOne => AtOne(p, i, QUERY);
    case Dangling => AtOne(p, i, BACKSLASH);
  }

  /** Parsing what was printed gives back what was meant. */
  lemma {:induction false} ParsesAll(p: seq<Char>, i: nat, toks: seq<Token>)
    requires TokensOk(toks) && i <= |p| && p[i..] == PrintAll(toks)
    ensures Parse(p, i) == Some(ElementsOf(toks))
    decreases |toks|
  {
    hide Print;
    hide ElementOf;
    hide TokenOk;
    hide At;
    hide TokensOk;
    hide ParseOne;
    if toks != [] {
      var tok, rest := toks[0], toks[1..];
      TextSplits(p, i, Print(tok), PrintAll(rest));
      DanglingIsLast(toks, p, i);
      RestOk(toks);
      ParsesOne(p, i, tok);
      ParsesAll(p, i + |Print(tok)|, rest);
    }
  }

  lemma TextSplits(p: seq<Char>, i: nat, s: seq<Char>, t: seq<Char>)
    requires i <= |p| && p[i..] == s + t
    ensures At(p, i, s) && i + |s| <= |p| && p[i + |s|..] == t
  {
    assert p[i..i + |s|] == p[i..][..|s|] && p[i + |s|..] == p[i..][|s|..];
  }

  lemma RestOk(toks: seq<Token>)
    requires TokensOk(toks) && toks != []
    ensures TokenOk(toks[0]) && TokensOk(toks[1..])
  {
    hide TokenOk;
    forall k | 0 <= k < |toks| - 1
      ensures toks[1..][k] == toks[k + 1]
    {
    }
  }

  lemma DanglingIsLast(toks: seq<Token>, p: seq<Char>, i: nat)
    requires TokensOk(toks) && toks != [] && i <= |p| && p[i..] == PrintAll(toks)
    ensures toks[0].Dangling? ==> i + 1 == |p|
  {
    if toks[0].Dangling? {
      assert |toks| == 1 && toks[1..] == [];
      assert |p[i..]| == 1;
    }
  }

  // ---------- every pattern is written so ----------

  /** The items between place k and the closing bracket. */
  lemma {:induction false} ItemsOf(p: seq<Char>, k: nat, before: Char) returns (items: seq<Item>)
    requires k <= |p| && ParseMembers(p, k, before).Some?
    ensures ItemsOk(items) && At(p, k, PrintItems(items) + [CLOSE])
    ensures k + |PrintItems(items)| == ParseMembers(p, k, before).value.1
    decreases |p| - k
  {
    hide At;
    if p[k] == CLOSE {
      items := [];
      AtOne(p, k, CLOSE);
      assert PrintItems([]) + [CLOSE] == [CLOSE];
    } else {
      var it := if p[k] == DASH && p[k + 1] != CLOSE then To(p[k + 1]) else One(p[k]);
      var n := |PrintItem(it)|;
      var tail := ItemsOf(p, k + n, it.c);
      items := [it] + tail;
      assert items[1..] == tail;
      AtOne(p, k, it.c);
      AtTwo(p, k, DASH, it.c);
      AtParts(p, k, PrintItem(it), PrintItems(tail) + [CLOSE]);
      assert PrintItems(items) + [CLOSE] == PrintItem(it) + (PrintItems(tail) + [CLOSE]);
      TailStarts(p, k + n, tail);
      assert forall i :: 0 < i < |items| ==> items[i] == tail[i - 1];
    }
  }

  /** Where a class goes on, it does not begin with its closing bracket. */
  lemma TailStarts(p: seq<Char>, k: nat, items: seq<Item>)
    requires ItemsOk(items) && At(p, k, PrintItems(items) + [CLOSE])
    ensures k < |p| && (items == [] <==> p[k] == CLOSE)
  {
    var s := PrintItems(items) + [CLOSE];
    assert p[k] == p[k..k + |s|][0] == s[0];
    if items != [] {
      assert s[0] == PrintItem(items[0])[0];
    }
  }

  lemma ClassOf(p: seq<Char>, i: nat) returns (tok: Token)
    requires i < |p| && p[i] == OPEN && ParseClass(p, i).Some?
    ensures TokenOk(tok) && At(p, i, Print(tok)) && tok.OneOf?
    ensures i + |Print(tok)| == ParseClass(p, i).value.1 + 1
  {
    hide At;
    hide Print;
    hide ItemsOk;
    var inverted := i + 1 < |p| && p[i + 1] == NEGATE_CLASS;
    var f := i + |Head(inverted)|;
    var first := p[f];
    var rest := ItemsOf(p, f + 1, first);
    tok := OneOf(inverted, first, rest);
    ClassParts(p, i, inverted, first, rest);
  }

  lemma TokenAt(p: seq<Char>, i: nat) returns (tok: Token)
    requires i < |p| && ParseOne(p, i).Some?
    ensures TokenOk(tok) && At(p, i, Print(tok)) && (tok.Dangling? ==> i + 1 == |p|)
    ensures i + |Print(tok)| == ParseOne(p, i).value.1
  {
    if p[i] == OPEN {
      tok := ClassOf(p, i);
    } else {
      tok := if p[i] == BACKSLASH then if i + 1 == |p| then Dangling else Exactly(p[i + 1], true)
             else if p[i] == QUERY then AnyOne
             else if p[i] == STAR then Stars
             else Exactly(p[i], false);
      AtOne(p, i, p[i]);
      if i + 1 < |p| {
        AtTwo(p, i, BACKSLASH, p[i + 1]);
      }
    }
  }

  /** Every pattern whose classes are closed is written in these tokens. */
  lemma {:induction false} TokensOf(p: seq<Char>, i: nat) returns (toks: seq<Token>)
    requires i <= |p| && WellFormed(p, i)
    ensures TokensOk(toks) && PrintAll(toks) == p[i..]
    decreases |p| - i
  {
    hide Print;
    hide TokenOk;
    hide At;
    hide ParseOne;
    if i == |p| {
      toks := [];
    } else {
      var tok := TokenAt(p, i);
      var n := |Print(tok)|;
      var rest := TokensOf(p, i + n);
      toks := [tok] + rest;
      assert toks[1..] == rest;
      TextParts(p, i, Print(tok));
      NothingPrints(rest);
      assert forall k :: 0 < k < |toks| ==> toks[k] == rest[k - 1];
    }
  }

  lemma TextParts(p: seq<Char>, i: nat, s: seq<Char>)
    requires At(p, i, s)
    ensures i + |s| <= |p| && p[i..] == s + p[i + |s|..]
  {
  }

  lemma NothingPrints(toks: seq<Token>)
    ensures PrintAll(toks) == [] <==> toks == []
  {
  }

  // ---------- matching is cutting ----------

  lemma HasItemSplit(before: Char, items: seq<Item>, c: Char)
    requires items != []
    ensures HasItem(before, items, c) <==> InItem(before, items[0], c) || HasItem(items[0].c, items[1..], c)
  {
    var tail := items[1..];
    if InItem(before, items[0], c) {
      assert ItemHas(before, items, 0, c);
    }
    if i: nat :| i < |tail| && ItemHas(items[0].c, tail, i, c) {
      assert ItemHas(before, items, i + 1, c);
    }
    if i: nat :| 0 < i < |items| && ItemHas(before, items, i, c) {
      assert ItemHas(items[0].c, tail, i - 1, c);
    }
  }

  lemma {:induction false} ClassAccepts(before: Char, items: seq<Item>, c: Char)
    ensures InClass(c, Members(before, items)) <==> HasItem(before, items, c)
    decreases |items|
  {
    hide InClass;
    hide HasItem;
    if items != [] {
      var it, tail := items[0], items[1..];
      HasItemSplit(before, items, c);
      ClassAccepts(it.c, tail, c);
      InClassCons(c, MemberOf(before, it), Members(it.c, tail));
    } else {
      NoItems(before, c);
    }
  }

  lemma NoItems(before: Char, c: Char)
    ensures !InClass(c, []) && !HasItem(before, [], c)
  {
  }

  lemma TokenAccepts(tok: Token, c: Char)
    requires !tok.Stars?
    ensures Accepts(ElementOf(tok), c) <==> StandsFor(tok, [c])
  {
    hide InClass;
    hide HasItem;
    if tok.OneOf? {
      ClassAccepts(tok.first, tok.rest, c);
      InClassCons(c, Single(tok.first), Members(tok.first, tok.rest));
    }
  }

  lemma OneCharacter(tok: Token, piece: seq<Char>)
    requires !tok.Stars? && StandsFor(tok, piece)
    ensures |piece| == 1
  {
  }

  /** The rest of the tokens cut the rest of the text. */
  lemma CutTail(toks: seq<Token>, text: seq<Char>, cuts: seq<nat>)
    requires toks != [] && Cuts(toks, text, cuts)
    ensures cuts[1] <= |text| && StandsFor(toks[0], text[..cuts[1]]) && Means(toks[1..], text[cuts[1]..])
  {
    var a := cuts[1];
    assert PieceOk(toks[0], text, cuts[0], cuts[1]) && text[0..a] == text[..a];
    CutsAscend(toks, text, cuts, 1);
    var cuts' := seq(|toks|, k requires 0 <= k < |toks| => cuts[k + 1] - a);
    forall i | 0 <= i < |toks| - 1
      ensures PieceOk(toks[1..][i], text[a..], cuts'[i], cuts'[i + 1])
    {
      assert PieceOk(toks[i + 1], text, cuts[i + 1], cuts[i + 2]);
      assert text[a..][cuts[i + 1] - a..cuts[i + 2] - a] == text[cuts[i + 1]..cuts[i + 2]];
    }
    assert Cuts(toks[1..], text[a..], cuts');
  }

  lemma {:induction false} CutsAscend(toks: seq<Token>, text: seq<Char>, cuts: seq<nat>, i: nat)
    requires Cuts(toks, text, cuts) && i <= |toks|
    ensures forall k :: i <= k <= |toks| ==> cuts[i] <= cuts[k] <= |text|
    decreases |toks| - i
  {
    if i < |toks| {
      assert PieceOk(toks[i], text, cuts[i], cuts[i + 1]);
      CutsAscend(toks, text, cuts, i + 1);
    }
  }

  lemma CutHead(toks: seq<Token>, text: seq<Char>, a: nat)
    requires toks != [] && a <= |text| && StandsFor(toks[0], text[..a]) && Means(toks[1..], text[a..])
    ensures Means(toks, text)
  {
    var cuts: seq<nat> :| Cuts(toks[1..], text[a..], cuts);
    var cuts' := [0] + seq(|toks|, k requires 0 <= k < |toks| => cuts[k] + a);
    forall i | 0 <= i < |toks|
      ensures PieceOk(toks[i], text, cuts'[i], cuts'[i + 1])
    {
      if i == 0 {
        assert text[0..a] == text[..a];
      } else {
        assert PieceOk(toks[1..][i - 1], text[a..], cuts[i - 1], cuts[i]);
        assert text[a..][cuts[i - 1]..cuts[i]] == text[cuts[i - 1] + a..cuts[i] + a];
      }
    }
    assert Cuts(toks, text, cuts');
  }

  lemma {:induction false} MatchIsCut(toks: seq<Token>, text: seq<Char>)
    ensures Matches(ElementsOf(toks), text) <==> Means(toks, text)
    decreases |toks|, 1
  {
    hide Means;
    hide StandsFor;
    hide ElementOf;
    if toks == [] {
      NoTokens(text);
    } else if toks[0].Stars? {
      StarIsCut(toks, text);
    } else {
      OneIsCut(toks, text);
    }
  }

  lemma NoTokens(text: seq<Char>)
    ensures Means([], text) <==> text == []
  {
    if text == [] {
      assert Cuts([], text, [0]);
    }
  }

  lemma MeansHead(toks: seq<Token>, text: seq<Char>)
    requires toks != []
    ensures Means(toks, text) <==>
            exists a: nat :: a <= |text| && StandsFor(toks[0], text[..a]) && Means(toks[1..], text[a..])
  {
    hide StandsFor;
    if Means(toks, text) {
      var cuts: seq<nat> :| Cuts(toks, text, cuts);
      CutTail(toks, text, cuts);
    }
    if a: nat :| a <= |text| && StandsFor(toks[0], text[..a]) && Means(toks[1..], text[a..]) {
      CutHead(toks, text, a);
    }
  }

  lemma {:induction false} StarIsCut(toks: seq<Token>, text: seq<Char>)
    requires toks != [] && toks[0].Stars?
    ensures Matches(ElementsOf(toks), text) <==> Means(toks, text)
    decreases |toks|, 0
  {
    hide Means;
    MeansHead(toks, text);
    var els := ElementsOf(toks[1..]);
    assert ElementsOf(toks) == [Star] + els && ([Star] + els)[1..] == els;
    forall k: nat | k <= |text|
      ensures Matches(els, text[k..]) <==> Means(toks[1..], text[k..])
    {
      MatchIsCut(toks[1..], text[k..]);
    }
  }

  lemma {:induction false} OneIsCut(toks: seq<Token>, text: seq<Char>)
    requires toks != [] && !toks[0].Stars?
    ensures Matches(ElementsOf(toks), text) <==> Means(toks, text)
    decreases |toks|, 0
  {
    hide Means;
    hide StandsFor;
    hide Accepts;
    MeansHead(toks, text);
    var tok, els := toks[0], ElementsOf(toks[1..]);
    assert !ElementOf(tok).Star?;
    hide ElementOf;
    assert ElementsOf(toks)[1..] == els && ElementsOf(toks)[0] == ElementOf(tok);
    MatchHead(ElementsOf(toks), text);
    if text != [] {
      assert text[..1] == [text[0]];
      TokenAccepts(tok, text[0]);
      MatchIsCut(toks[1..], text[1..]);
    }
    forall a: nat | a <= |text| && StandsFor(tok, text[..a])
      ensures a == 1
    {
      OneCharacter(tok, text[..a]);
    }
  }

  // ---------- the matcher ----------

  /** What is printed from tokens is a pattern with their meaning. */
  lemma PatternMeans(toks: seq<Token>, text: seq<Char>)
    requires TokensOk(toks)
    ensures WellFormed(PrintAll(toks), 0)
    ensures Matches(Elements(PrintAll(toks), 0), text) <==> Means(toks, text)
  {
    hide Matches;
    hide Means;
    assert PrintAll(toks)[0..] == PrintAll(toks);
    ParsesAll(PrintAll(toks), 0, toks);
    MatchIsCut(toks, text);
  }

  /** wildmat on every pattern whose classes are closed: the text is cut into
      pieces that the tokens of the pattern stand for. */
  method Match(text: seq<Char>, p: seq<Char>) returns (r: bool, ghost toks: seq<Token>)
    requires WellFormed(p, 0)
    ensures TokensOk(toks) && PrintAll(toks) == p && (r <==> Means(toks, text))
  {
    hide Matches;
    hide Means;
    toks := TokensOf(p, 0);
    assert p[0..] == p;
    PatternMeans(toks, text);
    ghost var calls;
    r, calls := WildMat(text, p);
  }

  /** A class of one character, inverted or not. */
  lemma OneCharacterClass(inverted: bool, c: Char, d: Char)
    requires inverted || d != NEGATE_CLASS
    ensures var p := if inverted then [OPEN, NEGATE_CLASS, d, CLOSE] else [OPEN, d, CLOSE];
            WellFormed(p, 0) && (Matches(Elements(p, 0), [c]) <==> (c == d) != inverted)
  {
    hide Matches;
    var tok := OneOf(inverted, d, []);
    assert PrintItems([]) == [] && PrintAll([]) == [];
    assert PrintAll([tok]) == if inverted then [OPEN, NEGATE_CLASS, d, CLOSE] else [OPEN, d, CLOSE];
    PatternMeans([tok], [c]);
    MeansHead([tok], [c]);
    NoTokens([]);
    assert [c][..1] == [c] && [c][1..] == [] && [c][..0] == [];
  }
}
