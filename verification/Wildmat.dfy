/** Shell-style pattern matching: the meaning of a pattern, and the
    three-valued search that decides it. */
module Wildmat {
  import opened Options

  /** A char of the C program: signed, and compared as such. */
  type Char = c: int | -128 <= c < 128

  const NUL: Char := 0
  const STAR: Char := 42
  const DASH: Char := 45
  const QUERY: Char := 63
  const OPEN: Char := 91
  const BACKSLASH: Char := 92
  const CLOSE: Char := 93
  const NEGATE_CLASS: Char := 94

  /** A member of a character class. */
  datatype Member = Single(c: Char) | Range(lo: Char, hi: Char)

  /** What one element of a pattern asks of the text. */
  datatype Element = Star | Any | Literal(c: Char) | Class(negated: bool, members: seq<Member>)

  predicate InMember(c: Char, m: Member) {
    match m
    case Single(d) => c == d
    case Range(lo, hi) => lo <= c <= hi
  }

  predicate InClass(c: Char, members: seq<Member>) {
    exists i :: 0 <= i < |members| && InMember(c, members[i])
  }

  predicate Accepts(e: Element, c: Char)
    requires !e.Star?
  {
    match e
    case Any => true
    case Literal(d) => c == d
    case Class(negated, members) => InClass(c, members) != negated
  }

  /** The declarative meaning of a pattern. */
  ghost predicate Matches(els: seq<Element>, text: seq<Char>)
    decreases |els|
  {
    if els == [] then text == []
    else if els[0].Star? then exists k :: 0 <= k <= |text| && Matches(els[1..], text[k..])
    else text != [] && Accepts(els[0], text[0]) && Matches(els[1..], text[1..])
  }

  // ---------- reading a pattern ----------

  /** The members of a class from place `k` on, and the place of its closing
      bracket; None when the pattern ends first. `last` is the character
      before place k. */
  function ParseMembers(p: seq<Char>, k: nat, last: Char): (r: Option<(seq<Member>, nat)>)
    requires k <= |p|
    ensures r.Some? ==> k <= r.value.1 < |p| && p[r.value.1] == CLOSE
    decreases |p| - k
  {
    if k == |p| then None
    else if p[k] == CLOSE then Some(([], k))
    else if p[k] == DASH && k + 1 == |p| then None
    else if p[k] == DASH && p[k + 1] != CLOSE then
      match ParseMembers(p, k + 2, p[k + 1])
      case None => None
      case Some((ms, e)) => Some(([Range(last, p[k + 1])] + ms, e))
    else
      match ParseMembers(p, k + 1, p[k])
      case None => None
      case Some((ms, e)) => Some(([Single(p[k])] + ms, e))
  }

  /** The class whose opening bracket is at place `i`. A bracket or a dash
      right after the opening, or after its negation, is an ordinary member. */
  function ParseClass(p: seq<Char>, i: nat): (r: Option<(Element, nat)>)
    requires i < |p| && p[i] == OPEN
    ensures r.Some? ==> i < r.value.1 < |p| && r.value.0.Class?
  {
    var negated := i + 1 < |p| && p[i + 1] == NEGATE_CLASS;
    var j := if negated then i + 1 else i;
    var special := j + 1 < |p| && (p[j + 1] == CLOSE || p[j + 1] == DASH);
    var k := if special then j + 1 else j;
    match ParseMembers(p, k + 1, p[k])
    case None => None
    case Some((ms, e)) => Some((Class(negated, if special then [Single(p[k])] + ms else ms), e))
  }

  /** The first element at place `i`, and the place after it. A backslash at
      the very end stands for a character that no text contains. */
  function ParseOne(p: seq<Char>, i: nat): (r: Option<(Element, nat)>)
    requires i < |p|
    ensures r.Some? ==> i < r.value.1 <= |p|
    ensures r.Some? ==> (r.value.0.Star? <==> p[i] == STAR)
  {
    if p[i] == BACKSLASH then
      if i + 1 == |p| then Some((Literal(NUL), i + 1)) else Some((Literal(p[i + 1]), i + 2))
    else if p[i] == QUERY then Some((Any, i + 1))
    else if p[i] == STAR then Some((Star, i + 1))
    else if p[i] == OPEN then
      match ParseClass(p, i)
      case None => None
      case Some((e, close)) => Some((e, close + 1))
    else Some((Literal(p[i]), i + 1))
  }

  /** The elements from place `i` on; None when a class is never closed. */
  function Parse(p: seq<Char>, i: nat): (r: Option<seq<Element>>)
    requires i <= |p|
    decreases |p| - i
  {
    if i == |p| then Some([])
    else
      match ParseOne(p, i)
      case None => None
      case Some((e, next)) =>
        match Parse(p, next)
        case None => None
        case Some(rest) => Some([e] + rest)
  }

  predicate WellFormed(p: seq<Char>, i: nat)
    requires i <= |p|
  {
    Parse(p, i).Some?
  }

  function Elements(p: seq<Char>, i: nat): seq<Element>
    requires i <= |p| && WellFormed(p, i)
  {
    Parse(p, i).value
  }

  // ---------- facts about matching ----------

  predicate Singles(els: seq<Element>) {
    forall i :: 0 <= i < |els| ==> !els[i].Star?
  }

  /** An element other than a star takes one character. */
  lemma MatchHead(els: seq<Element>, text: seq<Char>)
    requires els != [] && !els[0].Star?
    ensures Matches(els, text) <==> text != [] && Accepts(els[0], text[0]) && Matches(els[1..], text[1..])
  {
  }

  /** What a match of `front + els` leaves for `els`. */
  lemma {:induction false} MatchFront(front: seq<Element>, els: seq<Element>, text: seq<Char>)
    requires Singles(front) && Matches(front + els, text)
    ensures |front| <= |text| && Matches(els, text[|front|..])
    decreases |front|
  {
    hide Matches;
    hide Accepts;
    if front == [] {
      assert front + els == els && text[0..] == text;
    } else {
      MatchHead(front + els, text);
      assert (front + els)[1..] == front[1..] + els;
      MatchFront(front[1..], els, text[1..]);
      assert text[1..][|front[1..]|..] == text[|front|..];
    }
  }

  lemma StarNeverMisses(rest: seq<Element>, text: seq<Char>, k: nat)
    requires k <= |text| && Matches(rest, text[k..])
    ensures Matches([Star] + rest, text)
  {
    assert ([Star] + rest)[1..] == rest;
  }

  lemma StarSplits(rest: seq<Element>, text: seq<Char>) returns (k: nat)
    requires Matches([Star] + rest, text)
    ensures k <= |text| && Matches(rest, text[k..])
  {
    assert ([Star] + rest)[1..] == rest;
    k :| 0 <= k <= |text| && Matches(rest, text[k..]);
  }

  lemma StarSplitsAt(rest: seq<Element>, text: seq<Char>, k: nat) returns (m: nat)
    requires k <= |text| && Matches([Star] + rest, text[k..])
    ensures k <= m <= |text| && Matches(rest, text[m..])
  {
    var j := StarSplits(rest, text[k..]);
    m := k + j;
    assert text[k..][j..] == text[m..];
  }

  lemma MatchFrontAt(front: seq<Element>, els: seq<Element>, text: seq<Char>, k: nat)
    requires k <= |text| && Singles(front) && Matches(front + els, text[k..])
    ensures k + |front| <= |text| && Matches(els, text[k + |front|..])
  {
    MatchFront(front, els, text[k..]);
    assert text[k..][|front|..] == text[k + |front|..];
  }

  /** Consecutive stars act like one. */
  lemma TwoStars(rest: seq<Element>, text: seq<Char>)
    ensures Matches([Star] + ([Star] + rest), text) <==> Matches([Star] + rest, text)
  {
    if Matches([Star] + ([Star] + rest), text) {
      var k := StarSplits([Star] + rest, text);
      var j := StarSplits(rest, text[k..]);
      assert text[k..][j..] == text[k + j..];
      StarNeverMisses(rest, text, k + j);
    }
    if Matches([Star] + rest, text) {
      assert text[0..] == text;
      StarNeverMisses([Star] + rest, text, 0);
    }
  }

  lemma TrailingStar(text: seq<Char>)
    ensures Matches([Star], text)
  {
    assert text[|text|..] == [];
    StarNeverMisses([], text, |text|);
    assert [Star] + [] == [Star];
  }

  /** No suffix of the text from place t on matches. */
  ghost predicate NoSuffix(els: seq<Element>, text: seq<Char>, t: nat) {
    forall k: nat :: t <= k <= |text| ==> !Matches(els, text[k..])
  }

  /** If what is left needs a place at or after t + |front|, so does the whole. */
  lemma NoSuffixFront(front: seq<Element>, els: seq<Element>, text: seq<Char>, t: nat)
    requires Singles(front) && NoSuffix(els, text, t + |front|)
    ensures NoSuffix(front + els, text, t)
  {
    forall k: nat | t <= k <= |text|
      ensures !Matches(front + els, text[k..])
    {
      if Matches(front + els, text[k..]) {
        MatchFrontAt(front, els, text, k);
      }
    }
  }

  lemma NoSuffixStar(rest: seq<Element>, text: seq<Char>, t: nat)
    requires NoSuffix(rest, text, t)
    ensures NoSuffix([Star] + rest, text, t)
  {
    forall k: nat | t <= k <= |text|
      ensures !Matches([Star] + rest, text[k..])
    {
      if Matches([Star] + rest, text[k..]) {
        var j := StarSplitsAt(rest, text, k);
      }
    }
  }

  // ---------- the search ----------

  datatype Verdict = TRUE | FALSE | ABORT

  /** What a verdict on the pattern from place `p0` and the text from `t0` means. */
  ghost predicate Right(r: Verdict, els: seq<Element>, text: seq<Char>, t0: nat)
    requires t0 <= |text|
  {
    match r
    case TRUE => Matches(els, text[t0..])
    case FALSE => !Matches(els, text[t0..])
    case ABORT => NoSuffix(els, text, t0)
  }

  /** How the search stands at (t, i) relative to its start at (t0, p0):
      `front` has been consumed, one character for each of its elements. */
  ghost predicate Stands(front: seq<Element>, p: seq<Char>, p0: nat, i: nat, text: seq<Char>, t0: nat, t: nat)
    requires p0 <= i <= |p| && WellFormed(p, p0) && t0 <= t <= |text|
  {
    && WellFormed(p, i) && Singles(front) && |front| == t - t0
    && Elements(p, p0) == front + Elements(p, i)
    && (Matches(Elements(p, p0), text[t0..]) <==> Matches(Elements(p, i), text[t..]))
  }

  /** An element that accepts the next character moves the search on. */
  lemma StandsNext(front: seq<Element>, p: seq<Char>, p0: nat, i: nat, text: seq<Char>, t0: nat, t: nat)
    requires p0 <= i < |p| && WellFormed(p, p0) && t0 <= t < |text| && p[i] != STAR
    requires Stands(front, p, p0, i, text, t0, t)
    ensures ParseOne(p, i).Some? && !ParseOne(p, i).value.0.Star?
    ensures var (e, next) := ParseOne(p, i).value;
            if Accepts(e, text[t]) then Stands(front + [e], p, p0, next, text, t0, t + 1)
            else !Matches(Elements(p, p0), text[t0..])
  {
    var (e, next) := ParseOne(p, i).value;
    var rest := Elements(p, next);
    assert Elements(p, i) == [e] + rest && ([e] + rest)[1..] == rest;
    assert text[t..][0] == text[t] && text[t..][1..] == text[t + 1..];
    assert front + ([e] + rest) == (front + [e]) + rest;
  }

  /** Nothing matches when the text is exhausted before the pattern. */
  lemma TextExhausted(front: seq<Element>, p: seq<Char>, p0: nat, i: nat, text: seq<Char>, t0: nat)
    requires p0 <= i < |p| && WellFormed(p, p0) && t0 <= |text| && p[i] != STAR
    requires Stands(front, p, p0, i, text, t0, |text|)
    ensures NoSuffix(Elements(p, p0), text, t0)
  {
    EmptySuffix(Elements(p, i), text);
    NoSuffixFront(front, Elements(p, i), text, t0);
  }

  lemma EmptySuffix(els: seq<Element>, text: seq<Char>)
    requires els != [] && !els[0].Star?
    ensures NoSuffix(els, text, |text|)
  {
  }

  /** The pattern ends here: the text must, too. */
  lemma PatternExhausted(front: seq<Element>, p: seq<Char>, p0: nat, text: seq<Char>, t0: nat, t: nat)
    requires p0 <= |p| && WellFormed(p, p0) && t0 <= t <= |text|
    requires Stands(front, p, p0, |p|, text, t0, t)
    ensures Matches(Elements(p, p0), text[t0..]) <==> t == |text|
  {
  }

  /** One star more. */
  lemma SkipStar(p: seq<Char>, i: nat, j: nat)
    requires i <= |p| && WellFormed(p, i) && j < |p| && p[j] == STAR && WellFormed(p, j)
    requires forall text: seq<Char> :: Matches(Elements(p, i), text) <==> Matches([Star] + Elements(p, j), text)
    ensures WellFormed(p, j + 1)
    ensures forall text: seq<Char> :: Matches(Elements(p, i), text) <==> Matches([Star] + Elements(p, j + 1), text)
  {
    hide Matches;
    StarElement(p, j);
    forall text: seq<Char>
      ensures Matches(Elements(p, i), text) <==> Matches([Star] + Elements(p, j + 1), text)
    {
      TwoStars(Elements(p, j + 1), text);
    }
  }

  lemma StarElement(p: seq<Char>, j: nat)
    requires j < |p| && p[j] == STAR && WellFormed(p, j)
    ensures WellFormed(p, j + 1) && Elements(p, j) == [Star] + Elements(p, j + 1)
  {
  }

  /** The loop over consecutive stars. */
  method SkipStars(p: seq<Char>, i: nat) returns (j: nat)
    requires i < |p| && p[i] == STAR && WellFormed(p, i)
    ensures i < j <= |p| && WellFormed(p, j) && (j < |p| ==> p[j] != STAR)
    ensures forall text: seq<Char> :: Matches(Elements(p, i), text) <==> Matches([Star] + Elements(p, j), text)
  {
    hide Matches;
    hide Parse;
    StarElement(p, i);
    j := i + 1;
    while j < |p| && p[j] == STAR
      invariant i < j <= |p| && WellFormed(p, j)
      invariant forall text: seq<Char> :: Matches(Elements(p, i), text) <==> Matches([Star] + Elements(p, j), text)
    {
      SkipStar(p, i, j);
      j := j + 1;
    }
  }

  /** The class case: test one character and find the closing bracket. */
  method TestClass(c: Char, p: seq<Char>, i: nat) returns (accepted: bool, close: nat)
    requires i < |p| && p[i] == OPEN && ParseClass(p, i).Some?
    ensures close == ParseClass(p, i).value.1
    ensures accepted <==> Accepts(ParseClass(p, i).value.0, c)
  {
    var j := i;
    var reverse := i + 1 < |p| && p[i + 1] == NEGATE_CLASS;
    if reverse {
      j := j + 1;
    }
    var matched := false;
    if j + 1 < |p| && (p[j + 1] == CLOSE || p[j + 1] == DASH) {
      j := j + 1;
      if p[j] == c {
        matched := true;
      }
      InClassCons(c, Single(p[j]), ParseMembers(p, j + 1, p[j]).value.0);
    }
    matched, close := TestMembers(c, p, j + 1, p[j], matched);
    accepted := matched != reverse;
  }

  /** The loop over the members of a class. */
  method TestMembers(c: Char, p: seq<Char>, k: nat, before: Char, matched0: bool)
    returns (matched: bool, close: nat)
    requires k <= |p| && ParseMembers(p, k, before).Some?
    ensures close == ParseMembers(p, k, before).value.1
    ensures matched <==> matched0 || InClass(c, ParseMembers(p, k, before).value.0)
  {
    matched := matched0;
    var j, last := k, before;
    while p[j] != CLOSE
      invariant k <= j < |p| && ParseMembers(p, j, last).Some?
      invariant ParseMembers(p, j, last).value.1 == ParseMembers(p, k, before).value.1
      invariant matched || InClass(c, ParseMembers(p, j, last).value.0) <==>
                matched0 || InClass(c, ParseMembers(p, k, before).value.0)
      decreases |p| - j
    {
      MembersStep(c, p, j, last);
      if p[j] == DASH && p[j + 1] != CLOSE {
        j := j + 1;
        if c <= p[j] && c >= last {
          matched := true;
        }
      } else if c == p[j] {
        matched := true;
      }
      last := p[j];
      j := j + 1;
    }
    close := j;
  }

  lemma MembersStep(c: Char, p: seq<Char>, j: nat, last: Char)
    requires j < |p| && p[j] != CLOSE && ParseMembers(p, j, last).Some?
    ensures var range := p[j] == DASH && j + 1 < |p| && p[j + 1] != CLOSE;
            var next := if range then j + 2 else j + 1;
            && (p[j] == DASH ==> j + 1 < |p|)
            && next < |p| && ParseMembers(p, next, p[next - 1]).Some?
            && ParseMembers(p, next, p[next - 1]).value.1 == ParseMembers(p, j, last).value.1
            && (InClass(c, ParseMembers(p, j, last).value.0) <==>
                InClass(c, ParseMembers(p, next, p[next - 1]).value.0) ||
                if range then last <= c <= p[j + 1] else c == p[j])
  {
    var range := p[j] == DASH && p[j + 1] != CLOSE;
    var next := if range then j + 2 else j + 1;
    InClassCons(c, if range then Range(last, p[j + 1]) else Single(p[j]),
                ParseMembers(p, next, p[next - 1]).value.0);
  }

  lemma InClassCons(c: Char, m: Member, ms: seq<Member>)
    ensures InClass(c, [m] + ms) <==> InMember(c, m) || InClass(c, ms)
  {
    if InClass(c, ms) {
      var i :| 0 <= i < |ms| && InMember(c, ms[i]);
      assert ([m] + ms)[i + 1] == ms[i];
    }
    assert ([m] + ms)[0] == m;
  }

  /** DoMatch. Besides the verdict, `calls` counts the calls it makes,
      itself included. */
  method DoMatch(text: seq<Char>, p: seq<Char>, t0: nat, p0: nat) returns (r: Verdict, ghost calls: nat)
    requires t0 <= |text| && p0 <= |p| && WellFormed(p, p0)
    ensures Right(r, Elements(p, p0), text, t0)
    ensures r == FALSE ==> calls == 1
    ensures calls <= |text| - t0 + 1
    ensures t0 < |text| && (p0 < |p| ==> p[p0] != STAR) ==> calls <= |text| - t0
    decreases |p| - p0
  {
    calls := 1;
    var t, i := t0, p0;
    ghost var front: seq<Element> := [];
    assert front + Elements(p, p0) == Elements(p, p0);
    while i < |p|
      invariant t0 <= t <= |text| && p0 <= i <= |p| && calls == 1
      invariant Stands(front, p, p0, i, text, t0, t)
      invariant i > p0 && p[p0] != STAR ==> t > t0
      decreases |p| - i
    {
      if t == |text| && p[i] != STAR {
        TextExhausted(front, p, p0, i, text, t0);
        return ABORT, calls;
      }
      if p[i] == STAR {
        r, calls := StarLoop(text, p, t, i);
        StarDecides(r, front, p, p0, i, text, t0, t);
        return;
      }
      var accepted, next := TestOne(text[t], p, i);
      StandsNext(front, p, p0, i, text, t0, t);
      if !accepted {
        return FALSE, calls;
      }
      front := front + [ParseOne(p, i).value.0];
      t, i := t + 1, next;
    }
    PatternExhausted(front, p, p0, text, t0, t);
    r := if t == |text| then TRUE else FALSE;
  }

  /** The cases of the switch that look at one character. */
  method TestOne(c: Char, p: seq<Char>, i: nat) returns (accepted: bool, next: nat)
    requires i < |p| && p[i] != STAR && ParseOne(p, i).Some?
    ensures next == ParseOne(p, i).value.1
    ensures accepted <==> Accepts(ParseOne(p, i).value.0, c)
  {
    if p[i] == OPEN {
      var close;
      accepted, close := TestClass(c, p, i);
      next := close + 1;
    } else if p[i] == QUERY {
      accepted, next := true, i + 1;
    } else if p[i] == BACKSLASH {
      var literal := if i + 1 < |p| then p[i + 1] else NUL;
      accepted, next := c == literal, if i + 1 < |p| then i + 2 else i + 1;
    } else {
      accepted, next := c == p[i], i + 1;
    }
  }

  /** The star case: once here, the search never answers FALSE. */
  method StarLoop(text: seq<Char>, p: seq<Char>, t0: nat, i: nat) returns (r: Verdict, ghost calls: nat)
    requires t0 <= |text| && i < |p| && p[i] == STAR && WellFormed(p, i)
    ensures r != FALSE && Right(r, Elements(p, i), text, t0)
    ensures 1 <= calls <= |text| - t0 + 1
    decreases |p| - i, 0
  {
    calls := 1;
    var j := SkipStars(p, i);
    if j == |p| {
      TrailingStar(text[t0..]);
      assert [Star] + Elements(p, j) == [Star];
      return TRUE, calls;
    }
    ghost var rest := Elements(p, j);
    var t := t0;
    while t < |text|
      invariant t0 <= t <= |text| && calls == 1 + (t - t0)
      invariant forall k: nat :: t0 <= k < t ==> !Matches(rest, text[k..])
    {
      ghost var n;
      r, n := DoMatch(text, p, t, j);
      calls := calls + n;
      if r != FALSE {
        StarFound(r, p, i, rest, text, t0, t);
        return;
      }
      t := t + 1;
    }
    EmptySuffix(rest, text);
    NoSuffixStar(rest, text, t0);
    r := ABORT;
  }

  /** The verdict on the rest of the pattern at place t decides the star. */
  lemma StarFound(r: Verdict, p: seq<Char>, i: nat, rest: seq<Element>, text: seq<Char>, t0: nat, t: nat)
    requires i < |p| && WellFormed(p, i) && t0 <= t <= |text| && r != FALSE && Right(r, rest, text, t)
    requires forall k: nat :: t0 <= k < t ==> !Matches(rest, text[k..])
    requires forall s: seq<Char> :: Matches(Elements(p, i), s) <==> Matches([Star] + rest, s)
    ensures Right(r, Elements(p, i), text, t0)
  {
    if r == TRUE {
      assert text[t0..][t - t0..] == text[t..];
      StarNeverMisses(rest, text[t0..], t - t0);
    } else {
      NoSuffixStar(rest, text, t0);
    }
  }

  /** ... and the star decides the whole. */
  lemma StarDecides(r: Verdict, front: seq<Element>, p: seq<Char>, p0: nat, i: nat, text: seq<Char>, t0: nat, t: nat)
    requires p0 <= i < |p| && WellFormed(p, p0) && t0 <= t <= |text|
    requires Stands(front, p, p0, i, text, t0, t) && r != FALSE && Right(r, Elements(p, i), text, t)
    ensures Right(r, Elements(p, p0), text, t0)
  {
    if r == ABORT {
      NoSuffixFront(front, Elements(p, i), text, t0);
    }
  }

  /** wildmat: true exactly when the text has the meaning of the pattern,
      after at most one call of DoMatch more than the text has characters. */
  method WildMat(text: seq<Char>, p: seq<Char>) returns (r: bool, ghost calls: nat)
    requires WellFormed(p, 0)
    ensures r <==> Matches(Elements(p, 0), text)
    ensures calls <= |text| + 1
  {
    assert text[0..] == text;
    if |p| > 0 && p[0] == STAR && |p| == 1 {
      assert Parse(p, 1) == Some([]);
      assert Elements(p, 0) == [Star];
      TrailingStar(text);
      return true, 0;
    }
    var v;
    v, calls := DoMatch(text, p, 0, 0);
    r := v == TRUE;
  }
}
