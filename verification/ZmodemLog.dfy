/** What a sender of a file puts on the line, and what it means for the file. */
module ZmodemLog {
  import opened Options
  import opened ZmodemLine
  import opened ZmodemHeader

  /** Frames and data subpackets in the order in which they are sent. */
  datatype Event =
    | FileInfo
    | FileCrc(crc: bv32)
    | Nak
    | DataAt(pos: nat)
    | Sub(data: seq<Byte>, e: Byte)
    | Eof(pos: nat)

  function Front(log: seq<Event>): seq<Event>
    requires log != []
  {
    log[..|log| - 1]
  }

  function Last(log: seq<Event>): Event
    requires log != []
  {
    log[|log| - 1]
  }

  /** The file position that what was sent has reached. */
  function Reached(log: seq<Event>): Option<nat> {
    if log == [] then None
    else match Last(log)
      case DataAt(p) => Some(p)
      case Sub(d, _) => (match Reached(Front(log)) case None => None case Some(q) => Some(q + |d|))
      case _ => Reached(Front(log))
  }

  /** The position as a header carries it. */
  function InHeader(pos: nat): nat { Rclhdr(Stohdr(pos)) }

  predicate IsPiece(file: seq<Byte>, q: nat, d: seq<Byte>) {
    d == [] || (q + |d| <= |file| && d == file[q..q + |d|])
  }

  /** A header's position is the one meant. Data belongs where the last header
      and the data since then put it, and the end of the file is told when it
      is reached. */
  predicate Right(file: seq<Byte>, before: seq<Event>, e: Event) {
    match e
    case DataAt(p) => p < 0x1_0000_0000
    case Sub(d, e) => IsFrameEnd(e) && Reached(before).Some? && IsPiece(file, Reached(before).value, d)
    case Eof(p) =>
      Reached(before).Some? && Reached(before).value >= |file| && p == InHeader(Reached(before).value)
    case _ => true
  }

  predicate Faithful(file: seq<Byte>, log: seq<Event>) {
    log == [] || (Faithful(file, Front(log)) && Right(file, Front(log), Last(log)))
  }

  lemma FaithfulNext(file: seq<Byte>, log: seq<Event>, e: Event)
    ensures Faithful(file, log + [e]) <==> Faithful(file, log) && Right(file, log, e)
    ensures Reached(log + [e]) == match e
                                  case DataAt(p) => Some(p)
                                  case Sub(d, _) => (match Reached(log) case None => None case Some(q) => Some(q + |d|))
                                  case _ => Reached(log)
  {
    assert Front(log + [e]) == log;
  }

  lemma {:induction false} FaithfulPrefix(file: seq<Byte>, log: seq<Event>, n: nat)
    requires n <= |log| && Faithful(file, log)
    ensures Faithful(file, log[..n])
    decreases |log|
  {
    if n < |log| {
      FaithfulPrefix(file, Front(log), n);
      assert Front(log)[..n] == log[..n];
    } else {
      assert log[..n] == log;
    }
  }

  lemma RightAt(file: seq<Byte>, log: seq<Event>, i: nat)
    requires i < |log| && Faithful(file, log)
    ensures Right(file, log[..i], log[i])
  {
    FaithfulPrefix(file, log, i + 1);
    assert Front(log[..i + 1]) == log[..i];
  }

  lemma ReachedAt(log: seq<Event>, i: nat)
    requires i < |log|
    ensures Reached(log[..i + 1]) == match log[i]
                                     case DataAt(p) => Some(p)
                                     case Sub(d, _) => (match Reached(log[..i]) case None => None case Some(q) => Some(q + |d|))
                                     case _ => Reached(log[..i])
  {
    assert Front(log[..i + 1]) == log[..i];
  }

  /** The data sent from place i of the log on, before place j. */
  function Between(log: seq<Event>, i: nat, j: nat): seq<Byte>
    requires i <= j <= |log|
    decreases j
  {
    if i == j then []
    else Between(log, i, j - 1) + if log[j - 1].Sub? then log[j - 1].data else []
  }

  predicate NoHeader(log: seq<Event>, i: nat, j: nat)
    requires i <= j <= |log|
  {
    forall k :: i <= k < j ==> !log[k].DataAt?
  }

  lemma PiecesJoin(file: seq<Byte>, p: nat, d1: seq<Byte>, d2: seq<Byte>)
    requires IsPiece(file, p, d1) && IsPiece(file, p + |d1|, d2)
    ensures IsPiece(file, p, d1 + d2)
  {
    if d1 == [] {
      assert d1 + d2 == d2;
    } else if d2 == [] {
      assert d1 + d2 == d1;
    } else {
      assert file[p..p + |d1|] + file[p + |d1|..p + |d1| + |d2|] == file[p..p + |d1| + |d2|];
    }
  }

  /** The subpackets after a ZDATA header join up to the file from there. */
  lemma {:induction false} DataFollowsHeader(file: seq<Byte>, log: seq<Event>, i: nat, j: nat)
    requires i < j <= |log| && Faithful(file, log) && log[i].DataAt? && NoHeader(log, i + 1, j)
    ensures IsPiece(file, log[i].pos, Between(log, i + 1, j))
    ensures Reached(log[..j]) == Some(log[i].pos + |Between(log, i + 1, j)|)
    decreases j
  {
    hide Faithful;
    hide Reached;
    hide IsPiece;
    hide InHeader;
    hide Between;
    ReachedAt(log, j - 1);
    if j - 1 == i {
      NoPiece(file, log[i].pos);
      BetweenNothing(log, j);
    } else {
      DataFollowsHeader(file, log, i, j - 1);
      RightAt(file, log, j - 1);
      BetweenNext(log, i + 1, j);
      var d := Between(log, i + 1, j - 1);
      if log[j - 1].Sub? {
        PiecesJoin(file, log[i].pos, d, log[j - 1].data);
      }
    }
  }

  lemma NoPiece(file: seq<Byte>, p: nat)
    ensures IsPiece(file, p, [])
  {
  }

  lemma BetweenNothing(log: seq<Event>, i: nat)
    requires i <= |log|
    ensures Between(log, i, i) == []
  {
  }

  lemma BetweenNext(log: seq<Event>, i: nat, j: nat)
    requires i < j <= |log|
    ensures Between(log, i, j)
            == if log[j - 1].Sub? then Between(log, i, j - 1) + log[j - 1].data else Between(log, i, j - 1)
  {
    assert Between(log, i, j - 1) + [] == Between(log, i, j - 1);
  }

  lemma PieceIsRest(file: seq<Byte>, p: nat, d: seq<Byte>)
    requires IsPiece(file, p, d) && p + |d| >= |file|
    ensures p <= |file| ==> d == file[p..] && p + |d| == |file|
    ensures p > |file| ==> d == []
  {
    if p <= |file| {
      assert file[p..|file|] == file[p..];
    }
  }

  lemma PositionWraps(pos: nat)
    ensures InHeader(pos) == pos % 0x1_0000_0000 && (InHeader(pos) == pos <==> pos < 0x1_0000_0000)
  {
    PositionRoundTrip(pos);
  }

  /** Between a ZDATA header inside the file and the next ZEOF lies the rest of
      the file, whole, and the ZEOF carries the length of the file, as far as
      32 bits can hold it. */
  lemma EofMeansWhole(file: seq<Byte>, log: seq<Event>, i: nat, j: nat)
    requires i < j < |log| && Faithful(file, log)
    requires log[i].DataAt? && NoHeader(log, i + 1, j) && log[j].Eof?
    ensures log[i].pos <= |file| ==> Between(log, i + 1, j) == file[log[i].pos..]
    ensures log[i].pos > |file| ==> Between(log, i + 1, j) == []
    ensures log[j].pos == InHeader(if log[i].pos <= |file| then |file| else log[i].pos)
    ensures log[i].pos <= |file| ==> (log[j].pos == |file| <==> |file| < 0x1_0000_0000)
  {
    hide Faithful;
    hide Reached;
    hide Between;
    hide InHeader;
    hide IsPiece;
    DataFollowsHeader(file, log, i, j);
    RightAt(file, log, j);
    PieceIsRest(file, log[i].pos, Between(log, i + 1, j));
    PositionWraps(|file|);
  }

  // ---------- a receiver ----------

  /** What a receiver has, and whether it takes subpackets. */
  datatype Have = Have(data: seq<Byte>, listening: bool)

  /** A receiver as section 8.2 of the ZMODEM protocol description wants it:
      data is taken behind a ZDATA at the position it has reached; after
      anything garbled it waits for the next one. */
  function Take(h: Have, e: Event, heard: bool): Have {
    if !heard then h.(listening := false)
    else match e
      case DataAt(p) => h.(listening := p == |h.data|)
      case Sub(d, _) => if h.listening then h.(data := h.data + d) else h
      case _ => h
  }

  function TakeAll(log: seq<Event>, heard: seq<bool>, n: nat): Have
    requires n <= |log| == |heard|
  {
    if n == 0 then Have([], false) else Take(TakeAll(log, heard, n - 1), log[n - 1], heard[n - 1])
  }

  /** Whatever is lost on the way, such a receiver has a beginning of the file,
      and knows where the sender is when it listens. */
  lemma {:induction false} ReceiverHasPrefix(file: seq<Byte>, log: seq<Event>, heard: seq<bool>, n: nat)
    requires n <= |log| == |heard| && Faithful(file, log)
    ensures var h := TakeAll(log, heard, n);
            h.data <= file && (h.listening ==> Reached(log[..n]) == Some(|h.data|))
  {
    if n > 0 {
      ReceiverHasPrefix(file, log, heard, n - 1);
      RightAt(file, log, n - 1);
      ReachedAt(log, n - 1);
      var h := TakeAll(log, heard, n - 1);
      if heard[n - 1] && h.listening && log[n - 1].Sub? {
        PiecesJoin(file, 0, h.data, log[n - 1].data);
      }
    }
  }

  lemma {:induction false} ReachedAfterHeader(log: seq<Event>, n: nat) returns (i: nat)
    requires n <= |log| && Reached(log[..n]).Some?
    ensures i < n && log[i].DataAt? && NoHeader(log, i + 1, n)
  {
    ReachedAt(log, n - 1);
    if log[n - 1].DataAt? {
      i := n - 1;
    } else {
      i := ReachedAfterHeader(log, n - 1);
    }
  }

  /** If it has as much as the ZEOF says, it has the file. */
  lemma EofCompletes(file: seq<Byte>, log: seq<Event>, heard: seq<bool>, n: nat)
    requires n < |log| == |heard| && Faithful(file, log) && |file| < 0x1_0000_0000
    requires log[n].Eof? && log[n].pos == |TakeAll(log, heard, n).data|
    ensures TakeAll(log, heard, n).data == file
  {
    ReceiverHasPrefix(file, log, heard, n);
    RightAt(file, log, n);
    var i := ReachedAfterHeader(log, n);
    RightAt(file, log, i);
    EofMeansWhole(file, log, i, n);
    PositionWraps(|file|);
    PositionWraps(log[i].pos);
  }
}
