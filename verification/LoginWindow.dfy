/** Counting failures in a window of time: what the login watcher should
    know, without its data structures. */
module LoginWindow {
  /** An IPv4 address. */
  type Addr = a: nat | a < 0x1_0000_0000

  datatype Failure = Failure(from: Addr, t: int)

  /** What site_limit answers: its table may be loaded anew before any call,
      but holds no limit below 1. */
  type Limit = n: nat | n >= 1 witness 1

  const WINDOW: int := 600
  const DEFAULT_LIMIT: Limit := 30

  /** How many of the failures came from `a`. */
  function Count(q: seq<Failure>, a: Addr): nat {
    if q == [] then 0 else (if q[0].from == a then 1 else 0) + Count(q[1..], a)
  }

  lemma {:induction false} CountAppend(q: seq<Failure>, r: seq<Failure>, a: Addr)
    ensures Count(q + r, a) == Count(q, a) + Count(r, a)
  {
    if q == [] {
      assert q + r == r;
    } else {
      assert (q + r)[1..] == q[1..] + r;
      CountAppend(q[1..], r, a);
    }
  }

  lemma CountOne(q: seq<Failure>, f: Failure, a: Addr)
    ensures Count(q + [f], a) == Count(q, a) + if f.from == a then 1 else 0
  {
    CountAppend(q, [f], a);
    assert [f][1..] == [];
  }

  predicate InOrder(q: seq<Failure>) {
    forall i, j :: 0 <= i < j < |q| ==> q[i].t <= q[j].t
  }

  /** The failures less than 600 seconds before `now`. */
  function Recent(q: seq<Failure>, now: int): seq<Failure> {
    if q == [] then []
    else if q[0].t > now - WINDOW then [q[0]] + Recent(q[1..], now)
    else Recent(q[1..], now)
  }

  lemma {:induction false} RecentAppend(q: seq<Failure>, r: seq<Failure>, now: int)
    ensures Recent(q + r, now) == Recent(q, now) + Recent(r, now)
  {
    if q == [] {
      assert q + r == r;
    } else {
      assert (q + r)[1..] == q[1..] + r;
      RecentAppend(q[1..], r, now);
    }
  }

  /** Those are the failures of less than 600 seconds ago. */
  lemma {:induction false} RecentAre(q: seq<Failure>, now: int, f: Failure)
    ensures f in Recent(q, now) <==> f in q && now - f.t < 600
  {
    if q != [] {
      RecentAre(q[1..], now, f);
      assert q == [q[0]] + q[1..];
    }
  }

  lemma {:induction false} RecentAll(q: seq<Failure>, now: int)
    requires forall i :: 0 <= i < |q| ==> q[i].t > now - WINDOW
    ensures Recent(q, now) == q
  {
    if q != [] {
      RecentAll(q[1..], now);
    }
  }

  lemma {:induction false} RecentNone(q: seq<Failure>, now: int)
    requires forall i :: 0 <= i < |q| ==> q[i].t <= now - WINDOW
    ensures Recent(q, now) == []
  {
    if q != [] {
      RecentNone(q[1..], now);
    }
  }

  lemma {:induction false} RecentInOrder(q: seq<Failure>, now: int)
    requires InOrder(q)
    ensures InOrder(Recent(q, now))
    ensures forall f :: f in Recent(q, now) ==> f in q && f.t > now - WINDOW
  {
    if q != [] {
      RecentInOrder(q[1..], now);
      assert forall f :: f in q[1..] ==> q[0].t <= f.t;
    }
  }

  /** Forgetting twice is forgetting to the later time. */
  lemma {:induction false} RecentTwice(q: seq<Failure>, before: int, now: int)
    requires before <= now
    ensures Recent(Recent(q, before), now) == Recent(q, now)
  {
    if q != [] {
      RecentTwice(q[1..], before, now);
      var rest := Recent(q[1..], before);
      assert ([q[0]] + rest)[1..] == rest;
    }
  }

  /** Dropping old failures from the front of a queue in order, up to the first
      recent one, leaves exactly the recent ones. */
  lemma DropIsRecent(q: seq<Failure>, k: nat, now: int)
    requires k <= |q| && InOrder(q)
    requires forall i :: 0 <= i < k ==> q[i].t <= now - WINDOW
    requires k < |q| ==> q[k].t > now - WINDOW
    ensures Recent(q, now) == q[k..]
  {
    assert q == q[..k] + q[k..];
    RecentAppend(q[..k], q[k..], now);
    RecentNone(q[..k], now);
    RecentAll(q[k..], now);
  }

  lemma DropLeavesRecent(history: seq<Failure>, before: int, q: seq<Failure>, k: nat, now: int)
    requires InOrder(history) && q == Recent(history, before) && before <= now && k <= |q|
    requires forall i :: 0 <= i < k ==> q[i].t <= now - WINDOW
    requires k < |q| ==> q[k].t > now - WINDOW
    ensures Recent(history, now) == q[k..]
  {
    RecentInOrder(history, before);
    DropIsRecent(q, k, now);
    RecentTwice(history, before, now);
  }

  /** The number of queued failures from `a` that are out of the window. */
  function Stale(q: seq<Failure>, now: int, a: Addr): nat {
    if q == [] then 0
    else (if q[0].from == a && q[0].t <= now - WINDOW then 1 else 0) + Stale(q[1..], now, a)
  }

  lemma {:induction false} CountIsRecentAndStale(q: seq<Failure>, now: int, a: Addr)
    ensures Count(q, a) == Count(Recent(q, now), a) + Stale(q, now, a)
  {
    if q != [] {
      CountIsRecentAndStale(q[1..], now, a);
      assert ([q[0]] + Recent(q[1..], now))[1..] == Recent(q[1..], now);
    }
  }

  /** What is queued when a failure comes in, and what the window holds. The
      watcher has last looked at the clock at `before`. */
  lemma QueuedIsWindowAndStale(history: seq<Failure>, before: int, f: Failure)
    requires before <= f.t
    ensures Count(Recent(history, before) + [f], f.from) ==
            Count(Recent(history + [f], f.t), f.from) + Stale(Recent(history, before), f.t, f.from)
    ensures Count(Recent(history + [f], f.t), f.from) > 0
  {
    var q := Recent(history, before);
    CountOne(q, f, f.from);
    RecentAppend(history, [f], f.t);
    assert [f][1..] == [];
    assert Recent([f], f.t) == [f];
    CountOne(Recent(history, f.t), f, f.from);
    RecentTwice(history, before, f.t);
    CountIsRecentAndStale(q, f.t, f.from);
  }

  /** A failure of `a` that has left the window since the queue was looked at. */
  ghost predicate LeftWindow(history: seq<Failure>, before: int, now: int, a: Addr, i: nat)
    requires i < |history|
  {
    history[i].from == a && before - WINDOW < history[i].t <= now - WINDOW
  }

  ghost predicate NoneLeft(history: seq<Failure>, before: int, now: int, a: Addr) {
    forall i: nat :: i < |history| ==> !LeftWindow(history, before, now, a, i)
  }

  lemma NoneLeftSplit(history: seq<Failure>, before: int, now: int, a: Addr)
    requires history != []
    ensures NoneLeft(history, before, now, a) <==>
            !LeftWindow(history, before, now, a, 0) && NoneLeft(history[1..], before, now, a)
  {
    var rest := history[1..];
    assert forall i: nat :: i < |rest| ==> rest[i] == history[i + 1];
    if NoneLeft(history, before, now, a) {
      forall i: nat | i < |rest|
        ensures !LeftWindow(rest, before, now, a, i)
      {
        assert !LeftWindow(history, before, now, a, i + 1);
      }
    }
    if !LeftWindow(history, before, now, a, 0) && NoneLeft(rest, before, now, a) {
      forall i: nat | i < |history|
        ensures !LeftWindow(history, before, now, a, i)
      {
        assert i > 0 ==> !LeftWindow(rest, before, now, a, i - 1);
      }
    }
  }

  lemma {:induction false} StaleHaveLeft(history: seq<Failure>, before: int, now: int, a: Addr)
    ensures Stale(Recent(history, before), now, a) == 0 <==> NoneLeft(history, before, now, a)
  {
    if history != [] {
      StaleHaveLeft(history[1..], before, now, a);
      NoneLeftSplit(history, before, now, a);
      var rest := Recent(history[1..], before);
      assert ([history[0]] + rest)[1..] == rest;
    }
  }

  /** filter_passerr's test. */
  predicate Exceeds(count: nat, limit: nat) { count > limit }

  /** Comparing what is queued decides, at every limit, as the window of the
      last 600 seconds would, if and only if no failure of the address has left
      the window since the queue was last looked at. */
  lemma DecisionIsWindowIff(history: seq<Failure>, before: int, f: Failure)
    requires before <= f.t
    ensures var queued := Count(Recent(history, before) + [f], f.from);
            var window := Count(Recent(history + [f], f.t), f.from);
            (forall limit: Limit :: Exceeds(queued, limit) <==> Exceeds(window, limit)) <==>
            NoneLeft(history, before, f.t, f.from)
  {
    QueuedIsWindowAndStale(history, before, f);
    StaleHaveLeft(history, before, f.t, f.from);
    var queued := Count(Recent(history, before) + [f], f.from);
    var window := Count(Recent(history + [f], f.t), f.from);
    assert queued > window ==> Exceeds(queued, window) && !Exceeds(window, window);
  }

  /** So it does when the queue was looked at in the second of the failure. */
  lemma DecisionIsWindowAtOnce(history: seq<Failure>, f: Failure)
    ensures Count(Recent(history, f.t) + [f], f.from) == Count(Recent(history + [f], f.t), f.from)
  {
    QueuedIsWindowAndStale(history, f.t, f);
    StaleHaveLeft(history, f.t, f.t, f.from);
  }

  /** n failures of one address at one moment. */
  function Burst(a: Addr, t: int, n: nat): seq<Failure> {
    if n == 0 then [] else Burst(a, t, n - 1) + [Failure(a, t)]
  }

  lemma {:induction false} BurstCounts(a: Addr, t: int, n: nat)
    ensures Count(Burst(a, t, n), a) == n
    ensures forall i :: 0 <= i < |Burst(a, t, n)| ==> Burst(a, t, n)[i] == Failure(a, t)
  {
    if n > 0 {
      BurstCounts(a, t, n - 1);
      CountOne(Burst(a, t, n - 1), Failure(a, t), a);
    }
  }

  /** The two do differ: an address that reached the limit once and failed
      again hours later, with nothing logged in between, is over the limit
      with a single failure in the window. */
  lemma OldFailuresCount(a: Addr)
    ensures var history, f := Burst(a, 0, DEFAULT_LIMIT), Failure(a, 10000);
            && Count(Recent(history, 0) + [f], a) > DEFAULT_LIMIT
            && Count(Recent(history + [f], f.t), a) == 1
  {
    var history, f := Burst(a, 0, DEFAULT_LIMIT), Failure(a, 10000);
    BurstCounts(a, 0, DEFAULT_LIMIT);
    RecentAll(history, 0);
    CountOne(history, f, a);
    RecentAppend(history, [f], f.t);
    RecentNone(history, f.t);
    assert [f][1..] == [];
    assert Recent([f], f.t) == [f];
    assert [] + [f] == [f];
  }
}
