/** The socket pool of lib/connection.js: `_freeClientSockets` and `_bussyClientSockets`,
    changed by push, pop and `splice(indexOf(socket), 1)`. Sockets are opaque ids; a
    connection numbers the sockets it opens 0, 1, 2, ... The class Connection.Connection
    performs these changes in place and is proved to match the functions here. */
module Pool {

  type Socket = nat

  /** The two lists and the number of connects made so far. */
  datatype Sockets = Sockets(free: seq<Socket>, busy: seq<Socket>, connects: nat)

  const Empty: Sockets := Sockets([], [], 0)

  predicate NoDuplicates(s: seq<Socket>) {
    forall i, j :: 0 <= i < j < |s| ==> s[i] != s[j]
  }

  /** Every socket in the pool was opened by it and sits in exactly one list, once. */
  predicate Valid(p: Sockets) {
    && NoDuplicates(p.free)
    && NoDuplicates(p.busy)
    && (forall x :: x in p.free ==> x !in p.busy)
    && (forall x :: x in p.free ==> x < p.connects)
    && (forall x :: x in p.busy ==> x < p.connects)
  }

  /** `indexOf`: the first position of x, or -1. */
  function IndexOf(s: seq<Socket>, x: Socket): (i: int)
    ensures -1 <= i < |s|
    ensures i == -1 <==> x !in s
    ensures 0 <= i ==> s[i] == x && x !in s[..i]
  {
    if s == [] then -1
    else if s[0] == x then 0
    else
      var i := IndexOf(s[1..], x);
      if i == -1 then -1 else i + 1
  }

  /** `idx = indexOf(x); if (idx != -1) splice(idx, 1)`. */
  function RemoveFirst(s: seq<Socket>, x: Socket): seq<Socket>
  {
    var i := IndexOf(s, x);
    if i == -1 then s else s[..i] + s[i + 1..]
  }

  lemma NoDuplicatesSplit(a: seq<Socket>, x: Socket, b: seq<Socket>)
    ensures NoDuplicates(a + [x] + b) <==> NoDuplicates(a + b) && x !in a + b
  {
    var s := a + [x] + b;
    var t := a + b;
    if NoDuplicates(s) {
      forall i, j | 0 <= i < j < |t| ensures t[i] != t[j] {
        var i' := if i < |a| then i else i + 1;
        var j' := if j < |a| then j else j + 1;
        assert t[i] == s[i'] && t[j] == s[j'];
      }
      forall k | 0 <= k < |t| ensures t[k] != x {
        var k' := if k < |a| then k else k + 1;
        assert t[k] == s[k'] && s[|a|] == x;
      }
    }
    if NoDuplicates(t) && x !in t {
      forall i, j | 0 <= i < j < |s| ensures s[i] != s[j] {
        if i != |a| && j != |a| {
          var i' := if i < |a| then i else i - 1;
          var j' := if j < |a| then j else j - 1;
          assert s[i] == t[i'] && s[j] == t[j'];
        } else if i == |a| {
          assert s[j] == t[j - 1];
        } else {
          assert s[i] == t[i];
        }
      }
    }
  }

  lemma NoDuplicatesPush(a: seq<Socket>, x: Socket)
    ensures NoDuplicates(a + [x]) <==> NoDuplicates(a) && x !in a
  {
    NoDuplicatesSplit(a, x, []);
    assert a + [x] + [] == a + [x];
    assert a + [] == a;
  }

  /** Removing x takes out one copy of x and keeps the order of the rest; from a list
      without duplicates it takes out x altogether. */
  lemma RemoveFirstSpec(s: seq<Socket>, x: Socket)
    ensures multiset(RemoveFirst(s, x)) == multiset(s) - multiset{x}
    ensures x !in s ==> RemoveFirst(s, x) == s
    ensures forall y :: y != x ==> (y in RemoveFirst(s, x) <==> y in s)
    ensures NoDuplicates(s) ==> NoDuplicates(RemoveFirst(s, x)) && x !in RemoveFirst(s, x)
  {
    var i := IndexOf(s, x);
    if i != -1 {
      var a, b := s[..i], s[i + 1..];
      assert s == a + [x] + b;
      assert RemoveFirst(s, x) == a + b;
      RemoveMiddle(a, x, b);
      NoDuplicatesSplit(a, x, b);
    } else {
      assert RemoveFirst(s, x) == s;
      assert multiset(s)[x] == 0;
      assert multiset(s) - multiset{x} == multiset(s);
    }
  }

  lemma RemoveMiddle(a: seq<Socket>, x: Socket, b: seq<Socket>)
    ensures multiset(a + b) == multiset(a + [x] + b) - multiset{x}
    ensures forall y :: y != x ==> (y in a + b <==> y in a + [x] + b)
  {
    assert multiset(a + [x] + b) == multiset(a) + multiset{x} + multiset(b);
    assert multiset(a + b) == multiset(a) + multiset(b);
  }

  /** Socket acquisition (lib/connection.js:226-251): pop the last free socket, or open a
      new one; either way push it onto busy. Returns the pool, the socket, and whether
      a connect was made. */
  function Acquire(p: Sockets): (Sockets, Socket, bool)
  {
    if |p.free| > 0 then
      var s := p.free[|p.free| - 1];
      (Sockets(p.free[..|p.free| - 1], p.busy + [s], p.connects), s, false)
    else
      (Sockets(p.free, p.busy + [p.connects], p.connects + 1), p.connects, true)
  }

  /** `_PutClientSocketForReuse` (lib/connection.js:110-121): drop the socket from busy if
      it is there, and push it onto free in any case. */
  function Release(p: Sockets, s: Socket): Sockets
  {
    Sockets(p.free + [s], RemoveFirst(p.busy, s), p.connects)
  }

  /** The close handler (lib/connection.js:240-249): drop the socket from busy, or else
      from free. */
  function Close(p: Sockets, s: Socket): Sockets
  {
    if IndexOf(p.busy, s) != -1 then p.(busy := RemoveFirst(p.busy, s))
    else p.(free := RemoveFirst(p.free, s))
  }

  /** The end handler's pool step (lib/connection.js:319-321): drop the socket from free. */
  function Ended(p: Sockets, s: Socket): Sockets
  {
    p.(free := RemoveFirst(p.free, s))
  }

  function Size(p: Sockets): nat {
    |p.free| + |p.busy|
  }

  /** Acquisition keeps the pool valid, puts the socket in busy and not in free, and grows
      the pool by one socket exactly when it connects a new one. */
  lemma AcquireKeepsValid(p: Sockets)
    requires Valid(p)
    ensures var (q, s, connected) := Acquire(p);
            Valid(q) && s in q.busy && s !in q.free &&
            (connected <==> p.free == []) &&
            (connected ==> s !in p.free + p.busy && Size(q) == Size(p) + 1 && q.connects == p.connects + 1) &&
            (!connected ==> s in p.free && Size(q) == Size(p) && q.connects == p.connects)
  {
    var (q, s, connected) := Acquire(p);
    NoDuplicatesPush(p.busy, s);
    if !connected {
      assert p.free == q.free + [s];
      NoDuplicatesPush(q.free, s);
      assert s in p.free;
      forall x | x in q.free ensures x in p.free && x < q.connects { }
      forall x | x in q.busy ensures x < q.connects {
        assert x in p.busy || x == s;
      }
    }
  }

  /** Releasing a busy socket keeps the pool valid and moves only that socket: it leaves
      busy, joins the end of free, and every other socket stays where it was. */
  lemma ReleaseKeepsValid(p: Sockets, s: Socket)
    requires Valid(p) && s in p.busy
    ensures var q := Release(p, s);
            Valid(q) && s !in q.busy && q.free == p.free + [s] &&
            (forall y :: y != s ==> (y in q.busy <==> y in p.busy)) &&
            Size(q) == Size(p)
  {
    var q := Release(p, s);
    RemoveFirstSpec(p.busy, s);
    NoDuplicatesPush(p.free, s);
    assert |multiset(q.busy)| == |multiset(p.busy)| - 1;
  }

  /** A second release of the same socket (a second completion on one request) finds it
      no longer busy and pushes it onto free again: free then holds it twice. */
  lemma SecondReleaseDuplicates(p: Sockets, s: Socket)
    requires Valid(p) && s in p.busy
    ensures var q := Release(Release(p, s), s);
            q.free[|q.free| - 2] == s && q.free[|q.free| - 1] == s && !Valid(q)
  {
    var q := Release(Release(p, s), s);
    ReleaseKeepsValid(p, s);
    assert q.free == p.free + [s] + [s];
    assert q.free[|q.free| - 2] == q.free[|q.free| - 1];
  }

  /** The close handler keeps the pool valid and retires the socket from both lists,
      leaving every other socket where it was. */
  lemma CloseKeepsValid(p: Sockets, s: Socket)
    requires Valid(p)
    ensures var q := Close(p, s);
            Valid(q) && s !in q.free && s !in q.busy && q.connects == p.connects &&
            (forall y :: y != s ==> (y in q.free <==> y in p.free) && (y in q.busy <==> y in p.busy))
  {
    RemoveFirstSpec(p.busy, s);
    RemoveFirstSpec(p.free, s);
  }

  /** The end handler keeps the pool valid and leaves the socket out of free. */
  lemma EndedKeepsValid(p: Sockets, s: Socket)
    requires Valid(p)
    ensures var q := Ended(p, s);
            Valid(q) && s !in q.free && q.busy == p.busy && q.connects == p.connects &&
            (forall y :: y != s ==> (y in q.free <==> y in p.free))
  {
    RemoveFirstSpec(p.free, s);
  }

  /** Two requests one after the other: the second reuses the socket the first released,
      with no new connect. */
  lemma SequentialRequestsReuse(p: Sockets)
    requires Valid(p)
    ensures var (q, s, _) := Acquire(p);
            var (r, s2, connected) := Acquire(Release(q, s));
            s2 == s && !connected && r.connects == q.connects
  {
    var (q, s, _) := Acquire(p);
    AcquireKeepsValid(p);
    ReleaseKeepsValid(q, s);
  }

  /** n requests issued before any completes: each acquisition in turn. */
  function AcquireMany(p: Sockets, n: nat): (Sockets, seq<Socket>)
  {
    if n == 0 then (p, [])
    else
      var (q, ss) := AcquireMany(p, n - 1);
      var (r, s, _) := Acquire(q);
      (r, ss + [s])
  }

  /** Completions in the given order, each releasing its socket. */
  function ReleaseAll(p: Sockets, order: seq<Socket>): Sockets
    decreases |order|
  {
    if order == [] then p else ReleaseAll(Release(p, order[0]), order[1..])
  }

  /** n concurrent requests on a fresh connection open n distinct sockets, all busy. */
  lemma {:induction false} ConcurrentRequestsConnect(n: nat)
    ensures var (p, ss) := AcquireMany(Empty, n);
            Valid(p) && p.free == [] && p.busy == ss && |ss| == n && p.connects == n &&
            NoDuplicates(ss)
  {
    if n > 0 {
      ConcurrentRequestsConnect(n - 1);
      var (q, ss) := AcquireMany(Empty, n - 1);
      AcquireKeepsValid(q);
      NoDuplicatesPush(ss, q.connects);
    }
  }

  lemma ReleaseFirstOfOrder(p: Sockets, order: seq<Socket>)
    requires Valid(p) && order != [] && multiset(order) == multiset(p.busy)
    ensures var q := Release(p, order[0]);
            Valid(q) && multiset(order[1..]) == multiset(q.busy) && q.free == p.free + [order[0]]
  {
    var x := order[0];
    assert order == [x] + order[1..];
    assert multiset(order) == multiset{x} + multiset(order[1..]);
    assert x in multiset(p.busy);
    ReleaseKeepsValid(p, x);
    RemoveFirstSpec(p.busy, x);
  }

  /** Completing every busy request, in any order, empties busy and leaves all those
      sockets free. */
  lemma {:induction false} CompletingAllFreesAll(p: Sockets, order: seq<Socket>)
    requires Valid(p) && multiset(order) == multiset(p.busy)
    ensures var q := ReleaseAll(p, order);
            Valid(q) && q.busy == [] && q.free == p.free + order
    decreases |order|
  {
    if order == [] {
      assert |p.busy| == |multiset(p.busy)| == 0;
      assert ReleaseAll(p, order) == p;
    } else {
      var q := Release(p, order[0]);
      ReleaseFirstOfOrder(p, order);
      CompletingAllFreesAll(q, order[1..]);
      ReleaseAllUnfold(p, order);
      AppendHeadTail(p.free, order);
    }
  }

  lemma ReleaseAllUnfold(p: Sockets, order: seq<Socket>)
    requires order != []
    ensures ReleaseAll(p, order) == ReleaseAll(Release(p, order[0]), order[1..])
  {
  }

  lemma AppendHeadTail(a: seq<Socket>, order: seq<Socket>)
    requires order != []
    ensures a + [order[0]] + order[1..] == a + order
  {
    assert order == [order[0]] + order[1..];
  }
}
