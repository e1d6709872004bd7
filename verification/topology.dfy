/** Links and the per-node link queries the router relies on: `Connection`
    (main.py:14-23) and `Node.get_connections` (main.py:53-61), plus the
    ordering `send` puts on them (main.py:89-90). Node objects are compared
    by identity in the source; every node carries a unique id, so a node is
    represented here by that id. */
module Topology {

  type NodeId = nat

  /** An undirected link between the nodes `a` and `b` with its simulated
      latency. Nothing forbids `a == b` or parallel links. */
  datatype Conn = Conn(a: NodeId, b: NodeId, delay: nat)

  /** `Connection.ping`: the wall-clock wait is not modelled and the new
      delay is drawn from `randint(0, 0)`, which is always 0. */
  function Ping(c: Conn): Conn {
    c.(delay := 0)
  }

  /** `Connection.__init__`: delay 0 and then one ping. */
  function NewConn(a: NodeId, b: NodeId): Conn {
    Ping(Conn(a, b, 0))
  }

  /** A fresh link joins the given nodes with no delay, and pinging any
      link keeps its endpoints, zeroes its delay and is idempotent. */
  lemma PingFacts(c: Conn, a: NodeId, b: NodeId)
    ensures NewConn(a, b) == Conn(a, b, 0)
    ensures Ping(c).a == c.a && Ping(c).b == c.b && Ping(c).delay == 0
    ensures Ping(Ping(c)) == Ping(c)
  {
  }

  predicate Touches(c: Conn, v: NodeId) {
    c.a == v || c.b == v
  }

  /** The far endpoint of `c` seen from `v` (main.py:92-95 and 113). */
  function Away(c: Conn, v: NodeId): NodeId {
    if c.a == v then c.b else c.a
  }

  /** Some link of `net` leads from `u` to `v`. */
  ghost predicate Linked(net: seq<Conn>, u: NodeId, v: NodeId) {
    exists i :: 0 <= i < |net| && Touches(net[i], u) && Away(net[i], u) == v
  }

  /** Two link lists with the same links, delays aside. */
  ghost predicate SameEnds(n1: seq<Conn>, n2: seq<Conn>) {
    && |n1| == |n2|
    && forall j :: 0 <= j < |n1| ==> n1[j].a == n2[j].a && n1[j].b == n2[j].b
  }

  lemma LinkedSameEnds(n1: seq<Conn>, n2: seq<Conn>, u: NodeId, v: NodeId)
    requires SameEnds(n1, n2) && Linked(n1, u, v)
    ensures Linked(n2, u, v)
  {
    var i :| 0 <= i < |n1| && Touches(n1[i], u) && Away(n1[i], u) == v;
    assert Touches(n2[i], u) && Away(n2[i], u) == v;
  }

  /** Every entry of `s` is a position in `net`. */
  predicate InRange(net: seq<Conn>, s: seq<nat>) {
    forall i :: 0 <= i < |s| ==> s[i] < |net|
  }

  predicate Increasing(s: seq<nat>) {
    forall i, j :: 0 <= i < j < |s| ==> s[i] < s[j]
  }

  /** Positions among the first `n` links of those touching `v`, in order. */
  function IncidentUpTo(net: seq<Conn>, v: NodeId, n: nat): (r: seq<nat>)
    requires n <= |net|
    ensures |r| <= n
    decreases n
  {
    if n == 0 then []
    else
      var r := IncidentUpTo(net, v, n - 1);
      if Touches(net[n - 1], v) then r + [n - 1] else r
  }

  lemma {:induction false} IncidentUpToMembers(net: seq<Conn>, v: NodeId, n: nat)
    requires n <= |net|
    ensures var r := IncidentUpTo(net, v, n);
            && (forall j :: j in r <==> 0 <= j < n && Touches(net[j], v))
            && Increasing(r)
    decreases n
  {
    if n > 0 {
      IncidentUpToMembers(net, v, n - 1);
      var r := IncidentUpTo(net, v, n - 1);
      assert forall i :: 0 <= i < |r| ==> r[i] < n - 1 by {
        forall i | 0 <= i < |r| ensures r[i] < n - 1 { assert r[i] in r; }
      }
    }
  }

  /** `Node.get_connections`: the links with `v` as an endpoint. */
  function Incident(net: seq<Conn>, v: NodeId): seq<nat> {
    IncidentUpTo(net, v, |net|)
  }

  /** `get_connections` returns every link touching `v` and no other, each
      once (a self-link included once), in the order they were created. */
  lemma IncidentMembers(net: seq<Conn>, v: NodeId)
    ensures var r := Incident(net, v);
            && (forall j :: j in r <==> 0 <= j < |net| && Touches(net[j], v))
            && Increasing(r)
            && InRange(net, r)
  {
    IncidentUpToMembers(net, v, |net|);
    var r := Incident(net, v);
    assert InRange(net, r) by {
      forall i | 0 <= i < |r| ensures r[i] < |net| { assert r[i] in r; }
    }
  }

  /** The sort key of the link at position `i`; positions outside `net`
      never occur in practice and get key 0. */
  function DelayAt(net: seq<Conn>, i: nat): nat {
    if i < |net| then net[i].delay else 0
  }

  /** Delays along `s` never increase. */
  predicate DelayDescending(net: seq<Conn>, s: seq<nat>) {
    forall i :: 0 < i < |s| ==> DelayAt(net, s[i - 1]) >= DelayAt(net, s[i])
  }

  /** Puts `x` in front of the first entry whose delay is not larger. */
  function Insert(net: seq<Conn>, x: nat, s: seq<nat>): (r: seq<nat>)
    ensures |r| == |s| + 1
  {
    if |s| == 0 || DelayAt(net, s[0]) <= DelayAt(net, x) then [x] + s
    else [s[0]] + Insert(net, x, s[1..])
  }

  /** Insertion adds `x` and keeps a descending list descending. */
  lemma {:induction false} InsertFacts(net: seq<Conn>, x: nat, s: seq<nat>)
    ensures var r := Insert(net, x, s);
            && multiset(r) == multiset(s) + multiset{x}
            && (r[0] == x || (|s| > 0 && r[0] == s[0]))
            && (DelayDescending(net, s) ==> DelayDescending(net, r))
  {
    if |s| == 0 || DelayAt(net, s[0]) <= DelayAt(net, x) {
      ConsDescending(net, x, s);
    } else {
      var t := Insert(net, x, s[1..]);
      InsertFacts(net, x, s[1..]);
      TailDescending(net, s);
      ConsDescending(net, s[0], t);
    }
  }

  lemma TailDescending(net: seq<Conn>, s: seq<nat>)
    requires |s| > 0
    ensures s == [s[0]] + s[1..] && multiset(s) == multiset{s[0]} + multiset(s[1..])
    ensures DelayDescending(net, s) ==> DelayDescending(net, s[1..])
  {
    assert s == [s[0]] + s[1..];
    if DelayDescending(net, s) {
      forall i | 0 < i < |s[1..]| ensures DelayAt(net, s[1..][i - 1]) >= DelayAt(net, s[1..][i]) {
        assert s[1..][i - 1] == s[i] && s[1..][i] == s[i + 1];
      }
    }
  }

  lemma ConsDescending(net: seq<Conn>, h: nat, t: seq<nat>)
    ensures DelayDescending(net, t) && (|t| > 0 ==> DelayAt(net, h) >= DelayAt(net, t[0]))
            ==> DelayDescending(net, [h] + t)
  {
    if DelayDescending(net, t) && (|t| > 0 ==> DelayAt(net, h) >= DelayAt(net, t[0])) {
      forall i | 0 < i < |[h] + t|
        ensures DelayAt(net, ([h] + t)[i - 1]) >= DelayAt(net, ([h] + t)[i])
      {
        if i > 1 { assert ([h] + t)[i - 1] == t[i - 2]; }
      }
    }
  }

  /** `connections.sort(key=lambda x: x.delay, reverse=True)`: a stable
      sort, largest delay first. */
  function SortByDelay(net: seq<Conn>, s: seq<nat>): (r: seq<nat>)
    ensures |r| == |s|
  {
    if |s| == 0 then []
    else Insert(net, s[0], SortByDelay(net, s[1..]))
  }

  /** The sort is a permutation into descending order of delay. */
  lemma {:induction false} SortFacts(net: seq<Conn>, s: seq<nat>)
    ensures multiset(SortByDelay(net, s)) == multiset(s)
    ensures DelayDescending(net, SortByDelay(net, s))
  {
    if |s| > 0 {
      SortFacts(net, s[1..]);
      InsertFacts(net, s[0], SortByDelay(net, s[1..]));
      TailDescending(net, s);
    }
  }

  /** The entries of `s` whose link has delay `d`, in their order in `s`. */
  function WithDelay(net: seq<Conn>, s: seq<nat>, d: nat): seq<nat> {
    if |s| == 0 then []
    else (if DelayAt(net, s[0]) == d then [s[0]] else []) + WithDelay(net, s[1..], d)
  }

  lemma WithDelayCons(net: seq<Conn>, h: nat, t: seq<nat>, d: nat)
    ensures WithDelay(net, [h] + t, d) == (if DelayAt(net, h) == d then [h] else []) + WithDelay(net, t, d)
  {
    assert ([h] + t)[1..] == t;
  }

  lemma {:induction false} InsertStable(net: seq<Conn>, x: nat, s: seq<nat>, d: nat)
    ensures WithDelay(net, Insert(net, x, s), d)
         == (if DelayAt(net, x) == d then [x] else []) + WithDelay(net, s, d)
  {
    if |s| == 0 || DelayAt(net, s[0]) <= DelayAt(net, x) {
      WithDelayCons(net, x, s, d);
    } else {
      var t := Insert(net, x, s[1..]);
      InsertStable(net, x, s[1..], d);
      WithDelayCons(net, s[0], t, d);
      assert DelayAt(net, s[0]) != d || DelayAt(net, x) != d;
    }
  }

  /** Stability: for every delay value, the links of that delay keep their
      relative order through the sort. */
  lemma {:induction false} SortIsStable(net: seq<Conn>, s: seq<nat>, d: nat)
    ensures WithDelay(net, SortByDelay(net, s), d) == WithDelay(net, s, d)
  {
    if |s| > 0 {
      SortIsStable(net, s[1..], d);
      InsertStable(net, s[0], SortByDelay(net, s[1..]), d);
    }
  }

  /** With one common delay the sort changes nothing. */
  lemma {:induction false} SortUniformIsIdentity(net: seq<Conn>, s: seq<nat>, d: nat)
    requires forall i :: 0 <= i < |s| ==> DelayAt(net, s[i]) == d
    ensures SortByDelay(net, s) == s
  {
    if |s| > 0 {
      assert s == [s[0]] + s[1..];
      SortUniformIsIdentity(net, s[1..], d);
    }
  }

  /** Every link has delay 0, as after construction and after every ping. */
  ghost predicate ZeroDelays(net: seq<Conn>) {
    forall j :: 0 <= j < |net| ==> net[j].delay == 0
  }

  /** The order in which `send` scans the links of `v` (main.py:89-90). */
  function ScanOrder(net: seq<Conn>, v: NodeId): (r: seq<nat>)
    ensures InRange(net, r)
  {
    var r := SortByDelay(net, Incident(net, v));
    ScanOrderMembers(net, v);
    assert InRange(net, r) by {
      forall i | 0 <= i < |r| ensures r[i] < |net| { assert r[i] in r; }
    }
    r
  }

  /** The scan visits exactly the links touching `v`, largest delay first. */
  lemma ScanOrderMembers(net: seq<Conn>, v: NodeId)
    ensures var r := SortByDelay(net, Incident(net, v));
            && (forall j :: j in r <==> 0 <= j < |net| && Touches(net[j], v))
            && DelayDescending(net, r)
            && ((forall j :: 0 <= j < |net| ==> !Touches(net[j], v)) ==> r == [])
  {
    var s := Incident(net, v);
    var r := SortByDelay(net, s);
    IncidentMembers(net, v);
    SortFacts(net, s);
    forall j ensures j in r <==> j in s {
      assert j in r <==> j in multiset(r);
    }
    if |r| > 0 {
      assert r[0] in r;
    }
  }

  /** When all delays are 0, which the link operations guarantee, `send`
      scans the links of a node in creation order. */
  lemma ScanOrderIsCreationOrder(net: seq<Conn>, v: NodeId)
    requires ZeroDelays(net)
    ensures ScanOrder(net, v) == Incident(net, v)
  {
    var s := Incident(net, v);
    assert forall i :: 0 <= i < |s| ==> DelayAt(net, s[i]) == 0;
    SortUniformIsIdentity(net, s, 0);
  }
}
