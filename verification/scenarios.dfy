/** Whole walks of `Node.send` (main.py:68-122) on small networks whose
    links were made by `create_connection`, so every delay is 0. Each node
    name stands for any node id; distinct names are distinct nodes. */
module Scenarios {
  import opened Wrappers
  import opened Topology
  import opened Message
  import opened Router
  import opened RouterRules

  /** `k` entries alternating between `x` and `y`, starting with `x`. */
  function Zigzag(x: NodeId, y: NodeId, k: nat): (r: seq<NodeId>)
    ensures |r| == k
    decreases k
  {
    if k == 0 then [] else [x] + Zigzag(y, x, k - 1)
  }

  /** Entry `i` of a zigzag is `x` at even and `y` at odd positions. */
  lemma {:induction false} ZigzagAlternates(x: NodeId, y: NodeId, k: nat)
    ensures forall i :: 0 <= i < k ==> Zigzag(x, y, k)[i] == (if i % 2 == 0 then x else y)
    decreases k
  {
    if k > 0 {
      ZigzagAlternates(y, x, k - 1);
      var r := Zigzag(x, y, k);
      forall i | 0 < i < k ensures r[i] == (if i % 2 == 0 then x else y) {
        assert r[i] == Zigzag(y, x, k - 1)[i - 1];
      }
    }
  }

  lemma ZigzagStep(vs: seq<NodeId>, x: NodeId, y: NodeId, k: nat)
    requires k > 0
    ensures (vs + [x]) + Zigzag(y, x, k - 1) == vs + Zigzag(x, y, k)
  {
    assert Zigzag(x, y, k) == [x] + Zigzag(y, x, k - 1);
  }

  /** The two endpoints of the only link are `a` and `b`. */
  ghost predicate OnlyLink(net: seq<Conn>, a: NodeId, b: NodeId) {
    |net| == 1 && ((net[0].a == a && net[0].b == b) || (net[0].a == b && net[0].b == a))
  }

  /** The only link of a one-link network is the whole scan order of each
      of its endpoints. */
  lemma OneLinkOrder(net: seq<Conn>, v: NodeId)
    requires |net| == 1 && Touches(net[0], v)
    ensures ScanOrder(net, v) == [0]
  {
    assert Incident(net, v) == IncidentUpTo(net, v, 1) == [0];
    assert SortByDelay(net, [0]) == Insert(net, 0, []) == [0];
  }

  /** One bounce on a lone link: `self`'s only neighbour `other` is the node
      visited last, so the frame goes straight back to it. */
  lemma BounceStep(msg: string, self: NodeId, other: NodeId, dest: NodeId, k: nat, w: Walk)
    requires self != other && k > 0 && OnlyLink(w.net, self, other)
    requires |w.visited| > 0 && w.visited[|w.visited| - 1] == other && dest !in w.visited + [self]
    ensures Frame(msg, self, dest, k, w) == Frame(msg, other, dest, k - 1, PingLink(Entered(w, self), 0))
  {
    OneLinkOrder(w.net, self);
    assert Away(w.net[0], self) == other;
    DeadEndReturns(msg, self, dest, k, w, 0);
  }

  /** Re-entering an endpoint of a lone link right after the other one:
      every frame finds its only neighbour visited, goes back to
      `visited[-2]` (the other end) and appends itself again, until the
      budget is gone. */
  lemma {:induction false} OscillateFrame(msg: string, self: NodeId, other: NodeId, dest: NodeId, k: nat, w: Walk)
    requires self != other && OnlyLink(w.net, self, other)
    requires |w.visited| > 0 && w.visited[|w.visited| - 1] == other
    requires dest != self && dest != other && dest !in w.visited
    ensures Frame(msg, self, dest, k, w).walk.visited == w.visited + Zigzag(self, other, k)
    ensures Frame(msg, self, dest, k, w).status == MaxDepth
    decreases k
  {
    if k > 0 {
      var w1 := PingLink(Entered(w, self), 0);
      BounceStep(msg, self, other, dest, k, w);
      OscillateFrame(msg, other, self, dest, k - 1, w1);
      ZigzagStep(w.visited, self, other, k);
    }
  }

  /** A link list whose links all have delay 0 is unchanged by a ping. */
  lemma PingKeepsNet(w: Walk, i: nat)
    requires i < |w.net| && w.net[i].delay == 0
    ensures PingLink(w, i) == w.(pinged := w.pinged + [i])
  {
    assert w.net[i := Ping(w.net[i])] == w.net;
  }

  /** The scan order of a node in a network of two fresh links. */
  lemma TwoLinkOrder(net: seq<Conn>, v: NodeId)
    requires |net| == 2 && net[0].delay == 0 && net[1].delay == 0
    ensures ScanOrder(net, v) == (if Touches(net[0], v) then [0] else []) + (if Touches(net[1], v) then [1] else [])
  {
    ScanOrderIsCreationOrder(net, v);
    assert IncidentUpTo(net, v, 1) == (if Touches(net[0], v) then [0] else []);
  }

  /** The network a-b. */
  function Pair(a: NodeId, b: NodeId): seq<Conn> {
    [NewConn(a, b)]
  }

  /** The network a-b-c: links a-b and b-c, created in that order. */
  function Line(a: NodeId, b: NodeId, c: NodeId): seq<Conn> {
    [NewConn(a, b), NewConn(b, c)]
  }

  /** The network with links a-b and a-c, created in that order. */
  function Fork(a: NodeId, b: NodeId, c: NodeId): seq<Conn> {
    [NewConn(a, b), NewConn(a, c)]
  }

  /** The first frame of a walk from `a` whose first link in scan order
      leads to `b`, not yet the destination. */
  lemma LeaveSource(net: seq<Conn>, msg: string, a: NodeId, b: NodeId, dest: NodeId, depth: nat)
    requires a != b && a != dest && b != dest && depth > 0
    requires |ScanOrder(net, a)| > 0 && Away(net[ScanOrder(net, a)[0]], a) == b
    requires net[ScanOrder(net, a)[0]].delay == 0
    ensures Send(net, msg, a, dest, depth, None)
         == Frame(msg, b, dest, depth - 1, Walk(net, [a], [], [ScanOrder(net, a)[0]]))
  {
    var w := Walk(net, [], [], []);
    assert Send(net, msg, a, dest, depth, None) == Frame(msg, a, dest, depth, w);
    ForwardHop(msg, a, dest, depth, w, 0);
    PingKeepsNet(Entered(w, a), ScanOrder(net, a)[0]);
    assert Entered(w, a).(pinged := [] + [ScanOrder(net, a)[0]]) == Walk(net, [a], [], [ScanOrder(net, a)[0]]);
  }

  /** The first hop on a lone link a-b, towards a third node. */
  lemma PairFirstHop(msg: string, a: NodeId, b: NodeId, dest: NodeId, depth: nat)
    requires a != b && dest != a && dest != b && depth > 0
    ensures Send(Pair(a, b), msg, a, dest, depth, None) == Frame(msg, b, dest, depth - 1, Walk(Pair(a, b), [a], [], [0]))
  {
    OneLinkOrder(Pair(a, b), a);
    LeaveSource(Pair(a, b), msg, a, b, dest, depth);
  }

  /** Oscillation: on a lone link a-b, a message for any third node leaves
      `a`, finds `b` a dead end, and from then on the walk bounces between
      the two, every entry after the second a duplicate, until `depth` runs
      out. */
  lemma Oscillation(msg: string, a: NodeId, b: NodeId, dest: NodeId, depth: nat)
    requires a != b && dest != a && dest != b
    ensures var o := Send(Pair(a, b), msg, a, dest, depth, None);
            && |o.walk.visited| == depth
            && (forall i :: 0 <= i < depth ==> o.walk.visited[i] == (if i % 2 == 0 then a else b))
            && o.status == MaxDepth
  {
    if depth == 0 {
      assert Send(Pair(a, b), msg, a, dest, depth, None) == Outcome(Walk(Pair(a, b), [], [], []), MaxDepth);
    } else {
      PairFirstHop(msg, a, b, dest, depth);
      OscillateFrame(msg, b, a, dest, depth - 1, Walk(Pair(a, b), [a], [], [0]));
      ZigzagStep([], a, b, depth);
      ZigzagAlternates(a, b, depth);
    }
  }

  /** Direct link a-b, one unit: the hop to the destination leaves it no
      budget, so nothing is delivered, and the dead end of the first frame
      fails on `visited[-2]`. */
  lemma PairOneUnit(msg: string, a: NodeId, b: NodeId)
    requires a != b
    ensures Send(Pair(a, b), msg, a, b, 1, None) == Outcome(Walk(Pair(a, b), [a], [], [0]), IndexError)
  {
    var w := Walk(Pair(a, b), [], [], []);
    var w1 := Walk(Pair(a, b), [a], [], [0]);
    assert Send(Pair(a, b), msg, a, b, 1, None) == Frame(msg, a, b, 1, w);
    OneLinkOrder(Pair(a, b), a);
    DestinationHopWithoutBudget(msg, a, b, w, 0);
    PingKeepsNet(Entered(w, a), 0);
    assert Scan(msg, a, b, 1, [0], 1, w1) == Backtrack(msg, a, b, 1, [0], w1);
  }

  /** A scan past its last link with no link back to `visited[-2]` stops
      the walk where it is. */
  lemma ScanEndsWithoutReturn(msg: string, self: NodeId, dest: NodeId, depth: nat, links: seq<nat>, w: Walk)
    requires depth > 0 && self != dest && self in w.visited && InRange(w.net, links)
    requires |w.visited| >= 2 && ReturnLink(w.net, links, self, w.visited[|w.visited| - 2]).None?
    ensures Scan(msg, self, dest, depth, links, |links|, w) == Outcome(w, NoReturnConnection)
  {
    BacktrackCases(msg, self, dest, depth, links, w);
  }

  /** Direct link a-b, two units: delivered; the sender's frame then scans
      on, reaches its dead end and finds no link from `a` back to `a`. */
  lemma PairTwoUnits(msg: string, a: NodeId, b: NodeId, m: Parsed)
    requires a != b && Parse(msg) == Success(m)
    ensures Send(Pair(a, b), msg, a, b, 2, None)
         == Outcome(Walk(Pair(a, b), [a, b], [Delivery(b, m)], [0]), NoReturnConnection)
  {
    assert Send(Pair(a, b), msg, a, b, 2, None) == Frame(msg, a, b, 2, Walk(Pair(a, b), [], [], []));
    OneLinkOrder(Pair(a, b), a);
    OnlyLinkDelivers(msg, a, b, Walk(Pair(a, b), [], [], []), m);
  }

  /** A frame with two units on a lone fresh link to the destination:
      delivered, and then no link leads from the node back to itself. */
  lemma OnlyLinkDelivers(msg: string, self: NodeId, dest: NodeId, w: Walk, m: Parsed)
    requires |w.net| == 1 && w.net[0].delay == 0 && ScanOrder(w.net, self) == [0]
    requires self != dest && dest !in w.visited && Parse(msg) == Success(m)
    requires Away(w.net[0], self) == dest
    ensures Frame(msg, self, dest, 2, w)
         == Outcome(Walk(w.net, w.visited + [self, dest], w.log + [Delivery(dest, m)], w.pinged + [0]), NoReturnConnection)
  {
    DestinationHopContinues(msg, self, dest, 2, w, 0, m);
    PingKeepsNet(Entered(w, self), 0);
    var w2 := Walk(w.net, w.visited + [self, dest], w.log + [Delivery(dest, m)], w.pinged + [0]);
    assert Arrived(Entered(w, self).(pinged := w.pinged + [0]), dest, m) == w2;
    assert w2.visited[|w2.visited| - 2] == self;
    assert ReturnLink(w.net, [0][1..], self, self) == None;
    ScanEndsWithoutReturn(msg, self, dest, 2, [0], w2);
  }

  /** Line a-b-c, three units: one frame per node, delivered at `c`; the
      frame of `b` then finds no link back to itself. */
  lemma LineThreeUnits(msg: string, a: NodeId, b: NodeId, c: NodeId, m: Parsed)
    requires a != b && b != c && a != c && Parse(msg) == Success(m)
    ensures Send(Line(a, b, c), msg, a, c, 3, None)
         == Outcome(Walk(Line(a, b, c), [a, b, c], [Delivery(c, m)], [0, 1]), NoReturnConnection)
  {
    TwoLinkOrder(Line(a, b, c), a);
    LeaveSource(Line(a, b, c), msg, a, b, c, 3);
    LineMiddleDelivers(msg, a, b, c, m);
  }

  /** The frame of `b` in the line, with two units left. */
  lemma LineMiddleDelivers(msg: string, a: NodeId, b: NodeId, c: NodeId, m: Parsed)
    requires a != b && b != c && a != c && Parse(msg) == Success(m)
    ensures Frame(msg, b, c, 2, Walk(Line(a, b, c), [a], [], [0]))
         == Outcome(Walk(Line(a, b, c), [a, b, c], [Delivery(c, m)], [0, 1]), NoReturnConnection)
  {
    TwoLinkOrder(Line(a, b, c), b);
    SecondLinkDelivers(msg, b, c, Walk(Line(a, b, c), [a], [], [0]), m);
  }

  /** A frame with two units whose node has two fresh links, the first back
      to an earlier node of the walk and the second to the destination: delivered, and then
      no link leads from the node back to itself. */
  lemma SecondLinkDelivers(msg: string, self: NodeId, dest: NodeId, w: Walk, m: Parsed)
    requires |w.net| == 2 && w.net[0].delay == 0 && w.net[1].delay == 0
    requires ScanOrder(w.net, self) == [0, 1] && self != dest && dest !in w.visited
    requires Parse(msg) == Success(m)
    requires Away(w.net[0], self) in w.visited && Away(w.net[0], self) != self
    requires Away(w.net[1], self) == dest
    ensures Frame(msg, self, dest, 2, w)
         == Outcome(Walk(w.net, w.visited + [self, dest], w.log + [Delivery(dest, m)], w.pinged + [1]), NoReturnConnection)
  {
    DestinationHopContinues(msg, self, dest, 2, w, 1, m);
    PingKeepsNet(Entered(w, self), 1);
    var w3 := Walk(w.net, w.visited + [self, dest], w.log + [Delivery(dest, m)], w.pinged + [1]);
    assert Arrived(Entered(w, self).(pinged := w.pinged + [1]), dest, m) == w3;
    assert w3.visited[|w3.visited| - 2] == self;
    assert ReturnLink(w.net, [0, 1][1..], self, self) == None;
    ScanEndsWithoutReturn(msg, self, dest, 2, [0, 1], w3);
  }

  /** Line a-b-c, two units: the hop from `b` to `c` leaves the destination
      no budget; `b` then backtracks to `a`, which has none either. */
  lemma LineTwoUnits(msg: string, a: NodeId, b: NodeId, c: NodeId)
    requires a != b && b != c && a != c
    ensures Send(Line(a, b, c), msg, a, c, 2, None)
         == Outcome(Walk(Line(a, b, c), [a, b], [], [0, 1, 0]), MaxDepth)
  {
    TwoLinkOrder(Line(a, b, c), a);
    LeaveSource(Line(a, b, c), msg, a, b, c, 2);
    LineMiddleStarves(msg, a, b, c);
  }

  /** The frame of `b` in the line, with one unit left. */
  lemma LineMiddleStarves(msg: string, a: NodeId, b: NodeId, c: NodeId)
    requires a != b && b != c && a != c
    ensures Frame(msg, b, c, 1, Walk(Line(a, b, c), [a], [], [0]))
         == Outcome(Walk(Line(a, b, c), [a, b], [], [0, 1, 0]), MaxDepth)
  {
    var net := Line(a, b, c);
    TwoLinkOrder(net, b);
    var w1 := Walk(net, [a], [], [0]);
    DestinationHopWithoutBudget(msg, b, c, w1, 1);
    PingKeepsNet(Entered(w1, b), 1);
    var w2 := Walk(net, [a, b], [], [0, 1]);
    assert Entered(w1, b).(pinged := w1.pinged + [1]) == w2;
    assert ReturnLink(net, [0, 1], b, a) == Some(0);
    BacktrackCases(msg, b, c, 1, [0, 1], w2);
    PingKeepsNet(w2, 0);
  }

  /** Greedy, not shortest: with links a-b then a-c, a message from `a` to
      its neighbour `c` first goes to `b` (linked first), comes back, and
      only then reaches `c`; `visited` holds `a` twice. */
  lemma ForkDetour(msg: string, a: NodeId, b: NodeId, c: NodeId, m: Parsed)
    requires a != b && b != c && a != c && Parse(msg) == Success(m)
    ensures Send(Fork(a, b, c), msg, a, c, 4, None)
         == Outcome(Walk(Fork(a, b, c), [a, b, a, c], [Delivery(c, m)], [0, 0, 1]), NoReturnConnection)
  {
    TwoLinkOrder(Fork(a, b, c), a);
    LeaveSource(Fork(a, b, c), msg, a, b, c, 4);
    ForkBounce(msg, a, b, c);
    ForkReturnDelivers(msg, a, b, c, m);
  }

  /** In the fork, `b` is a dead end whose only link leads back to `a`. */
  lemma ForkBounce(msg: string, a: NodeId, b: NodeId, c: NodeId)
    requires a != b && b != c && a != c
    ensures Frame(msg, b, c, 3, Walk(Fork(a, b, c), [a], [], [0]))
         == Frame(msg, a, c, 2, Walk(Fork(a, b, c), [a, b], [], [0, 0]))
  {
    var net := Fork(a, b, c);
    var w1 := Walk(net, [a], [], [0]);
    TwoLinkOrder(net, b);
    DeadEndReturns(msg, b, c, 3, w1, 0);
    PingKeepsNet(Entered(w1, b), 0);
    assert Entered(w1, b).(pinged := w1.pinged + [0]) == Walk(net, [a, b], [], [0, 0]);
  }

  /** Back at `a` with two units left, the second link reaches `c`; the
      frame then finds no link from `a` back to `a`. */
  lemma ForkReturnDelivers(msg: string, a: NodeId, b: NodeId, c: NodeId, m: Parsed)
    requires a != b && b != c && a != c && Parse(msg) == Success(m)
    ensures Frame(msg, a, c, 2, Walk(Fork(a, b, c), [a, b], [], [0, 0]))
         == Outcome(Walk(Fork(a, b, c), [a, b, a, c], [Delivery(c, m)], [0, 0, 1]), NoReturnConnection)
  {
    TwoLinkOrder(Fork(a, b, c), a);
    SecondLinkDelivers(msg, a, c, Walk(Fork(a, b, c), [a, b], [], [0, 0]), m);
  }
}
