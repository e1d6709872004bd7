/** How one frame of `Node.send` picks its next step (main.py:89-122),
    stated against the links of the frame's node in scan order, and what the
    whole walk looks like: a path along links. */
module RouterRules {
  import opened Wrappers
  import opened Topology
  import opened Message
  import opened Router

  /** Links at positions `k` to `k2` of `links` whose far end is already
      visited are passed over without any effect. */
  lemma {:induction false} ScanSkipsVisited(msg: string, self: NodeId, dest: NodeId, depth: nat,
                                            links: seq<nat>, k: nat, k2: nat, w: Walk)
    requires depth > 0 && k <= k2 <= |links| && self != dest && self in w.visited
    requires InRange(w.net, links)
    requires forall j :: k <= j < k2 ==> Away(w.net[links[j]], self) in w.visited
    ensures Scan(msg, self, dest, depth, links, k, w) == Scan(msg, self, dest, depth, links, k2, w)
    decreases k2 - k
  {
    if k < k2 {
      ScanSkipsVisited(msg, self, dest, depth, links, k + 1, k2, w);
    }
  }

  /** A frame that neither finds its destination visited, nor runs out of
      budget, nor is the destination scans its links in `ScanOrder` with
      its own entry appended. */
  lemma EnterScan(msg: string, self: NodeId, dest: NodeId, depth: nat, w: Walk)
    requires depth > 0 && self != dest && dest !in w.visited
    ensures Frame(msg, self, dest, depth, w) == Scan(msg, self, dest, depth, ScanOrder(w.net, self), 0, Entered(w, self))
  {
  }

  /** Forward step: when the first link in scan order with an unvisited far
      end leads somewhere other than the destination, the frame pings that
      link, hands the walk to the far end with one unit less, and ends. */
  lemma ForwardHop(msg: string, self: NodeId, dest: NodeId, depth: nat, w: Walk, k: nat)
    requires depth > 0 && self != dest && dest !in w.visited
    requires k < |ScanOrder(w.net, self)|
    requires forall j :: 0 <= j < k ==> Away(w.net[ScanOrder(w.net, self)[j]], self) in w.visited + [self]
    requires Away(w.net[ScanOrder(w.net, self)[k]], self) !in w.visited + [self]
    requires Away(w.net[ScanOrder(w.net, self)[k]], self) != dest
    ensures var links := ScanOrder(w.net, self);
            Frame(msg, self, dest, depth, w)
            == Frame(msg, Away(w.net[links[k]], self), dest, depth - 1, PingLink(Entered(w, self), links[k]))
  {
    EnterScan(msg, self, dest, depth, w);
    ScanSkipsVisited(msg, self, dest, depth, ScanOrder(w.net, self), 0, k, Entered(w, self));
  }

  /** The walk after the destination's frame entered and processed `m`. */
  function Arrived(w: Walk, dest: NodeId, m: Parsed): Walk {
    w.(visited := w.visited + [dest], log := w.log + [Delivery(dest, m)])
  }

  /** Destination step: when that first link leads to the destination and
      the budget allows the destination's own frame, the message is
      delivered there and the frame goes on scanning its remaining links. */
  lemma DestinationHopContinues(msg: string, self: NodeId, dest: NodeId, depth: nat, w: Walk, k: nat, m: Parsed)
    requires depth >= 2 && self != dest && dest !in w.visited && Parse(msg) == Success(m)
    requires k < |ScanOrder(w.net, self)|
    requires forall j :: 0 <= j < k ==> Away(w.net[ScanOrder(w.net, self)[j]], self) in w.visited + [self]
    requires Away(w.net[ScanOrder(w.net, self)[k]], self) == dest
    ensures var links := ScanOrder(w.net, self);
            Frame(msg, self, dest, depth, w)
            == Scan(msg, self, dest, depth, links, k + 1, Arrived(PingLink(Entered(w, self), links[k]), dest, m))
  {
    var links := ScanOrder(w.net, self);
    var w' := Entered(w, self);
    EnterScan(msg, self, dest, depth, w);
    ScanSkipsVisited(msg, self, dest, depth, links, 0, k, w');
    var w1 := PingLink(w', links[k]);
    assert Frame(msg, dest, dest, depth - 1, w1) == Outcome(Arrived(w1, dest, m), Delivered);
  }

  /** After a destination hop the walk stops growing: every later call
      finds the destination visited. */
  lemma DestinationHop(msg: string, self: NodeId, dest: NodeId, depth: nat, w: Walk, k: nat, m: Parsed)
    requires depth >= 2 && self != dest && dest !in w.visited && Parse(msg) == Success(m)
    requires k < |ScanOrder(w.net, self)|
    requires forall j :: 0 <= j < k ==> Away(w.net[ScanOrder(w.net, self)[j]], self) in w.visited + [self]
    requires Away(w.net[ScanOrder(w.net, self)[k]], self) == dest
    ensures var o := Frame(msg, self, dest, depth, w);
            && o.walk.visited == w.visited + [self, dest]
            && o.walk.log == w.log + [Delivery(dest, m)]
            && (o.status == AlreadyDelivered || o.status == NoReturnConnection)
  {
    var links := ScanOrder(w.net, self);
    DestinationHopContinues(msg, self, dest, depth, w, k, m);
    var w2 := Arrived(PingLink(Entered(w, self), links[k]), dest, m);
    assert w2.visited == w.visited + [self, dest] && w2.log == w.log + [Delivery(dest, m)];
    ScanKeeps(msg, self, dest, depth, links, k + 1, w2);
  }

  /** A destination hop with only one unit left: the destination's frame
      has no budget, nothing is delivered, and the scan goes on. */
  lemma DestinationHopWithoutBudget(msg: string, self: NodeId, dest: NodeId, w: Walk, k: nat)
    requires self != dest && dest !in w.visited
    requires k < |ScanOrder(w.net, self)|
    requires forall j :: 0 <= j < k ==> Away(w.net[ScanOrder(w.net, self)[j]], self) in w.visited + [self]
    requires Away(w.net[ScanOrder(w.net, self)[k]], self) == dest
    ensures var links := ScanOrder(w.net, self);
            var o := Frame(msg, self, dest, 1, w);
            && o == Scan(msg, self, dest, 1, links, k + 1, PingLink(Entered(w, self), links[k]))
            && o.walk.visited == w.visited + [self]
            && o.walk.log == w.log
  {
    var links := ScanOrder(w.net, self);
    var w1 := PingLink(Entered(w, self), links[k]);
    EnterScan(msg, self, dest, 1, w);
    ScanSkipsVisited(msg, self, dest, 1, links, 0, k, Entered(w, self));
    assert Frame(msg, dest, dest, 0, w1) == Outcome(w1, MaxDepth);
    ScanKeeps(msg, self, dest, 1, links, k + 1, w1);
  }

  /** A frame whose links in scan order all lead to visited nodes runs
      the dead-end code with the frame's own entry appended. */
  lemma {:induction false} DeadEndBacktracks(msg: string, self: NodeId, dest: NodeId, depth: nat, w: Walk)
    requires depth > 0 && self != dest && dest !in w.visited
    requires forall j :: 0 <= j < |ScanOrder(w.net, self)| ==> Away(w.net[ScanOrder(w.net, self)[j]], self) in w.visited + [self]
    ensures Frame(msg, self, dest, depth, w) == Backtrack(msg, self, dest, depth, ScanOrder(w.net, self), Entered(w, self))
  {
    var links := ScanOrder(w.net, self);
    EnterScan(msg, self, dest, depth, w);
    ScanSkipsVisited(msg, self, dest, depth, links, 0, |links|, Entered(w, self));
  }

  /** Dead end in a first frame (nothing visited before it): `visited[-2]`
      fails. */
  lemma DeadEndRaises(msg: string, self: NodeId, dest: NodeId, depth: nat, w: Walk)
    requires depth > 0 && self != dest && w.visited == []
    requires forall j :: 0 <= j < |ScanOrder(w.net, self)| ==> Away(w.net[ScanOrder(w.net, self)[j]], self) in w.visited + [self]
    ensures Frame(msg, self, dest, depth, w) == Outcome(Entered(w, self), IndexError)
  {
    DeadEndBacktracks(msg, self, dest, depth, w);
  }

  /** Dead end with no link back to the node visited just before this
      frame's entry: the walk stops there. */
  lemma DeadEndNoReturn(msg: string, self: NodeId, dest: NodeId, depth: nat, w: Walk)
    requires depth > 0 && self != dest && dest !in w.visited && w.visited != []
    requires forall j :: 0 <= j < |ScanOrder(w.net, self)| ==> Away(w.net[ScanOrder(w.net, self)[j]], self) in w.visited + [self]
    requires forall j :: 0 <= j < |ScanOrder(w.net, self)| ==> Away(w.net[ScanOrder(w.net, self)[j]], self) != w.visited[|w.visited| - 1]
    ensures Frame(msg, self, dest, depth, w) == Outcome(Entered(w, self), NoReturnConnection)
  {
    DeadEndBacktracks(msg, self, dest, depth, w);
    var links := ScanOrder(w.net, self);
    var w' := Entered(w, self);
    var back := w.visited[|w.visited| - 1];
    assert w'.visited[|w'.visited| - 2] == back;
    assert ReturnLink(w.net, links, self, back).None?;
    BacktrackCases(msg, self, dest, depth, links, w');
  }

  /** Dead end with a link back: the first such link in scan order is
      pinged and the walk re-enters the node visited just before this
      frame's entry with one unit less. */
  lemma DeadEndReturns(msg: string, self: NodeId, dest: NodeId, depth: nat, w: Walk, r: nat)
    requires depth > 0 && self != dest && dest !in w.visited && w.visited != []
    requires forall j :: 0 <= j < |ScanOrder(w.net, self)| ==> Away(w.net[ScanOrder(w.net, self)[j]], self) in w.visited + [self]
    requires r < |ScanOrder(w.net, self)| && Away(w.net[ScanOrder(w.net, self)[r]], self) == w.visited[|w.visited| - 1]
    requires forall j :: 0 <= j < r ==> Away(w.net[ScanOrder(w.net, self)[j]], self) != w.visited[|w.visited| - 1]
    ensures Frame(msg, self, dest, depth, w)
         == Frame(msg, w.visited[|w.visited| - 1], dest, depth - 1, PingLink(Entered(w, self), ScanOrder(w.net, self)[r]))
  {
    DeadEndBacktracks(msg, self, dest, depth, w);
    var links := ScanOrder(w.net, self);
    var w' := Entered(w, self);
    var back := w.visited[|w.visited| - 1];
    assert w'.visited[|w'.visited| - 2] == back;
    assert ReturnLink(w.net, links, self, back) == Some(r);
    BacktrackCases(msg, self, dest, depth, links, w');
  }

  /** A source without links, sending anywhere else with a positive budget,
      fails on `visited[-2]` with only itself visited. */
  lemma IsolatedSourceRaises(net: seq<Conn>, msg: string, source: NodeId, dest: NodeId, depth: nat)
    requires depth > 0 && source != dest
    requires forall j :: 0 <= j < |net| ==> !Touches(net[j], source)
    ensures Send(net, msg, source, dest, depth, None) == Outcome(Walk(net, [source], [], []), IndexError)
  {
    ScanOrderMembers(net, source);
    DeadEndRaises(msg, source, dest, depth, Walk(net, [], [], []));
  }

  /** Self-delivery: with budget left, a message sent to its own source is
      processed there at once with no link pinged; with none it is not. */
  lemma SelfDelivery(net: seq<Conn>, msg: string, a: NodeId, depth: nat, m: Parsed)
    requires Parse(msg) == Success(m)
    ensures depth > 0 ==> Send(net, msg, a, a, depth, None) == Outcome(Walk(net, [a], [Delivery(a, m)], []), Delivered)
    ensures depth == 0 ==> Send(net, msg, a, a, depth, None) == Outcome(Walk(net, [], [], []), MaxDepth)
  {
    assert Send(net, msg, a, a, depth, None) == Frame(msg, a, a, depth, Walk(net, [], [], []));
  }

  /** Consecutive entries of `vs` from position `p` on are joined by a link. */
  ghost predicate PathFrom(net: seq<Conn>, vs: seq<NodeId>, p: nat) {
    forall j :: p <= j && j + 1 < |vs| ==> Linked(net, vs[j], vs[j + 1])
  }

  lemma PathAppend(net: seq<Conn>, vs: seq<NodeId>, p: nat, x: NodeId)
    requires p <= |vs| && PathFrom(net, vs, p)
    requires p < |vs| ==> Linked(net, vs[|vs| - 1], x)
    ensures PathFrom(net, vs + [x], p)
  {
    var vs' := vs + [x];
    forall j | p <= j && j + 1 < |vs'| ensures Linked(net, vs'[j], vs'[j + 1]) {
      if j + 1 < |vs| { assert vs'[j] == vs[j] && vs'[j + 1] == vs[j + 1]; }
    }
  }

  lemma PathSameEnds(n1: seq<Conn>, n2: seq<Conn>, vs: seq<NodeId>, p: nat)
    requires SameEnds(n1, n2) && PathFrom(n1, vs, p)
    ensures PathFrom(n2, vs, p)
  {
    forall j | p <= j && j + 1 < |vs| ensures Linked(n2, vs[j], vs[j + 1]) {
      LinkedSameEnds(n1, n2, vs[j], vs[j + 1]);
    }
  }

  lemma PingsSameEnds(w: Walk, v: Walk)
    requires PingsOnly(w, v)
    ensures SameEnds(w.net, v.net) && SameEnds(v.net, w.net)
  {
  }

  /** Every link in `links` has `self` as an endpoint. */
  ghost predicate AllTouch(net: seq<Conn>, links: seq<nat>, self: NodeId)
    requires InRange(net, links)
  {
    forall j :: 0 <= j < |links| ==> Touches(net[links[j]], self)
  }

  lemma AllTouchSameEnds(n1: seq<Conn>, n2: seq<Conn>, links: seq<nat>, self: NodeId)
    requires SameEnds(n1, n2) && InRange(n1, links) && AllTouch(n1, links, self)
    ensures InRange(n2, links) && AllTouch(n2, links, self)
  {
  }

  /** Path property of one frame: if what was visited before is a path from
      `p` on and the frame's node is linked to its last entry, so is what is
      visited after the frame. */
  lemma {:induction false} FramePath(msg: string, self: NodeId, dest: NodeId, depth: nat, w: Walk, p: nat)
    requires p <= |w.visited| && PathFrom(w.net, w.visited, p)
    requires p < |w.visited| && depth > 0 && dest !in w.visited ==> Linked(w.net, w.visited[|w.visited| - 1], self)
    ensures PathFrom(w.net, Frame(msg, self, dest, depth, w).walk.visited, p)
    decreases depth, 3
  {
    if dest !in w.visited && depth > 0 && self != dest {
      var w' := Entered(w, self);
      PathAppend(w.net, w.visited, p, self);
      var links := ScanOrder(w.net, self);
      assert AllTouch(w.net, links, self) by {
        ScanOrderMembers(w.net, self);
        forall j | 0 <= j < |links| ensures Touches(w.net[links[j]], self) { assert links[j] in links; }
      }
      ScanPath(msg, self, dest, depth, links, 0, w', p);
    }
  }

  lemma {:induction false} ScanPath(msg: string, self: NodeId, dest: NodeId, depth: nat,
                                    links: seq<nat>, k: nat, w: Walk, p: nat)
    requires depth > 0 && k <= |links| && self != dest && self in w.visited
    requires InRange(w.net, links) && AllTouch(w.net, links, self)
    requires p <= |w.visited| && PathFrom(w.net, w.visited, p)
    requires depth > 1 && dest !in w.visited ==> w.visited[|w.visited| - 1] == self
    ensures PathFrom(w.net, Scan(msg, self, dest, depth, links, k, w).walk.visited, p)
    decreases depth, 2, |links| - k
  {
    if k == |links| {
      BacktrackPath(msg, self, dest, depth, links, w, p);
    } else {
      var i := links[k];
      var away := Away(w.net[i], self);
      if away in w.visited {
        ScanPath(msg, self, dest, depth, links, k + 1, w, p);
      } else {
        var w1 := PingLink(w, i);
        PingLinkPings(w, i);
        PingsSameEnds(w, w1);
        PathSameEnds(w.net, w1.net, w.visited, p);
        if p < |w1.visited| && depth - 1 > 0 && dest !in w1.visited {
          assert Linked(w.net, self, away);
          LinkedSameEnds(w.net, w1.net, self, away);
        }
        FramePath(msg, away, dest, depth - 1, w1, p);
        FramePings(msg, away, dest, depth - 1, w1);
        var o := Frame(msg, away, dest, depth - 1, w1);
        PingsTrans(w, w1, o.walk);
        PingsSameEnds(w, o.walk);
        PathSameEnds(w1.net, w.net, o.walk.visited, p);
        if away == dest && !o.status.Raised() {
          assert self in o.walk.visited by { assert w.visited <= o.walk.visited; }
          AllTouchSameEnds(w.net, o.walk.net, links, self);
          PathSameEnds(w.net, o.walk.net, o.walk.visited, p);
          ScanPath(msg, self, dest, depth, links, k + 1, o.walk, p);
          ScanPings(msg, self, dest, depth, links, k + 1, o.walk);
          var r := Scan(msg, self, dest, depth, links, k + 1, o.walk);
          PingsSameEnds(o.walk, r.walk);
          PathSameEnds(o.walk.net, w.net, r.walk.visited, p);
        }
      }
    }
  }

  lemma {:induction false} BacktrackPath(msg: string, self: NodeId, dest: NodeId, depth: nat,
                                         links: seq<nat>, w: Walk, p: nat)
    requires depth > 0 && self != dest && self in w.visited
    requires InRange(w.net, links) && AllTouch(w.net, links, self)
    requires p <= |w.visited| && PathFrom(w.net, w.visited, p)
    requires depth > 1 && dest !in w.visited ==> w.visited[|w.visited| - 1] == self
    ensures PathFrom(w.net, Backtrack(msg, self, dest, depth, links, w).walk.visited, p)
    decreases depth, 1
  {
    var o := Backtrack(msg, self, dest, depth, links, w);
    if |w.visited| < 2 {
      assert o.walk == w;
    } else {
      var back := w.visited[|w.visited| - 2];
      var rl := ReturnLink(w.net, links, self, back);
      if rl.None? {
        assert o.walk == w;
      } else {
        var i := links[rl.value];
        assert o == Frame(msg, back, dest, depth - 1, PingLink(w, i));
        assert Touches(w.net[i], self) && Away(w.net[i], self) == back;
        HopPath(msg, self, back, dest, depth, w, i, p);
      }
    }
  }

  /** A hop along link `i` from `self` keeps the path property. */
  lemma {:induction false} HopPath(msg: string, self: NodeId, next: NodeId, dest: NodeId, depth: nat, w: Walk, i: nat, p: nat)
    requires depth > 0 && i < |w.net| && Touches(w.net[i], self) && Away(w.net[i], self) == next
    requires p <= |w.visited| && PathFrom(w.net, w.visited, p)
    requires depth > 1 && dest !in w.visited ==> |w.visited| > 0 && w.visited[|w.visited| - 1] == self
    ensures PathFrom(w.net, Frame(msg, next, dest, depth - 1, PingLink(w, i)).walk.visited, p)
    decreases depth, 0
  {
    var w1 := PingLink(w, i);
    PingLinkPings(w, i);
    PingsSameEnds(w, w1);
    PathSameEnds(w.net, w1.net, w.visited, p);
    if p < |w1.visited| && depth - 1 > 0 && dest !in w1.visited {
      assert Linked(w.net, self, next);
      LinkedSameEnds(w.net, w1.net, self, next);
    }
    FramePath(msg, next, dest, depth - 1, w1, p);
    FramePings(msg, next, dest, depth - 1, w1);
    var o := Frame(msg, next, dest, depth - 1, w1);
    PingsSameEnds(w1, o.walk);
    PathSameEnds(w1.net, w.net, o.walk.visited, p);
  }

  /** The `visited` list of a walk started from scratch begins at the source
      and every two consecutive entries are joined by a link: forward hops,
      destination hops and backtracks all move along a link. */
  lemma SendVisitsAPath(net: seq<Conn>, msg: string, source: NodeId, dest: NodeId, depth: nat)
    ensures var vs := Send(net, msg, source, dest, depth, None).walk.visited;
            && PathFrom(net, vs, 0)
            && (depth > 0 ==> |vs| > 0 && vs[0] == source)
  {
    var w := Walk(net, [], [], []);
    FramePath(msg, source, dest, depth, w, 0);
    if depth > 0 && source != dest {
      var o := Frame(msg, source, dest, depth, w);
      assert [source] <= o.walk.visited by {
        assert Entered(w, source).visited == [source];
      }
    }
  }

  /** A walk never changes a delay away from 0: in a network built by the
      editor, the scan order stays the creation order throughout. */
  lemma SendKeepsZeroDelays(net: seq<Conn>, msg: string, source: NodeId, dest: NodeId, depth: nat,
                            visited: Option<seq<NodeId>>)
    ensures ZeroDelays(net) ==> ZeroDelays(Send(net, msg, source, dest, depth, visited).walk.net)
  {
    var o := Send(net, msg, source, dest, depth, visited);
    if ZeroDelays(net) {
      forall j | 0 <= j < |o.walk.net| ensures o.walk.net[j].delay == 0 {
        assert o.walk.net[j] == (if j in o.walk.pinged then Ping(net[j]) else net[j]);
      }
    }
  }
}
