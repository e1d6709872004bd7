/** `Node.send` (main.py:68-122): a recursive walk that threads one shared
    `visited` list and a `depth` budget through the network.

    One Python call of `send` is `Frame`; its `for` loop over the sorted
    links (main.py:91-106) is `Scan`; the dead-end code after the loop
    (main.py:107-122) is `Backtrack`. The mutable state the calls share is a
    `Walk`: the link list (whose delays `ping` rewrites), the `visited`
    list, the messages `process` accepted, and the positions of the links
    pinged, in order. Python's exceptions abort the whole walk; every
    enclosing frame hands such a status straight back. */
module Router {
  import opened Wrappers
  import opened Topology
  import opened Message

  /** The default `depth` of `Node.send`, used by the editor's ping. */
  const DefaultDepth: nat := 10

  /** One run of `process` at node `at`. */
  datatype Delivery = Delivery(at: NodeId, message: Parsed)

  /** How the last frame of a walk ended. */
  datatype Status =
    | Delivered           // the destination processed the message (main.py:86-88)
    | AlreadyDelivered    // the destination was already visited (main.py:77-79)
    | MaxDepth            // the budget was used up (main.py:80-82)
    | NoReturnConnection  // a dead end with no link back (main.py:117-119)
    | IndexError          // `visited[-2]` on a list shorter than two (main.py:110), raised
    | Malformed(error: ParseError)  // `process` raised `ValueError` (main.py:64-65)
  {
    /** The walk was aborted by an exception. */
    predicate Raised() {
      IndexError? || Malformed?
    }
  }

  datatype Walk = Walk(net: seq<Conn>, visited: seq<NodeId>, log: seq<Delivery>, pinged: seq<nat>)

  datatype Outcome = Outcome(walk: Walk, status: Status)

  /** `connection.ping()` on the link at position `i`. */
  function PingLink(w: Walk, i: nat): Walk
    requires i < |w.net|
  {
    w.(net := w.net[i := Ping(w.net[i])], pinged := w.pinged + [i])
  }

  /** `after` is `before` with the links at the positions in `ps` pinged and
      every other link untouched. */
  ghost predicate PingedOnly(before: seq<Conn>, after: seq<Conn>, ps: seq<nat>) {
    && |after| == |before|
    && forall j :: 0 <= j < |before| ==> after[j] == (if j in ps then Ping(before[j]) else before[j])
  }

  /** Between two points of a walk the pings only grow, and only the links
      pinged in between changed. */
  ghost predicate PingsOnly(w: Walk, v: Walk) {
    && w.pinged <= v.pinged
    && PingedOnly(w.net, v.net, v.pinged[|w.pinged|..])
  }

  /** Either nothing was delivered, or exactly one delivery of the parse of
      `msg` at `dest`, and `dest` is the last visited node. */
  ghost predicate DeliversOnce(w: Walk, v: Walk, dest: NodeId, msg: string) {
    || v.log == w.log
    || (&& Parse(msg).Success?
        && v.log == w.log + [Delivery(dest, Parse(msg).value)]
        && |v.visited| > 0 && v.visited[|v.visited| - 1] == dest)
  }

  lemma PingLinkPings(w: Walk, i: nat)
    requires i < |w.net|
    ensures PingsOnly(w, PingLink(w, i))
  {
    assert (w.pinged + [i])[|w.pinged|..] == [i];
  }

  lemma PingsTrans(u: Walk, v: Walk, x: Walk)
    requires PingsOnly(u, v) && PingsOnly(v, x)
    ensures PingsOnly(u, x)
  {
    var p := v.pinged[|u.pinged|..];
    var q := x.pinged[|v.pinged|..];
    assert x.pinged[|u.pinged|..] == p + q;
  }

  lemma PingsRefl(w: Walk)
    ensures PingsOnly(w, w)
  {
    assert w.pinged[|w.pinged|..] == [];
  }

  lemma TwoMembers(s: seq<NodeId>, x: NodeId, y: NodeId)
    requires x in s && y in s && x != y
    ensures |s| >= 2
  {
  }

  /** Position in `links` of the first link leading from `self` back to
      `back` (the search at main.py:112-116). */
  function ReturnLink(net: seq<Conn>, links: seq<nat>, self: NodeId, back: NodeId): (r: Option<nat>)
    requires InRange(net, links)
    ensures r.Some? ==> r.value < |links| && Away(net[links[r.value]], self) == back
    ensures forall k :: 0 <= k < |links| && (r.Some? ==> k < r.value) ==> Away(net[links[k]], self) != back
  {
    if |links| == 0 then None
    else if Away(net[links[0]], self) == back then Some(0)
    else
      match ReturnLink(net, links[1..], self, back)
      case None => None
      case Some(k) => Some(k + 1)
  }

  /** The node's own entry is appended before anything else happens. */
  function Entered(w: Walk, self: NodeId): Walk {
    w.(visited := w.visited + [self])
  }

  /** One call `self.send(message, destination, depth, visited)`. What the
      walk keeps is proved separately, by `FrameKeeps`. */
  function Frame(msg: string, self: NodeId, dest: NodeId, depth: nat, w: Walk): (o: Outcome)
    ensures |o.walk.net| == |w.net| && w.visited <= o.walk.visited
    decreases depth, 2
  {
    if dest in w.visited then Outcome(w, AlreadyDelivered)
    else if depth == 0 then Outcome(w, MaxDepth)
    else
      var w' := Entered(w, self);
      if self == dest then
        match Parse(msg)
        case Success(m) => Outcome(w'.(log := w.log + [Delivery(self, m)]), Delivered)
        case Failure(e) => Outcome(w', Malformed(e))
      else
        Scan(msg, self, dest, depth, ScanOrder(w.net, self), 0, w')
  }

  /** The `for` loop of main.py:91-106 from position `k` of `links` on. */
  function Scan(msg: string, self: NodeId, dest: NodeId, depth: nat, links: seq<nat>, k: nat, w: Walk): (o: Outcome)
    requires depth > 0 && k <= |links| && self != dest && self in w.visited
    requires InRange(w.net, links)
    ensures |o.walk.net| == |w.net| && w.visited <= o.walk.visited
    decreases depth, 1, |links| - k
  {
    if k == |links| then Backtrack(msg, self, dest, depth, links, w)
    else
      var i := links[k];
      var away := Away(w.net[i], self);
      if away in w.visited then Scan(msg, self, dest, depth, links, k + 1, w)
      else
        var o := Frame(msg, away, dest, depth - 1, PingLink(w, i));
        if away != dest || o.status.Raised() then o
        else
          assert self in o.walk.visited by { assert w.visited <= o.walk.visited; }
          Scan(msg, self, dest, depth, links, k + 1, o.walk)
  }

  /** The dead end of main.py:107-122: back along the link to `visited[-2]`. */
  function Backtrack(msg: string, self: NodeId, dest: NodeId, depth: nat, links: seq<nat>, w: Walk): (o: Outcome)
    requires depth > 0 && self != dest && self in w.visited
    requires InRange(w.net, links)
    ensures |o.walk.net| == |w.net| && w.visited <= o.walk.visited
    decreases depth, 0
  {
    if |w.visited| < 2 then Outcome(w, IndexError)
    else
      var back := w.visited[|w.visited| - 2];
      match ReturnLink(w.net, links, self, back)
      case None => Outcome(w, NoReturnConnection)
      case Some(k) => Frame(msg, back, dest, depth - 1, PingLink(w, links[k]))
  }

  /** What one frame keeps: deliveries are only added, at most one (at the
      destination) happens, the budget bounds how much `visited` grows, a
      frame whose destination is visited or whose budget is gone changes
      nothing, and a delivery happens exactly when the destination joins
      `visited` without a parse failure. */
  lemma {:induction false} FrameKeeps(msg: string, self: NodeId, dest: NodeId, depth: nat, w: Walk)
    ensures var o := Frame(msg, self, dest, depth, w);
            && w.log <= o.walk.log && DeliversOnce(w, o.walk, dest, msg)
            && |o.walk.visited| <= |w.visited| + depth
            && (depth == 0 || dest in w.visited ==> o.walk == w)
            && (dest in w.visited ==> o.status == AlreadyDelivered)
            && (depth == 0 && dest !in w.visited ==> o.status == MaxDepth)
            && (dest !in w.visited ==> (o.walk.log != w.log <==> dest in o.walk.visited && !o.status.Malformed?))
            && (o.status == Delivered ==> o.walk.log != w.log)
            && (o.status.Malformed? ==> Parse(msg).Failure?)
            && (self == dest && dest !in w.visited && depth > 0 ==> o.walk.visited == w.visited + [dest])
    decreases depth, 2
  {
    var o := Frame(msg, self, dest, depth, w);
    if dest in w.visited || depth == 0 {
      assert o.walk == w;
    } else if self == dest {
      var w' := Entered(w, self);
      match Parse(msg)
      case Success(m) => assert o == Outcome(w'.(log := w.log + [Delivery(self, m)]), Delivered);
      case Failure(e) => assert o == Outcome(w', Malformed(e));
    } else {
      var links := ScanOrder(w.net, self);
      assert o == Scan(msg, self, dest, depth, links, 0, Entered(w, self));
      ScanKeeps(msg, self, dest, depth, links, 0, Entered(w, self));
    }
  }

  /** `FrameKeeps` for the loop: here one unit of the budget is already
      spent on the frame's own entry. */
  lemma {:induction false} ScanKeeps(msg: string, self: NodeId, dest: NodeId, depth: nat, links: seq<nat>, k: nat, w: Walk)
    requires depth > 0 && k <= |links| && self != dest && self in w.visited
    requires InRange(w.net, links)
    ensures var o := Scan(msg, self, dest, depth, links, k, w);
            && w.log <= o.walk.log && DeliversOnce(w, o.walk, dest, msg)
            && |o.walk.visited| <= |w.visited| + depth - 1
            && (depth == 1 || dest in w.visited ==> o.walk.visited == w.visited && o.walk.log == w.log)
            && (dest in w.visited ==> o.status == AlreadyDelivered || o.status == NoReturnConnection)
            && (dest !in w.visited ==> (o.walk.log != w.log <==> dest in o.walk.visited && !o.status.Malformed?))
            && (o.status == Delivered ==> o.walk.log != w.log)
            && (o.status.Malformed? ==> Parse(msg).Failure?)
    decreases depth, 1, |links| - k
  {
    var r := Scan(msg, self, dest, depth, links, k, w);
    if k == |links| {
      assert r == Backtrack(msg, self, dest, depth, links, w);
      BacktrackKeeps(msg, self, dest, depth, links, w);
    } else {
      var i := links[k];
      var away := Away(w.net[i], self);
      if away in w.visited {
        assert r == Scan(msg, self, dest, depth, links, k + 1, w);
        ScanKeeps(msg, self, dest, depth, links, k + 1, w);
      } else {
        var w1 := PingLink(w, i);
        FrameKeeps(msg, away, dest, depth - 1, w1);
        var o := Frame(msg, away, dest, depth - 1, w1);
        if away != dest || o.status.Raised() {
          assert r == o;
        } else {
          assert self in o.walk.visited by { assert w.visited <= o.walk.visited; }
          assert r == Scan(msg, self, dest, depth, links, k + 1, o.walk);
          ScanKeeps(msg, self, dest, depth, links, k + 1, o.walk);
        }
      }
    }
  }

  /** `FrameKeeps` for the dead-end code. */
  lemma {:induction false} BacktrackKeeps(msg: string, self: NodeId, dest: NodeId, depth: nat, links: seq<nat>, w: Walk)
    requires depth > 0 && self != dest && self in w.visited
    requires InRange(w.net, links)
    ensures var o := Backtrack(msg, self, dest, depth, links, w);
            && w.log <= o.walk.log && DeliversOnce(w, o.walk, dest, msg)
            && |o.walk.visited| <= |w.visited| + depth - 1
            && (depth == 1 || dest in w.visited ==> o.walk.visited == w.visited && o.walk.log == w.log)
            && (dest in w.visited ==> o.status == AlreadyDelivered || o.status == NoReturnConnection)
            && (dest !in w.visited ==> (o.walk.log != w.log <==> dest in o.walk.visited && !o.status.Malformed?))
            && (o.status == Delivered ==> o.walk.log != w.log)
            && (o.status.Malformed? ==> Parse(msg).Failure?)
    decreases depth, 0
  {
    BacktrackCases(msg, self, dest, depth, links, w);
    if |w.visited| < 2 {
      assert dest !in w.visited by {
        if dest in w.visited { TwoMembers(w.visited, self, dest); }
      }
    } else {
      var back := w.visited[|w.visited| - 2];
      var rl := ReturnLink(w.net, links, self, back);
      if rl.Some? {
        FrameKeeps(msg, back, dest, depth - 1, PingLink(w, links[rl.value]));
      }
    }
  }

  /** The three ways the dead-end code ends. */
  lemma BacktrackCases(msg: string, self: NodeId, dest: NodeId, depth: nat, links: seq<nat>, w: Walk)
    requires depth > 0 && self != dest && self in w.visited
    requires InRange(w.net, links)
    ensures var o := Backtrack(msg, self, dest, depth, links, w);
            if |w.visited| < 2 then o == Outcome(w, IndexError)
            else
              var rl := ReturnLink(w.net, links, self, w.visited[|w.visited| - 2]);
              if rl.None? then o == Outcome(w, NoReturnConnection)
              else o == Frame(msg, w.visited[|w.visited| - 2], dest, depth - 1, PingLink(w, links[rl.value]))
  {
  }

  /** A walk changes the links it pinged, each by `ping`, and nothing else. */
  lemma {:induction false} FramePings(msg: string, self: NodeId, dest: NodeId, depth: nat, w: Walk)
    ensures PingsOnly(w, Frame(msg, self, dest, depth, w).walk)
    decreases depth, 2
  {
    var o := Frame(msg, self, dest, depth, w);
    if dest in w.visited || depth == 0 || self == dest {
      assert o.walk.net == w.net && o.walk.pinged == w.pinged;
      PingsRefl(w);
    } else {
      var links := ScanOrder(w.net, self);
      assert o == Scan(msg, self, dest, depth, links, 0, Entered(w, self));
      ScanPings(msg, self, dest, depth, links, 0, Entered(w, self));
    }
  }

  lemma {:induction false} ScanPings(msg: string, self: NodeId, dest: NodeId, depth: nat, links: seq<nat>, k: nat, w: Walk)
    requires depth > 0 && k <= |links| && self != dest && self in w.visited
    requires InRange(w.net, links)
    ensures PingsOnly(w, Scan(msg, self, dest, depth, links, k, w).walk)
    decreases depth, 1, |links| - k
  {
    var r := Scan(msg, self, dest, depth, links, k, w);
    if k == |links| {
      assert r == Backtrack(msg, self, dest, depth, links, w);
      BacktrackPings(msg, self, dest, depth, links, w);
    } else {
      var i := links[k];
      var away := Away(w.net[i], self);
      if away in w.visited {
        assert r == Scan(msg, self, dest, depth, links, k + 1, w);
        ScanPings(msg, self, dest, depth, links, k + 1, w);
      } else {
        var w1 := PingLink(w, i);
        PingLinkPings(w, i);
        FramePings(msg, away, dest, depth - 1, w1);
        var o := Frame(msg, away, dest, depth - 1, w1);
        PingsTrans(w, w1, o.walk);
        if away != dest || o.status.Raised() {
          assert r == o;
        } else {
          assert self in o.walk.visited by { assert w.visited <= o.walk.visited; }
          assert r == Scan(msg, self, dest, depth, links, k + 1, o.walk);
          ScanPings(msg, self, dest, depth, links, k + 1, o.walk);
          PingsTrans(w, o.walk, r.walk);
        }
      }
    }
  }

  lemma {:induction false} BacktrackPings(msg: string, self: NodeId, dest: NodeId, depth: nat, links: seq<nat>, w: Walk)
    requires depth > 0 && self != dest && self in w.visited
    requires InRange(w.net, links)
    ensures PingsOnly(w, Backtrack(msg, self, dest, depth, links, w).walk)
    decreases depth, 0
  {
    PingsRefl(w);
    BacktrackCases(msg, self, dest, depth, links, w);
    if |w.visited| >= 2 {
      var back := w.visited[|w.visited| - 2];
      var rl := ReturnLink(w.net, links, self, back);
      if rl.Some? {
        var w1 := PingLink(w, links[rl.value]);
        var o := Frame(msg, back, dest, depth - 1, w1);
        PingLinkPings(w, links[rl.value]);
        FramePings(msg, back, dest, depth - 1, w1);
        PingsTrans(w, w1, o.walk);
      }
    }
  }

  /** `source.send(message, destination, depth, visited)` as called from
      outside: `visited=None` starts from an empty list. At most one
      delivery happens, at the destination and with the parse of the
      message; at most `depth` nodes join `visited`, and only at its end. */
  function Send(net: seq<Conn>, msg: string, source: NodeId, dest: NodeId, depth: nat,
                visited: Option<seq<NodeId>>): (o: Outcome)
    ensures |o.walk.log| <= 1
    ensures dest !in visited.GetOr([]) ==> (|o.walk.log| == 1 <==> dest in o.walk.visited && !o.status.Malformed?)
    ensures |o.walk.log| == 1 ==> |o.walk.visited| > 0 && o.walk.visited[|o.walk.visited| - 1] == dest
    ensures forall d :: d in o.walk.log ==> d.at == dest && Parse(msg) == Success(d.message)
    ensures visited.GetOr([]) <= o.walk.visited
    ensures |o.walk.visited| <= |visited.GetOr([])| + depth
    ensures depth == 0 || dest in visited.GetOr([]) ==> o.walk == Walk(net, visited.GetOr([]), [], [])
    ensures dest in visited.GetOr([]) ==> o.status == AlreadyDelivered
    ensures depth == 0 && dest !in visited.GetOr([]) ==> o.status == MaxDepth
    ensures PingedOnly(net, o.walk.net, o.walk.pinged)
    ensures o.status.Malformed? ==> Parse(msg).Failure?
  {
    var w := Walk(net, visited.GetOr([]), [], []);
    FrameKeeps(msg, source, dest, depth, w);
    FramePings(msg, source, dest, depth, w);
    var o := Frame(msg, source, dest, depth, w);
    assert o.walk.pinged[|w.pinged|..] == o.walk.pinged;
    o
  }
}
