/** The editor's one call into the router (main.py:343-344): after both ids
    resolved to nodes, `node1.send(f"{node1.id}:PING=", node2)` with the
    default budget. */
module Simulator {
  import opened Wrappers
  import opened Topology
  import opened Message
  import opened Network
  import opened Router
  import RouterRules

  function PingCommand(n: Network, from: Node, to: Node): (o: Outcome)
    ensures !o.status.Malformed?
    ensures |o.walk.log| <= 1
    ensures forall d :: d in o.walk.log ==> d == Delivery(to.id, Parsed(Decimal(from.id), "PING", ""))
    ensures |o.walk.visited| <= DefaultDepth
    ensures ZeroDelays(n.conns) ==> ZeroDelays(o.walk.net)
    ensures from == to ==> o.walk.visited == [from.id] && o.status == Delivered
  {
    var msg := Decimal(from.id) + ":PING=";
    PingMessageParses(from.id);
    RouterRules.SendKeepsZeroDelays(n.conns, msg, from.id, to.id, DefaultDepth, None);
    Send(n.conns, msg, from.id, to.id, DefaultDepth, None)
  }
}
