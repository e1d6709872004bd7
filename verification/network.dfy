/** The `Network` container (main.py:128-180): a list of nodes and a list of
    links, both only ever appended to or removed from by the editor. */
module Network {
  import opened Wrappers
  import opened Topology

  /** A node of the simulated network. Its screen position, radius and
      colour belong to the editor and are not modelled. */
  datatype Node = Node(id: NodeId)

  datatype Network = Network(nodes: seq<Node>, conns: seq<Conn>)

  /** `Network.__init__`. */
  function Empty(): Network {
    Network([], [])
  }

  /** Position of the first node equal to `node`. */
  function FirstIndex(s: seq<Node>, node: Node): (r: Option<nat>)
    ensures r.None? <==> node !in s
    ensures r.Some? ==> r.value < |s| && s[r.value] == node && node !in s[..r.value]
  {
    if |s| == 0 then None
    else if s[0] == node then Some(0)
    else
      match FirstIndex(s[1..], node)
      case None => None
      case Some(i) =>
        assert s[..i + 1] == [s[0]] + s[1..][..i];
        Some(i + 1)
  }

  /** `Network.add_node`: the node goes last, the links are untouched. */
  function AddNode(n: Network, node: Node): (r: Network)
    ensures r.conns == n.conns
    ensures |r.nodes| == |n.nodes| + 1 && r.nodes[..|n.nodes|] == n.nodes && r.nodes[|n.nodes|] == node
  {
    n.(nodes := n.nodes + [node])
  }

  /** `Network.remove_node`, i.e. `list.remove`: the first occurrence of the
      node goes, or `ValueError` (None) when there is none. The links are
      left as they are: a link may keep naming a removed node. */
  function RemoveNode(n: Network, node: Node): (r: Option<Network>)
    ensures r.None? <==> node !in n.nodes
    ensures r.Some? ==> r.value.conns == n.conns
    ensures r.Some? ==> exists i :: 0 <= i < |n.nodes| && n.nodes[i] == node && node !in n.nodes[..i]
                                   && r.value.nodes == n.nodes[..i] + n.nodes[i + 1..]
  {
    match FirstIndex(n.nodes, node)
    case None => None
    case Some(i) => Some(n.(nodes := n.nodes[..i] + n.nodes[i + 1..]))
  }

  /** Removing a node that was just added restores the network. */
  lemma RemoveUndoesAdd(n: Network, node: Node)
    requires node !in n.nodes
    ensures RemoveNode(AddNode(n, node), node) == Some(n)
  {
    var s := n.nodes + [node];
    assert s[..|n.nodes|] == n.nodes;
    assert FirstIndex(s, node) == Some(|n.nodes|) by {
      assert node in s by { assert s[|n.nodes|] == node; }
    }
    assert s[..|n.nodes|] + s[|n.nodes| + 1..] == n.nodes;
  }

  /** `Network.get_node_by_id`: the first node carrying `id`, or None. */
  function GetNodeById(n: Network, id: NodeId): (r: Option<Node>)
    ensures r.Some? <==> exists k :: 0 <= k < |n.nodes| && n.nodes[k].id == id
    ensures r.Some? ==> r.value in n.nodes && r.value.id == id
    decreases |n.nodes|
  {
    if |n.nodes| == 0 then None
    else if n.nodes[0].id == id then Some(n.nodes[0])
    else
      var r := GetNodeById(n.(nodes := n.nodes[1..]), id);
      assert r.Some? ==> r.value in n.nodes;
      assert (exists k :: 0 <= k < |n.nodes| && n.nodes[k].id == id)
         ==> (exists k :: 0 <= k < |n.nodes| - 1 && n.nodes[1..][k].id == id) by {
        if k :| 0 <= k < |n.nodes| && n.nodes[k].id == id {
          assert n.nodes[1..][k - 1].id == id;
        }
      }
      r
  }

  /** `Network.create_connection`: a fresh link, delay 0, goes last. There
      is no check against a self-link, a duplicate or an absent node. */
  function CreateConnection(n: Network, a: Node, b: Node): (r: Network)
    ensures r.nodes == n.nodes
    ensures |r.conns| == |n.conns| + 1 && r.conns[..|n.conns|] == n.conns
    ensures r.conns[|n.conns|] == Conn(a.id, b.id, 0)
  {
    n.(conns := n.conns + [NewConn(a.id, b.id)])
  }

  /** A new link comes last in the scan order of both its endpoints and
      changes nothing for any other node. */
  lemma CreateConnectionIncident(n: Network, a: Node, b: Node, v: NodeId)
    ensures Incident(CreateConnection(n, a, b).conns, v)
         == Incident(n.conns, v) + (if v == a.id || v == b.id then [|n.conns|] else [])
  {
    var c := CreateConnection(n, a, b).conns;
    assert c[..|n.conns|] == n.conns;
    IncidentPrefix(c, n.conns, v, |n.conns|);
  }

  lemma {:induction false} IncidentPrefix(c: seq<Conn>, p: seq<Conn>, v: NodeId, m: nat)
    requires m <= |p| <= |c| && c[..|p|] == p
    ensures IncidentUpTo(c, v, m) == IncidentUpTo(p, v, m)
  {
    if m > 0 {
      assert c[m - 1] == p[m - 1] by { assert c[..|p|][m - 1] == c[m - 1]; }
      IncidentPrefix(c, p, v, m - 1);
    }
  }

  /** All three editing operations keep every delay at 0, so the network
      the router sees always has delay-0 links. */
  lemma OperationsKeepZeroDelays(n: Network, node: Node, a: Node, b: Node)
    requires ZeroDelays(n.conns)
    ensures ZeroDelays(Empty().conns)
    ensures ZeroDelays(AddNode(n, node).conns)
    ensures ZeroDelays(CreateConnection(n, a, b).conns)
    ensures RemoveNode(n, node).Some? ==> ZeroDelays(RemoveNode(n, node).value.conns)
  {
  }

  /** No cascade: removing an endpoint leaves its link in place. */
  lemma RemoveNodeKeepsDanglingLink()
    ensures var n := CreateConnection(AddNode(AddNode(Empty(), Node(0)), Node(1)), Node(0), Node(1));
            RemoveNode(n, Node(0)) == Some(Network([Node(1)], [Conn(0, 1, 0)]))
  {
    var n := CreateConnection(AddNode(AddNode(Empty(), Node(0)), Node(1)), Node(0), Node(1));
    assert n.nodes == [Node(0), Node(1)];
    assert FirstIndex(n.nodes, Node(0)) == Some(0);
    assert n.nodes[..0] + n.nodes[1..] == [Node(1)];
    assert n.conns == [Conn(0, 1, 0)];
  }
}
