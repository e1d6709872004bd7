# NetworkSimulator routing core in Dafny

This project models the routing core of the NetworkSimulator (`main.py`), a
small pygame editor in which a user places nodes, draws links between them
and "pings" one node from another. The ping calls `Node.send`. That is a
recursive, greedy walk over the links that:

- threads one shared `visited` list and a `depth` budget through the walk;
- picks links in descending order of delay;
- backtracks to `visited[-2]` at a dead end;
- hands the message to `Node.process` when it reaches the destination.

The model covers:

- `Connection` and `ping` (`topology.dfy`, module `Topology`);
- `Node.get_connections` and the sort that `send` puts on its result (`topology.dfy`);
- `Node.process`, the message parser (`message.dfy`, module `Message`);
- `Node.send` itself (`router.dfy`, module `Router`);
- the `Network` list operations (`network.dfy`, module `Network`);
- the editor's ping command (`simulator.dfy`, module `Simulator`).

`router_rules.dfy` (module `RouterRules`) states the routing rules of one
frame and the path property of a whole walk. `scenarios.dfy` (module
`Scenarios`) computes whole walks on small networks. `wrappers.dfy` holds
`Option` and `Result`.

## How the model represents the code

- **Nodes are ids.** The source compares `Node` objects by identity, and
  every node the editor creates gets a fresh id. A node is its `nat` id.
- **Links are positions.** A link is `Conn(a, b, delay)`, and the network's
  links are a `seq<Conn>`. A link is named by its position in that
  sequence, so pinging link `i` updates the shared list, just as mutating
  the shared `Connection` object does.
- **`send` is three mutually recursive functions.** `Frame` is one Python
  call, `Scan` is its `for` loop over the sorted links (main.py:91-106),
  and `Backtrack` is the dead-end code (main.py:107-122). They thread a
  `Walk` with four fields:
  - `net`, the links;
  - `visited`;
  - `log`, the messages that `process` accepted;
  - `pinged`, the positions of the links pinged, in order.
  The result is an `Outcome`: the final walk plus the way the last frame
  ended.
- **Exceptions abort the whole walk.** `visited[-2]` on a short list raises
  `IndexError` (main.py:110), and an unparsable message makes `process`
  raise `ValueError` (main.py:64-65). The model returns these as `Raised()`
  statuses, and every enclosing frame hands them straight back.
- **Termination.** `depth` decreases on every recursive call. The measure
  is lexicographic, `depth` first and then the loop position.

## Behaviour worth knowing

These follow from main.py as written, and the model reproduces them:

- **Depth counts calls, not hops.** The `depth == 0` test at main.py:80
  comes before the destination test at main.py:86. So the destination's own
  call needs a unit of budget too. On a direct link with `depth == 1`,
  nothing is delivered, and the source's dead end raises `IndexError` at
  main.py:110 (`Scenarios.PairOneUnit`). With `depth == 2` the message is
  delivered, and the source's call then ends with "No return connection
  found" (`Scenarios.PairTwoUnits`). The line a-b-c needs `depth == 3`
  (`Scenarios.LineThreeUnits`).
- **Self-delivery needs budget.** For the same reason, a message sent to
  its own source with `depth == 0` returns at main.py:80-82 without being
  processed (`RouterRules.SelfDelivery`).
- **A hop to the destination does not end the call.** The intermediate hop
  returns at main.py:106, but the destination hop at main.py:97-100 has no
  `return`. So the loop goes on scanning after the delivery, and can end in
  the dead-end code.
- **Backtracking oscillates.** A re-entered node appends itself again at
  main.py:85, and the dead-end code sends back to `visited[-2]`
  (main.py:108-122). At the next dead end, `visited[-2]` is therefore the
  node just left. On a lone link the walk bounces between the two ends
  until the budget is gone (`Scenarios.Oscillation`).
- **The first unvisited link wins.** The walk is greedy, not shortest. With
  links a-b then a-c, a message from `a` to `c` goes to `b` first, comes
  back, and only then reaches `c` (`Scenarios.ForkDetour`).
- **The slowest link comes first.** The comment at main.py:102 speaks of
  sending "to fastest node", but the sort at main.py:90 uses `reverse=True`,
  so the link with the largest delay is scanned first. Every delay is 0,
  so in practice this makes no difference
  (`Topology.ScanOrderIsCreationOrder`).
- **A malformed message aborts the whole walk.** Nothing in `send` catches
  the `ValueError` raised at main.py:64-65, so it leaves every enclosing
  call.
- **The parser splits on '=' first.** It splits once on the first '='
  (main.py:64). It then splits the head on every ':' (main.py:65), and the
  result must unpack into exactly two names. So the data may contain both
  separators, and the sender and the command may contain neither.
- **A missing return link ends the walk quietly.** The comment at
  main.py:120 expects a connection back to the previous node. When there is
  none, main.py:117-119 prints "No return connection found" and returns
  (`RouterRules.DeadEndNoReturn`).
- **An isolated source raises.** Sending from a node without links reaches
  `visited[-2]` at main.py:110 with one entry in `visited`, which raises
  `IndexError` (`RouterRules.IsolatedSourceRaises`).
- **No cascade, no validation.** `remove_node` (main.py:142-143) leaves the
  node's links in place (`Network.RemoveNodeKeepsDanglingLink`).
  `add_node` (main.py:139-140) and `create_connection` (main.py:179-180)
  check nothing: a duplicate node, a self-link or a link to an absent node
  is accepted.

## Model

| member | source | states |
|---|---|---|
| Topology.PingFacts | main.py:15-23 | A new connection joins the given nodes with delay 0; `ping` keeps both endpoints, sets the delay to 0 (`randint(0, 0)`) and is idempotent |
| Topology.IncidentMembers | main.py:53-61 | `get_connections` returns every link with the node as an endpoint and no other, each once (a self-link once), in creation order |
| Topology.SortFacts | main.py:90 | The sort by delay is a permutation of its input, and the result is in non-increasing order of delay |
| Topology.SortIsStable | main.py:90 | For every delay value, the links of that delay keep their relative order through the sort (Python's sort is stable, also with `reverse=True`) |
| Topology.SortUniformIsIdentity | main.py:90 | When all links have the same delay, the sort leaves the list unchanged |
| Topology.ScanOrderMembers | main.py:89-90 | The links `send` scans are exactly the links touching the node, largest delay first; a node that no link touches scans nothing |
| Topology.ScanOrderIsCreationOrder | main.py:89-90 | When every delay is 0, the scan order is the creation order of the node's links |
| Message.Parse | main.py:63-66 | `NoEquals` (the first unpacking's "not enough values") occurs exactly when '=' is missing; the only other failure is `ColonCount(n)` with `n != 1`: `n == 0` is the second unpacking's "not enough values" and `n >= 2` its "too many values"; every accepted message is the formatting of its parse, with sender and command free of both separators |
| Message.ParseColonCount | main.py:64-65 | A colon-count failure reports the number of ':' in the text before the first '=' (the unpacking of `split(":")` needs exactly one) |
| Message.ParseFormat | main.py:64-65 | Round trip: a sender and command without ':' or '=' and any data, formatted as "sender:command=data", parse back to the same triple |
| Message.PingMessageParses | main.py:344 | The editor's message `f"{id}:PING="` parses to the decimal id, command "PING" and empty data |
| Network.AddNode | main.py:139-140 | `add_node` appends the node last and leaves the earlier nodes and all links unchanged |
| Network.RemoveNode | main.py:142-143 | `remove_node` fails (`ValueError`) exactly when the node is absent; otherwise it deletes the first occurrence and nothing else, and leaves the links unchanged |
| Network.RemoveUndoesAdd | main.py:139-143 | Removing a node that was just added to a network without it restores the network |
| Network.GetNodeById | main.py:163-167 | `get_node_by_id` finds a node exactly when some node has that id, and the node found is in the network and has that id |
| Network.CreateConnection | main.py:179-180 | `create_connection` appends one link between the two ids, with delay 0, and leaves the nodes and earlier links unchanged; there is no self-link or duplicate check |
| Network.CreateConnectionIncident | main.py:179-180 | A new link comes last in `get_connections` of both its endpoints and changes the incident links of no other node |
| Network.OperationsKeepZeroDelays | main.py:139-180 | The empty network, `add_node`, `remove_node` and `create_connection` all keep every delay at 0 |
| Network.RemoveNodeKeepsDanglingLink | main.py:142-143 | No cascade: removing an endpoint of a link leaves the link in place |
| Router.ReturnLink | main.py:111-116 | The return-link search finds the first link in scan order whose far end is the given node, and finds none exactly when no link leads there |
| Router.FrameKeeps | main.py:68-122 | One call of `send`: deliveries are only added; at most one happens, at the destination, with the parse of the message, and the destination is then the last visited entry; `visited` grows by at most `depth`; a visited destination or a zero budget changes nothing; a delivery happens exactly when the destination joins `visited` and parsing did not fail |
| Router.ScanKeeps | main.py:91-106 | The same facts for the `for` loop, where the frame's own entry has already used one unit of the budget |
| Router.BacktrackKeeps | main.py:107-122 | The same facts for the dead-end code; a list shorter than two never holds the destination |
| Router.FramePings | main.py:68-122 | A walk changes only the links it pings, each by `ping`, and records the pings in order |
| Router.ScanPings | main.py:91-106 | The `for` loop changes only the links it pings, each by `ping` |
| Router.BacktrackPings | main.py:107-122 | The dead-end code changes only the return link (by `ping`) and the links pinged by the frame it calls |
| Router.Send | main.py:68-122 | A top-level `send`: at most one delivery, at the destination, with the parse of the message; when the destination was not visited before, a delivery happened exactly when it is visited now without a parse failure; the caller's `visited` is a prefix of the final one, which is at most `depth` longer; with `depth == 0` or an already visited destination the walk is returned unchanged (no delivery, no entry, no ping) with status `MaxDepth` or `AlreadyDelivered` respectively; links change only by pings; a parse failure is the only way to get `Malformed` |
| RouterRules.ScanSkipsVisited | main.py:91-96 | Links whose far end is already visited are passed over with no effect |
| RouterRules.ForwardHop | main.py:91-106 | When the first link in scan order with an unvisited far end leads to a node other than the destination, the frame pings that link, continues the walk there with `depth - 1`, and ends with that call's outcome |
| RouterRules.DestinationHopContinues | main.py:96-100 | When that first link leads to the destination and the budget is at least 2, the message is delivered there and the frame goes on scanning its later links |
| RouterRules.DestinationHop | main.py:96-100 | After a destination hop, `visited` gains exactly the frame's node and the destination, the log gains exactly one delivery, and the frame ends with "already delivered" or "no return connection" |
| RouterRules.DestinationHopWithoutBudget | main.py:96-100 | A destination hop with `depth == 1` reaches the destination's frame with no budget: nothing is delivered, the destination is not visited, and the scan goes on |
| RouterRules.DeadEndBacktracks | main.py:107-110 | When every link in scan order leads to a visited node, the frame runs the dead-end code with its own entry appended |
| RouterRules.DeadEndRaises | main.py:110 | A dead end in a first frame raises `IndexError`, with only the frame's node visited |
| RouterRules.DeadEndNoReturn | main.py:111-119 | A dead end with no link back to the node visited before this frame stops the walk with "no return connection" |
| RouterRules.DeadEndReturns | main.py:111-122 | A dead end with a link back pings the first such link in scan order and re-enters the previous node with `depth - 1` |
| RouterRules.IsolatedSourceRaises | main.py:110 | A source that no link touches, sending to another node with a positive budget, raises `IndexError` with only itself visited |
| RouterRules.SelfDelivery | main.py:75-88 | With budget left, a message sent to its own source is delivered there at once, with `visited == [source]` and no ping; with `depth == 0` nothing happens |
| RouterRules.SendVisitsAPath | main.py:91-122 | The `visited` list of a walk starts at the source, and every two consecutive entries are joined by a link |
| RouterRules.SendKeepsZeroDelays | main.py:21-23 | A walk over links that all have delay 0 leaves every delay at 0, so the scan order stays the creation order throughout |
| Scenarios.OscillateFrame | main.py:107-122 | On a lone link, re-entering one end right after the other makes the walk bounce between the ends, alternating, until the budget is gone, and end with `MaxDepth` |
| Scenarios.Oscillation | main.py:80-122 | On a lone link a-b, a message from `a` to any third node gives a `visited` list of exactly `depth` entries alternating a, b, a, …, and ends with `MaxDepth` |
| Scenarios.PairOneUnit | main.py:80-110 | On a direct link with `depth == 1`, nothing is delivered and the source's dead end raises `IndexError` |
| Scenarios.PairTwoUnits | main.py:86-119 | On a direct link with `depth == 2`, the message is delivered once, `visited == [a, b]`, and the source's frame ends with "no return connection" |
| Scenarios.LineThreeUnits | main.py:91-119 | On the line a-b-c with `depth == 3`, the walk visits a, b, c, delivers once at `c`, and ends with "no return connection" |
| Scenarios.LineTwoUnits | main.py:80-122 | On the line a-b-c with `depth == 2`, nothing is delivered: `visited == [a, b]`, and `b` backtracks to `a`, which has no budget left |
| Scenarios.ForkDetour | main.py:89-122 | With links a-b then a-c, a message from `a` to its neighbour `c` visits a, b, a, c and delivers once at `c` |
| Simulator.PingCommand | main.py:343-344 | The editor's ping never fails to parse, delivers at most once (at the chosen node, with command "PING"), visits at most 10 entries, keeps delays at 0, and delivers at once when a node pings itself |

## Left out

- Rendering, the event loop, mode toggling and pixel hit-testing
  (`draw`, `is_clicked`, `locate_node`, `get_node`, `get_connection`) are
  presentation only.
- The keyboard prompts and the `int(ask(...))` parsing of node ids
  (main.py:187-233, 331-342) are input handling. `Simulator.PingCommand`
  starts after both ids have been resolved to nodes.
- The `pygame.time.delay` waits (main.py:22, 103) are wall-clock pacing.
  `ping` is modelled as "delay := 0", since `randint(0, 0)` is always 0.
- `get_node_colour` is cosmetic randomness.
- The `CURRENT_VISIT` global and every `print` are left out. The outcome
  status stands in for the message that the last frame printed.
- The right-click removal paths (main.py:292, 297) call methods that do
  not exist in the source, so they are left out.
- Router.Frame: `depth` is a `nat`, and the recursion is unbounded.
  Negative depths, which never reach the test at main.py:80, are not
  modelled. Nor is Python's `RecursionError` past about 1000 nested calls.
  The editor always passes the default depth 10.
- Scenarios.Oscillation: holds for every `depth`. Past about 1000 nested
  calls, the source would instead stop with `RecursionError`.
- Router.Send: the caller's `visited` list, which Python mutates in place,
  is returned as part of the outcome.
- Network.GetNodeById: does not state that the node found is the first one
  with the id. A node is its id here, so every match is the same node.
- Topology.PingFacts: states nothing about the wall-clock wait inside
  `ping`.
