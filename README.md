# Node-editor port connections in Dafny

This project models the connection protocol of the `Port` class in Dial's graph
node editor. A port has:

- a fixed declared type;
- a flag that says whether it accepts several connections at once;
- a set of peer ports;
- a back reference to the node that owns it.

Ports are linked by `connect_to` and unlinked by `disconnect_from`. Each of
these two updates its own set, then asks the other port to do the same, so
every link is kept in both directions. `clear_all_connections` works the other
way round: every peer in a snapshot of the set disconnects from the port, and
the port empties its own set last (dial/node_editor/port.py:118-121).

The model has three modules:

- `PeerGraph` (`peer_graph.dfy`) states the protocol on values. A state is a
  map from each port to its peer set, of type `Peers<P>`. `Connect` and
  `Disconnect` are recursive functions that follow the source's guarded
  recursion step by step. `Attach` is connect's local step. `ClearAll` is the
  closed form of clearing one port.

  The lemmas prove what each operation does, and that the graph invariant
  `Wf` is preserved. `Wf` requires that:
  - peers are symmetric;
  - no port is its own peer;
  - peers have the same type;
  - a single-connection port has at most one peer.
- `NodeEditor` (`node_editor.dfy`) holds the `Port` class, whose methods
  update connection sets in place and call each other across ports as the
  source does.
  - The ghost parameter `U` is the set of ports the caller works with.
  - `Peers(U)` is the heap state viewed as a `PeerGraph.Peers` value.
  - Each mutator is proved to leave `Peers(U)` equal to the matching
    `PeerGraph` function applied to the old state.
  - `ClearAllConnections` keeps the source's loop over a snapshot of the
    connection set, proved with loop invariants.
  - The `Node` class is a thin owner of two name-to-port maps.
  - `ConnectKeepingConsistent`, `DisconnectKeepingConsistent` and
    `ClearKeepingConsistent` call the three port operations on a set of
    ports that satisfies the invariant (`Consistent(U)`). Each proves on the
    heap, with the `PeerGraph` lemmas, that the invariant still holds.
- `NodeScenarios` (`scenarios.dfy`) replays all eight tests of
  tests/unit/node_editor/test_node.py as methods on fresh objects:
  `test_title`, the four add and remove tests, `test_remove_connected_port`,
  `test_node_connect_to_node` and `test_node_connect_to_inexistent`. Their
  `ensures` clauses are the tests' assertions, proved from the `NodeEditor`
  contracts alone.

Two behaviours worth noting:

- **Removing a port from a node severs its connections.**
  `test_remove_connected_port` requires this
  (tests/unit/node_editor/test_node.py:64-77), so `RemoveInputPort` and
  `RemoveOutputPort` clear the port's connections first.
- **Both connect errors are `ValueError`.** They differ only in their message
  (dial/node_editor/port.py:81-88). Here they are the two constructors of
  `PeerGraph.ConnectError`.

## Model

| member | source | states |
|---|---|---|
| NodeEditor.Port.constructor | dial/node_editor/port.py:22-28 | A new port has the given type and flag, no connections and no node. The flag defaults to allowing multiple connections. |
| NodeEditor.Port.IsCompatibleWith | dial/node_editor/port.py:50-56 | Two ports are compatible exactly when their declared types are equal. |
| PeerGraph.CompatibleIsEquivalence | dial/node_editor/port.py:50-56 | Compatibility is reflexive, symmetric and transitive. |
| PeerGraph.Connect | dial/node_editor/port.py:62-97 | Ok exactly when the ports differ and share a type. Otherwise the error is SelfConnection (checked first), then IncompatibleTypes. On success both ports list each other, no port is added or lost, and closure is kept. |
| PeerGraph.Attach | dial/node_editor/port.py:90-95 | The local step of a connect. A multiple-connection port gains the new peer on top of its old ones, and a single-connection port keeps only the new peer. The port set is unchanged and no other port gains a peer. |
| NodeEditor.Port.ConnectTo | dial/node_editor/port.py:62-97 | The new state is what `PeerGraph.Connect` gives. A refusal leaves every connection set unchanged and reports its reason. Success happens exactly for a distinct port of the same type, and leaves the two ports listing each other. |
| PeerGraph.ConnectEffect | dial/node_editor/port.py:90-97 | In a well-formed graph, a connect between distinct ports of one type ends in the closed form `Linked`. Each end keeps its old peers only if it allows several connections, and gains the other end. A third port loses each single-connection end. |
| PeerGraph.ConnectPreservesWf | dial/node_editor/port.py:62-97 | A successful connect keeps the graph well formed. This includes symmetry, no self-loops, same-type peers, and at most one peer for a single-connection port. |
| PeerGraph.ConnectReplacesSingle | dial/node_editor/port.py:90-95 | A single-connection port ends with exactly the new peer. Every former peer other than the new one no longer lists it. |
| PeerGraph.ConnectKeepsMulti | dial/node_editor/port.py:90-95 | A multiple-connection port keeps all previous peers and adds the new one. |
| PeerGraph.ConnectLinkedIsNoop | dial/node_editor/port.py:94-97 | Connecting an already connected pair changes nothing. |
| PeerGraph.ConnectFrame | dial/node_editor/port.py:90-97 | A port that is neither end nor a peer of either end is unchanged by a connect. |
| PeerGraph.Disconnect | dial/node_editor/port.py:100-111 | The port set is unchanged. Afterwards the first port does not list the second. If it did before, the second no longer lists the first. |
| NodeEditor.Port.DisconnectFrom | dial/node_editor/port.py:100-111 | The new state is what `PeerGraph.Disconnect` gives. Afterwards this port does not list the other. If it did before, the other no longer lists this port. |
| PeerGraph.DisconnectEffect | dial/node_editor/port.py:100-111 | In any state, disconnecting from a non-peer changes nothing. Otherwise it removes the link in both directions and touches no third port. |
| PeerGraph.DisconnectPreservesWf | dial/node_editor/port.py:100-111 | Disconnecting keeps the graph well formed and leaves neither port listing the other. |
| PeerGraph.ClearAll | dial/node_editor/port.py:114-121 | In any state, the cleared port lists nobody, no port in its snapshot lists it any longer, and no port gains a peer. |
| NodeEditor.Port.ClearAllConnections | dial/node_editor/port.py:114-121 | The loop over the snapshot leaves the state `PeerGraph.ClearAll` describes: this port lists nobody, each former peer loses this port, and every other port is unchanged. |
| PeerGraph.ClearAllEffect | dial/node_editor/port.py:114-121 | In a well-formed graph, after clearing a port it lists nobody and no port lists it. Its former peers lose only that port, and non-peers are unchanged. |
| PeerGraph.ClearAllPreservesWf | dial/node_editor/port.py:114-121 | Clearing a port keeps the graph well formed. |
| NodeEditor.ConnectKeepingConsistent | dial/node_editor/port.py:62-97 | A connect among consistent ports leaves them consistent. A single-connection port ends with the new peer as its only peer, and its former peers drop it. A multiple-connection port keeps its former peers. A refusal changes nothing. |
| NodeEditor.DisconnectKeepingConsistent | dial/node_editor/port.py:100-111 | A disconnect among consistent ports leaves them consistent, and neither port lists the other. |
| NodeEditor.ClearKeepingConsistent | dial/node_editor/port.py:114-121 | Clearing a port among consistent ports leaves them consistent. The port lists nobody and no port lists it. |
| NodeEditor.Node.constructor | tests/unit/node_editor/test_node.py:8-21 | A new node has the given title and no ports, and satisfies the node invariant. |
| NodeEditor.Node.InputPort | tests/unit/node_editor/test_node.py:94-100 | Lookup finds exactly the names present, and returns the registered port. |
| NodeEditor.Node.OutputPort | tests/unit/node_editor/test_node.py:80-91 | Lookup finds exactly the names present, and returns the registered port. |
| NodeEditor.Node.AddInputPort | tests/unit/node_editor/test_node.py:24-31 | A new name registers the port, which then points to the node. Outputs are unchanged and inputs and outputs stay disjoint. A used name is refused with nothing changed. |
| NodeEditor.Node.AddOutputPort | tests/unit/node_editor/test_node.py:34-41 | A new name registers the port, which then points to the node. Inputs are unchanged and inputs and outputs stay disjoint. A used name is refused with nothing changed. |
| NodeEditor.Node.RemoveInputPort | tests/unit/node_editor/test_node.py:44-51 | A present name is removed, its port points to no node and loses all its connections on both sides (the `ClearAll` state). An absent name is refused with nothing changed. |
| NodeEditor.Node.RemoveOutputPort | tests/unit/node_editor/test_node.py:54-61 | The same as `RemoveInputPort`, for the output map. |
| NodeScenarios.Title | tests/unit/node_editor/test_node.py:20-21 | A node's title is the one it was created with. |
| NodeScenarios.AddInput | tests/unit/node_editor/test_node.py:24-31 | An added input is found under its name, is not among the outputs, and points back to the node. |
| NodeScenarios.AddOutput | tests/unit/node_editor/test_node.py:34-41 | An added output is found under its name, is not among the inputs, and points back to the node. |
| NodeScenarios.RemoveInput | tests/unit/node_editor/test_node.py:44-51 | A removed input's name is no longer registered, and the port points to no node. |
| NodeScenarios.RemoveOutput | tests/unit/node_editor/test_node.py:54-61 | A removed output's name is no longer registered, and the port points to no node. |
| NodeScenarios.ConnectedPair | tests/unit/node_editor/test_node.py:65-67 | Two fresh ports of one type, after a connect, list each other. |
| NodeScenarios.RemoveConnectedPort | tests/unit/node_editor/test_node.py:64-77 | Two connected ports still list each other after one is added to a node. Once it is removed from the node, neither lists the other. |
| NodeScenarios.NodeConnectToNode | tests/unit/node_editor/test_node.py:80-91 | An output port and an input port, looked up by name on two nodes and connected, list each other. |
| NodeScenarios.ConnectToInexistent | tests/unit/node_editor/test_node.py:94-100 | Looking up an absent input name gives `Missing`, which stands for the source's `KeyError`. |

## Left out

- Logging: the `log_on_end`/`log_on_error` decorators and the logger calls in `connect_to` have no effect on state.
- `__str__` and `__repr__`: they only format text.
- Exception messages: the two `ValueError`s are the `ConnectError` constructors, and the node errors are `NodeError` constructors.
- Value propagation is not part of this model: generator and processor callbacks, `receive`, and toggling whether a port receives input. Neither dial/node_editor/port.py nor tests/unit/node_editor/test_node.py contains it.
- `dial/node_editor/node.py` is not part of this model. `Node` is built from the node tests, with an unknown or duplicate name reported as a result rather than an exception.
- Python's `type` objects: a port's declared type is a string name, compared by equality as the source compares types.
- Iteration order: sets carry no order. The clear loop picks any pending peer, and the proof covers every order.
- Changing the multiple-connections flag of a port that already has connections: no mutator modifies it, and `Wf` assumes it describes the current connections.
- NodeEditor.Port.ConnectTo: its contract ties the new state to `PeerGraph.Connect` but does not itself promise that the invariant is kept. Stated on the heap, the invariant is too costly to prove inside the mutually recursive calls. `NodeEditor.ConnectKeepingConsistent` proves it around the call instead.
- NodeEditor.Port.DisconnectFrom: likewise; `NodeEditor.DisconnectKeepingConsistent` proves the invariant around the call.
- NodeEditor.Port.ClearAllConnections: likewise; `NodeEditor.ClearKeepingConsistent` proves the invariant around the call.
- NodeEditor.Node.AddInputPort: it requires the port to be detached, as every test's port is. What `add_input_port` does with a port already attached to a node is not fixed by the tests and is not modelled.
- NodeEditor.Node.AddOutputPort: it requires the port to be detached, for the same reason (`add_output_port` with an attached port is not modelled).
- All mutators require the ghost set `U` to hold both ports and every port they list (`Closed(U)`). Python has no such set: the ports it reaches through references are exactly that set.
