/**
 * The node editor's ports and nodes as objects on the heap.
 *
 * A `Port` holds a fixed type tag, a flag that says whether it accepts
 * several connections at once, its set of peer ports and a reference to the
 * node that owns it. `ConnectTo`, `DisconnectFrom` and `ClearAllConnections`
 * update the connection sets in place and, as in the source, call each
 * other across the two ports involved; each is proved to compute exactly
 * the value-level operation of module `PeerGraph`. The module-level methods
 * at the end call them on a consistent set of ports and, with the
 * `PeerGraph` lemmas, show on the heap that the graph invariant is kept.
 *
 * The set `U` passed to every mutator as a ghost parameter is the universe
 * of ports the caller knows about: every port whose connections may change
 * and every port they list. It exists only for the proof and lets the
 * frames cover the other port touched by the cross-object calls.
 */
module NodeEditor {
  import PeerGraph

  /**
   * The declared value type of a port. The source compares Python type
   * objects by equality; here a type is identified by its name.
   */
  type TypeTag = string

  /** The result of `ConnectTo`: the connection exists, or it was refused. */
  datatype Outcome = Connected | Refused(reason: PeerGraph.ConnectError)

  /** Why a node refuses a port operation. */
  datatype NodeError = DuplicateName | PortNotFound

  /** The result of a node's add or remove operation. */
  datatype NodeStatus = Done | Failed(error: NodeError)

  /** The result of looking a port up by name (a missing name is a `KeyError` in the source). */
  datatype Lookup = Found(port: Port) | Missing

  /** The connection set of every port of `U`. */
  ghost function Peers(U: set<Port>): (g: PeerGraph.Peers<Port>)
    reads U`connections
    ensures g.Keys == U
  {
    map p | p in U :: p.connections
  }

  /** The `allows_multiple_connections` flag of every port of `U`. */
  ghost function Multi(U: set<Port>): (m: map<Port, bool>)
    reads U`allowsMultiple
    ensures m.Keys == U
  {
    map p | p in U :: p.allowsMultiple
  }

  /** The declared type of every port of `U`. */
  ghost function Tags(U: set<Port>): (t: map<Port, TypeTag>)
    ensures t.Keys == U
  {
    map p | p in U :: p.portType
  }

  /** Every port listed by a port of `U` is in `U`. */
  ghost predicate Closed(U: set<Port>)
    reads U`connections
  {
    PeerGraph.Closed(Peers(U))
  }

  /**
   * The whole-graph invariant over `U`: connections are symmetric, no port
   * is its own peer, peers share their type, and a single-connection port
   * has at most one peer.
   */
  ghost predicate Consistent(U: set<Port>)
    reads U`connections, U`allowsMultiple
  {
    PeerGraph.Wf(Peers(U), Multi(U), Tags(U))
  }

  class Port {
    /** The type this port accepts; fixed at construction. */
    const portType: TypeTag
    /** Whether a new connection is added to the old ones instead of replacing them. */
    var allowsMultiple: bool
    /** The ports this port is connected to. */
    var connections: set<Port>
    /** The node this port is registered with, if any. */
    var node: Node?

    constructor (portType: TypeTag, allowsMultiple: bool := true)
      ensures this.portType == portType && this.allowsMultiple == allowsMultiple
      ensures connections == {} && node == null
    {
      this.portType := portType;
      this.allowsMultiple := allowsMultiple;
      connections := {};
      node := null;
    }

    /** Ports are compatible when their declared types are the same. */
    function IsCompatibleWith(other: Port): (r: bool)
      ensures r <==> PeerGraph.Compatible(Tags({this, other}), this, other)
    {
      portType == other.portType
    }

    /**
     * Connects this port and `other` in both directions. A self connection
     * and a connection between different types are refused before anything
     * changes. A port that does not allow multiple connections first drops
     * all of its connections. If `other` does not list this port afterwards,
     * the connection is reflected by `other.ConnectTo(this)`.
     */
    method ConnectTo(ghost U: set<Port>, other: Port) returns (r: Outcome)
      requires this in U && other in U && Closed(U)
      modifies U`connections
      ensures Closed(U)
      ensures var res := PeerGraph.Connect(old(Peers(U)), old(Multi(U)), Tags(U), this, other);
        if res.Ok? then r == Connected && Peers(U) == res.value
        else r == Refused(res.error) && Peers(U) == old(Peers(U))
      ensures r == Connected <==> other != this && portType == other.portType
      ensures r == Connected ==> other in connections && this in other.connections
      decreases if this in other.connections && (other !in connections || allowsMultiple) then 0 else 1
    {
      ghost var g, m := Peers(U), Multi(U);
      if other == this {
        return Refused(PeerGraph.SelfConnection);
      }
      if !IsCompatibleWith(other) {
        return Refused(PeerGraph.IncompatibleTypes);
      }
      if !allowsMultiple {
        ClearAllConnections(U);
      }
      connections := connections + {other};
      ghost var g2 := PeerGraph.Attach(g, m, this, other);
      assert Peers(U) == g2 by {
        forall p | p in U ensures Peers(U)[p] == g2[p] {
          PeerGraph.AttachAt(g, m, this, other, p);
        }
      }
      if this !in other.connections {
        var reflected := other.ConnectTo(U, this);
      }
      return Connected;
    }

    /**
     * Disconnects this port from `other` in both directions. Nothing happens
     * when this port does not list `other`.
     */
    method DisconnectFrom(ghost U: set<Port>, other: Port)
      requires this in U && other in U && Closed(U)
      modifies U`connections
      ensures Closed(U)
      ensures Peers(U) == PeerGraph.Disconnect(old(Peers(U)), this, other)
      ensures other !in connections
      ensures old(other in connections) ==> this !in other.connections
      decreases (if other in connections then 1 else 0) + (if this in other.connections then 1 else 0)
    {
      ghost var g := Peers(U);
      PeerGraph.DisconnectEffect(g, this, other);
      if other !in connections {
        return;
      }
      connections := connections - {other};
      assert Peers(U) == g[this := g[this] - {other}];
      other.DisconnectFrom(U, this);
    }

    /**
     * Removes every connection of this port: each peer in a snapshot of the
     * connection set disconnects from this port, then the set is emptied.
     */
    method ClearAllConnections(ghost U: set<Port>)
      requires this in U && Closed(U)
      modifies U`connections
      ensures Closed(U)
      ensures Peers(U) == PeerGraph.ClearAll(old(Peers(U)), this)
      ensures connections == {}
    {
      ghost var g := Peers(U);
      var pending := connections;
      while pending != {}
        invariant pending <= g[this]
        invariant Closed(U)
        invariant forall p | p in U && p != this ::
          p.connections == if p in g[this] && p !in pending then g[p] - {this} else g[p]
        decreases pending
      {
        var port :| port in pending;
        PeerGraph.DisconnectEffect(Peers(U), port, this);
        port.DisconnectFrom(U, this);
        pending := pending - {port};
      }
      connections := {};
      assert Peers(U) == PeerGraph.ClearAll(g, this);
    }
  }

  /**
   * A titled owner of two name-to-port mappings, one for inputs and one for
   * outputs. A registered port points back to its node; no port is both an
   * input and an output of the same node.
   */
  class Node {
    const title: string
    var inputs: map<string, Port>
    var outputs: map<string, Port>

    /** Registered ports point back here, each under one name, and inputs and outputs are disjoint. */
    ghost predicate Valid()
      reads this, inputs.Values`node, outputs.Values`node
    {
      (forall n | n in inputs :: inputs[n].node == this) &&
      (forall n | n in outputs :: outputs[n].node == this) &&
      (forall n, k | n in inputs && k in inputs && inputs[n] == inputs[k] :: n == k) &&
      (forall n, k | n in outputs && k in outputs && outputs[n] == outputs[k] :: n == k) &&
      inputs.Values !! outputs.Values
    }

    constructor (title: string)
      ensures this.title == title && inputs == map[] && outputs == map[]
      ensures Valid()
    {
      this.title := title;
      inputs := map[];
      outputs := map[];
    }

    /** The input port registered under `name`, or `Missing`. */
    function InputPort(name: string): (r: Lookup)
      reads this
      ensures r.Found? <==> name in inputs
      ensures r.Found? ==> r.port == inputs[name]
    {
      if name in inputs then Found(inputs[name]) else Missing
    }

    /** The output port registered under `name`, or `Missing`. */
    function OutputPort(name: string): (r: Lookup)
      reads this
      ensures r.Found? <==> name in outputs
      ensures r.Found? ==> r.port == outputs[name]
    {
      if name in outputs then Found(outputs[name]) else Missing
    }

    /**
     * Registers an unattached `port` as the input `name` and makes it point
     * back to this node; a name already used by an input is refused.
     */
    method AddInputPort(name: string, port: Port) returns (r: NodeStatus)
      requires Valid() && port.node == null
      modifies this, port`node
      ensures Valid() && outputs == old(outputs)
      ensures r == Done <==> name !in old(inputs)
      ensures r == Done ==> inputs == old(inputs)[name := port] && port.node == this
      ensures r != Done ==> r == Failed(DuplicateName) && inputs == old(inputs) && port.node == null
    {
      if name in inputs {
        return Failed(DuplicateName);
      }
      inputs := inputs[name := port];
      port.node := this;
      return Done;
    }

    /**
     * Registers an unattached `port` as the output `name` and makes it point
     * back to this node; a name already used by an output is refused.
     */
    method AddOutputPort(name: string, port: Port) returns (r: NodeStatus)
      requires Valid() && port.node == null
      modifies this, port`node
      ensures Valid() && inputs == old(inputs)
      ensures r == Done <==> name !in old(outputs)
      ensures r == Done ==> outputs == old(outputs)[name := port] && port.node == this
      ensures r != Done ==> r == Failed(DuplicateName) && outputs == old(outputs) && port.node == null
    {
      if name in outputs {
        return Failed(DuplicateName);
      }
      outputs := outputs[name := port];
      port.node := this;
      return Done;
    }

    /**
     * Unregisters the input `name`: the port loses all its connections on
     * both sides and no longer points to a node. An unknown name is refused
     * and nothing changes.
     */
    method RemoveInputPort(ghost U: set<Port>, name: string) returns (r: NodeStatus)
      requires Valid() && Closed(U) && inputs.Values <= U
      modifies this, U`connections, inputs.Values`node
      ensures Valid() && outputs == old(outputs) && Closed(U)
      ensures r == Done <==> name in old(inputs)
      ensures r != Done ==> r == Failed(PortNotFound) && inputs == old(inputs) && Peers(U) == old(Peers(U))
      ensures r == Done ==> inputs == old(inputs) - {name} && old(inputs[name]).node == null
      ensures r == Done ==> Peers(U) == PeerGraph.ClearAll(old(Peers(U)), old(inputs[name]))
    {
      if name !in inputs {
        return Failed(PortNotFound);
      }
      var port := inputs[name];
      port.ClearAllConnections(U);
      port.node := null;
      inputs := inputs - {name};
      return Done;
    }

    /**
     * Unregisters the output `name`: the port loses all its connections on
     * both sides and no longer points to a node. An unknown name is refused
     * and nothing changes.
     */
    method RemoveOutputPort(ghost U: set<Port>, name: string) returns (r: NodeStatus)
      requires Valid() && Closed(U) && outputs.Values <= U
      modifies this, U`connections, outputs.Values`node
      ensures Valid() && inputs == old(inputs) && Closed(U)
      ensures r == Done <==> name in old(outputs)
      ensures r != Done ==> r == Failed(PortNotFound) && outputs == old(outputs) && Peers(U) == old(Peers(U))
      ensures r == Done ==> outputs == old(outputs) - {name} && old(outputs[name]).node == null
      ensures r == Done ==> Peers(U) == PeerGraph.ClearAll(old(Peers(U)), old(outputs[name]))
    {
      if name !in outputs {
        return Failed(PortNotFound);
      }
      var port := outputs[name];
      port.ClearAllConnections(U);
      port.node := null;
      outputs := outputs - {name};
      return Done;
    }
  }

  /**
   * Connects `a` to `b` among consistent ports. The ports stay consistent; a
   * single-connection `a` ends with `b` as its only peer and is dropped by
   * its former peers; a multiple-connection `a` keeps its former peers.
   */
  method ConnectKeepingConsistent(ghost U: set<Port>, a: Port, b: Port) returns (r: Outcome)
    requires a in U && b in U && Consistent(U)
    modifies U`connections
    ensures Consistent(U)
    ensures r == Connected <==> a != b && a.portType == b.portType
    ensures r == Connected ==> b in a.connections && a in b.connections
    ensures r == Connected && !a.allowsMultiple ==> a.connections == {b}
    ensures r == Connected && !a.allowsMultiple ==>
      forall c | c in old(a.connections) && c != b :: a !in c.connections
    ensures r == Connected && a.allowsMultiple ==> a.connections == old(a.connections) + {b}
    ensures r != Connected ==> Peers(U) == old(Peers(U))
  {
    ghost var g, m := Peers(U), Multi(U);
    r := a.ConnectTo(U, b);
    assert Multi(U) == m;
    if r == Connected {
      PeerGraph.ConnectPreservesWf(g, m, Tags(U), a, b);
      if a.allowsMultiple {
        PeerGraph.ConnectKeepsMulti(g, m, Tags(U), a, b);
      } else {
        PeerGraph.ConnectReplacesSingle(g, m, Tags(U), a, b);
      }
    }
  }

  /** Disconnects `a` from `b` among consistent ports; neither lists the other afterwards and the ports stay consistent. */
  method DisconnectKeepingConsistent(ghost U: set<Port>, a: Port, b: Port)
    requires a in U && b in U && Consistent(U)
    modifies U`connections
    ensures Consistent(U)
    ensures b !in a.connections && a !in b.connections
  {
    ghost var g, m := Peers(U), Multi(U);
    a.DisconnectFrom(U, b);
    assert Multi(U) == m;
    PeerGraph.DisconnectPreservesWf(g, m, Tags(U), a, b);
  }

  /** Clears `a` among consistent ports; afterwards no port of `U` lists `a` and the ports stay consistent. */
  method ClearKeepingConsistent(ghost U: set<Port>, a: Port)
    requires a in U && Consistent(U)
    modifies U`connections
    ensures Consistent(U)
    ensures a.connections == {}
    ensures forall p | p in U :: a !in p.connections
  {
    ghost var g, m := Peers(U), Multi(U);
    a.ClearAllConnections(U);
    assert Multi(U) == m;
    PeerGraph.ClearAllEffect(g, m, Tags(U), a);
    PeerGraph.ClearAllPreservesWf(g, m, Tags(U), a);
  }
}
