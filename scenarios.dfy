/**
 * The eight node tests of the node editor (title, adding and removing an
 * input or an output, removing a connected port, connecting two nodes,
 * looking up a missing port), written as methods over fresh objects. Each
 * one reaches its outcome through the contracts of `NodeEditor` alone and
 * returns what the test asserts, so the `ensures` clauses are the test's
 * assertions.
 */
module NodeScenarios {
  import opened NodeEditor

  /** A node keeps the title it was created with. */
  method Title() returns (title: string)
    ensures title == "a"
  {
    var node := new Node("a");
    title := node.title;
  }

  /**
   * A port added as an input is registered under its name, is not among the
   * outputs and points back to the node.
   */
  method AddInput() returns (node: Node, port: Port, registered: Lookup, inOutputs: bool)
    ensures registered == Found(port) && !inOutputs && port.node == node
  {
    node := new Node("a");
    port := new Port("int");
    var added := node.AddInputPort("port", port);
    registered := node.InputPort("port");
    inOutputs := port in node.outputs.Values;
  }

  /**
   * A port added as an output is registered under its name, is not among the
   * inputs and points back to the node.
   */
  method AddOutput() returns (node: Node, port: Port, registered: Lookup, inInputs: bool)
    ensures registered == Found(port) && !inInputs && port.node == node
  {
    node := new Node("a");
    port := new Port("int");
    var added := node.AddOutputPort("port", port);
    registered := node.OutputPort("port");
    inInputs := port in node.inputs.Values;
  }

  /**
   * A removed input is no longer registered and points to no node. (The
   * test's `port not in inputs` asks about dictionary keys; here the name is
   * what is no longer present.)
   */
  method RemoveInput() returns (port: Port, registered: Lookup, owner: Node?)
    ensures registered == Missing && owner == null
  {
    var node := new Node("a");
    port := new Port("int");
    var added := node.AddInputPort("port", port);
    var removed := node.RemoveInputPort({port}, "port");
    registered := node.InputPort("port");
    owner := port.node;
  }

  /** A removed output is no longer registered and points to no node. */
  method RemoveOutput() returns (port: Port, registered: Lookup, owner: Node?)
    ensures registered == Missing && owner == null
  {
    var node := new Node("a");
    port := new Port("int");
    var added := node.AddOutputPort("port", port);
    var removed := node.RemoveOutputPort({port}, "port");
    registered := node.OutputPort("port");
    owner := port.node;
  }

  /** Two fresh ports of one type, connected to each other. */
  method ConnectedPair() returns (foo: Port, bar: Port, ghost U: set<Port>)
    ensures fresh(foo) && fresh(bar) && U == {foo, bar}
    ensures foo.node == null && Closed(U)
    ensures foo in bar.connections && bar in foo.connections
  {
    foo := new Port("int");
    bar := new Port("int");
    U := {foo, bar};
    var connected := foo.ConnectTo(U, bar);
  }

  /**
   * Two connected ports still list each other after one is added to a node
   * (`linkedBefore`); once it is removed from the node, neither lists the
   * other.
   */
  method RemoveConnectedPort() returns (linkedBefore: bool, barListsFoo: bool, fooListsBar: bool)
    ensures linkedBefore
    ensures !barListsFoo && !fooListsBar
  {
    var foo, bar, U := ConnectedPair();
    var node := new Node("a");
    var added := node.AddInputPort("foo", foo);
    linkedBefore := foo in bar.connections && bar in foo.connections;
    ghost var g := Peers(U);
    assert bar in g[foo];
    var removed := node.RemoveInputPort(U, "foo");
    assert Peers(U)[bar] == g[bar] - {foo};
    barListsFoo, fooListsBar := foo in bar.connections, bar in foo.connections;
  }

  /**
   * An output port of one node connected to an input port of another node,
   * both looked up by name, ends up listed on both sides.
   */
  method NodeConnectToNode() returns (fooListsBar: bool, barListsFoo: bool)
    ensures fooListsBar && barListsFoo
  {
    var nodeA := new Node("a");
    var nodeB := new Node("b");
    var foo := new Port("int");
    var bar := new Port("int");
    var addedFoo := nodeA.AddOutputPort("foo", foo);
    var addedBar := nodeB.AddInputPort("bar", bar);
    var output := nodeA.OutputPort("foo");
    var input := nodeB.InputPort("bar");
    assert output == Found(foo) && input == Found(bar);
    ghost var U := {foo, bar};
    var connected := output.port.ConnectTo(U, input.port);
    fooListsBar, barListsFoo := bar in foo.connections, foo in bar.connections;
  }

  /** Looking up an input name that a node does not have finds nothing, so there is no port to connect to. */
  method ConnectToInexistent() returns (target: Lookup)
    ensures target == Missing
  {
    var nodeA := new Node("a");
    var nodeB := new Node("b");
    var foo := new Port("int");
    var added := nodeA.AddOutputPort("foo", foo);
    target := nodeB.InputPort("doesnt_exists");
  }
}
