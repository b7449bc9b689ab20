/** Client methods that walk through two sessions with the control service,
    showing what its contracts let a caller conclude: the node "node" at
    localhost:9001 (A) and at localhost:9002 (B) registering, listing their
    peers and deregistering. */
module Scenarios {
  import opened NodeKey
  import opened Control

  /** A alone: a duplicate registration is refused, A never sees itself,
      and deregistering frees its key. */
  method SingleNode()
  {
    var a := Node("node", "localhost", 9001);
    var s := new ControlService();
    var r := s.Register(a);
    assert r.success && r.message == Message(Key(a), "registered");
    r := s.Register(a);
    assert !r.success && r.message == Message(Key(a), "already registered");
    var sent, ok := s.ListNodes(a, i => true);
    assert Peers(s.nodes, Key(a)) == {};
    DistinctCard(sent);
    assert ok && sent == [];
    r := s.Deregister(a);
    assert r.success && r.message == Message(Key(a), "deregistered");
    sent, ok := s.ListNodes(a, i => true);
    DistinctCard(sent);
    assert sent == [];
  }

  /** A and B together: each sees exactly the other. */
  method TwoLocalNodes()
  {
    TwoNodes(Node("node", "localhost", 9001), Node("node", "localhost", 9002));
  }

  /** Two nodes at one address on different ports: each sees exactly the other. */
  method TwoNodes(a: Node, b: Node)
    requires a.serviceAddress == b.serviceAddress && a.servicePort != b.servicePort
  {
    KeyAtAddress(a, b);
    var ka, kb := Key(a), Key(b);
    assert ka != kb;
    var s := new ControlService();
    var r := s.Register(a);
    assert r.success;
    r := s.Register(b);
    assert r.success;
    assert s.nodes.Keys == {ka, kb} && s.nodes[ka] == a && s.nodes[kb] == b;
    assert s.nodes.Keys == {kb, ka};
    var sent := ListAlone(s, a, b);
    assert sent == [b];
    sent := ListAlone(s, b, a);
    assert sent == [a];
  }

  /** Lists the peers of x, every send going through, in a service that
      holds exactly x and y. */
  method ListAlone(s: ControlService, x: Node, y: Node) returns (sent: seq<Node>)
    requires s.Valid() && Key(x) != Key(y) && s.nodes.Keys == {Key(x), Key(y)}
    requires s.nodes[Key(x)] == x && s.nodes[Key(y)] == y
    ensures sent == [y]
  {
    var ok;
    sent, ok := s.ListNodes(x, i => true);
    OnlyPeer(s.nodes, x, y, sent);
  }

  /** In a table holding exactly two nodes, filed under their keys, a
      complete listing for one of them is the other alone. */
  lemma OnlyPeer(m: Registry, x: Node, y: Node, sent: seq<Node>)
    requires Key(x) != Key(y) && m.Keys == {Key(x), Key(y)}
    requires m[Key(x)] == x && m[Key(y)] == y
    requires Distinct(sent) && Elements(sent) == Peers(m, Key(x))
    ensures sent == [y]
  {
    assert Peers(m, Key(x)) == {y};
    DistinctCard(sent);
    assert sent[0] in Elements(sent);
  }
}
