/** The control service's node registry: a table from identity key to node
    descriptor, changed by Register and Deregister and enumerated by
    ListNodes. Each RPC is one atomic step over the table. */
module Control {
  import opened NodeKey

  /** The reply to Register and Deregister. */
  datatype RegisterResponse = RegisterResponse(message: string, success: bool)

  /** The status a heartbeat reports: UP, or anything else the status
      enumeration allows, which the control service never sends. */
  datatype HeartbeatStatus = Up | Down

  /** The registry's table: identity key to node descriptor. */
  type Registry = map<string, Node>

  /** The table after a Register or Deregister call, and its reply. */
  datatype Outcome = Outcome(nodes: Registry, response: RegisterResponse)

  /** The representation invariant: every entry is filed under its own key. */
  predicate Keyed(m: Registry) {
    forall k :: k in m ==> Key(m[k]) == k
  }

  /** The reply text for a key and an outcome word. */
  function Message(key: string, outcome: string): (msg: string) {
    "service with name " + key + " " + outcome
  }

  /** Register: file the node under its key unless that key is taken. */
  function RegisterStep(m: Registry, n: Node): (r: Outcome)
    ensures r.response.success <==> Key(n) !in m
    ensures r.response.message ==
      Message(Key(n), if r.response.success then "registered" else "already registered")
    ensures r.response.success ==> Key(n) in r.nodes && r.nodes[Key(n)] == n
    ensures r.response.success ==> |r.nodes| == |m| + 1
    ensures !r.response.success ==> r.nodes == m
    ensures r.nodes.Keys == m.Keys + {Key(n)}
    ensures forall k :: k in m ==> r.nodes[k] == m[k]
    ensures Keyed(m) ==> Keyed(r.nodes)
  {
    var key := Key(n);
    if key in m then
      Outcome(m, RegisterResponse(Message(key, "already registered"), false))
    else
      Outcome(m[key := n], RegisterResponse(Message(key, "registered"), true))
  }

  /** Deregister: remove the entry under the node's key if there is one. */
  function DeregisterStep(m: Registry, n: Node): (r: Outcome)
    ensures r.response.success <==> Key(n) in m
    ensures r.response.message ==
      Message(Key(n), if r.response.success then "deregistered" else "not found")
    ensures r.response.success ==> |r.nodes| == |m| - 1
    ensures !r.response.success ==> r.nodes == m
    ensures r.nodes.Keys == m.Keys - {Key(n)}
    ensures forall k :: k in r.nodes ==> r.nodes[k] == m[k]
    ensures Keyed(m) ==> Keyed(r.nodes)
  {
    var key := Key(n);
    if key !in m then
      Outcome(m, RegisterResponse(Message(key, "not found"), false))
    else
      Outcome(m - {key}, RegisterResponse(Message(key, "deregistered"), true))
  }

  /** The nodes ListNodes owes a requester whose key is rk: every stored
      node whose own key differs from rk. */
  function Peers(m: Registry, rk: string): (p: set<Node>) {
    set k | k in m && Key(m[k]) != rk :: m[k]
  }

  predicate Distinct(s: seq<Node>) {
    forall i, j :: 0 <= i < j < |s| ==> s[i] != s[j]
  }

  function Elements(s: seq<Node>): (e: set<Node>) {
    set i | 0 <= i < |s| :: s[i]
  }

  lemma ElementsAppend(s: seq<Node>, x: Node)
    ensures Elements(s + [x]) == Elements(s) + {x}
  {
    var t := s + [x];
    assert t[|s|] == x;
    forall y | y in Elements(s) ensures y in Elements(t) {
      var i :| 0 <= i < |s| && s[i] == y;
      assert t[i] == y;
    }
  }

  /** Appending a node not yet sent, after a send that went through, keeps
      the stream free of repeats and every send in it successful. */
  lemma AppendFresh(s: seq<Node>, x: Node, sendOk: nat -> bool)
    requires Distinct(s) && x !in Elements(s)
    requires forall i :: 0 <= i < |s| ==> sendOk(i)
    requires sendOk(|s|)
    ensures Distinct(s + [x]) && Elements(s + [x]) == Elements(s) + {x}
    ensures forall i :: 0 <= i < |s + [x]| ==> sendOk(i)
  {
    ElementsAppend(s, x);
    var t := s + [x];
    forall i, j | 0 <= i < j < |t| ensures t[i] != t[j] {
      if j == |s| {
        assert t[i] == s[i] && s[i] in Elements(s);
      } else {
        assert t[i] == s[i] && t[j] == s[j];
      }
    }
  }

  /** A sequence without repetitions has as many elements as its set. */
  lemma {:induction false} DistinctCard(s: seq<Node>)
    requires Distinct(s)
    ensures |Elements(s)| == |s|
  {
    if s != [] {
      var t := s[..|s| - 1];
      assert Distinct(t);
      DistinctCard(t);
      assert Elements(s) == Elements(t) + {s[|s| - 1]};
      assert s[|s| - 1] !in Elements(t);
    }
  }

  /** A node is owed to a requester exactly when some stored node equals it
      and its key differs from the requester's; in particular a node with
      the requester's key, whatever the case of its name, is never owed. */
  lemma PeersExcludeRequester(m: Registry, requester: Node, x: Node)
    ensures x in Peers(m, Key(requester)) <==> x in m.Values && Key(x) != Key(requester)
  {
  }

  /** Removing one entry from the table removes at most that entry's node
      from what a requester is owed. */
  lemma PeersRemove(m: Registry, k: string, rk: string)
    requires k in m
    ensures Peers(m, rk) == Peers(m - {k}, rk) + (if Key(m[k]) != rk then {m[k]} else {})
  {
    var rest := m - {k};
    forall x | x in Peers(m, rk)
      ensures x in Peers(rest, rk) + (if Key(m[k]) != rk then {m[k]} else {})
    {
      var j :| j in m && Key(m[j]) != rk && m[j] == x;
      if j != k {
        assert j in rest && rest[j] == x;
      }
    }
  }

  /** In a keyed table the requester is owed every entry but its own. */
  lemma {:induction false} PeersCount(m: Registry, rk: string)
    requires Keyed(m)
    ensures |Peers(m, rk)| == |m| - (if rk in m then 1 else 0)
    decreases |m|
  {
    if m != map[] {
      var k :| k in m;
      var rest := m - {k};
      assert |rest| == |m| - 1;
      assert Keyed(rest);
      PeersCount(rest, rk);
      PeersRemove(m, k, rk);
      assert m[k] !in Peers(rest, rk);
    }
  }

  /** Registering a new node and then deregistering it (or any node with its
      key) gives back the original table, and the key can be registered again. */
  lemma RegisterDeregisterRoundTrip(m: Registry, n: Node, n': Node)
    requires Key(n) !in m
    requires Key(n') == Key(n)
    ensures RegisterStep(m, n).response.success
    ensures DeregisterStep(RegisterStep(m, n).nodes, n').response.success
    ensures DeregisterStep(RegisterStep(m, n).nodes, n').nodes == m
    ensures RegisterStep(DeregisterStep(RegisterStep(m, n).nodes, n').nodes, n).response.success
  {
  }

  /** Registering the same node twice, or a second node that differs only in
      the case of its name: the first call succeeds, the second reports the
      duplicate, and the table has grown by one. */
  lemma RegisterTwice(m: Registry, n: Node, n': Node)
    requires Key(n) !in m
    requires n'.serviceAddress == n.serviceAddress && n'.servicePort == n.servicePort
    requires EqualIgnoringCase(n'.serviceName, n.serviceName)
    ensures var r1 := RegisterStep(m, n); var r2 := RegisterStep(r1.nodes, n');
      && r1.response.success
      && !r2.response.success
      && r2.response.message == Message(Key(n), "already registered")
      && r2.nodes == r1.nodes
      && |r2.nodes| == |m| + 1
  {
    KeyIgnoresCase(n', n);
  }

  /** One RPC that changes the registry. */
  datatype Call = RegisterCall(node: Node) | DeregisterCall(node: Node)

  /** The table after a sequence of calls, each applied atomically in turn. */
  function Run(m: Registry, calls: seq<Call>): (final: Registry)
    decreases |calls|
  {
    if calls == [] then m
    else
      var next := match calls[0]
        case RegisterCall(n) => RegisterStep(m, n).nodes
        case DeregisterCall(n) => DeregisterStep(m, n).nodes;
      Run(next, calls[1..])
  }

  /** Every sequence of calls keeps every entry filed under its own key. */
  lemma {:induction false} RunKeepsKeyed(m: Registry, calls: seq<Call>)
    requires Keyed(m)
    ensures Keyed(Run(m, calls))
    decreases |calls|
  {
    if calls != [] {
      var next := match calls[0]
        case RegisterCall(n) => RegisterStep(m, n).nodes
        case DeregisterCall(n) => DeregisterStep(m, n).nodes;
      RunKeepsKeyed(next, calls[1..]);
    }
  }

  /** The control service, holding the registry for the process's lifetime. */
  class ControlService {
    var nodes: Registry

    ghost predicate Valid()
      reads this
    {
      Keyed(nodes)
    }

    /** The service starts with an empty registry. */
    constructor ()
      ensures Valid() && nodes == map[]
    {
      nodes := map[];
    }

    /** Heartbeat always answers UP and changes nothing. */
    method Heartbeat() returns (status: HeartbeatStatus)
      ensures status == Up
    {
      status := Up;
    }

    method Register(n: Node) returns (response: RegisterResponse)
      modifies this
      ensures Outcome(nodes, response) == RegisterStep(old(nodes), n)
      ensures old(Valid()) ==> Valid()
    {
      var key := Key(n);
      if key in nodes {
        response := RegisterResponse(Message(key, "already registered"), false);
        return;
      }
      nodes := nodes[key := n];
      response := RegisterResponse(Message(key, "registered"), true);
    }

    method Deregister(n: Node) returns (response: RegisterResponse)
      modifies this
      ensures Outcome(nodes, response) == DeregisterStep(old(nodes), n)
      ensures old(Valid()) ==> Valid()
    {
      var key := Key(n);
      if key !in nodes {
        response := RegisterResponse(Message(key, "not found"), false);
        return;
      }
      nodes := nodes - {key};
      response := RegisterResponse(Message(key, "deregistered"), true);
    }

    /** Streams every stored node whose key differs from the requester's,
        in an order the table's iteration picks. sendOk(i) says whether the
        i-th send to the caller goes through; the first failing send ends the
        stream with ok false. */
    method ListNodes(requester: Node, sendOk: nat -> bool) returns (sent: seq<Node>, ok: bool)
      requires Valid()
      ensures Distinct(sent)
      ensures forall i :: 0 <= i < |sent| ==> sendOk(i)
      ensures ok ==> Elements(sent) == Peers(nodes, Key(requester))
      ensures !ok ==> !sendOk(|sent|) && Elements(sent) < Peers(nodes, Key(requester))
      ensures ok <==> forall i :: 0 <= i < |Peers(nodes, Key(requester))| ==> sendOk(i)
    {
      var rk := Key(requester);
      var remaining := nodes.Keys;
      sent, ok := [], true;
      while remaining != {}
        invariant remaining <= nodes.Keys
        invariant Distinct(sent)
        invariant forall i :: 0 <= i < |sent| ==> sendOk(i)
        invariant Elements(sent) ==
          set k | k in nodes && k !in remaining && Key(nodes[k]) != rk :: nodes[k]
        decreases remaining
      {
        var key :| key in remaining;
        remaining := remaining - {key};
        var node := nodes[key];
        if Key(node) == rk {
          continue;
        }
        if !sendOk(|sent|) {
          ok := false;
          assert node !in Elements(sent);
          assert node in Peers(nodes, rk);
          DistinctCard(sent);
          assert Elements(sent) < Peers(nodes, rk);
          assert |sent| < |Peers(nodes, rk)| by { SubsetCard(Elements(sent), Peers(nodes, rk)); }
          return;
        }
        assert node !in Elements(sent);
        ghost var before := sent;
        sent := sent + [node];
        AppendFresh(before, node, sendOk);
      }
      assert Elements(sent) == Peers(nodes, rk);
      DistinctCard(sent);
    }
  }

  lemma SubsetCard(a: set<Node>, b: set<Node>)
    requires a < b
    ensures |a| < |b|
  {
    assert b == a + (b - a);
    assert (b - a) != {};
  }
}
