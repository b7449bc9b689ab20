# Galaxy control service: node registry model

Galaxy is a minimal control-plane service registry. Worker processes ("nodes")
announce themselves to a central control service. The control service keeps the
set of live nodes in memory and lets any node list its peers. This project models
the control service's registry (`cmd/control/main.go`) in Dafny and proves
properties of it.

- **Node descriptor** (`NodeKey.Node`): service name, service address and an
  unsigned 32-bit service port.
- **Identity key** (`NodeKey.Key`): the address, then `:`, then the port in
  base 10, then `-`, then the lower-cased name. Base-10 rendering lives in module
  `Decimal`, whose `Parse` is the inverse that gives the rendering its meaning.
- **Registry** (`Control.ControlService`): a class whose field `nodes` is a
  `map<string, Node>` from identity key to descriptor. The RPCs are methods:
  - `Register` and `Deregister` each change `nodes` in one atomic step and
    return a reply with a message and a success flag.
  - `ListNodes` walks the table in an unspecified order and streams every node
    whose key differs from the requester's. The first send that fails stops it.
  - `Heartbeat` answers UP.
- **Specification of each mutating step**: `Control.RegisterStep` and
  `Control.DeregisterStep` describe each step as a function on the table. Each
  class method is proved equal to its step function.
- **Representation invariant** (`Control.Keyed`, which `ControlService.Valid`
  wraps): every entry sits under the key computed from it. It holds initially,
  every call preserves it, and so does every sequence of calls (`Control.Run`).
- **Scenarios** (module `Scenarios`): client methods that walk through two
  example sessions against the class and shows what its contracts let a caller conclude.

Modelling choices:
- **Iteration order.** Go's map iteration order is unspecified. `ListNodes`
  therefore picks the next key with `:|`, so its contract holds for every order.
- **Send outcome.** Whether a send to the caller goes through is decided by the
  client's connection. It enters as the parameter `sendOk`, where `sendOk(i)`
  says whether the i-th send succeeds.
- **Filtering uses the recomputed key.** `ListNodes` compares the key recomputed
  from each stored node with the requester's key, as the source does
  (cmd/control/main.go:94). It does not compare the map key.
- **Invariant required by `ListNodes`.** `ListNodes` requires `Valid()`. The
  invariant is what makes "every other node exactly once" true, and the
  constructor and every mutating call establish or keep it.

## Model

| member | source | states |
|---|---|---|
| `Decimal.Format` | cmd/control/main.go:28 | The base-10 rendering of the port is non-empty and consists of digits only. It has no leading zero, and zero is rendered as the single digit "0". |
| `Decimal.ParseFormat` | cmd/control/main.go:28 | Reading the rendering back in base 10 gives the original number, so the rendering denotes the port. |
| `Decimal.FormatInjective` | cmd/control/main.go:28 | Different ports have different renderings. |
| `NodeKey.Lower` | cmd/control/main.go:28 | The result has the input's length, and each character is the ASCII lower case of the input's character at that position. |
| `NodeKey.Key` | cmd/control/main.go:27-29 | No contract of its own: the address, ':', `Decimal.Format` of the port, '-', `Lower` of the name. `KeyLayout`, `KeyAtAddress` and `KeyIgnoresCase` state what it means. |
| `NodeKey.LowerCharSame` | cmd/control/main.go:28 | Two characters lower-case alike exactly when they are equal or are the two cases of one ASCII letter. |
| `NodeKey.KeyLayout` | cmd/control/main.go:27-29 | The key starts with the address and ':'. The digits between that ':' and the next '-' read back in base 10 as the port. What follows that '-' is already lower case and equals the name up to ASCII letter case. |
| `NodeKey.LowerEqualIff` | cmd/control/main.go:28 | Two names lower-case to the same string if and only if, position by position, their characters are equal or are the two cases of one ASCII letter. |
| `NodeKey.LowerIdempotent` | cmd/control/main.go:28 | Lower-casing an already lower-cased name changes nothing. |
| `NodeKey.KeyIgnoresCase` | cmd/control/main.go:28 | Two nodes that differ only in the letter case of their name get the same key. |
| `NodeKey.KeyAtAddress` | cmd/control/main.go:28 | For two nodes at one address, the keys are equal if and only if the ports are equal and the names are equal ignoring case. |
| `NodeKey.KeyCollidesAcrossAddresses` | cmd/control/main.go:28 | The key is not injective in general: node ("b:1-c", "a", 1) and node ("c", "a:1-b", 1) differ but share the key "a:1-b:1-c". |
| `Control.Message` | cmd/control/main.go:45-82 | No contract of its own: "service with name ", the key, a space, then the outcome word, as built at lines 45, 55, 72 and 82. `RegisterStep` and `DeregisterStep` fix which word each outcome gets. |
| `Control.RegisterStep` | cmd/control/main.go:36-61 | Success holds exactly when the key is absent. The message is "service with name KEY registered" or "... already registered". On success the node is stored under its key and the table grows by one. On failure the table is unchanged. Other entries are never touched. The keyed invariant is preserved. |
| `Control.DeregisterStep` | cmd/control/main.go:63-88 | Success holds exactly when the key is present. The message is "service with name KEY deregistered" or "... not found". On success exactly that key is removed and the table shrinks by one. On failure the table is unchanged. The other entries keep their values, and the keyed invariant is preserved. |
| `Control.ControlService.constructor` | cmd/control/main.go:114-118 | The service starts with an empty table, which satisfies the invariant. |
| `Control.ControlService.Heartbeat` | cmd/control/main.go:32-34 | Heartbeat answers UP and changes nothing. |
| `Control.ControlService.Register` | cmd/control/main.go:36-61 | The new table and the reply are exactly what `RegisterStep` gives for the old table. The invariant is kept. |
| `Control.ControlService.Deregister` | cmd/control/main.go:63-88 | The new table and the reply are exactly what `DeregisterStep` gives for the old table. The invariant is kept. |
| `Control.ControlService.ListNodes` | cmd/control/main.go:90-104 | The stream never repeats a node, and every node it sends was sent successfully. If every send succeeds, the stream holds exactly the stored nodes whose key differs from the requester's. If a send fails, the stream is a strict part of those nodes and ends just before the failing send. The listing completes if and only if the first as-many-sends-as-peers all succeed. |
| `Control.PeersExcludeRequester` | cmd/control/main.go:92-97 | A node is owed to the requester if and only if it is stored and its key differs from the requester's. So neither the requester nor any case variant of its name is ever listed. |
| `Control.PeersRemove` | cmd/control/main.go:93-97 | Removing one entry from the table removes at most that entry's node from what a requester is owed. |
| `Control.PeersCount` | cmd/control/main.go:93-97 | In a keyed table, a requester is owed one node per entry except its own: as many nodes as entries, minus one if the requester is registered. |
| `Control.AppendFresh` | cmd/control/main.go:99-101 | Sending one more node not yet sent, after a send that went through, keeps the stream free of repeats and every send in it successful. |
| `Control.DistinctCard` | cmd/control/main.go:93-102 | A stream without repetitions has as many sends as distinct nodes, which ties the stream's length to the number of peers. |
| `Control.RegisterDeregisterRoundTrip` | cmd/control/main.go:43-87 | Register then Deregister of a node whose key was absent both succeed and give back the original table. Deregistering with any node sharing the key does the same. A second Register then succeeds again. |
| `Control.RegisterTwice` | cmd/control/main.go:43-60 | Registering a node twice, or then a case variant of its name, succeeds once. The second attempt reports "already registered", and the table has grown by exactly one. |
| `Control.RunKeepsKeyed` | cmd/control/main.go:37-87 | Any sequence of Register and Deregister calls keeps every entry under the key computed from it. So no two live entries share an identity key, and every listed node's recomputed key is its map key. |
| `Scenarios.OnlyPeer` | cmd/control/main.go:90-104 | With exactly two registered nodes under different keys, a complete listing for one of them is the other alone. |
| `Scenarios.ListAlone` | cmd/control/main.go:90-104 | With exactly the requester and one other node registered and every send succeeding, ListNodes returns exactly the other node. |

## Left out

- gRPC server setup and transport (`StartGRPCServer`, `main`, cmd/control/main.go:106-132): I/O and library plumbing.
- `log.Println` output: a side effect with no bearing on results.
- The `sync.Mutex`: each Register and Deregister is one atomic method call. The source's ListNodes reads the map without the lock and can race with concurrent mutations. The model runs the listing over a table that does not change while it runs.
- Pointer aliasing: the table stores `*pb.Node` pointers. The model stores descriptors as immutable values.
- NodeKey.Lower: ASCII lower-casing only, because `strings.ToLower` applies full Unicode case mapping, which the model does not include.
- Control.HeartbeatStatus: the generated protobuf enumeration (package `galaxy/pkg/grpc`) is not part of this model. `Down` stands for any status other than UP.
- The transport error value returned by a failed send: the model reduces it to `ok == false`.
- All of cmd/node/main.go (the node client): RPC client calls, goroutines, signal handling, process exit, sleeps and terminal output. Its port parsing is a library call (`strconv.ParseUint`).
