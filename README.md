# Service registry of the `rpc` package (v2/map.go)

This project models the service registry of the HTTP RPC server in package
`rpc`, file v2/map.go, and proves properties of the model in Dafny.

- Receivers are registered under dotted names such as `"A.B"`. Each
  registration builds a chain of `service` nodes: the first segment is
  keyed in the root table of the `serviceMap`, and every later segment hangs
  in the `services` table of the node before it.
- The last node of the chain gets the receiver and a method table. The table
  holds the receiver's methods that follow the calling convention
  `func (r *T) Name(*http.Request, *Args, *Reply) error`.
- A request `"A.B.Method"` is answered by walking the tree along `A.B` and
  looking `Method` up in the node reached.

Files:

- `gostrings.dfy` (module `GoStrings`): `strings.Split(s, ".")` with its
  inverse `Join`, and the first-rune upper-case test behind `isExported`.
- `reflection.dfy` (module `Reflection`): the part of `reflect` the registry
  looks at.
  - A type is `Ptr(elem)` or `Named(name, pkgPath)`.
  - A method is its name, package path, input types and output types.
  - A receiver is an opaque handle with its type and its method set.
- `registry.dfy` (module `Rpc`): the data and the operations of the registry.
  - `service` and `serviceMap` are classes whose fields are updated in place,
    as in Go.
  - `get` and `isExportedOrBuiltin` are methods with loops.
  - `registryService` is the method `ServiceMap.RegistryService`. It writes
    out the first iteration of the Go loop itself. The iterations for the
    remaining segments are the loop of `HangSegments`.
  - `register` is the method `ServiceMap.Register`, which has no loop of its
    own. It calls `RegistryService`, then `AttachToChain` on the last node.
    `AttachToChain` calls `Service.Attach`, whose method loop is
    `Service.AddSuitableMethods`.
  - `isExported` and the method filter (`Suitable`, `Collect`, `Setup`) are
    functions.
  - Ghost specification functions describe the tree as a value: `Find`,
    `Resolve`, `ServiceMap.Lookup` and `ServiceMap.Resolution`. `Hung`
    describes a finished chain.
- `scenarios.dfy` (module `Scenarios`): concrete registrations of a small
  calculator receiver, and what `get` answers after them.

Behaviour of the code that the model keeps, as written:

- Only the first segment of a name is checked for a duplicate. Each
  registration creates a brand-new chain, so `"A.B"` followed by `"A.C"` is
  refused with "service already defined: "A."". The code never walks into
  existing nodes, and never checks a deeper segment against earlier
  registrations. The duplicate check inside the loop (v2/map.go:90) can never
  fire, and the model proves it with an `assert false` in that branch.
- A `register` that fails after the chain is linked leaves the chain in the
  tree. The failures are an unexported derived name, an empty name, or no
  suitable method. There is no rollback, so a later registration with the
  same first segment is refused.
- The exported-name check applies only when the registered name is empty and
  the node name is taken from the receiver's type.
  - With name `""`, the root key stays `""` while the node is renamed to the
    type name.
  - The service then answers to `".Method"`, not to `"Type.Method"`.

## Model

| member | source | states |
|---|---|---|
| GoStrings.Split | v2/map.go:55 | `strings.Split(s, ".")` yields at least one piece, no piece contains ".", and joining the pieces with "." gives `s` back |
| GoStrings.SplitJoin | v2/map.go:55 | Splitting the join of dot-free segments returns exactly those segments (Split and Join are inverse) |
| GoStrings.SplitAppend | v2/map.go:184 | Appending "." and a dot-free method name to a path adds exactly that one segment to the path's split |
| GoStrings.SplitSeveralIffSep | v2/map.go:184-188 | A request splits into two or more parts exactly when it contains a "." |
| Rpc.IsExported | v2/map.go:223-226 | A name is exported iff it is non-empty and its first rune is upper case; the empty name is not exported |
| Rpc.IsExportedOrBuiltin | v2/map.go:229-236 | After stripping every pointer, the result is true iff the base type's name is exported or its package path is empty |
| Rpc.Entry | v2/map.go:157-161 | The entry kept for a qualifying method records that method, and its args and reply types are the pointees of inputs 2 and 3 |
| Rpc.CollectEntries | v2/map.go:124-161 | Every entry of the method table is the entry of a suitable method of the set, keyed by that method's name |
| Rpc.CollectKeys | v2/map.go:124-161 | A name is a key of the method table iff some method of the set with that name passes every check of the filter: exported, 4 inputs, input 1 is *http.Request, inputs 2 and 3 are pointers to exported-or-builtin types, exactly one output, of type error |
| Rpc.CollectLast | v2/map.go:124-161 | The entry of a key is that of the last qualifying method with that name in method-set order |
| Rpc.Service.AddSuitableMethods | v2/map.go:124-162 | The loop leaves the node's method table equal to the table Collect specifies for the method set |
| Rpc.Setup | v2/map.go:113-166 | The table `register` leaves is either empty or the whole filtered method table. No error is reported iff the node name is non-empty, is exported when it is taken from the type, and the table is non-empty |
| Rpc.SetupSucceeds | v2/map.go:113-166 | Registration of a linked node reports no error iff the name is exported when derived from the type, the name is non-empty, and at least one method qualifies |
| Rpc.Service.constructor | v2/map.go:64-68 | A new node carries the given segment as its name, no receiver and no receiver type, and empty method and child tables |
| Rpc.Service.Attach | v2/map.go:110-166 | Stores the receiver and its type, and leaves the node's name, method table and error as Setup gives them: the type name for an empty registered name, then the unexported / empty-name / no-method checks in source order |
| Rpc.Resolve | v2/map.go:182-219 | `get` never fails with anything but "ill-formed", "can't find service" or "can't find method", each quoting the request. A success names a node of the tree and one of the entries in its method table |
| Rpc.WalkAppend | v2/map.go:196-211 | Walking a path in two pieces continues from where the first piece ends, and a failed walk stays failed |
| Rpc.WalkGrows | v2/map.go:53-101 | Adding nodes without touching the child links of existing ones does not change where a walk from an existing node ends |
| Rpc.FindGrows | v2/map.go:53-101 | A registry that keeps its root entries and old links still finds every path it found, at the same node |
| Rpc.ResolveGrows | v2/map.go:182-219 | If the old nodes that have methods also keep their method tables, every request that resolved still resolves to the same node and method |
| Rpc.LinkedAt | v2/map.go:61-98 | Node j of a built chain carries segment j's name, no receiver and no methods, and its only child is named by segment j+1 and is the next node |
| Rpc.ChainClosed | v2/map.go:79-96 | Adding a finished chain to a tree whose children are all in the tree keeps it so |
| Rpc.HangSegments | v2/map.go:61-98 | Loop iterations after the first: each later segment gets a fresh, bare node with empty tables, hung as the only child of the previous node, so the result is a finished chain (Hung) whose last node is bare and has no children; the duplicate check at line 90 is unreachable |
| Rpc.ServiceMap.LookupChain | v2/map.go:79-96 | Once a chain is hung under the root key of its first segment, looking up its segments reaches its last node |
| Rpc.ServiceMap.LookupAppend | v2/map.go:196-211 | Looking up a longer path continues from the node the shorter one names |
| Rpc.ServiceMap.RegistryService | v2/map.go:53-101 | If the first segment is already a root key: fails with "service already defined" for that segment and ".", and leaves the root table and the tree unchanged. Otherwise it adds exactly that root key, holding a chain of fresh bare nodes, one per segment in order, each the only child of the one before. It returns the last node, which has no children and which the path now looks up. The tree grows by exactly the chain's nodes, and no existing node is modified |
| Rpc.ServiceMap.MissingMethod | v2/map.go:213-217 | A request for a dot-free method that the node a path names lacks is answered "can't find method" |
| Rpc.ServiceMap.BelowLeaf | v2/map.go:196-211 | Below a node without children there is no service: a request one segment deeper than its path is answered "can't find service" |
| Rpc.ServiceMap.IllFormedIffNoSep | v2/map.go:184-188 | `get` answers "ill-formed" exactly when the request contains no "." |
| Rpc.ServiceMap.RoundTrip | v2/map.go:182-219 | For a node that path P names and a dot-free method M in its table, the request P + "." + M resolves to that node and M's entry |
| Rpc.ServiceMap.RoundTrips | v2/map.go:182-219 | The round trip holds for every dot-free method in the table of the node P names |
| Rpc.ServiceMap.KeepsResolutions | v2/map.go:53-177 | If the registry keeps its root keys and only adds nodes, and no old node's links or method table changes, every path and request that resolved still resolves the same way |
| Rpc.ServiceMap.KeepsResolutionsAttach | v2/map.go:110-166 | Giving a method table to a node that had none, with nothing else changed, keeps every request that resolved resolving the same way |
| Rpc.ServiceMap.AttachToChain | v2/map.go:110-166 | Attaches the receiver to the last node of a finished chain, with name, table and error as Setup gives them. The other chain nodes stay bare, the last node keeps no children, every path names what it named, and every request that resolved still resolves the same way |
| Rpc.ServiceMap.Register | v2/map.go:104-177 | A duplicate first segment returns "service already defined" and leaves the tree unchanged. Otherwise the root table gains exactly the first segment, holding a finished chain of fresh nodes. Its nodes before the last stay bare: segment name, no receiver, no methods, one child. The tree grows by exactly those nodes. The path looks up the last node, which has no children and gets the receiver; its name, method table and error are as Setup gives them, so a failure leaves the chain linked. Every path and request that resolved before resolves the same way. On success, every dot-free method M of the node is served under name + "." + M |
| Rpc.ServiceMap.Get | v2/map.go:182-220 | Returns exactly what Resolution specifies: "ill-formed" without a "."; "can't find service" when a segment before the last has no child; "can't find method" when the node reached lacks the last segment; else that node and entry. It reads the tree and modifies nothing |
| Scenarios.CalculatorTable | v2/map.go:124-161 | Of a receiver with two handlers, a method of the wrong arity and an unexported method, only the two handlers are kept, keyed by name |
| Scenarios.BrokenTable | v2/map.go:124-161 | A receiver with no method of the right shape gets an empty table |
| Scenarios.RegisterThenGet | v2/map.go:104-220 | Registering the calculator as "Math" succeeds, and "Math.Add" then resolves to the Add entry |
| Scenarios.RegisterMathThenDeeper | v2/map.go:196-211 | After the calculator is registered as "Math", "Math.Add.Extra" names no service, although "Math" has a method "Add" |
| Scenarios.RegisterNested | v2/map.go:213-217 | After the calculator is registered as "Math.Calc", "Math.Add" finds the node "Math" but no method: the intermediate node has no methods |
| Scenarios.SharedFirstSegment | v2/map.go:74-85 | After "A.B" is registered, "A.C" is refused with "service already defined: A." |
| Scenarios.FailedRegistrationStays | v2/map.go:163-166 | A registration refused for having no suitable method still blocks a later registration under the same first segment |
| Scenarios.RegisterUnnamed | v2/map.go:113-118 | Registering under "" names the node after the receiver's type, while the root key is "" and not the type name |
| Scenarios.UnnamedByKey | v2/map.go:182-219 | The service registered under "" answers to ".Add" |
| Scenarios.UnnamedByTypeName | v2/map.go:201-210 | The service registered under "" does not answer to "Calculator.Add": no such service |
| Scenarios.UnknownRoot | v2/map.go:201-210 | A request whose one-segment path is not a root key fails with "can't find service" |

## Left out

- Locking: `sync.Mutex` and its `Lock`/`Unlock` calls are not modelled, and
  the model is sequential. Two early returns skip the `Unlock`: the duplicate
  first segment at v2/map.go:82 and "can't find service" at v2/map.go:208.
  After either, the mutex stays locked. The next `registryService`, and the
  next `get` of a request containing a ".", then block forever in Go. A `get`
  of a request without "." still answers "ill-formed" (v2/map.go:185-187),
  because it returns before taking the lock at v2/map.go:194. So Rpc.ServiceMap.KeepsResolutions and the
  "resolves the same way" clauses of Rpc.ServiceMap.Register hold in the
  model only: in Go there may be no further answer at all.
- Method sets Go cannot produce: for a concrete receiver type,
  `NumMethod`/`Method(i)` list only exported methods, sorted by name, so the
  `PkgPath` check at v2/map.go:128 never rejects a method in Go. The model
  takes any method sequence and keeps the check as written. The scenario
  method `reset`, with package path "main", exercises the check.
- A nil receiver is not modelled: a `Receiver` always has a type and a
  method set. In Go, `register(nil, name)` with a non-empty name first links
  the chain, then panics at `s.rcvrType.NumMethod()` (v2/map.go:124).
- The debug `println(serviceName)` at v2/map.go:72 is output only and is not
  modelled.
- Error text: `fmt.Errorf` messages are modelled as distinct error kinds
  carrying the quoted value. `NoServiceName` carries the receiver's type
  rather than its `String()` rendering.
- Reflection values: `reflect.ValueOf(rcvr)` and method invocation are not
  modelled. The receiver is an opaque `Receiver` value whose type and method
  set are given as data. `reflect.Indirect` on a nil pointer is not modelled.
- `http.Request` and `error` are the distinguished constants `RequestType`
  and `ErrorType`. Type identity is structural equality of `Type` values.
- Rpc.IsExported: `unicode.IsUpper` is restricted to ASCII `'A'..'Z'`, so an
  upper-case letter outside ASCII counts as not exported.
- Rpc.IsExported: names are sequences of runes, so the decoding of invalid
  UTF-8 by `utf8.DecodeRuneInString` is not modelled. For the empty name the
  rune is `RuneError`, which is not upper case.
- The nil root map at v2/map.go:79-81 is modelled as an empty map from the
  start, since a nil map answers every membership test like an empty one.
- The commented-out block at v2/map.go:167-175 is not code and is not
  modelled.
- Rpc.ServiceMap.RoundTrip: is stated for method names without ".". A
  method name containing "." cannot be requested, because the request would
  split differently.
- Rpc.ServiceMap.RegistryService: the first loop iteration is written out
  before the loop, and the loop over the remaining segments is
  Rpc.HangSegments. The root entry is stored after the remaining segments
  are hung. Nothing can fail or be observed in between, so the result is the
  same.
- Rpc.HangSegments: the accumulated `serviceName` is not carried through the
  loop. It is only used by the unreachable error at v2/map.go:90.
- Rpc.Service.Attach: the early returns of `register` after v2/map.go:110
  are kept in order. Their combined effect is stated as the Setup value.
- Rpc.ServiceMap.Register: the new node and the chain ending in it are ghost
  out-parameters, because Go returns only the error. A caller can name them
  only in proofs.
- Rpc.ServiceMap.AttachToChain: is the tail of `register` after
  `registryService` returns, split off as a method of its own. It runs the
  same statements, in the same order, on the node `registryService`
  returned.
