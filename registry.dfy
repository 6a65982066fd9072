/** The service registry of the RPC server (package `rpc`, file v2/map.go):
    receivers are registered under dotted names such as "A.B", which build a
    tree of `Service` nodes, and a request "A.B.Method" is resolved by walking
    that tree and looking the method up in the node it reaches. */
module Rpc {
  import opened GoStrings
  import opened Reflection

  datatype Option<+T> = None | Some(value: T)

  datatype Result<+T> = Success(value: T) | Failure(error: Error)

  /** The errors the registry reports, one per `fmt.Errorf` call site, each
      carrying the value the message quotes. */
  datatype Error =
    | ServiceAlreadyDefined(serviceName: string)  // "service already defined: %q"
    | TypeNotExported(typeName: string)           // "type %q is not exported"
    | NoServiceName(rcvrType: Type)               // "no service name for type %q"
    | NoSuitableMethods(serviceName: string)      // "%q has no exported methods of suitable type"
    | IllFormedRequest(request: string)           // "service/method request ill-formed: %q"
    | ServiceNotFound(request: string)            // "can't find service %q"
    | MethodNotFound(request: string)             // "can't find method %q"

  // --------------------------------------------------------------------------
  // Naming conventions
  // --------------------------------------------------------------------------

  /** `isExported`: a name is exported when its first rune is upper case;
      the empty name is not. */
  function IsExported(name: string): (r: bool)
    ensures r <==> name != [] && IsUpper(name[0])
  {
    IsUpper(FirstRune(name))
  }

  /** The type left once every pointer is stripped off `t`. */
  function Base(t: Type): (b: Type)
    ensures b.Named?
  {
    match t
    case Ptr(e) => Base(e)
    case Named(_, _) => t
  }

  /** What `isExportedOrBuiltin` decides about a type: the name of the type
      under all its pointers is exported, or that type is predeclared. */
  predicate ExportedOrBuiltin(t: Type) {
    IsExported(Base(t).name) || Base(t).pkgPath == ""
  }

  /** `isExportedOrBuiltin`: strips every pointer off `t`, then asks whether
      the type's name is exported or its package path is empty (a
      predeclared type). */
  method IsExportedOrBuiltin(t: Type) returns (r: bool)
    ensures r <==> IsExported(Base(t).name) || Base(t).pkgPath == ""
  {
    var u := t;
    while u.Ptr?
      invariant Base(u) == Base(t)
      decreases u
    {
      u := u.elem;
    }
    r := IsExported(TypeName(u)) || PkgPath(u) == "";
  }

  // --------------------------------------------------------------------------
  // The method filter of `register`
  // --------------------------------------------------------------------------

  /** `serviceMethod`: a qualifying method with the types its second and
      third arguments point to. */
  datatype ServiceMethod = ServiceMethod(reflectMethod: Method, argsType: Type, replyType: Type)

  /** The calling convention a method must follow to be served:
      `func (rcvr) Name(*http.Request, *Args, *Reply) error`, exported, with
      Args and Reply exported or predeclared. */
  predicate Suitable(m: Method) {
    && m.pkgPath == ""
    && |m.ins| == 4
    && m.ins[1].Ptr? && m.ins[1].elem == RequestType
    && m.ins[2].Ptr? && ExportedOrBuiltin(m.ins[2])
    && m.ins[3].Ptr? && ExportedOrBuiltin(m.ins[3])
    && |m.outs| == 1
    && m.outs[0] == ErrorType
  }

  /** The entry stored for a qualifying method: the pointees of its two
      data arguments. */
  function Entry(m: Method): (e: ServiceMethod)
    requires Suitable(m)
    ensures e.reflectMethod == m && Ptr(e.argsType) == m.ins[2] && Ptr(e.replyType) == m.ins[3]
  {
    ServiceMethod(m, m.ins[2].elem, m.ins[3].elem)
  }

  /** The method table `register` builds from a method set, visiting the
      methods in order; a later method of the same name overwrites an
      earlier one. */
  function Collect(ms: seq<Method>): map<string, ServiceMethod> {
    if ms == [] then map[]
    else
      var table := Collect(ms[..|ms| - 1]);
      var m := ms[|ms| - 1];
      if Suitable(m) then table[m.name := Entry(m)] else table
  }

  /** The keys of the method table: a name is a key exactly when some
      suitable method has that name, so no other method ever gets in. */
  lemma {:induction false} CollectKeys(ms: seq<Method>, k: string)
    ensures k in Collect(ms) <==> exists i :: 0 <= i < |ms| && ms[i].name == k && Suitable(ms[i])
    decreases |ms|
  {
    if ms != [] {
      var init := ms[..|ms| - 1];
      var m := ms[|ms| - 1];
      CollectKeys(init, k);
      if k in Collect(ms) {
        if !(Suitable(m) && m.name == k) {
          var i :| 0 <= i < |init| && init[i].name == k && Suitable(init[i]);
          assert ms[i] == init[i];
        }
      }
      if exists i :: 0 <= i < |ms| && ms[i].name == k && Suitable(ms[i]) {
        var i :| 0 <= i < |ms| && ms[i].name == k && Suitable(ms[i]);
        if i < |ms| - 1 {
          assert init[i] == ms[i];
        }
      }
    }
  }

  /** Every entry of the method table is the entry of a suitable method of
      the set, keyed by that method's name. */
  lemma {:induction false} CollectEntries(ms: seq<Method>, k: string)
    requires k in Collect(ms)
    ensures var e := Collect(ms)[k];
      e.reflectMethod in ms && Suitable(e.reflectMethod) && e.reflectMethod.name == k && e == Entry(e.reflectMethod)
    decreases |ms|
  {
    var init := ms[..|ms| - 1];
    var m := ms[|ms| - 1];
    if !(Suitable(m) && m.name == k) {
      CollectEntries(init, k);
      assert Collect(init)[k].reflectMethod in init;
    }
  }

  /** The entry of a key is that of the last suitable method with that name. */
  lemma {:induction false} CollectLast(ms: seq<Method>, i: nat)
    requires i < |ms| && Suitable(ms[i])
    requires forall j :: i < j < |ms| && Suitable(ms[j]) ==> ms[j].name != ms[i].name
    ensures ms[i].name in Collect(ms) && Collect(ms)[ms[i].name] == Entry(ms[i])
    decreases |ms|
  {
    if i < |ms| - 1 {
      var init := ms[..|ms| - 1];
      assert init[i] == ms[i];
      CollectLast(init, i);
    }
  }

  /** What `register` does once the chain is linked, as a value: the name
      the node ends with (the type's name when the registered name is empty,
      else the last segment), its method table, and the error returned. The
      checks run in the source's order: an unexported type name, then an
      empty name, then an empty method table. */
  function Setup(rcvr: Receiver, registered: string, segment: string): (res: (string, map<string, ServiceMethod>, Option<Error>))
    ensures res.1 == map[] || res.1 == Collect(rcvr.methodSet)
    ensures res.2.None? <==> res.0 != [] && (registered == [] ==> IsExported(res.0)) && res.1 != map[]
  {
    var name := if registered == [] then IndirectTypeName(rcvr.rtype) else segment;
    if registered == [] && !IsExported(name) then (name, map[], Some(TypeNotExported(name)))
    else if name == [] then (name, map[], Some(NoServiceName(rcvr.rtype)))
    else
      var table := Collect(rcvr.methodSet);
      (name, table, if |table| == 0 then Some(NoSuitableMethods(name)) else None)
  }

  /** Registration succeeds exactly when the name is usable (exported when
      it is taken from the type, and not empty) and at least one method
      follows the calling convention. */
  lemma SetupSucceeds(rcvr: Receiver, registered: string, segment: string)
    ensures var (name, _, err) := Setup(rcvr, registered, segment);
      err.None? <==>
        && (registered == [] ==> IsExported(name))
        && name != []
        && exists i :: 0 <= i < |rcvr.methodSet| && Suitable(rcvr.methodSet[i])
  {
    var ms := rcvr.methodSet;
    var table := Collect(ms);
    if exists i :: 0 <= i < |ms| && Suitable(ms[i]) {
      var i :| 0 <= i < |ms| && Suitable(ms[i]);
      CollectKeys(ms, ms[i].name);
      assert ms[i].name in table;
    } else if |table| != 0 {
      var k :| k in table;
      CollectKeys(ms, k);
    }
  }

  // --------------------------------------------------------------------------
  // The service tree
  // --------------------------------------------------------------------------

  /** `service`: one node of the tree. A node is created with empty tables;
      `register` later fills in the receiver and the methods of the node at
      the end of the path it registers. */
  class Service {
    var name: string
    var rcvr: Option<Receiver>
    var rcvrType: Option<Type>
    var methods: map<string, ServiceMethod>
    var services: map<string, Service>

    constructor (name: string)
      ensures this.name == name && rcvr == None && rcvrType == None
      ensures methods == map[] && services == map[]
    {
      this.name := name;
      rcvr := None;
      rcvrType := None;
      methods := map[];
      services := map[];
    }

    /** The part of `register` after the chain is linked, on its last node:
        records the receiver, takes the name of the receiver's type when the
        registered name is empty, then rejects an unexported or empty name
        and fills the method table, which must not end up empty. */
    method Attach(rcvr: Receiver, registered: string) returns (err: Option<Error>)
      requires methods == map[]
      modifies this`name, this`rcvr, this`rcvrType, this`methods
      ensures this.rcvr == Some(rcvr) && rcvrType == Some(rcvr.rtype)
      ensures (name, methods, err) == Setup(rcvr, registered, old(name))
    {
      this.rcvr := Some(rcvr);
      rcvrType := Some(rcvr.rtype);
      if registered == [] {
        name := IndirectTypeName(rcvr.rtype);
        if !IsExported(name) {
          return Some(TypeNotExported(name));
        }
      }
      if name == [] {
        return Some(NoServiceName(rcvr.rtype));
      }
      AddSuitableMethods(rcvr.methodSet);
      if |methods| == 0 {
        return Some(NoSuitableMethods(name));
      }
      return None;
    }

    /** The method loop of `register`: enters every method of `ms` that
        follows the calling convention into the method table. */
    method AddSuitableMethods(ms: seq<Method>)
      requires methods == map[]
      modifies this`methods
      ensures methods == Collect(ms)
    {
      for i := 0 to |ms|
        invariant methods == Collect(ms[..i])
      {
        var m := ms[i];
        assert ms[..i + 1][..i] == ms[..i];
        // The method must be exported.
        if m.pkgPath != "" {
          continue;
        }
        // Four inputs: the receiver, *http.Request, *args, *reply.
        if |m.ins| != 4 {
          continue;
        }
        var reqType := m.ins[1];
        if !reqType.Ptr? || reqType.elem != RequestType {
          continue;
        }
        var args := m.ins[2];
        if !args.Ptr? {
          continue;
        }
        var argsOk := IsExportedOrBuiltin(args);
        if !argsOk {
          continue;
        }
        var reply := m.ins[3];
        if !reply.Ptr? {
          continue;
        }
        var replyOk := IsExportedOrBuiltin(reply);
        if !replyOk {
          continue;
        }
        // One output, of type error.
        if |m.outs| != 1 {
          continue;
        }
        if m.outs[0] != ErrorType {
          continue;
        }
        methods := methods[m.name := ServiceMethod(m, args.elem, reply.elem)];
      }
      assert ms[..|ms|] == ms;
    }
  }

  /** A snapshot of the child links of a set of nodes: each node's
      `services` table. */
  type Links = map<Service, map<string, Service>>

  /** Every child recorded in `g` is itself a node of `g`. */
  ghost predicate ClosedLinks(g: Links) {
    forall s, k :: s in g && k in g[s] ==> g[s][k] in g
  }

  /** The node reached from `n` by following the child links named by
      `path`, or None when some name has no child. */
  ghost function Walk(g: Links, n: Service, path: seq<string>): (w: Option<Service>)
    ensures ClosedLinks(g) && n in g && w.Some? ==> w.value in g
    decreases |path|
  {
    if path == [] then Some(n)
    else if n in g && path[0] in g[n] then Walk(g, g[n][path[0]], path[1..])
    else None
  }

  /** Walking a path in two pieces: the second piece starts where the first
      one ends, and a walk that fails stays failed. */
  lemma {:induction false} WalkAppend(g: Links, n: Service, p: seq<string>, q: seq<string>)
    ensures Walk(g, n, p + q) ==
              match Walk(g, n, p)
              case None => None
              case Some(m) => Walk(g, m, q)
    decreases |p|
  {
    if p == [] {
      assert p + q == q;
    } else {
      assert (p + q)[0] == p[0] && (p + q)[1..] == p[1..] + q;
      if n in g && p[0] in g[n] {
        WalkAppend(g, g[n][p[0]], p[1..], q);
      }
    }
  }

  /** Along a chain whose node i has the single child named parts[i + 1],
      the walk from node i over the remaining names ends at the last node. */
  lemma {:induction false} WalkChain(g: Links, chain: seq<Service>, parts: seq<string>, i: nat)
    requires |chain| == |parts| && i < |chain|
    requires forall j :: 0 <= j < |chain| - 1 ==> chain[j] in g && g[chain[j]] == map[parts[j + 1] := chain[j + 1]]
    ensures Walk(g, chain[i], parts[i + 1..]) == Some(chain[|chain| - 1])
    decreases |chain| - i
  {
    if i < |chain| - 1 {
      assert parts[i + 1..][1..] == parts[i + 2..];
      WalkChain(g, chain, parts, i + 1);
    }
  }

  /** Adding nodes without touching the links of the existing ones does not
      change where a walk from an existing node ends. */
  lemma {:induction false} WalkGrows(g: Links, g': Links, n: Service, path: seq<string>)
    requires ClosedLinks(g) && n in g
    requires forall s :: s in g ==> s in g' && g'[s] == g[s]
    ensures Walk(g', n, path) == Walk(g, n, path)
    decreases |path|
  {
    if path != [] && path[0] in g[n] {
      WalkGrows(g, g', g[n][path[0]], path[1..]);
    }
  }

  /** Every root entry is a node of `g`. */
  ghost predicate RootsIn(roots: map<string, Service>, g: Links) {
    forall k :: k in roots ==> roots[k] in g
  }

  /** The node a registration path names: the root entry for its first
      segment, then the child links for the rest. */
  ghost function Find(roots: map<string, Service>, g: Links, path: seq<string>): (node: Option<Service>)
    ensures ClosedLinks(g) && RootsIn(roots, g) && node.Some? ==> node.value in g
  {
    if path == [] then None
    else if path[0] in roots then Walk(g, roots[path[0]], path[1..])
    else None
  }

  /** The method tables of a set of nodes. */
  type Tables = map<Service, map<string, ServiceMethod>>

  /** What `get` answers for "path.Method": ill-formed without a ".", else
      the node the path names and its entry for Method, or which of the two
      is missing. */
  ghost function Resolve(roots: map<string, Service>, g: Links, t: Tables, fullName: string): (r: Result<(Service, ServiceMethod)>)
    ensures r.Failure? ==> r.error in {IllFormedRequest(fullName), ServiceNotFound(fullName), MethodNotFound(fullName)}
    ensures r.Success? ==> r.value.0 in t && r.value.1 in t[r.value.0].Values
  {
    var parts := Split(fullName);
    if |parts| < 2 then Failure(IllFormedRequest(fullName))
    else
      var methodName := parts[|parts| - 1];
      match Find(roots, g, parts[..|parts| - 1])
      case None => Failure(ServiceNotFound(fullName))
      case Some(n) =>
        if n in t && methodName in t[n] then Success((n, t[n][methodName]))
        else Failure(MethodNotFound(fullName))
  }

  /** A registry that keeps its root entries and the links of its old nodes,
      and only adds, still finds every path it found. */
  lemma FindGrows(roots: map<string, Service>, g: Links, roots': map<string, Service>, g': Links, path: seq<string>)
    requires ClosedLinks(g) && RootsIn(roots, g)
    requires forall k :: k in roots ==> k in roots' && roots'[k] == roots[k]
    requires forall s :: s in g ==> s in g' && g'[s] == g[s]
    ensures Find(roots, g, path).Some? ==> Find(roots', g', path) == Find(roots, g, path)
  {
    if path != [] && path[0] in roots {
      WalkGrows(g, g', roots[path[0]], path[1..]);
    }
  }

  /** ... and, if the old nodes also keep their method tables, resolves
      every request it resolved, to the same node and method. */
  lemma ResolveGrows(roots: map<string, Service>, g: Links, t: Tables,
                     roots': map<string, Service>, g': Links, t': Tables, fullName: string)
    requires ClosedLinks(g) && RootsIn(roots, g)
    requires forall k :: k in roots ==> k in roots' && roots'[k] == roots[k]
    requires forall s :: s in g ==> s in g' && g'[s] == g[s]
    requires forall s :: s in g && s in t && t[s] != map[] ==> s in t' && t'[s] == t[s]
    ensures Resolve(roots, g, t, fullName).Success? ==> Resolve(roots', g', t', fullName) == Resolve(roots, g, t, fullName)
  {
    var parts := Split(fullName);
    if |parts| >= 2 {
      FindGrows(roots, g, roots', g', parts[..|parts| - 1]);
    }
  }

  /** The nodes of a chain, as a set. */
  ghost function NodesOf(chain: seq<Service>): set<Service> {
    set c | c in chain
  }

  lemma NodesOfSnoc(chain: seq<Service>, n: Service)
    ensures NodesOf(chain + [n]) == NodesOf(chain) + {n}
  {
    assert forall c :: c in chain + [n] <==> c in chain || c == n;
  }

  /** A node as `registryService` creates it for the segment `part`: named
      `part`, with no receiver and no methods. */
  ghost predicate Bare(n: Service, part: string)
    reads n
  {
    n.name == part && n.rcvr == None && n.rcvrType == None && n.methods == map[]
  }

  /** `done` is the finished front of the chain `registryService` builds for
      `parts`: node j is bare for parts[j] and has exactly one child, named
      parts[j + 1], which is the next node, or `last` after the final one. */
  ghost predicate Linked(done: seq<Service>, parts: seq<string>, last: Service)
    reads NodesOf(done)
    decreases |done|
  {
    && |done| < |parts|
    && (done != [] ==>
         var k := |done| - 1;
         && Linked(done[..k], parts, done[k])
         && Bare(done[k], parts[k])
         && done[k].services == map[parts[k + 1] := last])
  }

  /** What Linked says about each node of the finished front. */
  lemma {:induction false} LinkedAt(done: seq<Service>, parts: seq<string>, last: Service, j: int)
    requires Linked(done, parts, last) && 0 <= j < |done|
    ensures Bare(done[j], parts[j])
    ensures done[j].services == map[parts[j + 1] := if j + 1 < |done| then done[j + 1] else last]
    decreases |done|
  {
    var k := |done| - 1;
    if j < k {
      LinkedAt(done[..k], parts, done[k], j);
      assert done[..k][j] == done[j];
      assert j + 1 < k ==> done[..k][j + 1] == done[j + 1];
    }
  }

  /** One more node joins the finished front once it is linked to the next. */
  lemma LinkedExtend(done: seq<Service>, parts: seq<string>, last: Service, next: Service)
    requires Linked(done, parts, last) && |done| + 1 < |parts|
    requires Bare(last, parts[|done|]) && last.services == map[parts[|done| + 1] := next]
    ensures Linked(done + [last], parts, next)
  {
    assert (done + [last])[..|done|] == done;
  }

  /** A finished chain for `parts`: one node per segment, and every node but
      the last is bare for its segment and has exactly one child, named by
      the next segment, which is the next node. */
  ghost predicate Hung(chain: seq<Service>, parts: seq<string>)
    reads NodesOf(chain)
  {
    && |chain| == |parts|
    && forall j :: 0 <= j < |chain| - 1 ==>
         Bare(chain[j], parts[j]) && chain[j].services == map[parts[j + 1] := chain[j + 1]]
  }

  /** Every child of a node of `nodes` is in `repr`. */
  ghost predicate ClosedIn(nodes: set<Service>, repr: set<Service>)
    reads nodes`services
  {
    forall s, k :: s in nodes && k in s.services ==> s.services[k] in repr
  }

  /** Adding a finished chain to a closed set of nodes keeps it closed. */
  lemma ChainClosed(r0: set<Service>, chain: seq<Service>, parts: seq<string>)
    requires ClosedIn(r0, r0) && Hung(chain, parts) && |chain| >= 1
    requires chain[|chain| - 1].services == map[]
    ensures ClosedIn(r0 + NodesOf(chain), r0 + NodesOf(chain))
  {
    var all := r0 + NodesOf(chain);
    forall s, k | s in all && k in s.services
      ensures s.services[k] in all
    {
      if s !in r0 {
        var j :| 0 <= j < |chain| && chain[j] == s;
        if j < |chain| - 1 {
          assert s.services[k] == chain[j + 1];
        }
      }
    }
  }

  /** The loop of `registryService` after its first iteration: every later
      segment gets a fresh node hung below the node made for the segment
      before it. Returns the node of the last segment and the whole chain,
      `first` included. */
  method HangSegments(first: Service, parts: seq<string>) returns (last: Service, ghost chain: seq<Service>)
    requires |parts| >= 1 && Bare(first, parts[0]) && first.services == map[]
    modifies first
    ensures Hung(chain, parts) && chain[0] == first && last == chain[|chain| - 1]
    ensures Bare(last, parts[|parts| - 1]) && last.services == map[]
    ensures fresh(NodesOf(chain) - {first})
  {
    last := first;
    chain := [first];
    ghost var done: seq<Service> := [];
    var i := 1;
    while i < |parts|
      invariant 1 <= i <= |parts| && |chain| == i && chain == done + [last] && chain[0] == first
      invariant fresh(NodesOf(chain) - {first})
      invariant Linked(done, parts, last) && last !in NodesOf(done)
      invariant Bare(last, parts[i - 1]) && last.services == map[]
    {
      var node := new Service(parts[i]);
      // This duplicate check can never fire: `last` was made by the
      // previous iteration, or is `first`, and has no children yet.
      if node.name in last.services {
        assert false;
      }
      last.services := last.services[node.name := node];
      LinkedExtend(done, parts, last, node);
      NodesOfSnoc(chain, node);
      done := chain;
      chain := chain + [node];
      last := node;
      i := i + 1;
    }
    forall j | 0 <= j < |done|
      ensures Bare(chain[j], parts[j]) && chain[j].services == map[parts[j + 1] := chain[j + 1]]
    {
      LinkedAt(done, parts, last, j);
    }
  }

  /** A prefix one element longer is the prefix with that element added. */
  lemma PrefixSnoc<T>(s: seq<T>, i: int)
    requires 0 <= i < |s|
    ensures s[..i + 1] == s[..i] + [s[i]]
  {
  }

  /** A prefix followed by the next slice is the longer prefix. */
  lemma PrefixConcat<T>(s: seq<T>, i: int, j: int)
    requires 0 <= i <= j <= |s|
    ensures s[..i] + s[i..j] == s[..j]
  {
  }

  /** `serviceMap`: the registry, whose root table maps first segments to
      the top nodes of the tree. */
  class ServiceMap {
    var services: map<string, Service>
    /** Every node the registry has linked into the tree. */
    ghost var Repr: set<Service>

    ghost predicate Valid()
      reads this, Repr`services
    {
      && (forall k :: k in services ==> services[k] in Repr)
      && ClosedIn(Repr, Repr)
    }

    /** A zero `serviceMap`: its nil root table behaves as an empty one. */
    constructor ()
      ensures Valid() && services == map[] && Repr == {}
    {
      services := map[];
      Repr := {};
    }

    /** The child links of every node of the tree, as they are now. */
    ghost function ChildLinks(): (g: Links)
      reads this, Repr`services
      ensures g.Keys == Repr
      ensures Valid() ==> ClosedLinks(g)
    {
      map s | s in Repr :: s.services
    }

    /** The method tables of every node of the tree, as they are now. */
    ghost function MethodTables(): (t: Tables)
      reads this, Repr`methods
      ensures t.Keys == Repr
    {
      map s | s in Repr :: s.methods
    }

    /** The node a registration path names in the tree as it is now. */
    ghost function Lookup(path: seq<string>): (node: Option<Service>)
      reads this, Repr`services
      ensures Valid() && node.Some? ==> node.value in Repr
    {
      Find(services, ChildLinks(), path)
    }

    /** Looking up a longer path continues from the node the shorter one
        names, and stays failed once it has failed. */
    lemma LookupAppend(p: seq<string>, q: seq<string>)
      requires p != []
      ensures Lookup(p + q) ==
                match Lookup(p)
                case None => None
                case Some(n) => Walk(ChildLinks(), n, q)
    {
      assert (p + q)[0] == p[0] && (p + q)[1..] == p[1..] + q;
      if p[0] in services {
        WalkAppend(ChildLinks(), services[p[0]], p[1..], q);
      }
    }

    /** What `get` answers for a request, in the tree as it is now. */
    ghost function Resolution(fullName: string): (r: Result<(Service, ServiceMethod)>)
      reads this, Repr`services, Repr`methods
    {
      Resolve(services, ChildLinks(), MethodTables(), fullName)
    }

    /** A request is rejected as ill-formed exactly when it has no ".". */
    lemma IllFormedIffNoSep(fullName: string)
      ensures Resolution(fullName) == Failure(IllFormedRequest(fullName)) <==> Sep !in fullName
    {
      SplitSeveralIffSep(fullName);
    }

    /** A method entry of the node registered under `path` is what
        "path.Method" resolves to. */
    lemma RoundTrip(path: string, methodName: string, node: Service)
      requires Valid() && Lookup(Split(path)) == Some(node)
      requires methodName in node.methods && Sep !in methodName
      ensures Resolution(path + [Sep] + methodName) == Success((node, node.methods[methodName]))
    {
      var fullName := path + [Sep] + methodName;
      SplitAppend(path, methodName);
      var parts := Split(fullName);
      assert parts[..|parts| - 1] == Split(path) && parts[|parts| - 1] == methodName;
      assert Find(services, ChildLinks(), parts[..|parts| - 1]) == Some(node);
      var tables := MethodTables();
      assert node in tables && tables[node] == node.methods;
    }

    /** A request for a method that the node registered under `path` lacks
        is answered "can't find method". */
    lemma MissingMethod(path: string, methodName: string, node: Service)
      requires Valid() && Lookup(Split(path)) == Some(node)
      requires methodName !in node.methods && Sep !in methodName
      ensures var request := path + [Sep] + methodName;
        Resolution(request) == Failure(MethodNotFound(request))
    {
      var request := path + [Sep] + methodName;
      SplitAppend(path, methodName);
      var parts := Split(request);
      assert parts[..|parts| - 1] == Split(path) && parts[|parts| - 1] == methodName;
      var tables := MethodTables();
      assert node in tables && tables[node] == node.methods;
    }

    /** Below a node without children there is no service: a request one
        segment deeper than the path of such a node is answered "can't find
        service". */
    lemma BelowLeaf(path: string, child: string, methodName: string, node: Service)
      requires Valid() && Lookup(Split(path)) == Some(node) && node.services == map[]
      requires Sep !in child && Sep !in methodName
      ensures var request := path + [Sep] + child + [Sep] + methodName;
        Resolution(request) == Failure(ServiceNotFound(request))
    {
      var request := path + [Sep] + child + [Sep] + methodName;
      SplitAppend(path, child);
      SplitAppend(path + [Sep] + child, methodName);
      var parts := Split(request);
      assert parts[..|parts| - 1] == Split(path) + [child];
      LookupAppend(Split(path), [child]);
      assert ChildLinks()[node] == map[];
    }

    /** The chain hung under the root entry for its first segment is
        reached by looking up its segments. */
    lemma LookupChain(chain: seq<Service>, parts: seq<string>)
      requires Hung(chain, parts) && |chain| >= 1
      requires parts[0] in services && services[parts[0]] == chain[0]
      requires NodesOf(chain) <= Repr
      ensures Lookup(parts) == Some(chain[|chain| - 1])
    {
      var g := ChildLinks();
      forall j | 0 <= j < |chain| - 1
        ensures chain[j] in g && g[chain[j]] == map[parts[j + 1] := chain[j + 1]]
      {
        assert chain[j] in NodesOf(chain);
      }
      WalkChain(g, chain, parts, 0);
    }

    /** `registryService`: splits `name` on "." and links a fresh chain of
        nodes, one per segment, under the root entry for the first segment.
        Only the first segment is checked against existing entries. */
    method RegistryService(name: string) returns (r: Result<Service>, ghost chain: seq<Service>)
      requires Valid()
      modifies this
      ensures Valid()
      ensures var parts := Split(name);
        if parts[0] in old(services) then
          && r == Failure(ServiceAlreadyDefined(parts[0] + [Sep]))
          && services == old(services) && Repr == old(Repr)
        else
          && r.Success? && Hung(chain, parts) && r.value == chain[|chain| - 1]
          && Bare(r.value, parts[|parts| - 1]) && r.value.services == map[]
          && fresh(NodesOf(chain))
          && services == old(services)[parts[0] := chain[0]]
          && Repr == old(Repr) + NodesOf(chain)
          && Lookup(parts) == Some(r.value)
    {
      var parts := Split(name);
      // The first segment is the only one met while `lastService` is nil:
      // it goes into the root table, unless the root has it already.
      var serviceName := parts[0] + [Sep];
      var last := new Service(parts[0]);
      if last.name in services {
        return Failure(ServiceAlreadyDefined(serviceName)), [];
      }
      // The loop below cannot fail, so entering `last` in the root table
      // after hanging the rest of the chain under it is indistinguishable
      // from entering it first.
      var tail;
      tail, chain := HangSegments(last, parts);
      services, Repr := services[parts[0] := last], Repr + NodesOf(chain);
      ChainClosed(old(Repr), chain, parts);
      LookupChain(chain, parts);
      r := Success(tail);
    }

    /** A tree that kept its root entries and the child links and method
        tables of its old nodes, and only added nodes, still finds every path it found and resolves every
        request it resolved, to the same node and method. */
    twostate lemma KeepsResolutions()
      requires old(Valid())
      requires forall k :: k in old(services) ==> k in services && services[k] == old(services)[k]
      requires old(Repr) <= Repr
      requires forall x :: x in old(Repr) ==> x.services == old(x.services) && x.methods == old(x.methods)
      ensures forall p :: old(Lookup(p)).Some? ==> Lookup(p) == old(Lookup(p))
      ensures forall f :: old(Resolution(f)).Success? ==> Resolution(f) == old(Resolution(f))
    {
      forall p | old(Lookup(p)).Some?
        ensures Lookup(p) == old(Lookup(p))
      {
        FindGrows(old(services), old(ChildLinks()), services, ChildLinks(), p);
      }
      forall f | old(Resolution(f)).Success?
        ensures Resolution(f) == old(Resolution(f))
      {
        ResolveGrows(old(services), old(ChildLinks()), old(MethodTables()), services, ChildLinks(), MethodTables(), f);
      }
    }

    /** A tree whose nodes, links and root entries all stay as they were,
        where only `s` gets a method table and had none before, still
        resolves every request it resolved: an empty table answers nothing. */
    twostate lemma KeepsResolutionsAttach(s: Service)
      requires old(Valid()) && services == old(services) && Repr == old(Repr)
      requires forall x :: x in Repr ==> x.services == old(x.services)
      requires forall x :: x in Repr && x != s ==> x.methods == old(x.methods)
      requires old(s.methods) == map[]
      ensures forall f :: old(Resolution(f)).Success? ==> Resolution(f) == old(Resolution(f))
    {
      forall f | old(Resolution(f)).Success?
        ensures Resolution(f) == old(Resolution(f))
      {
        ResolveGrows(old(services), old(ChildLinks()), old(MethodTables()), services, ChildLinks(), MethodTables(), f);
      }
    }

    /** The part of `register` after `registryService` succeeded: attaches
        the receiver to the last node of the chain just hung. The nodes
        before it stay as `registryService` made them: named by their
        segments, with no receiver and no methods. The tree keeps its shape,
        so every path names what it named, and every request that resolved
        still resolves the same way. */
    method AttachToChain(last: Service, ghost chain: seq<Service>, ghost parts: seq<string>, rcvr: Receiver, registered: string)
      returns (err: Option<Error>)
      requires Valid() && last in Repr
      requires Hung(chain, parts) && |parts| >= 1 && last == chain[|chain| - 1]
      requires Bare(last, parts[|parts| - 1]) && last.services == map[]
      modifies last`name, last`rcvr, last`rcvrType, last`methods
      ensures Valid() && last.services == map[]
      ensures forall p :: Lookup(p) == old(Lookup(p))
      ensures forall f :: old(Resolution(f)).Success? ==> Resolution(f) == old(Resolution(f))
      ensures Hung(chain, parts)
      ensures last.rcvr == Some(rcvr) && last.rcvrType == Some(rcvr.rtype)
      ensures (last.name, last.methods, err) == Setup(rcvr, registered, parts[|parts| - 1])
    {
      // Every other node of the chain has a child, and `last` has none.
      forall j | 0 <= j < |chain| - 1
        ensures chain[j] != last
      {
        assert parts[j + 1] in chain[j].services;
      }
      err := last.Attach(rcvr, registered);
      assert ChildLinks() == old(ChildLinks());
      KeepsResolutionsAttach(last);
    }

    /** Every method of the node registered under `path` is found by `get`
        under "path.Method". */
    lemma RoundTrips(path: string, node: Service)
      requires Valid() && Lookup(Split(path)) == Some(node)
      ensures forall m :: m in node.methods && Sep !in m ==>
                Resolution(path + [Sep] + m) == Success((node, node.methods[m]))
    {
      forall m | m in node.methods && Sep !in m
        ensures Resolution(path + [Sep] + m) == Success((node, node.methods[m]))
      {
        RoundTrip(path, m, node);
      }
    }

    /** `register`: links the chain for `name`, then sets up its last node
        as Setup describes. A failure after the chain is linked leaves the
        chain in the tree. Nothing registered before is disturbed: the old
        nodes are not modified (only `this` and new nodes are), and every
        path and request resolves as before. */
    method Register(rcvr: Receiver, name: string) returns (err: Option<Error>, ghost node: Service?, ghost chain: seq<Service>)
      requires Valid()
      modifies this
      ensures Valid()
      ensures forall p :: old(Lookup(p)).Some? ==> Lookup(p) == old(Lookup(p))
      ensures forall f :: old(Resolution(f)).Success? ==> Resolution(f) == old(Resolution(f))
      ensures var parts := Split(name);
        if parts[0] in old(services) then
          && err == Some(ServiceAlreadyDefined(parts[0] + [Sep]))
          && services == old(services) && Repr == old(Repr)
        else
          && node != null && Hung(chain, parts) && node == chain[|chain| - 1] && node.services == map[]
          && fresh(NodesOf(chain)) && Repr == old(Repr) + NodesOf(chain)
          && services == old(services)[parts[0] := chain[0]]
          && Lookup(parts) == Some(node)
          && node.rcvr == Some(rcvr) && node.rcvrType == Some(rcvr.rtype)
          && (node.name, node.methods, err) == Setup(rcvr, name, parts[|parts| - 1])
      ensures err.None? ==>
        forall m :: m in node.methods && Sep !in m ==>
          Resolution(name + [Sep] + m) == Success((node, node.methods[m]))
    {
      var res;
      res, chain := RegistryService(name);
      KeepsResolutions();
      if res.Failure? {
        err, node := Some(res.error), null;
      } else {
        var s := res.value;
        assert s in NodesOf(chain);
        node := s;
        err := AttachToChain(s, chain, Split(name), rcvr, name);
        if err.None? {
          RoundTrips(name, s);
        }
      }
    }

    /** `get`: resolves "path.Method" by walking the tree along the path and
        looking Method up in the node it reaches. */
    method Get(fullName: string) returns (r: Result<(Service, ServiceMethod)>)
      requires Valid()
      ensures r == Resolution(fullName)
    {
      var parts := Split(fullName);
      if |parts| < 2 {
        return Failure(IllFormedRequest(fullName));
      }
      var methodName := parts[|parts| - 1];
      var service: Service? := null;
      var index := 0;
      while index < |parts| - 1
        invariant 0 <= index <= |parts| - 1
        invariant index == 0 <==> service == null
        invariant index > 0 ==> Lookup(parts[..index]) == Some(service)
      {
        var part := parts[index];
        if service == null {
          service := if part in services then services[part] else null;
        } else {
          LookupAppend(parts[..index], [part]);
          service := if part in service.services then service.services[part] else null;
        }
        PrefixSnoc(parts, index);
        if service == null {
          LookupAppend(parts[..index + 1], parts[index + 1..|parts| - 1]);
          PrefixConcat(parts, index + 1, |parts| - 1);
          assert Lookup(parts[..|parts| - 1]).None?;
          return Failure(ServiceNotFound(fullName));
        }
        index := index + 1;
      }
      assert Lookup(parts[..|parts| - 1]) == Some(service) && service in MethodTables();
      if methodName !in service.methods {
        return Failure(MethodNotFound(fullName));
      }
      r := Success((service, service.methods[methodName]));
    }
  }
}
