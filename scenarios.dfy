/** Worked registrations: a calculator receiver with two handlers, one method
    of the wrong shape and one unexported method, registered under various
    names, and what `get` answers afterwards. */
module Scenarios {
  import opened GoStrings
  import opened Reflection
  import opened Rpc

  const Args: Type := Named("Args", "main")
  const Reply: Type := Named("Reply", "main")
  const CalculatorType: Type := Ptr(Named("Calculator", "main"))

  /** `func (c *Calculator) <name>(r *http.Request, args *Args, reply *Reply) error` */
  function Handler(name: string): Method {
    Method(name, "", [CalculatorType, Ptr(RequestType), Ptr(Args), Ptr(Reply)], [ErrorType])
  }

  const Add: Method := Handler("Add")
  const Sub: Method := Handler("Sub")
  /** Exported, but takes no *http.Request. */
  const Helper: Method := Method("Helper", "", [CalculatorType, Ptr(Args), Ptr(Reply)], [ErrorType])
  /** Has the right shape, but is not exported. Go does not enumerate such
      a method for a concrete type; it is here to exercise the export check,
      which the model keeps as written. */
  const Reset: Method := Method("reset", "main", [CalculatorType, Ptr(RequestType), Ptr(Args), Ptr(Reply)], [ErrorType])

  const Calculator: Receiver := Receiver(1, CalculatorType, [Add, Helper, Sub, Reset])

  /** Only the two handlers make it into the method table. */
  lemma CalculatorTable()
    ensures Collect(Calculator.methodSet) == map["Add" := Entry(Add), "Sub" := Entry(Sub)]
  {
    assert Base(Ptr(Args)) == Args && IsExported(Args.name);
    assert Base(Ptr(Reply)) == Reply && IsExported(Reply.name);
    assert Suitable(Add) && Suitable(Sub) && !Suitable(Helper) && !Suitable(Reset);
    var ms := Calculator.methodSet;
    assert [Add][..0] == [];
    assert Collect([Add]) == map["Add" := Entry(Add)];
    assert [Add, Helper][..1] == [Add];
    assert Collect([Add, Helper]) == map["Add" := Entry(Add)];
    assert [Add, Helper, Sub][..2] == [Add, Helper];
    assert Collect([Add, Helper, Sub]) == map["Add" := Entry(Add), "Sub" := Entry(Sub)];
    assert ms[..3] == [Add, Helper, Sub];
  }

  /** A receiver none of whose methods qualifies. */
  const Broken: Receiver := Receiver(2, CalculatorType, [Helper, Reset])

  lemma BrokenTable()
    ensures Collect(Broken.methodSet) == map[]
  {
    assert !Suitable(Helper) && !Suitable(Reset);
    assert [Helper][..0] == [];
    assert Collect([Helper]) == map[];
    assert [Helper, Reset][..1] == [Helper];
  }

  /** None of the names used below contains a ".". */
  lemma DotFreeNames()
    ensures Sep !in "Calculator" && Sep !in "Add"
  {
  }

  /** A dot-free name is a single segment. */
  lemma SplitOne(a: string)
    requires Sep !in a
    ensures Split(a) == [a]
  {
    assert DotFree([a]);
    SplitJoin([a]);
  }

  /** Two dot-free names joined by "." are two segments. */
  lemma SplitTwo(a: string, b: string)
    requires Sep !in a && Sep !in b
    ensures Split(a + [Sep] + b) == [a, b]
  {
    SplitOne(a);
    SplitAppend(a, b);
  }

  /** Registering the calculator as "Math" derives the node name "Math" and
      keeps the two handlers. */
  lemma MathSetup()
    ensures Split("Math") == ["Math"]
    ensures Setup(Calculator, "Math", "Math") == ("Math", map["Add" := Entry(Add), "Sub" := Entry(Sub)], None)
  {
    CalculatorTable();
    SplitOne("Math");
  }

  /** Registering the calculator as "Math" in an empty registry succeeds and
      makes "Math.Add" resolve to the new node and the Add handler. */
  method RegisterMath(registry: ServiceMap) returns (err: Option<Error>, ghost node: Service?)
    requires registry.Valid() && registry.services == map[]
    modifies registry
    ensures registry.Valid() && err == None
    ensures registry.Resolution("Math" + [Sep] + "Add") == Success((node, Entry(Add)))
  {
    MathSetup();
    ghost var chain: seq<Service>;
    err, node, chain := registry.Register(Calculator, "Math");
    assert "Add" in node.methods && node.methods["Add"] == Entry(Add);
  }

  /** The node registered as "Math" has no children, so "Math.Add.Extra"
      names no service, although "Math" has a method "Add". */
  method RegisterMathThenDeeper(registry: ServiceMap) returns (err: Option<Error>)
    requires registry.Valid() && registry.services == map[]
    modifies registry
    ensures registry.Valid() && err == None
    ensures var request := "Math" + [Sep] + "Add" + [Sep] + "Extra";
      registry.Resolution(request) == Failure(ServiceNotFound(request))
  {
    MathSetup();
    ghost var node, chain;
    err, node, chain := registry.Register(Calculator, "Math");
    registry.BelowLeaf("Math", "Add", "Extra", node);
  }

  /** Registering the calculator as "Math.Calc" splits into "Math" and
      "Calc" and keeps the two handlers. */
  lemma NestedSetup()
    ensures Split("Math" + [Sep] + "Calc") == ["Math", "Calc"] && Split("Math") == ["Math"]
    ensures Setup(Calculator, "Math" + [Sep] + "Calc", "Calc") == ("Calc", map["Add" := Entry(Add), "Sub" := Entry(Sub)], None)
  {
    CalculatorTable();
    SplitTwo("Math", "Calc");
    SplitOne("Math");
  }

  /** Registering the calculator as "Math.Calc" leaves the node for "Math"
      without methods: "Math.Add" finds the service "Math", but no method. */
  method RegisterNested(registry: ServiceMap) returns (err: Option<Error>)
    requires registry.Valid() && registry.services == map[]
    modifies registry
    ensures registry.Valid() && err == None
    ensures var request := "Math" + [Sep] + "Add";
      registry.Resolution(request) == Failure(MethodNotFound(request))
  {
    NestedSetup();
    ghost var node, chain;
    err, node, chain := registry.Register(Calculator, "Math" + [Sep] + "Calc");
    assert Bare(chain[0], "Math") && registry.Lookup(["Math"]) == Some(chain[0]);
    registry.MissingMethod("Math", "Add", chain[0]);
  }

  /** Registering the calculator as "Math", then asking for "Math.Add". */
  method RegisterThenGet() returns (err: Option<Error>, r: Result<(Service, ServiceMethod)>)
    ensures err == None
    ensures r.Success? && r.value.1 == Entry(Add)
  {
    var registry := new ServiceMap();
    ghost var node;
    err, node := RegisterMath(registry);
    r := registry.Get("Math" + [Sep] + "Add");
  }

  /** "A.B" and "A.C" cannot both be registered: only the first segment is
      checked, and the second path finds "A" taken. */
  method SharedFirstSegment() returns (first: Result<Service>, second: Result<Service>)
    ensures first.Success?
    ensures second == Failure(ServiceAlreadyDefined("A" + [Sep]))
  {
    var registry := new ServiceMap();
    ghost var chain;
    SplitTwo("A", "B");
    SplitTwo("A", "C");
    first, chain := registry.RegistryService("A" + [Sep] + "B");
    second, chain := registry.RegistryService("A" + [Sep] + "C");
  }

  /** A receiver with no qualifying method, registered as "Empty", is
      refused, but "Empty" stays a root key. */
  method RegisterBroken(registry: ServiceMap) returns (err: Option<Error>)
    requires registry.Valid() && registry.services == map[]
    modifies registry
    ensures registry.Valid() && "Empty" in registry.services
    ensures err == Some(NoSuitableMethods("Empty"))
  {
    ghost var node;
    BrokenTable();
    SplitOne("Empty");
    assert Setup(Broken, "Empty", "Empty") == ("Empty", map[], Some(NoSuitableMethods("Empty")));
    ghost var chain: seq<Service>;
    err, node, chain := registry.Register(Broken, "Empty");
  }

  /** After the refused registration, "Empty.Calc" is refused too, although
      nothing usable was ever registered under "Empty". */
  method FailedRegistrationStays() returns (first: Option<Error>, second: Option<Error>)
    ensures first == Some(NoSuitableMethods("Empty"))
    ensures second == Some(ServiceAlreadyDefined("Empty" + [Sep]))
  {
    var registry := new ServiceMap();
    ghost var node;
    first := RegisterBroken(registry);
    SplitTwo("Empty", "Calc");
    ghost var chain: seq<Service>;
    second, node, chain := registry.Register(Calculator, "Empty" + [Sep] + "Calc");
  }

  /** Registering the calculator under the empty name derives the node name
      from the receiver's type. */
  lemma UnnamedSetup()
    ensures Split("") == [""]
    ensures Setup(Calculator, "", "") == ("Calculator", map["Add" := Entry(Add), "Sub" := Entry(Sub)], None)
    ensures [] + [Sep] + "Add" == [Sep] + "Add"
  {
    CalculatorTable();
  }

  /** Registering the calculator under the empty name: the node is named
      after the receiver's type, but the root key is "". */
  method RegisterUnnamed(registry: ServiceMap) returns (err: Option<Error>, ghost node: Service?)
    requires registry.Valid() && registry.services == map[]
    modifies registry
    ensures registry.Valid() && err == None
    ensures node != null && node.name == "Calculator"
    ensures "Calculator" !in registry.services
    ensures registry.Resolution([Sep] + "Add") == Success((node, Entry(Add)))
  {
    UnnamedSetup();
    ghost var chain: seq<Service>;
    err, node, chain := registry.Register(Calculator, "");
    assert "Add" in node.methods && node.methods["Add"] == Entry(Add);
  }

  /** A request whose one-segment path is not a root key names no service. */
  lemma UnknownRoot(registry: ServiceMap, path: string, methodName: string)
    requires Sep !in path && Sep !in methodName && path !in registry.services
    ensures registry.Resolution(path + [Sep] + methodName) == Failure(ServiceNotFound(path + [Sep] + methodName))
  {
    SplitTwo(path, methodName);
    assert [path, methodName][..1] == [path];
  }

  /** The unnamed service answers to ".Add" ... */
  method UnnamedByKey() returns (r: Result<(Service, ServiceMethod)>)
    ensures r.Success? && r.value.1 == Entry(Add)
  {
    var registry := new ServiceMap();
    var err: Option<Error>;
    ghost var node;
    err, node := RegisterUnnamed(registry);
    r := registry.Get([Sep] + "Add");
  }

  /** ... and not to "Calculator.Add", although its node is named
      "Calculator". */
  method UnnamedByTypeName() returns (r: Result<(Service, ServiceMethod)>)
    ensures r == Failure(ServiceNotFound("Calculator" + [Sep] + "Add"))
  {
    var registry := new ServiceMap();
    var err: Option<Error>;
    ghost var node;
    err, node := RegisterUnnamed(registry);
    DotFreeNames();
    UnknownRoot(registry, "Calculator", "Add");
    r := registry.Get("Calculator" + [Sep] + "Add");
  }
}
