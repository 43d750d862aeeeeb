/**
 * Concrete runs of the members that model the code as written, on the two
 * services of sm_test.go: `foo`, whose `Start(ctx, BarService) error` needs
 * a `BarService` and which has no `Close`, and `bar`, whose
 * `Start(ctx) error` needs nothing and whose `Close() error` exists.  Each
 * run exhibits one place where the code does not do what it evidently
 * means to; the corrected members it is set against are the ones the rest
 * of the model uses.
 */
module Findings {
  import opened Wrappers
  import opened Reflect
  import opened Errors
  import opened Service
  import opened Dag
  import opened Graph
  import opened Registry
  import Schedule

  const FooService: Iface := Iface("FooService")
  const BarService: Iface := Iface("BarService")

  const Foo: Inst := Inst(1, "*foo", {FooService}, Shape(Some(Signature([ContextType, Interface(BarService)], [ErrorType])), None))
  const Bar: Inst := Inst(2, "*bar", {BarService}, Shape(Some(Signature([ContextType], [ErrorType])), Some(Signature([], [ErrorType]))))

  /** sm_test.go's registry once both services are registered. */
  const Bound: map<Iface, Inst> := map[FooService := Foo, BarService := Bar]
  const Declared: map<Inst, seq<Iface>> := map[Foo := [BarService], Bar := []]

  /** The arena graph should build for sm_test.go: `foo` (node 0) depends on `bar` (node 1). */
  const Arena: seq<Node> := [Node(Foo, [1], []), Node(Bar, [], [0])]

  /** The label graph gives the node it creates for `foo`'s dependency `BarService`. */
  function DependencyLabel(labels: Labels): Inst
  {
    if labels == ByKey then Bar else Foo
  }

  /** The arena and index graph builds for sm_test.go, visiting `foo` first. */
  function Built(labels: Labels): Build
  {
    Build([Node(Foo, [1], []), Node(DependencyLabel(labels), [], [0])], map[Foo := 0, Bar := 1])
  }

  /** Visiting `foo` first creates its node, then the node of `bar` with its label, linked. */
  lemma FooVisit(labels: Labels)
    ensures Visit(Bound, Declared, Build([], map[]), Foo, labels) == Ok(Built(labels))
  {
    var b0 := Build([], map[]);
    var b1 := Build([Node(Foo, [], [])], map[Foo := 0]);
    var l := DependencyLabel(labels);
    assert NodeFor(b0, Foo, Foo) == (b1, 0);
    var g1 := [Node(Foo, [], []), Node(l, [], [])];
    assert Foo != Bar && Bar !in b1.index;
    assert b1.g + [Node(l, [], [])] == g1;
    assert b1.index[Bar := 1] == map[Foo := 0, Bar := 1];
    assert NodeFor(b1, Bar, l) == (Build(g1, map[Foo := 0, Bar := 1]), 1);
    LinkPair(Foo, l);
    assert Edge(Bound, b1, Foo, 0, BarService, labels) == Ok(Built(labels));
    assert AddDeps(Bound, b1, Foo, 0, [], labels) == Ok(b1);
    assert [BarService][..0] == [];
    assert AddDeps(Bound, b1, Foo, 0, [BarService], labels) == Ok(Built(labels));
    assert Declared[Foo] == [BarService];
  }

  /** graph on sm_test.go's registry, visiting `foo` and then `bar`. */
  lemma BuiltFromRegistry(labels: Labels)
    ensures Services(Bound, Declared, [Foo, Bar], labels) == Ok(Built(labels))
  {
    assert [Foo, Bar][..1] == [Foo];
    assert [Foo][..0] == [];
    FooVisit(labels);
    assert Services(Bound, Declared, [Foo], labels) == Ok(Built(labels));
    assert NodeFor(Built(labels), Bar, Bar) == (Built(labels), 1);
    assert Visit(Bound, Declared, Built(labels), Bar, labels) == Ok(Built(labels));
  }

  /**
   * init.go:49-51 labels a node created for a dependency with the
   * dependent.  Visiting `foo` first, `bar`'s node is labelled `foo`, so
   * starting it calls `foo.Start` with a single argument and panics.
   */
  lemma MislabelledDependencyPanics(env: Env)
    ensures Services(Bound, Declared, [Foo, Bar], AsWritten).Ok?
    ensures var g := Services(Bound, Declared, [Foo, Bar], AsWritten).b.g;
      |g| == 2 && g[1].inst == Foo && InRange(g, g[1].deps) && StartOutcomeOf(g, 1, env) == Panicked
  {
    BuiltFromRegistry(AsWritten);
    var g := Built(AsWritten).g;
    assert g[1] == Node(Foo, [], [0]);
  }

  /** The same registry, labelling each node with its own instance, builds the intended arena. */
  lemma KeyedArenaIsIntended()
    ensures Services(Bound, Declared, [Foo, Bar], ByKey) == Ok(Build(Arena, map[Foo := 0, Bar := 1]))
  {
    BuiltFromRegistry(ByKey);
  }

  /** Linking node 0 to node 1 of a fresh pair of nodes. */
  lemma LinkPair(a: Inst, b: Inst)
    ensures Link([Node(a, [], []), Node(b, [], [])], 0, 1) == [Node(a, [1], []), Node(b, [], [0])]
  {
    var g := [Node(a, [], []), Node(b, [], [])];
    LinkEdges(g, 0, 1);
    var r := Link(g, 0, 1);
    assert r[0] == Node(a, [1], []);
    assert r[1] == Node(b, [], [0]);
  }

  /** `foo` passes the checks of TryRegister and declares one dependency, `BarService`. */
  lemma FooShape()
    ensures ShapeCheck(Foo.shape) == Deps([BarService])
  {
    var ins := Foo.shape.start.value.ins;
    assert ins[1..] == [Interface(BarService)];
    assert [Interface(BarService)][..0] == [];
    assert ParamIfaces([]) == Deps([]);
    assert ParamIfaces([Interface(BarService)]) == Deps([BarService]);
  }

  /** With only `foo` registered, graph stops at its `BarService` parameter. */
  lemma FooAloneFails(labels: Labels)
    ensures Services(map[FooService := Foo], map[Foo := [BarService]], [Foo], labels) == Fail(MissingDependency(Foo, BarService))
  {
    var impls := map[FooService := Foo];
    var deps := map[Foo := [BarService]];
    var b0 := Build([], map[]);
    var b1 := Build([Node(Foo, [], [])], map[Foo := 0]);
    assert [Foo][..0] == [] && [BarService][..0] == [];
    assert BarService !in impls;
    assert NodeFor(b0, Foo, Foo) == (b1, 0);
    assert AddDeps(impls, b1, Foo, 0, [BarService], labels) == Fail(MissingDependency(Foo, BarService));
    assert Visit(impls, deps, b0, Foo, labels) == Fail(MissingDependency(Foo, BarService));
  }

  lemma ArenaIsAcyclic()
    ensures ValidArena(Arena) && Acyclic(Arena)
  {
    var order := [1, 0];
    assert order[..1] == [1];
    assert DepsBefore(Arena, order, 0);
    assert DepsBefore(Arena, order, 1);
    assert TopoOrder(Arena, order);
    forall i, j | 0 <= i < 2 && 0 <= j < 2 ensures multiset(Arena[i].deps)[j] == multiset(Arena[j].rdeps)[i] {
      assert multiset(Arena[0].deps) == multiset{1} && multiset(Arena[1].rdeps) == multiset{0};
      assert multiset(Arena[1].deps) == multiset{} && multiset(Arena[0].rdeps) == multiset{};
    }
    assert Inverse(Arena);
    assert ValidArena(Arena);
    assert Acyclic(Arena);
  }

  /**
   * On a graph error the explicit unlock at init.go:72 releases the
   * registry's mutex, then the deferred unlock registered at init.go:68
   * releases it again: registering `foo` without `bar` and finishing is a
   * fatal runtime error instead of the missing-dependency error.
   */
  method FinishWithoutBar() returns (out: Handover)
    ensures out.Fatal?
  {
    var init := new Init();
    var reg := init.TryRegister(PointerTo(Interface(FooService), Foo));
    FooShape();
    assert init.dependencies == map[Foo := [BarService]] && init.implementations == map[FooService := Foo];
    FooAloneFails(AsWritten);
    out := init.Finish([Foo]);
  }

  /** The corrected finish reports the missing dependency and leaves the registry as it was. */
  method FinishIntendedWithoutBar() returns (out: Handover)
    ensures out == Refused(MissingDependency(Foo, BarService))
  {
    var init := new Init();
    var reg := init.TryRegister(PointerTo(Interface(FooService), Foo));
    FooShape();
    assert init.dependencies == map[Foo := [BarService]] && init.implementations == map[FooService := Foo];
    FooAloneFails(ByKey);
    out := init.FinishIntended([Foo]);
  }

  /**
   * manage.go:157-161 keeps the results of the drain the wrong way round:
   * when the start that failed was the only one in flight, the ErrService
   * handed back is empty, and calling ErrService.Error on it panics.
   */
  method LoneFailureAsWritten(env: Env, show: Option<Error> -> string) returns (d: Schedule.Drained, text: Rendering)
    ensures d.Drained? && d.startErr == Service(map[])
    ensures text.RenderPanic?
  {
    var g := [Node(Bar, [], [])];
    d := Schedule.Drain(g, [], false, env);
    assert Schedule.SucceededInsts(g, [], env) == {};
    assert d.Drained?;
    assert d.startErr.Service? && d.startErr.errs.Keys == {};
    assert d.startErr.errs == map[];
    assert Enumerates([], d.startErr.errs.Keys);
    text := ServiceMessage(d.startErr.errs, [], show);
  }

  /** The corrected drain records the failure that triggered it, and the error renders. */
  method LoneFailureIntended(env: Env, show: Option<Error> -> string) returns (d: Schedule.Drained, text: Rendering)
    ensures d.Drained? && d.startErr.Service? && d.startErr.errs.Keys == {Bar}
    ensures text.Rendered?
  {
    var g := [Node(Bar, [], [])];
    d := Schedule.DrainIntended(g, 0, Failure(1), [], false, env);
    assert Schedule.FailedInsts(g, [], env) == {};
    assert d.Drained?;
    assert d.startErr.errs.Keys == {Bar};
    assert Enumerates([Bar], d.startErr.errs.Keys);
    text := ServiceMessage(d.startErr.errs, [Bar], show);
  }

  /**
   * manage.go:97-99 releases a stopped node's dependents instead of its
   * dependencies: on sm_test.go's arena only `foo` is stopped, `bar.Close`
   * never runs, and its failure goes unreported.
   */
  method StopSkipsDependency(env: Env) returns (err: Option<Error>, ghost closed: seq<nat>)
    requires env.closeCall(Bar).Some?
    ensures 0 in closed && 1 !in closed
    ensures err == None
  {
    err, closed := Schedule.Stop(Arena, [0, 1], env);
    assert 0 in closed;
    Schedule.StopErrsExact(Arena, closed, env);
    assert StopService(Foo, env) == None;
    ghost var errs := Schedule.StopErrs(Arena, closed, env);
    assert forall p :: p !in errs;
    assert errs == map[];
  }

  /** The corrected stop closes both, `foo` before `bar`, and reports `bar`'s failure. */
  method StopReachesDependency(env: Env) returns (err: Option<Error>, ghost closed: seq<nat>)
    requires env.closeCall(Bar).Some?
    ensures 0 in closed && 1 in closed
    ensures err.Some?
  {
    ArenaIsAcyclic();
    err, closed := Schedule.StopIntended(Arena, [0, 1], env);
    assert 0 in [0, 1] && 1 in [0, 1];
    Schedule.StopErrsExact(Arena, closed, env);
    ghost var k :| 0 <= k < |closed| && closed[k] == 1;
    assert Arena[closed[k]].inst == Bar && StopService(Bar, env).Some?;
    assert Bar in Schedule.StopErrs(Arena, closed, env);
  }
}
