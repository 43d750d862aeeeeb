/**
 * init.go: the registry.  `Init` keeps two maps, interface type ->
 * instance (`implementations`) and instance -> the interface types its
 * `Start` takes after the context (`dependencies`); `TryRegister` checks a
 * new instance's method shapes and fills both, `finish` builds the node
 * arena and hands it to a `Manager`, after which both maps are nil.
 */
module Registry {
  import opened Wrappers
  import opened Reflect
  import opened Errors
  import opened Service
  import opened Dag
  import opened Graph
  import opened ServiceManager
  import Schedule

  /**
   * What `TryRegister` is handed: `reflect.TypeOf(iface)` and, through the
   * pointer, the instance.  `Nil` is a nil argument, `NilPointer` a nil
   * pointer, and `PointerToNil` a pointer to a variable holding nil.
   */
  datatype Reflected =
    | Nil
    | NotPointer
    | PointerTo(elem: Type, value: Inst)
    | NilPointer(elem: Type)
    | PointerToNil(elem: Type)

  /** Go's type system: a variable of an interface type only holds an instance that implements it. */
  type Given = r: Reflected | r.PointerTo? && r.elem.Interface? ==> r.elem.iface in r.value.ifaces
    witness NotPointer

  /** A call that returns an error or panics. */
  datatype Call = Returns(err: Option<Error>) | Panics

  /** The dependency types a method shape declares, or why the shape is refused. */
  datatype Checked = Deps(ifaces: seq<Iface>) | Rejected(err: Error)

  // ----------------------------------------------------------- shape checks

  /** Start's parameters after the context: their interface types, or the first one that is not an interface. */
  function ParamIfaces(ins: seq<Type>): Checked
  {
    if ins == [] then Deps([])
    else
      match ParamIfaces(ins[..|ins| - 1])
      case Rejected(e) => Rejected(e)
      case Deps(ds) =>
        var t := ins[|ins| - 1];
        if t.Interface? then Deps(ds + [t.iface]) else Rejected(DependencyNotInterface(t))
  }

  lemma {:induction false} ParamIfacesMeaning(ins: seq<Type>)
    ensures ParamIfaces(ins).Deps? <==> forall k :: 0 <= k < |ins| ==> ins[k].Interface?
    ensures ParamIfaces(ins).Deps? ==>
      |ParamIfaces(ins).ifaces| == |ins| && forall k :: 0 <= k < |ins| ==> ins[k] == Interface(ParamIfaces(ins).ifaces[k])
    ensures ParamIfaces(ins).Rejected? ==>
      exists k :: && 0 <= k < |ins| && !ins[k].Interface? && (forall j :: 0 <= j < k ==> ins[j].Interface?)
                  && ParamIfaces(ins).err == DependencyNotInterface(ins[k])
  {
    if ins != [] {
      var front := ins[..|ins| - 1];
      ParamIfacesMeaning(front);
      assert forall k :: 0 <= k < |front| ==> front[k] == ins[k];
    }
  }

  /** Once a prefix of the parameters is refused, so are all of them, for the same reason. */
  lemma {:induction false} ParamIfacesRejectedPrefix(ins: seq<Type>, n: nat)
    requires n <= |ins| && ParamIfaces(ins[..n]).Rejected?
    ensures ParamIfaces(ins) == ParamIfaces(ins[..n])
  {
    if n < |ins| {
      var front := ins[..|ins| - 1];
      assert front[..n] == ins[..n];
      ParamIfacesRejectedPrefix(front, n);
    } else {
      assert ins[..n] == ins;
    }
  }

  /**
   * The checks TryRegister makes on a new instance (init.go:139-159):
   * `Start` returns exactly `error`, takes a context first and only
   * interfaces after it; `Close`, when present, is `func() error`.
   */
  function ShapeCheck(shape: Shape): Checked
  {
    var started :=
      match shape.start
      case None => Deps([])
      case Some(sig) =>
        if |sig.outs| != 1 || sig.outs[0] != ErrorType then Rejected(StartResultNotError)
        else if |sig.ins| == 0 || sig.ins[0] != ContextType then Rejected(StartWithoutContext)
        else ParamIfaces(sig.ins[1..]);
    if started.Rejected? then started
    else if shape.close.Some? && !IsCloserSignature(shape.close.value) then Rejected(BadCloseSignature(shape.close.value))
    else started
  }

  /** A shape that passes declares exactly Start's parameters after the context, as interfaces. */
  lemma ShapeCheckMeaning(shape: Shape)
    ensures ShapeCheck(shape).Deps? <==>
      && (shape.start.Some? ==>
            && shape.start.value.outs == [ErrorType]
            && |shape.start.value.ins| > 0 && shape.start.value.ins[0] == ContextType
            && forall k :: 1 <= k < |shape.start.value.ins| ==> shape.start.value.ins[k].Interface?)
      && (shape.close.Some? ==> IsCloserSignature(shape.close.value))
    ensures ShapeCheck(shape).Deps? && shape.start.None? ==> ShapeCheck(shape).ifaces == []
    ensures ShapeCheck(shape).Deps? && shape.start.Some? ==>
      && NumIn(shape.start.value) == |ShapeCheck(shape).ifaces| + 1
      && forall k :: 0 <= k < |ShapeCheck(shape).ifaces| ==>
           shape.start.value.ins[k + 1] == Interface(ShapeCheck(shape).ifaces[k])
  {
    if shape.start.Some? {
      var sig := shape.start.value;
      if |sig.ins| > 0 {
        ParamIfacesMeaning(sig.ins[1..]);
        assert forall k :: 1 <= k < |sig.ins| ==> sig.ins[k] == sig.ins[1..][k - 1];
      }
    }
  }

  /**
   * A node whose instance passed the checks and whose `deps` has one entry
   * per declared type, each implementing that type, never makes
   * service.start panic: the argument vector is exactly as long as `Start`
   * takes and `Call` accepts every argument.
   */
  lemma CheckedStartDoesNotPanic(g: seq<Node>, i: nat, env: Env)
    requires i < |g| && InRange(g, g[i].deps)
    requires ShapeCheck(g[i].inst.shape).Deps? && |g[i].deps| == |ShapeCheck(g[i].inst.shape).ifaces|
    requires forall j :: 0 <= j < |g[i].deps| ==> ShapeCheck(g[i].inst.shape).ifaces[j] in g[g[i].deps[j]].inst.ifaces
    ensures StartOutcomeOf(g, i, env).Returned?
  {
    ShapeCheckMeaning(g[i].inst.shape);
    var shape := g[i].inst.shape;
    if shape.start.Some? {
      var ins := shape.start.value.ins;
      var args := [Ctx] + ArgsOf(DepLabels(g, i));
      forall k | 0 <= k < |args| ensures Accepts(ins[k], args[k]) {
        if k > 0 {
          assert args[k] == Val(g[g[i].deps[k - 1]].inst);
        }
      }
    }
  }

  // --------------------------------------------------------- the registry

  /** The two maps, and whether `finish` has set them to nil. */
  datatype Registry = Registry(implementations: map<Iface, Inst>, dependencies: map<Inst, seq<Iface>>, finished: bool)

  /**
   * What the registry keeps true: every bound instance has a dependency
   * entry and implements the interface it is bound to, each entry is what the checks extracted from the instance's
   * shape, and nil maps are empty.
   */
  ghost predicate Consistent(r: Registry)
  {
    && r.implementations.Values <= r.dependencies.Keys
    && (forall t :: t in r.implementations ==> t in r.implementations[t].ifaces)
    && (forall v :: v in r.dependencies ==> ShapeCheck(v.shape) == Deps(r.dependencies[v]))
    && (r.finished ==> r.implementations == map[] && r.dependencies == map[])
  }

  /**
   * TryRegister as a transition: refuse anything but a pointer to an
   * interface; a bound interface accepts only the instance it holds; a new
   * instance must pass the shape checks, and recording it in nil maps
   * panics; an instance already known only gains the new binding.
   */
  function TryRegisterStep(r: Registry, given: Given): (Call, Registry)
  {
    if given.Nil? then (Panics, r)  // Kind of a nil reflect.Type
    else if given.NotPointer? || !given.elem.Interface? then (Returns(Some(NotInterfacePointer)), r)
    else if given.NilPointer? then (Panics, r)  // Elem of the zero Value
    else if given.PointerToNil? then (Panics, r)  // Type or MethodByName of the zero Value
    else
      var ty := given.elem.iface;
      var v := given.value;
      if ty in r.implementations then
        if r.implementations[ty] == v then (Returns(None), r)
        else (Returns(Some(DuplicateService(v, r.implementations[ty], ty))), r)
      else if v in r.dependencies then (Returns(None), r.(implementations := r.implementations[ty := v]))
      else
        match ShapeCheck(v.shape)
        case Rejected(e) => (Returns(Some(e)), r)
        case Deps(ds) =>
          if r.finished then (Panics, r)
          else (Returns(None), r.(implementations := r.implementations[ty := v], dependencies := r.dependencies[v := ds]))
  }

  /** TryRegister keeps the registry consistent. */
  lemma TryRegisterConsistent(r: Registry, given: Given)
    requires Consistent(r)
    ensures Consistent(TryRegisterStep(r, given).1)
  {
    var r' := TryRegisterStep(r, given).1;
    if given.PointerTo? && given.elem.Interface? && given.elem.iface !in r.implementations {
      assert r'.implementations.Values <= r.implementations.Values + {given.value};
    }
  }

  /**
   * Only a successful TryRegister changes anything, and then the interface
   * is bound to the given instance; an error or a panic leaves both maps
   * as they were.
   */
  lemma TryRegisterEffect(r: Registry, given: Given)
    requires Consistent(r)
    ensures TryRegisterStep(r, given).0 != Returns(None) ==> TryRegisterStep(r, given).1 == r
    ensures TryRegisterStep(r, given).0 == Returns(None) ==>
      && given.PointerTo? && given.elem.Interface?
      && var r' := TryRegisterStep(r, given).1;
         && r'.implementations == r.implementations[given.elem.iface := given.value]
         && (given.value in r.dependencies ==> r'.dependencies == r.dependencies)
         && (given.value !in r.dependencies ==>
               ShapeCheck(given.value.shape).Deps? &&
               r'.dependencies == r.dependencies[given.value := ShapeCheck(given.value.shape).ifaces])
  {
    if given.PointerTo? && given.elem.Interface? && given.elem.iface in r.implementations {
      assert r.implementations[given.elem.iface] in r.implementations.Values;
    }
  }

  /** Registration never overrides: a bound interface keeps its instance and a known instance its dependencies. */
  lemma TryRegisterNeverOverrides(r: Registry, given: Given, ty: Iface, v: Inst)
    ensures ty in r.implementations ==>
      var r' := TryRegisterStep(r, given).1; ty in r'.implementations && r'.implementations[ty] == r.implementations[ty]
    ensures v in r.dependencies ==>
      var r' := TryRegisterStep(r, given).1; v in r'.dependencies && r'.dependencies[v] == r.dependencies[v]
    ensures given.PointerTo? && given.elem.Interface? && given.elem.iface in r.implementations
            && r.implementations[given.elem.iface] != given.value ==>
      TryRegisterStep(r, given).0 == Returns(Some(DuplicateService(given.value, r.implementations[given.elem.iface], given.elem.iface)))
  {
  }

  /** Registering the same thing twice: the second call succeeds and changes nothing. */
  lemma TryRegisterIdempotent(r: Registry, given: Given)
    requires TryRegisterStep(r, given).0 == Returns(None)
    ensures var r' := TryRegisterStep(r, given).1; TryRegisterStep(r', given) == (Returns(None), r')
  {
  }

  /** Once `finish` has run, nothing can be registered any more: every call fails or panics. */
  lemma TryRegisterAfterFinish(r: Registry, given: Given)
    requires Consistent(r) && r.finished
    ensures TryRegisterStep(r, given).0 != Returns(None)
  {
  }

  /**
   * A nil argument, a nil pointer to an interface, or a pointer to an
   * interface variable holding nil makes TryRegister panic, whatever the
   * registry holds; a nil pointer to anything else is refused with the
   * pointer error.
   */
  lemma TryRegisterNilPanics(r: Registry, given: Given)
    ensures given.Nil? ==> TryRegisterStep(r, given) == (Panics, r)
    ensures (given.NilPointer? || given.PointerToNil?) && given.elem.Interface? ==> TryRegisterStep(r, given) == (Panics, r)
    ensures (given.NilPointer? || given.PointerToNil?) && !given.elem.Interface? ==>
      TryRegisterStep(r, given) == (Returns(Some(NotInterfacePointer)), r)
    ensures TryRegisterStep(r, given).0 == Panics && !r.finished ==>
      given.Nil? || ((given.NilPointer? || given.PointerToNil?) && given.elem.Interface?)
  {
  }

  /** No node of the arena makes service.start panic, whatever the services do. */
  ghost predicate StartsFit(g: seq<Node>)
  {
    forall i, env :: 0 <= i < |g| ==> InRange(g, g[i].deps) && StartOutcomeOf(g, i, env).Returned?
  }

  lemma InjectiveValues(index: map<Inst, nat>)
    requires Injective(index)
    ensures |index.Values| == |index.Keys|
    decreases |index.Keys|
  {
    if index != map[] {
      var k :| k in index;
      var rest := index - {k};
      InjectiveValues(rest);
      forall x | x in index.Values - {index[k]} ensures x in rest.Values {
        var k' :| k' in index && index[k'] == x;
        assert k' in rest;
      }
      assert rest.Values == index.Values - {index[k]};
      assert index[k] in index.Values;
      assert rest.Keys == index.Keys - {k};
    }
  }

  /** An injective index with as many keys as nodes reaches every node. */
  lemma IndexOnto(b: Build)
    requires Indexed(b) && Injective(b.index) && |b.index.Keys| == |b.g|
    ensures forall i :: 0 <= i < |b.g| ==> i in b.index.Values
  {
    InjectiveValues(b.index);
    var vals: set<nat> := b.index.Values;
    assert vals <= Range(|b.g|);
    FullSubset(vals, |b.g|);
    forall i | 0 <= i < |b.g| ensures i in b.index.Values {
      assert i in vals;
    }
  }

  /**
   * An arena with one node per registered instance of a consistent
   * registry, each labelled with its instance and linked to one node per
   * declared type, never makes service.start panic.
   */
  lemma ArenaStartsFit(impls: map<Iface, Inst>, deps: map<Inst, seq<Iface>>, b: Build)
    requires Consistent(Registry(impls, deps, false)) && Indexed(b) && ValidArena(b.g)
    requires Injective(b.index) && b.index.Keys == deps.Keys && |b.g| == |deps.Keys|
    requires forall v :: v in deps ==> Resolved(impls, b, v, deps[v]) && b.g[b.index[v]].inst == v
    ensures StartsFit(b.g)
  {
    IndexOnto(b);
    forall i, env | 0 <= i < |b.g| ensures InRange(b.g, b.g[i].deps) && StartOutcomeOf(b.g, i, env).Returned? {
      assert i in b.index.Values;
      var k :| k in b.index && b.index[k] == i;
      assert Resolved(impls, b, k, deps[k]);
      CheckedStartDoesNotPanic(b.g, i, env);
    }
    assert forall i :: 0 <= i < |b.g| ==> InRange(b.g, b.g[i].deps);
    assert forall i: nat, env :: i < |b.g| ==> StartOutcomeOf(b.g, i, env).Returned?;
  }

  /** How `Init.Start` ends: a running manager, an error, or a panic that ends the process. */
  datatype InitResult = Running(manager: Manager) | Failed(err: Error) | Aborted

  /** What `finish` hands over: a manager, an error, or a fatal runtime error. */
  datatype Handover = Handed(manager: Manager) | Refused(err: Error) | Fatal

  // ------------------------------------------------------------------ Init

  class Init {
    var implementations: map<Iface, Inst>
    var dependencies: map<Inst, seq<Iface>>
    /** Whether `finish` has set both maps to nil. */
    var finished: bool

    function State(): Registry
      reads this
    {
      Registry(implementations, dependencies, finished)
    }

    ghost predicate Valid()
      reads this
    {
      Consistent(State())
    }

    /** NewInit: both maps empty. */
    constructor ()
      ensures Valid() && State() == Registry(map[], map[], false)
    {
      implementations := map[];
      dependencies := map[];
      finished := false;
    }

    /** TryRegister: see `TryRegisterStep`. */
    method TryRegister(given: Given) returns (out: Call)
      requires Valid()
      modifies this
      ensures Valid()
      ensures (out, State()) == TryRegisterStep(old(State()), given)
    {
      TryRegisterConsistent(State(), given);
      if given.Nil? {
        return Panics;  // ty.Kind() on a nil reflect.Type
      }
      if given.NotPointer? || !given.elem.Interface? {
        return Returns(Some(NotInterfacePointer));
      }
      if given.NilPointer? {
        return Panics;  // Elem() of the zero Value
      }
      if given.PointerToNil? {
        return Panics;  // v.Type() when the interface is bound, v.MethodByName otherwise
      }
      var ty := given.elem.iface;
      var v := given.value;
      if ty in implementations {
        var vc := implementations[ty];
        if vc == v {
          return Returns(None);
        }
        return Returns(Some(DuplicateService(v, vc, ty)));
      }
      if v !in dependencies {
        var deps: seq<Iface> := [];
        if v.shape.start.Some? {
          var st := v.shape.start.value;
          if |st.outs| != 1 || st.outs[0] != ErrorType {
            return Returns(Some(StartResultNotError));
          }
          if |st.ins| == 0 || st.ins[0] != ContextType {
            return Returns(Some(StartWithoutContext));
          }
          var i := 1;
          while i < |st.ins|
            invariant 1 <= i <= |st.ins|
            invariant ParamIfaces(st.ins[1..][..i - 1]) == Deps(deps)
          {
            var argT := st.ins[i];
            assert st.ins[1..][..i] == st.ins[1..][..i - 1] + [argT];
            if !argT.Interface? {
              ParamIfacesRejectedPrefix(st.ins[1..], i);
              return Returns(Some(DependencyNotInterface(argT)));
            }
            deps := deps + [argT.iface];
            i := i + 1;
          }
          assert st.ins[1..][..i - 1] == st.ins[1..];
        }
        if v.shape.close.Some? && !IsCloserSignature(v.shape.close.value) {
          return Returns(Some(BadCloseSignature(v.shape.close.value)));
        }
        if finished {
          return Panics;  // assignment to entry in nil map
        }
        dependencies := dependencies[v := deps];
      }
      implementations := implementations[ty := v];
      out := Returns(None);
    }

    /** Register: TryRegister, panicking with its error. */
    method Register(given: Given) returns (out: Call)
      requires Valid()
      modifies this
      ensures Valid()
      ensures State() == TryRegisterStep(old(State()), given).1
      ensures out == Panics <==> TryRegisterStep(old(State()), given).0 != Returns(None)
      ensures out != Panics ==> out == Returns(None)
    {
      out := TryRegister(given);
      if out.Returns? && out.err.Some? {
        out := Panics;
      }
    }

    /**
     * graph, visiting the `dependencies` map in the order `order`, with the
     * node labelling `labels` (`AsWritten` for init.go as it stands).
     */
    method Graph(order: seq<Inst>, labels: Labels) returns (r: Outcome)
      requires Enumerates(order, dependencies.Keys)
      ensures r == Services(implementations, dependencies, order, labels)
    {
      var g: seq<Node> := [];
      var index: map<Inst, nat> := map[];
      var p := 0;
      while p < |order|
        invariant 0 <= p <= |order|
        invariant Services(implementations, dependencies, order[..p], labels) == Ok(Build(g, index))
      {
        ServicesNext(implementations, dependencies, order, labels, p);
        r := VisitOne(g, index, order[p], labels);
        if r.Fail? {
          ServicesFailStays(implementations, dependencies, order, labels, p + 1);
          return;
        }
        g, index := r.b.g, r.b.index;
        p := p + 1;
      }
      assert order[..p] == order;
      r := Ok(Build(g, index));
    }

    /** One round of the outer loop of graph: the node of `v`, then its edges. */
    method VisitOne(g0: seq<Node>, index0: map<Inst, nat>, v: Inst, labels: Labels) returns (r: Outcome)
      requires Indexed(Build(g0, index0)) && v in dependencies
      ensures r == Visit(implementations, dependencies, Build(g0, index0), v, labels)
    {
      var g, index := g0, index0;
      var s: nat;
      if v in index {
        s := index[v];
      } else {
        s := |g|;
        g := g + [Node(v, [], [])];
        index := index[v := s];
      }
      assert (Build(g, index), s) == NodeFor(Build(g0, index0), v, v);
      r := AddEdges(g, index, v, s, dependencies[v], labels);
    }

    /** The inner loop of graph: one edge per dependency type `ts` of `v`, whose node is `s`. */
    method AddEdges(g0: seq<Node>, index0: map<Inst, nat>, v: Inst, s: nat, ts: seq<Iface>, labels: Labels) returns (r: Outcome)
      requires Indexed(Build(g0, index0)) && s < |g0|
      ensures r == AddDeps(implementations, Build(g0, index0), v, s, ts, labels)
    {
      var g: seq<Node>, index: map<Inst, nat> := g0, index0;
      var q := 0;
      while q < |ts|
        invariant 0 <= q <= |ts|
        invariant AddDeps(implementations, Build(g0, index0), v, s, ts[..q], labels) == Ok(Build(g, index))
      {
        r := AddEdgeAt(Build(g0, index0), g, index, v, s, ts, labels, q);
        if r.Fail? {
          return;
        }
        g, index := r.b.g, r.b.index;
        q := q + 1;
      }
      assert ts[..q] == ts;
      r := Ok(Build(g, index));
    }

    /** Round `q` of that loop, after the first `q` types have been linked into `Build(g, index)`. */
    method AddEdgeAt(ghost b0: Build, g: seq<Node>, index: map<Inst, nat>, v: Inst, s: nat, ts: seq<Iface>, labels: Labels, q: nat)
      returns (r: Outcome)
      requires Indexed(b0) && s < |b0.g| && q < |ts|
      requires AddDeps(implementations, b0, v, s, ts[..q], labels) == Ok(Build(g, index))
      ensures r.Fail? ==> r == AddDeps(implementations, b0, v, s, ts, labels)
      ensures r.Ok? ==> r == AddDeps(implementations, b0, v, s, ts[..q + 1], labels)
    {
      AddDepsNext(implementations, b0, v, s, ts, labels, q);
      r := AddEdge(g, index, v, s, ts[q], labels);
      if r.Fail? {
        AddDepsFailStays(implementations, b0, v, s, ts, labels, q + 1);
      }
    }

    /** One round of that loop: the edge from `s` to the node bound to `t`, or the missing dependency. */
    method AddEdge(g0: seq<Node>, index0: map<Inst, nat>, v: Inst, s: nat, t: Iface, labels: Labels) returns (r: Outcome)
      requires Indexed(Build(g0, index0)) && s < |g0|
      ensures r == Edge(implementations, Build(g0, index0), v, s, t, labels)
    {
      if t !in implementations {
        return Fail(MissingDependency(v, t));
      }
      var dep := implementations[t];
      var sd: nat;
      var g, index := g0, index0;
      if dep in index {
        sd := index[dep];
      } else {
        sd := |g|;
        g := g + [Node(if labels == ByKey then dep else v, [], [])];
        index := index[dep := sd];
      }
      assert (Build(g, index), sd) == NodeFor(Build(g0, index0), dep, if labels == ByKey then dep else v);
      r := Ok(Build(Link(g, s, sd), index));
    }

    /**
     * finish as written: build the arena and hand it to a new Manager,
     * then set both maps to nil.  On a graph error the explicit `Unlock`
     * followed by the deferred one is a fatal runtime error.
     */
    method Finish(order: seq<Inst>) returns (out: Handover)
      requires Valid() && Enumerates(order, dependencies.Keys)
      modifies this
      ensures Valid()
      ensures var r := Services(old(implementations), old(dependencies), order, AsWritten);
        && (out.Fatal? <==> r.Fail?)
        && (out.Fatal? ==> State() == old(State()))
        && (out.Handed? ==>
              && fresh(out.manager) && out.manager.Valid() && !out.manager.stopped
              && out.manager.arena == r.b.g && out.manager.implementations == old(implementations)
              && State() == Registry(map[], map[], true))
      ensures !out.Refused?
    {
      var r := Graph(order, AsWritten);
      if r.Fail? {
        return Fatal;  // sync: unlock of unlocked mutex
      }
      GraphBuilt(implementations, dependencies, order, AsWritten);
      var m := new Manager(r.b.g, implementations);
      dependencies := map[];
      implementations := map[];
      finished := true;
      out := Handed(m);
    }

    /**
     * finish as evidently intended: the graph error is returned; the arena
     * labels every node with its own instance.
     */
    method FinishIntended(order: seq<Inst>) returns (out: Handover)
      requires Valid() && Enumerates(order, dependencies.Keys)
      modifies this
      ensures Valid() && !out.Fatal?
      ensures var r := Services(old(implementations), old(dependencies), order, ByKey);
        && (out.Refused? <==> r.Fail?)
        && (out.Refused? ==> out.err == r.err && State() == old(State()))
        && (out.Handed? ==>
              && fresh(out.manager) && out.manager.Valid() && !out.manager.stopped
              && out.manager.arena == r.b.g && out.manager.implementations == old(implementations)
              && StartsFit(out.manager.arena)
              && State() == Registry(map[], map[], true))
    {
      var r := Graph(order, ByKey);
      if r.Fail? {
        return Refused(r.err);
      }
      GraphBuilt(implementations, dependencies, order, ByKey);
      ArenaStartsFit(implementations, dependencies, r.b);
      var m := new Manager(r.b.g, implementations);
      dependencies := map[];
      implementations := map[];
      finished := true;
      out := Handed(m);
    }

    /**
     * Init.Start: finish, then start everything.  From a consistent
     * registry no reflection call panics (a service's own `Start` or
     * `Close` cannot panic in `Env`); it fails with the missing-dependency error
     * exactly when a declared type is unbound; otherwise, when every start
     * returns nil on an acyclic arena, it hands back a running manager
     * whose every node started after its dependencies.
     */
    method Start(order: seq<Inst>, parentCancelled: bool, env: Env)
      returns (out: InitResult, ghost g: seq<Node>, ghost started: seq<nat>, ghost closed: seq<nat>,
               ghost launched: seq<nat>, ghost after: seq<nat>)
      requires Valid() && Enumerates(order, dependencies.Keys)
      modifies this
      ensures Valid() && !out.Aborted?
      ensures var r := Services(old(implementations), old(dependencies), order, ByKey);
        && (r.Fail? <==> exists v, j :: v in old(dependencies) && 0 <= j < |old(dependencies)[v]| && old(dependencies)[v][j] !in old(implementations))
        && (r.Fail? ==> out == Failed(r.err) && State() == old(State()))
        && (r.Ok? ==>
              && g == r.b.g && ValidArena(g) && |g| == |old(dependencies)|
              && State() == Registry(map[], map[], true)
              && (!Acyclic(g) ==> out.Failed? && out.err.Cycle?)
              && Schedule.LaunchedAfterDeps(g, launched, after, started)
              && (out.Running? ==> fresh(out.manager) && out.manager.Valid() && out.manager.arena == g && TopoOrder(g, started))
              && (out.Failed? && Acyclic(g) ==> Schedule.StartFailed(g, out.err, launched, started, closed, parentCancelled, env))
              && (Acyclic(g) && (forall i :: 0 <= i < |g| ==> StartOutcomeOf(g, i, env) == Returned(None)) ==> out.Running?))
    {
      GraphFails(implementations, dependencies, order, ByKey);
      GraphBuilt(implementations, dependencies, order, ByKey);
      var h := FinishIntended(order);
      if h.Refused? {
        return Failed(h.err), [], [], [], [], [];
      }
      g := h.manager.arena;
      out, started, closed, launched, after := Launch(h.manager, parentCancelled, env);
    }
  }

  /**
   * The second half of Init.Start: start a fresh manager whose arena never
   * makes service.start panic inside reflection, and keep it only when every
   * start succeeded.  `Aborted` is ruled out because `Env` gives a value for
   * every `Start` and `Close`.
   */
  method Launch(m: Manager, parentCancelled: bool, env: Env)
    returns (out: InitResult, ghost started: seq<nat>, ghost closed: seq<nat>, ghost launched: seq<nat>, ghost after: seq<nat>)
    requires m.Valid() && !m.stopped && StartsFit(m.arena)
    ensures !out.Aborted?
    ensures Schedule.LaunchedAfterDeps(m.arena, launched, after, started)
    ensures out.Running? ==> out.manager == m && TopoOrder(m.arena, started)
    ensures !Acyclic(m.arena) ==> out.Failed? && out.err.Cycle?
    ensures out.Failed? && Acyclic(m.arena) ==> Schedule.StartFailed(m.arena, out.err, launched, started, closed, parentCancelled, env)
    ensures Acyclic(m.arena) && (forall i :: 0 <= i < |m.arena| ==> StartOutcomeOf(m.arena, i, env) == Returned(None)) ==>
      out.Running?
  {
    var r;
    r, started, closed, launched, after := m.Start(parentCancelled, env);
    if r.Crashed? {
      return Aborted, started, closed, launched, after;
    }
    if r.err.Some? {
      return Failed(r.err.value), started, closed, launched, after;
    }
    out := Running(m);
  }

  /** One more visited instance: its node and edges added to what the ones before it built. */
  lemma ServicesNext(impls: map<Iface, Inst>, deps: map<Inst, seq<Iface>>, order: seq<Inst>, labels: Labels, p: nat)
    requires (forall k :: 0 <= k < |order| ==> order[k] in deps) && p < |order|
    requires Services(impls, deps, order[..p], labels).Ok?
    ensures Services(impls, deps, order[..p + 1], labels) == Visit(impls, deps, Services(impls, deps, order[..p], labels).b, order[p], labels)
  {
    assert order[..p + 1][..p] == order[..p];
  }

  /** One more dependency type: the edge it adds to what the ones before it built. */
  lemma AddDepsNext(impls: map<Iface, Inst>, b: Build, v: Inst, s: nat, ts: seq<Iface>, labels: Labels, q: nat)
    requires Indexed(b) && s < |b.g| && q < |ts|
    requires AddDeps(impls, b, v, s, ts[..q], labels).Ok?
    ensures AddDeps(impls, b, v, s, ts[..q + 1], labels) == Edge(impls, AddDeps(impls, b, v, s, ts[..q], labels).b, v, s, ts[q], labels)
  {
    assert ts[..q + 1][..q] == ts[..q];
  }

  lemma {:induction false} AddDepsFailStays(impls: map<Iface, Inst>, b: Build, v: Inst, s: nat, ts: seq<Iface>, labels: Labels, n: nat)
    requires Indexed(b) && s < |b.g| && n <= |ts|
    requires AddDeps(impls, b, v, s, ts[..n], labels).Fail?
    ensures AddDeps(impls, b, v, s, ts, labels) == AddDeps(impls, b, v, s, ts[..n], labels)
  {
    if n < |ts| {
      var front := ts[..|ts| - 1];
      assert front[..n] == ts[..n];
      AddDepsFailStays(impls, b, v, s, front, labels, n);
    } else {
      assert ts[..n] == ts;
    }
  }

  lemma {:induction false} ServicesFailStays(impls: map<Iface, Inst>, deps: map<Inst, seq<Iface>>, order: seq<Inst>, labels: Labels, n: nat)
    requires (forall k :: 0 <= k < |order| ==> order[k] in deps) && n <= |order|
    requires Services(impls, deps, order[..n], labels).Fail?
    ensures Services(impls, deps, order, labels) == Services(impls, deps, order[..n], labels)
  {
    if n < |order| {
      var front := order[..|order| - 1];
      assert front[..n] == order[..n];
      ServicesFailStays(impls, deps, front, labels, n);
    } else {
      assert order[..n] == order;
    }
  }
}
