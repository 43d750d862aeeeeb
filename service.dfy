/**
 * service.go: one node of the dependency graph and the two calls the
 * schedulers make on it.  The graph is an arena: nodes are addressed by
 * their index in a `seq<Node>`, and `deps`/`rdeps` hold indices.  What a
 * service's own `Start` and `Close` return comes from the oracles in `Env`.
 */
module Service {
  import opened Wrappers
  import opened Reflect
  import opened Errors

  /** `service`: the instance the node calls, its dependencies and its dependents. */
  datatype Node = Node(inst: Inst, deps: seq<nat>, rdeps: seq<nat>)

  /** Every index in `xs` names a node of `g`. */
  predicate InRange(g: seq<Node>, xs: seq<nat>)
  {
    forall k :: 0 <= k < |xs| ==> xs[k] < |g|
  }

  /** `rdeps` is the inverse of `deps`, counting multiplicity. */
  ghost predicate Inverse(g: seq<Node>)
  {
    forall i, j {:trigger multiset(g[i].deps)[j]} {:trigger multiset(g[j].rdeps)[i]} ::
      0 <= i < |g| && 0 <= j < |g| ==> multiset(g[i].deps)[j] == multiset(g[j].rdeps)[i]
  }

  /** Every dependency edge stays inside the arena. */
  predicate DepsInRange(g: seq<Node>)
  {
    forall i, k :: 0 <= i < |g| && 0 <= k < |g[i].deps| ==> g[i].deps[k] < |g|
  }

  /** A well-formed arena: all edges stay inside it and `rdeps` inverts `deps`. */
  ghost predicate ValidArena(g: seq<Node>)
  {
    && DepsInRange(g)
    && (forall i, k :: 0 <= i < |g| && 0 <= k < |g[i].rdeps| ==> g[i].rdeps[k] < |g|)
    && Inverse(g)
  }

  /** One slot of the argument vector handed to `reflect.Value.Call`. */
  datatype Arg = Ctx | Val(inst: Inst) | Zero

  /**
   * Whether `reflect.Value.Call` accepts `arg` for a parameter of type `t`:
   * the context where a `context.Context` is expected, an instance where
   * it is assignable, and never the zero Value.
   */
  predicate Accepts(t: Type, arg: Arg)
  {
    match arg
    case Ctx => t == ContextType
    case Val(v) => AssignableTo(v, t)
    case Zero => false
  }

  /** `Call`'s check of a whole vector; any slot it refuses makes `Call` panic. */
  predicate CallAccepts(ins: seq<Type>, args: seq<Arg>)
  {
    |ins| == |args| && forall k :: 0 <= k < |args| ==> Accepts(ins[k], args[k])
  }

  /**
   * The services' own behaviour: what `Start` returns when called with an
   * argument vector, and what `Close` returns.  Both give a value, so a
   * `Start` or `Close` that panics by itself cannot be expressed.
   */
  datatype Env = Env(startCall: (Inst, seq<Arg>) -> Option<Error>, closeCall: Inst -> Option<Error>)

  /** Result of `service.start`: an error value, or a runtime panic inside reflection. */
  datatype StartOutcome = Returned(err: Option<Error>) | Panicked

  /** The instances of a node's dependencies, in `deps` order. */
  function DepLabels(g: seq<Node>, i: nat): (r: seq<Inst>)
    requires i < |g| && InRange(g, g[i].deps)
    ensures |r| == |g[i].deps|
    ensures forall k :: 0 <= k < |r| ==> r[k] == g[g[i].deps[k]].inst
  {
    seq(|g[i].deps|, k requires 0 <= k < |g[i].deps| => g[g[i].deps[k]].inst)
  }

  function ArgsOf(xs: seq<Inst>): (r: seq<Arg>)
    ensures |r| == |xs|
    ensures forall k :: 0 <= k < |xs| ==> r[k] == Val(xs[k])
  {
    seq(|xs|, k requires 0 <= k < |xs| => Val(xs[k]))
  }

  /**
   * Whether `service.start` can read `Start`'s result as an error: there is
   * a first result (`Call(...)[0]`) and it has the type `error`.
   */
  predicate FirstResultIsError(sig: Signature)
  {
    |sig.outs| > 0 && sig.outs[0] == ErrorType
  }

  /**
   * What `service.start` yields: nil without a `Start` method; a panic when
   * the vector built for `Start` is too short (index out of range), keeps
   * a zero slot, or holds a dependency not assignable to its parameter
   * (reflect refuses both); a panic when `Start` has no result or its first
   * result is not an `error`; otherwise `Start`'s result on the context
   * followed by the dependencies' instances.
   */
  function StartOutcomeOf(g: seq<Node>, i: nat, env: Env): StartOutcome
    requires i < |g| && InRange(g, g[i].deps)
  {
    match g[i].inst.shape.start
    case None => Returned(None)
    case Some(sig) =>
      if NumIn(sig) != |g[i].deps| + 1 then Panicked
      else
        var args := [Ctx] + ArgsOf(DepLabels(g, i));
        if !CallAccepts(sig.ins, args) then Panicked
        else if !FirstResultIsError(sig) then Panicked
        else Returned(env.startCall(g[i].inst, args))
  }

  /**
   * The argument vector of `service.start`: `NumIn` slots, the context
   * first, then the dependencies' instances in `deps` order; slots the
   * dependencies do not fill keep the zero value `make` gave them.
   */
  method BuildArguments(g: seq<Node>, i: nat, numIn: nat) returns (args: seq<Arg>)
    requires i < |g| && InRange(g, g[i].deps)
    requires |g[i].deps| + 1 <= numIn
    ensures |args| == numIn
    ensures args[0] == Ctx
    ensures forall k :: 1 <= k <= |g[i].deps| ==> args[k] == Val(g[g[i].deps[k - 1]].inst)
    ensures forall k :: |g[i].deps| < k < numIn ==> args[k] == Zero
  {
    var deps := g[i].deps;
    var arguments := new Arg[numIn](_ => Zero);
    arguments[0] := Ctx;
    var k := 0;
    while k < |deps|
      invariant 0 <= k <= |deps|
      invariant arguments[0] == Ctx
      invariant forall m :: 1 <= m <= k ==> arguments[m] == Val(g[deps[m - 1]].inst)
      invariant forall m :: k < m < numIn ==> arguments[m] == Zero
    {
      arguments[k + 1] := Val(g[deps[k]].inst);
      k := k + 1;
    }
    args := arguments[..];
  }

  /** service.start: probe for `Start`, build the vector, call it. */
  method StartService(g: seq<Node>, i: nat, env: Env) returns (out: StartOutcome)
    requires i < |g| && InRange(g, g[i].deps)
    ensures out == StartOutcomeOf(g, i, env)
  {
    var inst := g[i].inst;
    if inst.shape.start.None? {
      return Returned(None);
    }
    var numIn := NumIn(inst.shape.start.value);
    if numIn == 0 || |g[i].deps| + 1 > numIn {
      return Panicked;  // arguments[0] or arguments[i+1] is out of range
    }
    var args := BuildArguments(g, i, numIn);
    if numIn == |g[i].deps| + 1 {
      assert args == [Ctx] + ArgsOf(DepLabels(g, i));
    }
    if !CallAccepts(inst.shape.start.value.ins, args) {
      return Panicked;  // reflect: a zero Value, or an argument not assignable to its parameter
    }
    assert !Accepts(inst.shape.start.value.ins[numIn - 1], Zero);
    var outs := inst.shape.start.value.outs;
    if |outs| == 0 {
      return Panicked;  // Call(arguments)[0] is out of range
    }
    if outs[0] != ErrorType {
      return Panicked;  // IsNil on a kind that cannot be nil, or the .(error) assertion fails
    }
    out := Returned(env.startCall(inst, args));
  }

  /** service.stop: `Close()` when the instance is an `io.Closer`, nil otherwise. */
  function StopService(inst: Inst, env: Env): (r: Option<Error>)
    ensures r.Some? ==> inst.shape.close.Some? && IsCloserSignature(inst.shape.close.value)
    ensures inst.shape.close.Some? && IsCloserSignature(inst.shape.close.value) ==> r == env.closeCall(inst)
  {
    if inst.shape.close.Some? && IsCloserSignature(inst.shape.close.value) then env.closeCall(inst) else None
  }
}
