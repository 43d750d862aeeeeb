/**
 * manager.go: the handle `Init.Start` returns.  It owns the node arena the
 * registry built, the list of running nodes, the interface bindings (never
 * written again) and the once-guarded result of closing.
 */
module ServiceManager {
  import opened Wrappers
  import opened Reflect
  import opened Errors
  import opened Service
  import opened Dag
  import Schedule

  /** Every node of an arena with `n` nodes, in index order. */
  function AllNodes(n: nat): (r: seq<nat>)
    ensures |r| == n && forall i :: 0 <= i < n ==> r[i] == i
  {
    seq(n, i => i)
  }

  /** A variable of interface type that `Get` writes through a pointer; nil is `None`. */
  class Slot {
    var value: Option<Inst>

    constructor (v: Option<Inst>)
      ensures value == v
    {
      value := v;
    }
  }

  /** What `reflect.TypeOf` says about the argument of `Get`; `Nil` is a nil argument, `NilPointerTo` a nil pointer. */
  datatype Target = Nil | NonPointer | PointerTo(elem: Type) | NilPointerTo(elem: Type)

  /** The panic of `Kind` on the nil `reflect.Type` of a nil argument. */
  const NilDereference := "runtime error: invalid memory address or nil pointer dereference"
  /** The panic of `Set` on the zero Value that `Elem` of a nil pointer gives. */
  const ZeroValueSet := "reflect: call of reflect.Value.Set on zero Value"

  class Manager {
    /** The nodes `graph` built; `deps` and `rdeps` never change after. */
    const arena: seq<Node>
    /** Interface type -> instance.  Immutable. */
    const implementations: map<Iface, Inst>
    /** `stopOnce`: whether `Close` has run its body. */
    var stopped: bool
    var stopErr: Option<Error>
    var running: seq<nat>
    /** How many times `stop` has been called. */
    ghost var stops: nat

    ghost predicate Valid()
      reads this
    {
      && ValidArena(arena)
      && InRange(arena, running)
      && (stopped ==> running == [])
      && (!stopped ==> running == AllNodes(|arena|) && stopErr == None)
      && stops == (if stopped then 1 else 0)
    }

    /** The `Manager` literal of `finish`: every node running, nothing stopped yet. */
    constructor (g: seq<Node>, impls: map<Iface, Inst>)
      requires ValidArena(g)
      ensures Valid() && arena == g && implementations == impls && !stopped
    {
      arena := g;
      implementations := impls;
      running := AllNodes(|g|);
      stopped := false;
      stopErr := None;
      stops := 0;
    }

    /**
     * Manager.start: the start scheduler over `running`.  Once closed,
     * `running` is nil and nothing is started.  Neither `running` nor the
     * bindings change.
     */
    method Start(parentCancelled: bool, env: Env)
      returns (r: Schedule.RunResult, ghost started: seq<nat>, ghost closed: seq<nat>, ghost launched: seq<nat>, ghost after: seq<nat>)
      requires Valid()
      ensures stopped ==> r == Schedule.Finished(None) && started == [] && launched == []
      ensures !stopped ==>
        && Schedule.StartedCleanly(arena, started, env) && Distinct(started) && DepsFirst(arena, started)
        && Schedule.LaunchedAfterDeps(arena, launched, after, started)
        && (r == Schedule.Finished(None) ==> TopoOrder(arena, started))
        && (!Acyclic(arena) ==> r.Finished? && r.err.Some? && r.err.value.Cycle?)
        && (r.Crashed? ==> exists i :: i in launched && i < |arena| && StartOutcomeOf(arena, i, env).Panicked?)
        && (r.Finished? && r.err.Some? && Acyclic(arena) ==>
              Schedule.StartFailed(arena, r.err.value, launched, started, closed, parentCancelled, env))
        && (Acyclic(arena) && (forall i :: 0 <= i < |arena| ==> StartOutcomeOf(arena, i, env) == Returned(None)) ==>
              r == Schedule.Finished(None))
    {
      if stopped {
        return Schedule.Finished(None), [], [], [], [];
      }
      r, started, closed, launched, after := Schedule.Start(arena, parentCancelled, env);
    }

    /**
     * Close: the first call stops everything in `running`, dependents
     * first, clears `running` and caches the result; every later call
     * returns that cached result without stopping anything.
     */
    method Close(env: Env) returns (err: Option<Error>, ghost closed: seq<nat>)
      requires Valid()
      modifies this
      ensures Valid() && stopped && running == [] && stops == 1
      ensures err == stopErr
      ensures old(stopped) ==> stopErr == old(stopErr) && closed == []
      ensures !old(stopped) ==>
        && InRange(arena, closed) && Distinct(closed)
        && stopErr == Schedule.StopResult(arena, closed, env)
        && Schedule.DependentsFirst(arena, Range(|arena|), closed)
        && (Acyclic(arena) ==> forall i :: 0 <= i < |arena| ==> i in closed)
    {
      closed := [];
      if !stopped {
        var toStop := running;
        running := [];
        assert Schedule.Members(toStop) == Range(|arena|) by {
          forall i: nat | i < |arena| ensures i in Schedule.Members(toStop) {
            assert toStop[i] == i;
          }
        }
        stopErr, closed := Schedule.StopIntended(arena, toStop, env);
        stopped := true;
        stops := stops + 1;
        forall i | 0 <= i < |arena| && Acyclic(arena) ensures i in closed {
          assert toStop[i] == i;
        }
      }
      err := stopErr;
    }

    /**
     * Get: assign the instance bound to the pointee's interface type, if
     * any; panic when the argument is not a pointer to an interface, and
     * when it is a nil pointer to a bound interface.
     */
    method Get(target: Target, slot: Slot) returns (panic: Option<string>)
      modifies slot
      ensures target.Nil? ==> panic == Some(NilDereference)
      ensures target.NonPointer? ==> panic == Some("can only assign services to pointers")
      ensures (target.PointerTo? || target.NilPointerTo?) && !target.elem.Interface? ==> panic == Some("services are interfaces")
      ensures target.NilPointerTo? && target.elem.Interface? && target.elem.iface in implementations ==> panic == Some(ZeroValueSet)
      ensures panic.None? <==>
        && (target.PointerTo? || target.NilPointerTo?) && target.elem.Interface?
        && (target.NilPointerTo? ==> target.elem.iface !in implementations)
      ensures panic.None? && target.PointerTo? && target.elem.iface in implementations ==>
        slot.value == Some(implementations[target.elem.iface])
      ensures !(panic.None? && target.PointerTo? && target.elem.iface in implementations) ==> slot.value == old(slot.value)
    {
      if target.Nil? {
        return Some(NilDereference);
      }
      if target.NonPointer? {
        return Some("can only assign services to pointers");
      }
      if !target.elem.Interface? {
        return Some("services are interfaces");
      }
      var ty := target.elem.iface;
      if ty in implementations {
        if target.NilPointerTo? {
          return Some(ZeroValueSet);
        }
        slot.value := Some(implementations[ty]);
      }
      panic := None;
    }
  }
}
