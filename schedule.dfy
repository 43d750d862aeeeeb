/**
 * manage.go: the cycle check and the two schedulers.  The goroutines the
 * schedulers spawn are modelled by a set of nodes in flight; the order in
 * which their results arrive on the channel, like the order in which Go
 * visits a map, is a free choice the proofs quantify over.
 */
module Schedule {
  import opened Wrappers
  import opened Reflect
  import opened Errors
  import opened Service
  import opened Dag

  /** startGraph: every node mapped to the number of its dependencies. */
  method StartGraph(g: seq<Node>) returns (graph: map<nat, int>)
    ensures graph.Keys == Range(|g|)
    ensures forall i :: 0 <= i < |g| ==> graph[i] == |g[i].deps|
  {
    graph := map[];
    var k := 0;
    while k < |g|
      invariant 0 <= k <= |g|
      invariant graph.Keys == Range(k)
      invariant forall i :: 0 <= i < k ==> graph[i] == |g[i].deps|
    {
      graph := graph[k := |g[k].deps|];
      k := k + 1;
    }
  }

  /** stopGraph: every listed node mapped to the number of its dependents. */
  method StopGraph(g: seq<Node>, services: seq<nat>) returns (graph: map<nat, int>)
    requires InRange(g, services)
    ensures forall i :: i in graph <==> i in services
    ensures forall i :: i in graph ==> graph[i] == |g[i].rdeps|
  {
    graph := map[];
    var k := 0;
    while k < |services|
      invariant 0 <= k <= |services|
      invariant forall i :: i in graph <==> i in services[..k]
      invariant forall i :: i in graph ==> i < |g| && graph[i] == |g[i].rdeps|
    {
      graph := graph[services[k] := |g[services[k]].rdeps|];
      k := k + 1;
    }
  }

  // ------------------------------------------------------------------ check

  /** The instances of the entries of `deps` that lie in `stuck`, in order. */
  function Blocking(g: seq<Node>, deps: seq<nat>, stuck: set<nat>): (r: seq<Inst>)
    requires InRange(g, deps)
    ensures |r| == 0 <==> forall k :: 0 <= k < |deps| ==> deps[k] !in stuck
  {
    if deps == [] then []
    else
      var front := deps[..|deps| - 1];
      var last := deps[|deps| - 1];
      assert forall k :: 0 <= k < |front| ==> front[k] == deps[k];
      Blocking(g, front, stuck) + (if last in stuck then [g[last].inst] else [])
  }

  /**
   * What an ErrCycle says about the nodes `stuck` that never became ready:
   * each of them is a key, and each key is a stuck node mapped to its
   * dependencies that are stuck too.
   */
  ghost predicate ReportsCycle(g: seq<Node>, stuck: set<nat>, blocked: map<Inst, seq<Inst>>)
    requires forall i :: i in stuck ==> i < |g| && InRange(g, g[i].deps)
  {
    && (forall i :: i in stuck ==> g[i].inst in blocked)
    && StuckEntries(g, stuck, blocked)
  }

  /** Every entry of the report is a stuck node mapped to its stuck dependencies. */
  ghost predicate StuckEntries(g: seq<Node>, stuck: set<nat>, blocked: map<Inst, seq<Inst>>)
    requires forall i :: i in stuck ==> i < |g| && InRange(g, g[i].deps)
  {
    forall p :: p in blocked ==> StuckEntry(g, stuck, p, blocked[p])
  }

  /** `p` is the instance of a stuck node and `c` lists that node's stuck dependencies. */
  ghost predicate StuckEntry(g: seq<Node>, stuck: set<nat>, p: Inst, c: seq<Inst>)
    requires forall i :: i in stuck ==> i < |g| && InRange(g, g[i].deps)
  {
    exists i :: i in stuck && g[i].inst == p && c == Blocking(g, g[i].deps, stuck)
  }

  /** The counters of check: each is the number of the node's dependencies not yet processed. */
  ghost predicate Counting(g: seq<Node>, graph: map<nat, int>, done: set<nat>)
  {
    && graph.Keys == Range(|g|)
    && forall i :: 0 <= i < |g| ==> graph[i] == Pending(g[i].deps, done)
  }

  /** The ready stack holds, once each, the unprocessed nodes whose counter reached zero. */
  ghost predicate ReadyStack(g: seq<Node>, graph: map<nat, int>, ready: seq<nat>, done: set<nat>)
    requires graph.Keys == Range(|g|)
  {
    && Distinct(ready) && InRange(g, ready)
    && (forall k :: 0 <= k < |ready| ==> ready[k] !in done)
    && (forall i :: 0 <= i < |g| ==> (i in done || i in ready <==> graph[i] == 0))
  }

  /** The first loop of check: push every node without dependencies. */
  method InitialReady(g: seq<Node>, graph: map<nat, int>) returns (ready: seq<nat>)
    requires graph.Keys == Range(|g|)
    ensures ReadyStack(g, graph, ready, {})
  {
    ready := [];
    var todo := Range(|g|);
    while todo != {}
      invariant todo <= Range(|g|)
      invariant Distinct(ready) && InRange(g, ready)
      invariant forall i :: 0 <= i < |g| ==> (i in ready <==> i !in todo && graph[i] == 0)
      decreases todo
    {
      var s :| s in todo;
      if graph[s] == 0 {
        ready := ready + [s];
      }
      todo := todo - {s};
    }
  }

  /**
   * The counters while the dependents `rest` of a processed node are still
   * to be lowered: each counter is too high by its node's occurrences in `rest`.
   */
  ghost predicate Awaits(g: seq<Node>, graph: map<nat, int>, done: set<nat>, rest: seq<nat>)
  {
    && graph.Keys == Range(|g|)
    && forall i :: 0 <= i < |g| ==> graph[i] == Pending(g[i].deps, done) + multiset(rest)[i]
  }

  /** With no dependent left to lower, the counters count. */
  lemma AwaitsNothing(g: seq<Node>, graph: map<nat, int>, done: set<nat>)
    requires Awaits(g, graph, done, [])
    ensures Counting(g, graph, done)
  {
  }

  /** One dependent `rest[0]` of the processed node: its counter drops by one, and it is pushed on reaching zero. */
  method Decrement(g: seq<Node>, graph0: map<nat, int>, ready0: seq<nat>, ghost done: set<nat>, rest: seq<nat>)
    returns (graph: map<nat, int>, ready: seq<nat>)
    requires rest != [] && rest[0] < |g| && Awaits(g, graph0, done, rest)
    requires ReadyStack(g, graph0, ready0, done)
    ensures Awaits(g, graph, done, rest[1..]) && ReadyStack(g, graph, ready, done)
    ensures ready == ready0 || ready == ready0 + [rest[0]]
  {
    var rd := rest[0];
    assert rest == [rd] + rest[1..];
    assert multiset(rest) == multiset{rd} + multiset(rest[1..]);
    assert graph0[rd] >= 1 && rd !in done && rd !in ready0;
    var waiting := graph0[rd] - 1;
    graph := graph0[rd := waiting];
    ready := ready0;
    if waiting == 0 {
      ready := ready + [rd];
    }
    forall i | 0 <= i < |g|
      ensures (i in done || i in ready <==> graph[i] == 0)
      ensures graph[i] == Pending(g[i].deps, done) + multiset(rest[1..])[i]
    {
      if i != rd {
        assert graph[i] == graph0[i];
      }
    }
  }

  /** Processing `next`: decrement the counter of each of its dependents, pushing those that reach zero. */
  method Release(g: seq<Node>, graph0: map<nat, int>, ready0: seq<nat>, next: nat, ghost done: set<nat>)
    returns (graph: map<nat, int>, ready: seq<nat>)
    requires next < |g| && InRange(g, g[next].rdeps)
    requires Awaits(g, graph0, done, g[next].rdeps) && ReadyStack(g, graph0, ready0, done)
    ensures Counting(g, graph, done) && ReadyStack(g, graph, ready, done)
    ensures ready0 <= ready
  {
    graph, ready := graph0, ready0;
    var rest := g[next].rdeps;
    while rest != []
      invariant InRange(g, rest)
      invariant Awaits(g, graph, done, rest) && ReadyStack(g, graph, ready, done)
      invariant ready0 <= ready
      decreases |rest|
    {
      graph, ready := Decrement(g, graph, ready, done, rest);
      rest := rest[1..];
    }
    AwaitsNothing(g, graph, done);
  }

  /** Once `next` is processed, its dependents' counters are each too high by the edges from them to it. */
  lemma FinishNode(g: seq<Node>, graph: map<nat, int>, done: set<nat>, next: nat)
    requires ValidArena(g) && Counting(g, graph, done) && next < |g| && next !in done
    ensures Awaits(g, graph, done + {next}, g[next].rdeps)
  {
    forall i | 0 <= i < |g|
      ensures graph[i] == Pending(g[i].deps, done + {next}) + multiset(g[next].rdeps)[i]
    {
      PendingFinish(g[i].deps, done, next);
      assert multiset(g[i].deps)[next] == multiset(g[next].rdeps)[i];
    }
  }

  /** Appending a node whose dependencies are all processed keeps the processed list a partial topological order. */
  lemma AppendDone(g: seq<Node>, done0: set<nat>, doneSeq0: seq<nat>, next: nat)
    requires next < |g| && next !in done0 && done0 <= Range(|g|) && |doneSeq0| == |done0|
    requires Distinct(doneSeq0) && (forall x :: x in done0 <==> x in doneSeq0) && DepsFirst(g, doneSeq0)
    requires forall k :: 0 <= k < |g[next].deps| ==> g[next].deps[k] in done0
    ensures var done, doneSeq := done0 + {next}, doneSeq0 + [next];
      && done <= Range(|g|) && |doneSeq| == |done| == |done0| + 1 && done0 < done
      && Distinct(doneSeq) && (forall x :: x in done <==> x in doneSeq) && DepsFirst(g, doneSeq)
  {
    DepsFirstExtend(g, doneSeq0, next);
  }

  /** Moving entry `k` of the ready list into the processed set keeps the description of the list. */
  lemma TakeReady(g: seq<Node>, graph: map<nat, int>, ready0: seq<nat>, done0: set<nat>, k: nat)
    requires graph.Keys == Range(|g|) && k < |ready0|
    requires ReadyStack(g, graph, ready0, done0)
    ensures ReadyStack(g, graph, ready0[..k] + ready0[k + 1..], done0 + {ready0[k]})
  {
    RemoveAt(ready0, k);
    var ready := ready0[..k] + ready0[k + 1..];
    forall j | 0 <= j < |ready| ensures ready[j] < |g| && ready[j] !in done0 + {ready0[k]} {
      assert ready[j] in ready0;
    }
  }

  /**
   * Entry `k` of the ready list has been handled: it joins the processed
   * nodes and its dependents' counters are lowered (the shared part of a
   * round of check, which pops the top entry, and of a successful start).
   */
  method Settle(g: seq<Node>, graph0: map<nat, int>, ready0: seq<nat>, k: nat, ghost done0: set<nat>, ghost doneSeq0: seq<nat>)
    returns (graph: map<nat, int>, ready: seq<nat>, ghost done: set<nat>, ghost doneSeq: seq<nat>)
    requires ValidArena(g) && k < |ready0|
    requires Counting(g, graph0, done0) && ReadyStack(g, graph0, ready0, done0)
    requires done0 <= Range(|g|) && |doneSeq0| == |done0|
    requires Distinct(doneSeq0) && (forall x :: x in done0 <==> x in doneSeq0) && DepsFirst(g, doneSeq0)
    ensures done == done0 + {ready0[k]} && doneSeq == doneSeq0 + [ready0[k]]
    ensures Counting(g, graph, done) && ReadyStack(g, graph, ready, done)
    ensures done <= Range(|g|) && |doneSeq| == |done| == |done0| + 1 && done0 < done
    ensures Distinct(doneSeq) && (forall x :: x in done <==> x in doneSeq) && DepsFirst(g, doneSeq)
    ensures ready0[..k] + ready0[k + 1..] <= ready
  {
    var next := ready0[k];
    PendingZero(g[next].deps, done0);
    AppendDone(g, done0, doneSeq0, next);
    FinishNode(g, graph0, done0, next);
    TakeReady(g, graph0, ready0, done0, k);
    done := done0 + {next};
    doneSeq := doneSeq0 + [next];
    var rest := ready0[..k] + ready0[k + 1..];
    assert |rest| == |ready0| - 1;
    graph, ready := Release(g, graph0, rest, next, done);
  }

  /**
   * The main loop of check.  The nodes it pops, in order (`doneSeq`), each
   * come after their dependencies; when the stack runs dry every
   * unprocessed node still waits on one of its dependencies.
   */
  method Process(g: seq<Node>, graph0: map<nat, int>, ready0: seq<nat>)
    returns (graph: map<nat, int>, started: nat, ghost done: set<nat>, ghost doneSeq: seq<nat>)
    requires ValidArena(g) && Counting(g, graph0, {}) && ReadyStack(g, graph0, ready0, {})
    ensures Counting(g, graph, done) && done <= Range(|g|)
    ensures started == |doneSeq| == |done| && (forall x :: x in done <==> x in doneSeq)
    ensures Distinct(doneSeq) && DepsFirst(g, doneSeq)
    ensures forall i :: 0 <= i < |g| ==> (i in done <==> graph[i] == 0)
  {
    graph := graph0;
    var ready := ready0;
    started := 0;
    done := {};
    doneSeq := [];
    while |ready| > 0
      invariant Counting(g, graph, done) && ReadyStack(g, graph, ready, done)
      invariant done <= Range(|g|) && started == |doneSeq| == |done|
      invariant Distinct(doneSeq) && forall x :: x in done <==> x in doneSeq
      invariant DepsFirst(g, doneSeq)
      decreases Range(|g|) - done
    {
      started := started + 1;
      graph, ready, done, doneSeq := Settle(g, graph, ready, |ready| - 1, done, doneSeq);
    }
  }

  /** The nodes check could not process each wait on another of them; the processed ones wait on none. */
  lemma StuckWaitOnStuck(g: seq<Node>, graph: map<nat, int>, done: set<nat>, stuck: set<nat>)
    requires forall i :: 0 <= i < |g| ==> InRange(g, g[i].deps)
    requires Counting(g, graph, done) && stuck == Range(|g|) - done
    requires forall i :: 0 <= i < |g| ==> (i in done <==> graph[i] == 0)
    ensures forall i :: 0 <= i < |g| ==> (i in stuck <==> graph[i] != 0)
    ensures SelfBlocking(g, stuck)
    ensures forall i :: 0 <= i < |g| && i !in stuck ==> forall k :: 0 <= k < |g[i].deps| ==> g[i].deps[k] !in stuck
  {
    forall i | i in stuck ensures HasDepIn(g, i, stuck) {
      WaitsOnStuck(g, i, done, stuck);
    }
    forall i | 0 <= i < |g| && i !in stuck ensures forall k :: 0 <= k < |g[i].deps| ==> g[i].deps[k] !in stuck {
      DoneWaitsOnNone(g, i, done, stuck);
    }
  }

  lemma DoneWaitsOnNone(g: seq<Node>, i: nat, done: set<nat>, stuck: set<nat>)
    requires i < |g| && i in done && stuck == Range(|g|) - done
    requires Pending(g[i].deps, done) == 0
    ensures forall k :: 0 <= k < |g[i].deps| ==> g[i].deps[k] !in stuck
  {
    PendingZero(g[i].deps, done);
  }

  lemma WaitsOnStuck(g: seq<Node>, i: nat, done: set<nat>, stuck: set<nat>)
    requires i < |g| && InRange(g, g[i].deps) && stuck == Range(|g|) - done
    requires Pending(g[i].deps, done) != 0
    ensures HasDepIn(g, i, stuck)
  {
    PendingZero(g[i].deps, done);
    var k :| 0 <= k < |g[i].deps| && g[i].deps[k] !in done;
    assert g[i].deps[k] in stuck;
  }

  /** Every self-blocking set avoids the processed nodes, so it lies inside the stuck ones. */
  lemma StuckHoldsAllBlocked(g: seq<Node>, done: set<nat>, doneSeq: seq<nat>, stuck: set<nat>)
    requires (forall x :: x in done <==> x in doneSeq) && DepsFirst(g, doneSeq)
    requires stuck == Range(|g|) - done
    ensures forall s {:trigger SelfBlocking(g, s)} :: SelfBlocking(g, s) ==> s <= stuck
  {
    forall s | SelfBlocking(g, s) ensures s <= stuck {
      TopoPrefixAvoids(g, doneSeq, s, |doneSeq|);
      forall x | x in s ensures x in stuck {
        assert HasDepIn(g, x, s);
        assert x !in doneSeq;
      }
    }
  }

  /** The report loop of check: one entry per node whose counter is not zero. */
  method CycleReport(g: seq<Node>, graph: map<nat, int>, ghost stuck: set<nat>) returns (blocked: map<Inst, seq<Inst>>)
    requires (forall i :: 0 <= i < |g| ==> InRange(g, g[i].deps)) && graph.Keys == Range(|g|)
    requires forall i :: 0 <= i < |g| ==> (i in stuck <==> graph[i] != 0)
    requires stuck <= Range(|g|)
    requires SelfBlocking(g, stuck) && stuck != {}
    ensures ReportsCycle(g, stuck, blocked)
    ensures CycleRenderable(blocked)
  {
    blocked := map[];
    var left := Range(|g|);
    while left != {}
      invariant left <= Range(|g|)
      invariant forall i :: i in stuck && i !in left ==> g[i].inst in blocked
      invariant StuckEntries(g, stuck, blocked)
      decreases left
    {
      var s :| s in left;
      if graph[s] != 0 {
        var blocking := BlockingOf(g, s, graph, stuck);
        AddEntry(g, stuck, blocked, s, blocking);
        blocked := blocked[g[s].inst := blocking];
      }
      left := left - {s};
    }
    EntriesNonEmpty(g, stuck, blocked);
  }

  /** Recording the stuck dependencies of a stuck node keeps every entry of the report a stuck entry. */
  lemma AddEntry(g: seq<Node>, stuck: set<nat>, blocked: map<Inst, seq<Inst>>, s: nat, blocking: seq<Inst>)
    requires forall i :: i in stuck ==> i < |g| && InRange(g, g[i].deps)
    requires s in stuck && blocking == Blocking(g, g[s].deps, stuck)
    requires StuckEntries(g, stuck, blocked)
    ensures StuckEntries(g, stuck, blocked[g[s].inst := blocking])
  {
    assert StuckEntry(g, stuck, g[s].inst, blocking);
  }

  /** Every stuck node has a stuck dependency, so no entry of the report is empty. */
  lemma EntriesNonEmpty(g: seq<Node>, stuck: set<nat>, blocked: map<Inst, seq<Inst>>)
    requires forall i :: i in stuck ==> i < |g| && InRange(g, g[i].deps)
    requires SelfBlocking(g, stuck) && stuck != {}
    requires ReportsCycle(g, stuck, blocked)
    ensures CycleRenderable(blocked)
  {
    var x :| x in stuck;
    assert g[x].inst in blocked;
    forall p | p in blocked ensures |blocked[p]| > 0 {
      assert StuckEntry(g, stuck, p, blocked[p]);
      var i :| i in stuck && g[i].inst == p && blocked[p] == Blocking(g, g[i].deps, stuck);
      assert HasDepIn(g, i, stuck);
    }
  }

  /**
   * check: Kahn's algorithm over a stack of ready nodes.  It reports a
   * cycle exactly when no topological order exists.  The nodes it could
   * not process (`stuck`) all wait on each other, every other node depends
   * only on processed ones, and every set of nodes that blocks itself lies
   * inside `stuck`; the report names every stuck node and what it waits on.
   */
  method Check(g: seq<Node>) returns (err: Option<Error>, ghost stuck: set<nat>)
    requires ValidArena(g)
    ensures err.None? <==> Acyclic(g)
    ensures stuck <= Range(|g|) && SelfBlocking(g, stuck)
    ensures forall i :: 0 <= i < |g| && i !in stuck ==> forall k :: 0 <= k < |g[i].deps| ==> g[i].deps[k] !in stuck
    ensures forall s {:trigger SelfBlocking(g, s)} :: SelfBlocking(g, s) ==> s <= stuck
    ensures err.None? <==> stuck == {}
    ensures err.Some? ==> err.value.Cycle? && CycleRenderable(err.value.blocked) && ReportsCycle(g, stuck, err.value.blocked)
  {
    var graph := StartGraph(g);
    forall i | 0 <= i < |g| ensures graph[i] == Pending(g[i].deps, {}) {
      PendingNothingDone(g[i].deps);
    }
    var ready := InitialReady(g, graph);
    var started;
    ghost var done, doneSeq;
    graph, started, done, doneSeq := Process(g, graph, ready);
    stuck := Range(|g|) - done;
    StuckWaitOnStuck(g, graph, done, stuck);
    StuckHoldsAllBlocked(g, done, doneSeq, stuck);
    RangeSize(|g|);
    if started < |g| {
      assert done != Range(|g|);
      assert stuck != {};
      BlockedIsCyclic(g, stuck);
      var blocked := CycleReport(g, graph, stuck);
      return Some(Cycle(blocked)), stuck;
    }
    FullSubset(done, |g|);
    ProcessedAllIsTopo(g, doneSeq);
    return None, stuck;
  }

  /** A non-empty self-blocking set of nodes leaves no topological order. */
  lemma BlockedIsCyclic(g: seq<Node>, stuck: set<nat>)
    requires SelfBlocking(g, stuck) && stuck != {}
    ensures !Acyclic(g)
  {
    if Acyclic(g) {
      var order :| TopoOrder(g, order);
      TopoRulesOutSelfBlocking(g, order, stuck);
    }
  }

  /** Processing every node, each once and after its dependencies, is a topological order. */
  lemma ProcessedAllIsTopo(g: seq<Node>, doneSeq: seq<nat>)
    requires |doneSeq| == |g| && Distinct(doneSeq) && DepsFirst(g, doneSeq)
    requires forall x :: x in Range(|g|) <==> x in doneSeq
    ensures Acyclic(g)
  {
    assert TopoOrder(g, doneSeq);
  }

  /** The inner loop of the report: the dependencies of `s` still waiting, as instances. */
  method BlockingOf(g: seq<Node>, s: nat, graph: map<nat, int>, ghost stuck: set<nat>) returns (blocking: seq<Inst>)
    requires s < |g| && InRange(g, g[s].deps)
    requires graph.Keys == Range(|g|)
    requires forall i :: 0 <= i < |g| ==> (i in stuck <==> graph[i] != 0)
    ensures blocking == Blocking(g, g[s].deps, stuck)
  {
    var deps := g[s].deps;
    blocking := [];
    var k := 0;
    while k < |deps|
      invariant 0 <= k <= |deps|
      invariant blocking == Blocking(g, deps[..k], stuck)
    {
      assert deps[..k + 1][..k] == deps[..k];
      var d := deps[k];
      if graph[d] != 0 {
        blocking := blocking + [g[d].inst];
      }
      k := k + 1;
    }
    assert deps[..k] == deps;
  }

  // ------------------------------------------------------------------- stop

  /** A Go map read: the zero value for a missing key. */
  function Get(graph: map<nat, int>, k: nat): int
  {
    if k in graph then graph[k] else 0
  }

  /**
   * The counters after lowering those of the entries `seen`: every entry
   * lowered its counter by one (a missing key read as zero and stored), and
   * `reached` lists once each counter that hit zero on the way.
   */
  ghost predicate Lowered(graph0: map<nat, int>, seen: seq<nat>, graph: map<nat, int>, reached: seq<nat>)
  {
    && (forall k :: k in graph <==> k in graph0 || k in seen)
    && (forall k :: k in graph ==> graph[k] == Get(graph0, k) - multiset(seen)[k])
    && Distinct(reached) && |reached| <= |seen|
    && (forall r :: r in reached <==> r in seen && 1 <= Get(graph0, r) <= multiset(seen)[r])
  }

  /** One round of the release loop: the counter of `rd` drops by one and is reported on hitting zero. */
  method LowerOne(ghost graph0: map<nat, int>, ghost seen: seq<nat>, graph1: map<nat, int>, reached1: seq<nat>, rd: nat)
    returns (graph: map<nat, int>, reached: seq<nat>)
    requires Lowered(graph0, seen, graph1, reached1)
    ensures Lowered(graph0, seen + [rd], graph, reached)
  {
    assert multiset(seen + [rd]) == multiset(seen) + multiset{rd};
    var waiting := Get(graph1, rd) - 1;
    assert waiting == Get(graph0, rd) - multiset(seen + [rd])[rd];
    graph := graph1[rd := waiting];
    reached := reached1;
    if waiting == 0 {
      assert rd !in reached;
      reached := reached + [rd];
    }
  }

  /**
   * The release loop shared by stop and start: each entry of `xs` lowers
   * its counter by one (a missing key reads as zero and is stored), and
   * every counter that hits zero on the way is reported once.
   */
  method LowerCounts(graph0: map<nat, int>, xs: seq<nat>) returns (graph: map<nat, int>, reached: seq<nat>)
    ensures forall k :: k in graph <==> k in graph0 || k in xs
    ensures forall k :: k in graph ==> graph[k] == Get(graph0, k) - multiset(xs)[k]
    ensures Distinct(reached) && |reached| <= |xs|
    ensures forall r :: r in reached <==> r in xs && 1 <= Get(graph0, r) <= multiset(xs)[r]
  {
    graph, reached := graph0, [];
    var m := 0;
    while m < |xs|
      invariant 0 <= m <= |xs|
      invariant Lowered(graph0, xs[..m], graph, reached)
    {
      assert xs[..m + 1] == xs[..m] + [xs[m]];
      graph, reached := LowerOne(graph0, xs[..m], graph, reached, xs[m]);
      m := m + 1;
    }
    assert xs[..m] == xs;
  }

  /**
   * The error map stop builds from the nodes it closed, in the order their
   * results arrived: the instance of each node whose Close failed, mapped
   * to that failure.
   */
  function StopErrs(g: seq<Node>, closed: seq<nat>, env: Env): map<Inst, Option<Error>>
    requires InRange(g, closed)
  {
    if closed == [] then map[]
    else
      var x := closed[|closed| - 1];
      var m := StopErrs(g, closed[..|closed| - 1], env);
      var e := StopService(g[x].inst, env);
      if e.Some? then m[g[x].inst := e] else m
  }

  /** What stop returns: nil, or an ErrManage whose Stop is the ErrService of the failures. */
  function StopResult(g: seq<Node>, closed: seq<nat>, env: Env): Option<Error>
    requires InRange(g, closed)
  {
    var errs := StopErrs(g, closed, env);
    if |errs| > 0 then Some(Manage(None, Some(Service(errs)))) else None
  }

  /**
   * Whatever order the results arrive in, the map holds exactly the
   * closed instances whose Close failed, each with its own failure.
   */
  lemma {:induction false} StopErrsExact(g: seq<Node>, closed: seq<nat>, env: Env)
    requires InRange(g, closed)
    ensures forall p :: p in StopErrs(g, closed, env) <==>
      (exists k :: 0 <= k < |closed| && g[closed[k]].inst == p) && StopService(p, env).Some?
    ensures forall p :: p in StopErrs(g, closed, env) ==> StopErrs(g, closed, env)[p] == StopService(p, env)
  {
    if closed != [] {
      var front := closed[..|closed| - 1];
      StopErrsExact(g, front, env);
      forall p ensures p in StopErrs(g, closed, env) <==>
        (exists k :: 0 <= k < |closed| && g[closed[k]].inst == p) && StopService(p, env).Some?
      {
        if exists k :: 0 <= k < |front| && g[front[k]].inst == p {
          var k :| 0 <= k < |front| && g[front[k]].inst == p;
          assert closed[k] == front[k];
        }
        if exists k :: 0 <= k < |closed| && g[closed[k]].inst == p {
          var k :| 0 <= k < |closed| && g[closed[k]].inst == p;
          if k < |front| {
            assert front[k] == closed[k];
          }
        }
      }
    }
  }

  /** stop reports an error exactly when the Close of some node it closed failed. */
  lemma StopResultNone(g: seq<Node>, closed: seq<nat>, env: Env)
    requires InRange(g, closed)
    ensures StopResult(g, closed, env).None? <==> forall k :: 0 <= k < |closed| ==> StopService(g[closed[k]].inst, env).None?
  {
    StopErrsExact(g, closed, env);
    if exists k :: 0 <= k < |closed| && StopService(g[closed[k]].inst, env).Some? {
      var k :| 0 <= k < |closed| && StopService(g[closed[k]].inst, env).Some?;
      assert g[closed[k]].inst in StopErrs(g, closed, env);
    }
  }

  /** The launch loop of stop and start: one goroutine per node whose counter is not positive. */
  method Launch(graph: map<nat, int>) returns (inflight: seq<nat>)
    ensures Distinct(inflight)
    ensures forall x :: x in inflight <==> x in graph && graph[x] <= 0
  {
    inflight := [];
    var left := graph.Keys;
    while left != {}
      invariant left <= graph.Keys
      invariant Distinct(inflight)
      invariant forall x :: x in inflight <==> x in graph && x !in left && graph[x] <= 0
      decreases left
    {
      var s :| s in left;
      if graph[s] <= 0 {
        inflight := inflight + [s];
      }
      left := left - {s};
    }
  }

  /** Lowering the counters of no node at all changes nothing and releases nothing. */
  lemma NothingLowered(graph0: map<nat, int>, xs: seq<nat>, graph: map<nat, int>, reached: seq<nat>)
    requires xs == []
    requires forall k :: k in graph <==> k in graph0 || k in xs
    requires forall k :: k in graph ==> graph[k] == Get(graph0, k) - multiset(xs)[k]
    requires |reached| <= |xs|
    ensures graph == graph0 && reached == []
  {
  }

  /**
   * stop, as written: after closing a node it lowers the counters of the
   * node's dependents (`rdeps`) rather than of its dependencies.  A node is
   * closed first only when nothing depends on it, and then there is nothing
   * to lower, so stop closes exactly the listed nodes that have no
   * dependents and never reaches the others.
   */
  method Stop(g: seq<Node>, services: seq<nat>, env: Env) returns (err: Option<Error>, ghost closed: seq<nat>)
    requires InRange(g, services)
    ensures Distinct(closed) && InRange(g, closed)
    ensures forall x :: x in closed <==> x in services && g[x].rdeps == []
    ensures err == StopResult(g, closed, env)
  {
    var graph := StopGraph(g, services);
    ghost var graph0 := graph;
    var inflight: seq<nat> := Launch(graph);
    ghost var launched := inflight;
    var errs: map<Inst, Option<Error>> := map[];
    closed := [];
    while |inflight| > 0
      invariant graph == graph0
      invariant Split(launched, inflight, closed) && InRange(g, closed)
      invariant errs == StopErrs(g, closed, env)
      decreases |inflight|
    {
      var x;
      x, inflight := Receive(launched, inflight, closed);
      var e := StopService(g[x].inst, env);
      ClosedAppend(g, closed, x, env);
      closed := closed + [x];
      if e.Some? {
        errs := errs[g[x].inst := e];
      }
      assert g[x].rdeps == [];
      var reached;
      graph, reached := LowerCounts(graph, g[x].rdeps);
      NothingLowered(graph0, g[x].rdeps, graph, reached);
      inflight := inflight + reached;
    }
    err := if |errs| > 0 then Some(Manage(None, Some(Service(errs)))) else None;
  }

  // ------------------------------------------------ stop, dependencies first

  /** The nodes a slice lists. */
  function Members(xs: seq<nat>): set<nat>
  {
    set x | x in xs
  }

  /** The number of entries of `xs` that are listed in `services`. */
  method CountListed(xs: seq<nat>, services: seq<nat>) returns (n: int)
    ensures n == Among(xs, Members(services))
  {
    ghost var listed := Members(services);
    n := 0;
    var k := 0;
    while k < |xs|
      invariant 0 <= k <= |xs|
      invariant n == Among(xs[..k], listed)
    {
      assert xs[..k + 1][..k] == xs[..k];
      if xs[k] in services {
        n := n + 1;
      }
      k := k + 1;
    }
    assert xs[..k] == xs;
  }

  /** The counters of the corrected stop: each listed node's dependents that are listed too. */
  method StopGraphIntended(g: seq<Node>, services: seq<nat>) returns (graph: map<nat, int>)
    requires InRange(g, services)
    ensures graph.Keys == Members(services)
    ensures forall i :: i in graph ==> i < |g| && graph[i] == Among(g[i].rdeps, Members(services))
  {
    graph := map[];
    var k := 0;
    while k < |services|
      invariant 0 <= k <= |services|
      invariant graph.Keys == Members(services[..k])
      invariant forall i :: i in graph ==> i < |g| && graph[i] == Among(g[i].rdeps, Members(services))
    {
      assert services[..k + 1] == services[..k] + [services[k]];
      var n := CountListed(g[services[k]].rdeps, services);
      graph := graph[services[k] := n];
      k := k + 1;
    }
    assert services[..k] == services;
  }

  /** The corrected release loop: lower the counters of the dependencies, skipping unlisted ones. */
  method LowerListed(graph0: map<nat, int>, xs: seq<nat>) returns (graph: map<nat, int>, reached: seq<nat>)
    ensures graph.Keys == graph0.Keys
    ensures forall k :: k in graph ==> graph[k] == graph0[k] - multiset(xs)[k]
    ensures Distinct(reached)
    ensures forall r :: r in reached <==> r in graph0 && r in xs && 1 <= graph0[r] <= multiset(xs)[r]
  {
    graph, reached := graph0, [];
    var m := 0;
    while m < |xs|
      invariant 0 <= m <= |xs|
      invariant graph.Keys == graph0.Keys
      invariant forall k :: k in graph ==> graph[k] == graph0[k] - multiset(xs[..m])[k]
      invariant Distinct(reached)
      invariant forall r :: r in reached <==> r in graph0 && r in xs[..m] && 1 <= graph0[r] <= multiset(xs[..m])[r]
    {
      var d := xs[m];
      assert xs[..m + 1] == xs[..m] + [d];
      assert multiset(xs[..m + 1]) == multiset(xs[..m]) + multiset{d};
      if d in graph {
        var waiting := graph[d] - 1;
        graph := graph[d := waiting];
        if waiting == 0 {
          assert d !in reached;
          reached := reached + [d];
        }
      }
      m := m + 1;
    }
    assert xs[..m] == xs;
  }

  /** Every listed dependent of the node closed at position `p` was closed before it. */
  ghost predicate DependentsBefore(g: seq<Node>, listed: set<nat>, closed: seq<nat>, p: nat)
    requires p < |closed|
  {
    forall r :: r in listed && r < |g| && closed[p] in g[r].deps ==> r in closed[..p]
  }

  ghost predicate DependentsFirst(g: seq<Node>, listed: set<nat>, closed: seq<nat>)
  {
    forall p :: 0 <= p < |closed| ==> DependentsBefore(g, listed, closed, p)
  }

  /** The counters of the corrected stop: each listed node's listed dependents not yet closed. */
  ghost predicate StopCounting(g: seq<Node>, graph: map<nat, int>, listed: set<nat>, closed: seq<nat>)
  {
    && graph.Keys == listed
    && forall s :: s in listed ==> s < |g| && graph[s] == Among(g[s].rdeps, listed - Members(closed))
  }

  /** Nodes in flight are listed, not yet closed, and exactly those whose counter reached zero. */
  ghost predicate StopLaunched(graph: map<nat, int>, listed: set<nat>, inflight: seq<nat>, closed: seq<nat>)
    requires graph.Keys == listed
  {
    && Distinct(inflight) && Distinct(closed)
    && (forall x :: x in inflight ==> x in listed && x !in closed)
    && (forall x :: x in closed ==> x in listed)
    && (forall s :: s in listed ==> (s in closed || s in inflight <==> graph[s] == 0))
  }

  /** Closing `x` lowers each listed dependency's counter by the edges from `x` to it. */
  lemma RetireCounts(g: seq<Node>, graph: map<nat, int>, listed: set<nat>, closed: seq<nat>, x: nat)
    requires ValidArena(g) && StopCounting(g, graph, listed, closed)
    requires x in listed && x !in closed
    ensures forall d :: d in listed ==>
      graph[d] - multiset(g[x].deps)[d] == Among(g[d].rdeps, listed - Members(closed + [x]))
  {
    var live := listed - Members(closed);
    assert (listed - Members(closed + [x])) == live - {x};
    forall d | d in listed
      ensures graph[d] - multiset(g[x].deps)[d] == Among(g[d].rdeps, live - {x})
    {
      AmongRetire(g[d].rdeps, live, x);
      assert multiset(g[x].deps)[d] == multiset(g[d].rdeps)[x];
    }
  }

  /** A node whose counter is zero has every listed dependent closed already. */
  lemma IdleMeansDependentsClosed(g: seq<Node>, graph: map<nat, int>, listed: set<nat>, closed: seq<nat>, x: nat)
    requires ValidArena(g) && StopCounting(g, graph, listed, closed)
    requires x in listed && graph[x] == 0
    ensures forall r :: r in listed && r < |g| && x in g[r].deps ==> r in closed
  {
    AmongZero(g[x].rdeps, listed - Members(closed));
    forall r | r in listed && r < |g| && x in g[r].deps ensures r in closed {
      assert multiset(g[r].deps)[x] == multiset(g[x].rdeps)[r];
      assert r in g[x].rdeps;
      var k :| 0 <= k < |g[x].rdeps| && g[x].rdeps[k] == r;
    }
  }

  /** Appending a node whose listed dependents are all closed keeps dependents first. */
  lemma DependentsFirstExtend(g: seq<Node>, listed: set<nat>, closed: seq<nat>, x: nat)
    requires DependentsFirst(g, listed, closed)
    requires forall r :: r in listed && r < |g| && x in g[r].deps ==> r in closed
    ensures DependentsFirst(g, listed, closed + [x])
  {
    var c := closed + [x];
    forall p | 0 <= p < |c| ensures DependentsBefore(g, listed, c, p) {
      assert c[..p] == if p < |closed| then closed[..p] else closed;
      if p < |closed| {
        assert DependentsBefore(g, listed, closed, p);
      }
    }
  }

  /** Closing `x`, whose listed dependents are all closed: dependents stay first, and the counters to lower. */
  lemma Retire(g: seq<Node>, graph: map<nat, int>, listed: set<nat>, closed: seq<nat>, x: nat)
    requires ValidArena(g) && StopCounting(g, graph, listed, closed) && DependentsFirst(g, listed, closed)
    requires x in listed && x !in closed && graph[x] == 0
    ensures DependentsFirst(g, listed, closed + [x])
    ensures forall d :: d in listed ==>
      graph[d] - multiset(g[x].deps)[d] == Among(g[d].rdeps, listed - Members(closed + [x]))
  {
    IdleMeansDependentsClosed(g, graph, listed, closed, x);
    DependentsFirstExtend(g, listed, closed, x);
    RetireCounts(g, graph, listed, closed, x);
  }

  /** The bookkeeping of one more closed node: its range, the members, and the error map. */
  lemma ClosedAppend(g: seq<Node>, closed: seq<nat>, x: nat, env: Env)
    requires InRange(g, closed) && x < |g| && x !in closed
    ensures InRange(g, closed + [x])
    ensures Members(closed + [x]) == Members(closed) + {x}
    ensures StopErrs(g, closed + [x], env) ==
      var e := StopService(g[x].inst, env);
      if e.Some? then StopErrs(g, closed, env)[g[x].inst := e] else StopErrs(g, closed, env)
  {
    assert (closed + [x])[..|closed|] == closed;
  }

  /** One result of the corrected stop: record the node as closed and release its dependencies. */
  method StopStep(g: seq<Node>, graph0: map<nat, int>, inflight0: seq<nat>, errs0: map<Inst, Option<Error>>,
                  env: Env, ghost listed: set<nat>, ghost closed0: seq<nat>)
    returns (graph: map<nat, int>, inflight: seq<nat>, errs: map<Inst, Option<Error>>, ghost closed: seq<nat>)
    requires ValidArena(g) && |inflight0| > 0
    requires StopCounting(g, graph0, listed, closed0) && StopLaunched(graph0, listed, inflight0, closed0)
    requires DependentsFirst(g, listed, closed0) && InRange(g, closed0)
    requires errs0 == StopErrs(g, closed0, env)
    ensures StopCounting(g, graph, listed, closed) && StopLaunched(graph, listed, inflight, closed)
    ensures DependentsFirst(g, listed, closed) && InRange(g, closed)
    ensures errs == StopErrs(g, closed, env)
    ensures |closed| == |closed0| + 1 && Members(closed) == Members(closed0) + {closed[|closed| - 1]}
    ensures closed[|closed| - 1] !in closed0
  {
    var k :| 0 <= k < |inflight0|;
    var x := inflight0[k];
    var rest := inflight0[..k] + inflight0[k + 1..];
    RemoveAt(inflight0, k);
    assert x in inflight0;
    var e := StopService(g[x].inst, env);
    Retire(g, graph0, listed, closed0, x);
    ClosedAppend(g, closed0, x, env);
    closed := closed0 + [x];
    errs := errs0;
    if e.Some? {
      errs := errs[g[x].inst := e];
    }
    var reached;
    graph, reached := LowerListed(graph0, g[x].deps);
    StopReleased(g, graph0, graph, listed, closed0, x, inflight0, rest, reached);
    inflight := rest + reached;
  }

  /** Taking one entry out of a slice without repetitions. */
  lemma RemoveAt(xs: seq<nat>, k: nat)
    requires Distinct(xs) && k < |xs|
    ensures var rest := xs[..k] + xs[k + 1..];
      Distinct(rest) && xs[k] !in rest && forall y :: y in xs <==> y in rest || y == xs[k]
  {
    var rest := xs[..k] + xs[k + 1..];
    assert forall i :: 0 <= i < |rest| ==> rest[i] == if i < k then xs[i] else xs[i + 1];
    forall y | y in xs ensures y in rest || y == xs[k] {
      var i :| 0 <= i < |xs| && xs[i] == y;
      if i < k {
        assert rest[i] == y;
      } else if i > k {
        assert rest[i - 1] == y;
      }
    }
  }

  /** After closing `x` and lowering its dependencies' counters, the counters and the flight set agree again. */
  lemma StopReleased(g: seq<Node>, graph0: map<nat, int>, graph: map<nat, int>, listed: set<nat>, closed0: seq<nat>,
                     x: nat, inflight0: seq<nat>, rest: seq<nat>, reached: seq<nat>)
    requires StopCounting(g, graph0, listed, closed0) && StopLaunched(graph0, listed, inflight0, closed0)
    requires x in inflight0 && Distinct(rest) && x !in rest && forall y :: y in inflight0 <==> y in rest || y == x
    requires forall d :: d in listed ==>
      graph0[d] - multiset(g[x].deps)[d] == Among(g[d].rdeps, listed - Members(closed0 + [x]))
    requires graph.Keys == graph0.Keys
    requires forall d :: d in graph ==> graph[d] == graph0[d] - multiset(g[x].deps)[d]
    requires Distinct(reached)
    requires forall r :: r in reached <==> r in graph0 && r in g[x].deps && 1 <= graph0[r] <= multiset(g[x].deps)[r]
    ensures StopCounting(g, graph, listed, closed0 + [x])
    ensures StopLaunched(graph, listed, rest + reached, closed0 + [x])
  {
    var closed := closed0 + [x];
    var inflight := rest + reached;
    forall r | r in reached ensures r !in rest && r !in closed {
      assert graph0[r] != 0;
    }
    assert Distinct(inflight) by {
      forall p, q | 0 <= p < q < |inflight| ensures inflight[p] != inflight[q] {
        if p < |rest| && q >= |rest| {
          assert inflight[q] in reached;
        }
      }
    }
    assert Distinct(closed);
    forall s | s in listed ensures (s in closed || s in inflight <==> graph[s] == 0) {
      assert graph[s] >= 0;
    }
  }

  /**
   * stop as evidently intended: a listed node is closed once every listed
   * node that depends on it is closed, and closing it releases its
   * dependencies.  Nodes are closed dependents first; whatever is never
   * closed is held back by listed dependents of its own, so on an acyclic
   * graph every listed node is closed.
   */
  method StopIntended(g: seq<Node>, services: seq<nat>, env: Env) returns (err: Option<Error>, ghost closed: seq<nat>)
    requires ValidArena(g) && InRange(g, services)
    ensures Distinct(closed) && InRange(g, closed)
    ensures forall x :: x in closed ==> x in services
    ensures DependentsFirst(g, Members(services), closed)
    ensures DependedOnWithin(g, Members(services) - Members(closed))
    ensures Acyclic(g) ==> forall x :: x in services ==> x in closed
    ensures err == StopResult(g, closed, env)
  {
    ghost var listed := Members(services);
    var graph := StopGraphIntended(g, services);
    var inflight: seq<nat> := Launch(graph);
    var errs: map<Inst, Option<Error>> := map[];
    closed := [];
    assert listed - Members(closed) == listed;
    while |inflight| > 0
      invariant StopCounting(g, graph, listed, closed) && StopLaunched(graph, listed, inflight, closed)
      invariant DependentsFirst(g, listed, closed) && InRange(g, closed)
      invariant errs == StopErrs(g, closed, env)
      decreases listed - Members(closed)
    {
      graph, inflight, errs, closed := StopStep(g, graph, inflight, errs, env, listed, closed);
    }
    err := if |errs| > 0 then Some(Manage(None, Some(Service(errs)))) else None;
    StoppedAllUnblocked(g, graph, listed, closed);
  }

  /** When nothing is in flight, every listed node left open has a listed dependent left open. */
  lemma StoppedAllUnblocked(g: seq<Node>, graph: map<nat, int>, listed: set<nat>, closed: seq<nat>)
    requires ValidArena(g) && StopCounting(g, graph, listed, closed) && StopLaunched(graph, listed, [], closed)
    ensures DependedOnWithin(g, listed - Members(closed))
    ensures Acyclic(g) ==> forall x :: x in listed ==> x in closed
  {
    var open := listed - Members(closed);
    forall u | u in open ensures IsDepOfSome(g, u, open) {
      AmongZero(g[u].rdeps, open);
      var k :| 0 <= k < |g[u].rdeps| && g[u].rdeps[k] in open;
      var r := g[u].rdeps[k];
      assert multiset(g[u].rdeps)[r] == multiset(g[r].deps)[u];
      assert u in g[r].deps;
    }
    if Acyclic(g) {
      var order :| TopoOrder(g, order);
      TopoRulesOutDependedOnWithin(g, order, open);
      forall x | x in listed ensures x in closed {
        assert x !in open;
      }
    }
  }

  // ------------------------------------------------------------------ start

  /** What start comes to: an error value, or the process dies of a panic in a service's goroutine. */
  datatype RunResult = Finished(err: Option<Error>) | Crashed

  /** The drain after the first failure: the start error and the nodes handed on to stop, or a panic. */
  datatype Drained = Drained(startErr: Error, toStop: seq<nat>) | DrainCrashed

  /** A start that returned a non-nil error. */
  predicate Failed(o: StartOutcome)
  {
    o.Returned? && o.err.Some?
  }

  /** The instances of the listed nodes whose start returned nil. */
  function SucceededInsts(g: seq<Node>, xs: seq<nat>, env: Env): set<Inst>
    requires DepsInRange(g) && InRange(g, xs)
  {
    set x | x in xs && StartOutcomeOf(g, x, env) == Returned(None) :: g[x].inst
  }

  /** The instances of the listed nodes whose start returned an error. */
  function FailedInsts(g: seq<Node>, xs: seq<nat>, env: Env): set<Inst>
    requires DepsInRange(g) && InRange(g, xs)
  {
    set x | x in xs && Failed(StartOutcomeOf(g, x, env)) :: g[x].inst
  }

  lemma SucceededAppend(g: seq<Node>, xs: seq<nat>, x: nat, env: Env)
    requires DepsInRange(g) && InRange(g, xs) && x < |g|
    ensures SucceededInsts(g, xs + [x], env) ==
      SucceededInsts(g, xs, env) + (if StartOutcomeOf(g, x, env) == Returned(None) then {g[x].inst} else {})
  {
  }

  lemma FailedAppend(g: seq<Node>, xs: seq<nat>, x: nat, env: Env)
    requires DepsInRange(g) && InRange(g, xs) && x < |g|
    ensures FailedInsts(g, xs + [x], env) == FailedInsts(g, xs, env) + (if Failed(StartOutcomeOf(g, x, env)) then {g[x].inst} else {})
  {
  }

  /** `rest` and `seen` split `whole` between them, each without repetitions. */
  ghost predicate Split(whole: seq<nat>, rest: seq<nat>, seen: seq<nat>)
  {
    && Distinct(rest) && Distinct(seen)
    && (forall x :: x in whole <==> x in rest || x in seen)
    && (forall x :: x in rest ==> x !in seen)
  }

  /** Receive from `done`: whichever start in flight finishes next. */
  method Receive(ghost whole: seq<nat>, rest0: seq<nat>, ghost seen: seq<nat>) returns (x: nat, rest: seq<nat>)
    requires Split(whole, rest0, seen) && |rest0| > 0
    ensures x in whole && x in rest0
    ensures Split(whole, rest, seen + [x]) && |rest| == |rest0| - 1
  {
    var k :| 0 <= k < |rest0|;
    x := rest0[k];
    RemoveAt(rest0, k);
    rest := rest0[..k] + rest0[k + 1..];
  }

  /** The drain loop's invariant, as written: failures listed to stop, successes recorded with nil. */
  ghost predicate DrainState(g: seq<Node>, inflight: seq<nat>, rest: seq<nat>, seen: seq<nat>, toStop: seq<nat>,
                             startErrs: map<Inst, Option<Error>>, parentCancelled: bool, env: Env)
  {
    && DepsInRange(g) && InRange(g, inflight) && Split(inflight, rest, seen)
    && (forall x :: x in seen ==> x < |g| && !StartOutcomeOf(g, x, env).Panicked?)
    && Distinct(toStop)
    && (forall x :: x in toStop <==> x in seen && x < |g| && Failed(StartOutcomeOf(g, x, env)))
    && (parentCancelled ==> startErrs == map[])
    && (!parentCancelled ==> InRange(g, seen) && startErrs.Keys == SucceededInsts(g, seen, env))
    && (forall p :: p in startErrs ==> startErrs[p] == None)
  }

  /** One turn of the drain loop as written. */
  method DrainStep(g: seq<Node>, inflight: seq<nat>, rest0: seq<nat>, ghost seen0: seq<nat>, toStop0: seq<nat>,
                   startErrs0: map<Inst, Option<Error>>, parentCancelled: bool, env: Env)
    returns (crashed: bool, rest: seq<nat>, ghost seen: seq<nat>, toStop: seq<nat>, startErrs: map<Inst, Option<Error>>)
    requires DrainState(g, inflight, rest0, seen0, toStop0, startErrs0, parentCancelled, env) && |rest0| > 0
    ensures crashed ==> exists k :: 0 <= k < |inflight| && StartOutcomeOf(g, inflight[k], env).Panicked?
    ensures !crashed ==> DrainState(g, inflight, rest, seen, toStop, startErrs, parentCancelled, env) && |rest| < |rest0|
  {
    var x;
    x, rest := Receive(inflight, rest0, seen0);
    seen, toStop, startErrs := seen0 + [x], toStop0, startErrs0;
    var j :| 0 <= j < |inflight| && inflight[j] == x;
    var o := StartService(g, x, env);
    if o.Panicked? {
      crashed := true;
      return;
    }
    crashed := false;
    if !parentCancelled {
      SucceededAppend(g, seen0, x, env);
    }
    if o.err.Some? {
      toStop := toStop + [x];
    } else if !parentCancelled {
      startErrs := startErrs[g[x].inst := o.err];
    }
  }

  /**
   * The drain loop of start, as written: it waits for every start still in
   * flight, puts the ones that FAILED on the list handed to stop, and, unless
   * the parent context was already cancelled, records the ones that
   * SUCCEEDED in the ErrService with a nil error.  The error that triggered
   * the drain is recorded nowhere.
   */
  method Drain(g: seq<Node>, inflight: seq<nat>, parentCancelled: bool, env: Env) returns (d: Drained)
    requires DepsInRange(g) && InRange(g, inflight) && Distinct(inflight)
    ensures d.DrainCrashed? <==> exists k :: 0 <= k < |inflight| && StartOutcomeOf(g, inflight[k], env).Panicked?
    ensures d.Drained? ==> Distinct(d.toStop) && forall x :: x in d.toStop <==> x in inflight && Failed(StartOutcomeOf(g, x, env))
    ensures d.Drained? && parentCancelled ==> d.startErr == Canceled
    ensures d.Drained? && !parentCancelled ==>
      && d.startErr.Service?
      && d.startErr.errs.Keys == SucceededInsts(g, inflight, env)
      && forall p :: p in d.startErr.errs ==> d.startErr.errs[p] == None
  {
    var startErrs: map<Inst, Option<Error>> := map[];
    var toStop: seq<nat> := [];
    var rest := inflight;
    ghost var seen: seq<nat> := [];
    assert SucceededInsts(g, [], env) == {};
    while |rest| > 0
      invariant DrainState(g, inflight, rest, seen, toStop, startErrs, parentCancelled, env)
      decreases |rest|
    {
      var crashed;
      crashed, rest, seen, toStop, startErrs := DrainStep(g, inflight, rest, seen, toStop, startErrs, parentCancelled, env);
      if crashed {
        return DrainCrashed;
      }
    }
    if !parentCancelled {
      assert SucceededInsts(g, seen, env) == SucceededInsts(g, inflight, env);
    }
    d := Drained(if parentCancelled then Canceled else Service(startErrs), toStop);
  }

  /** The drain loop's invariant as evidently intended: failures recorded with their errors, successes listed to stop. */
  ghost predicate DrainIntendedState(g: seq<Node>, failed: nat, inflight: seq<nat>, rest: seq<nat>, seen: seq<nat>,
                                     toStop: seq<nat>, startErrs: map<Inst, Option<Error>>, parentCancelled: bool, env: Env)
  {
    && DepsInRange(g) && failed < |g| && InRange(g, inflight) && Split(inflight, rest, seen)
    && (forall x :: x in seen ==> x < |g| && !StartOutcomeOf(g, x, env).Panicked?)
    && Distinct(toStop)
    && (forall x :: x in toStop <==> x in seen && x < |g| && StartOutcomeOf(g, x, env) == Returned(None))
    && (parentCancelled ==> startErrs == map[])
    && (!parentCancelled ==> InRange(g, seen) && startErrs.Keys == {g[failed].inst} + FailedInsts(g, seen, env))
    && (forall p :: p in startErrs ==> startErrs[p].Some?)
  }

  /** One turn of the drain loop as evidently intended. */
  method DrainIntendedStep(g: seq<Node>, failed: nat, inflight: seq<nat>, rest0: seq<nat>, ghost seen0: seq<nat>, toStop0: seq<nat>,
                           startErrs0: map<Inst, Option<Error>>, parentCancelled: bool, env: Env)
    returns (crashed: bool, rest: seq<nat>, ghost seen: seq<nat>, toStop: seq<nat>, startErrs: map<Inst, Option<Error>>)
    requires DrainIntendedState(g, failed, inflight, rest0, seen0, toStop0, startErrs0, parentCancelled, env) && |rest0| > 0
    ensures crashed ==> exists k :: 0 <= k < |inflight| && StartOutcomeOf(g, inflight[k], env).Panicked?
    ensures !crashed ==> DrainIntendedState(g, failed, inflight, rest, seen, toStop, startErrs, parentCancelled, env) && |rest| < |rest0|
  {
    var x;
    x, rest := Receive(inflight, rest0, seen0);
    seen, toStop, startErrs := seen0 + [x], toStop0, startErrs0;
    var j :| 0 <= j < |inflight| && inflight[j] == x;
    var o := StartService(g, x, env);
    if o.Panicked? {
      crashed := true;
      return;
    }
    crashed := false;
    if !parentCancelled {
      FailedAppend(g, seen0, x, env);
    }
    if o.err.Some? {
      if !parentCancelled {
        startErrs := startErrs[g[x].inst := o.err];
      }
    } else {
      toStop := toStop + [x];
    }
  }

  /**
   * The drain loop as evidently intended: the failure that triggered it and
   * every failure that follows are recorded in the ErrService with their
   * errors, and the starts that succeeded are handed to stop.  The
   * ErrService is then never empty.
   */
  method DrainIntended(g: seq<Node>, failed: nat, cause: Error, inflight: seq<nat>, parentCancelled: bool, env: Env)
    returns (d: Drained)
    requires DepsInRange(g) && failed < |g| && InRange(g, inflight) && Distinct(inflight)
    ensures d.DrainCrashed? <==> exists k :: 0 <= k < |inflight| && StartOutcomeOf(g, inflight[k], env).Panicked?
    ensures d.Drained? ==> Distinct(d.toStop) && forall x :: x in d.toStop <==> x in inflight && StartOutcomeOf(g, x, env) == Returned(None)
    ensures d.Drained? && parentCancelled ==> d.startErr == Canceled
    ensures d.Drained? && !parentCancelled ==>
      && d.startErr.Service?
      && d.startErr.errs.Keys == {g[failed].inst} + FailedInsts(g, inflight, env)
      && |d.startErr.errs| > 0
      && forall p :: p in d.startErr.errs ==> d.startErr.errs[p].Some?
  {
    var startErrs: map<Inst, Option<Error>> := map[];
    if !parentCancelled {
      startErrs := map[g[failed].inst := Some(cause)];
    }
    var toStop: seq<nat> := [];
    var rest := inflight;
    ghost var seen: seq<nat> := [];
    assert FailedInsts(g, [], env) == {};
    while |rest| > 0
      invariant DrainIntendedState(g, failed, inflight, rest, seen, toStop, startErrs, parentCancelled, env)
      decreases |rest|
    {
      var crashed;
      crashed, rest, seen, toStop, startErrs := DrainIntendedStep(g, failed, inflight, rest, seen, toStop, startErrs, parentCancelled, env);
      if crashed {
        return DrainCrashed;
      }
    }
    if !parentCancelled {
      assert FailedInsts(g, seen, env) == FailedInsts(g, inflight, env);
      assert g[failed].inst in startErrs;
    }
    d := Drained(if parentCancelled then Canceled else Service(startErrs), toStop);
  }

  /** Every dependency of every node in `inflight` is in `running`. */
  ghost predicate Released(g: seq<Node>, inflight: seq<nat>, running: seq<nat>)
  {
    forall k :: 0 <= k < |inflight| ==> inflight[k] < |g| && forall d :: d in g[inflight[k]].deps ==> d in running
  }

  /** Every node in `xs` started and returned nil. */
  ghost predicate StartedCleanly(g: seq<Node>, xs: seq<nat>, env: Env)
  {
    forall k :: 0 <= k < |xs| ==> xs[k] < |g| && InRange(g, g[xs[k]].deps) && StartOutcomeOf(g, xs[k], env) == Returned(None)
  }

  lemma StartedCleanlyAppend(g: seq<Node>, xs: seq<nat>, ys: seq<nat>, env: Env)
    requires ValidArena(g) && StartedCleanly(g, xs, env) && InRange(g, ys)
    requires forall y :: y in ys ==> StartOutcomeOf(g, y, env) == Returned(None)
    ensures StartedCleanly(g, xs + ys, env)
  {
    forall k | 0 <= k < |xs + ys|
      ensures (xs + ys)[k] < |g| && InRange(g, g[(xs + ys)[k]].deps) && StartOutcomeOf(g, (xs + ys)[k], env) == Returned(None)
    {
      if k >= |xs| {
        assert (xs + ys)[k] == ys[k - |xs|];
        assert ys[k - |xs|] in ys;
      }
    }
  }

  /** Node `x` was launched once the first `n` successful starts were in, and those include all of its dependencies. */
  ghost predicate DepsStartedBefore(g: seq<Node>, x: nat, started: seq<nat>, n: nat)
  {
    x < |g| && n <= |started| && forall d :: d in g[x].deps ==> d in started[..n]
  }

  /**
   * The launches of start, in order: no node is launched twice, launch `j`
   * came after `after[j]` starts had succeeded and only once every
   * dependency of its node was among them, and every node that started
   * successfully had been launched.
   */
  ghost predicate LaunchedAfterDeps(g: seq<Node>, launched: seq<nat>, after: seq<nat>, started: seq<nat>)
  {
    && Distinct(launched) && |after| == |launched|
    && (forall j :: 0 <= j < |launched| ==> DepsStartedBefore(g, launched[j], started, after[j]))
    && (forall y :: y in started ==> y in launched)
  }

  /** The launch record of start's loop: what was launched has either started or is still in flight. */
  ghost predicate LaunchState(g: seq<Node>, launched: seq<nat>, after: seq<nat>, inflight: seq<nat>, running: seq<nat>)
  {
    && LaunchedAfterDeps(g, launched, after, running)
    && forall y :: y in launched <==> y in running || y in inflight
  }

  /** `n` copies of `v`. */
  function Repeat(n: nat, v: nat): (r: seq<nat>)
    ensures |r| == n && forall k :: 0 <= k < n ==> r[k] == v
  {
    seq(n, _ => v)
  }

  /** More successful starts, each of a launched node, keep the launch record. */
  lemma LaunchesGrow(g: seq<Node>, launched: seq<nat>, after: seq<nat>, running: seq<nat>, started: seq<nat>)
    requires LaunchedAfterDeps(g, launched, after, running)
    requires |running| <= |started| && started[..|running|] == running
    requires forall y :: y in started ==> y in launched
    ensures LaunchedAfterDeps(g, launched, after, started)
  {
    forall j | 0 <= j < |launched| ensures DepsStartedBefore(g, launched[j], started, after[j]) {
      assert started[..after[j]] == running[..after[j]];
    }
  }

  /**
   * The dependents a successful start released (`inflight` beyond `rest`)
   * are new launches, made after all of `running`.
   */
  lemma LaunchFresh(g: seq<Node>, graph: map<nat, int>, done: set<nat>, launched: seq<nat>, after: seq<nat>,
                    running: seq<nat>, rest: seq<nat>, inflight: seq<nat>)
    requires ValidArena(g) && Counting(g, graph, done) && ReadyStack(g, graph, inflight, done)
    requires forall y :: y in done <==> y in running
    requires rest <= inflight
    requires LaunchedAfterDeps(g, launched, after, running)
    requires forall y :: y in launched <==> y in running || y in rest
    ensures var released := inflight[|rest|..];
      LaunchState(g, launched + released, after + Repeat(|released|, |running|), inflight, running)
  {
    var released := inflight[|rest|..];
    var l, a := launched + released, after + Repeat(|released|, |running|);
    assert inflight == rest + released;
    forall j | 0 <= j < |l| ensures DepsStartedBefore(g, l[j], running, a[j]) {
      if j >= |launched| {
        var y := released[j - |launched|];
        assert y == inflight[|rest| + j - |launched|] && y !in done;
        PendingZero(g[y].deps, done);
        forall d | d in g[y].deps ensures d in running[..|running|] {
          var q :| 0 <= q < |g[y].deps| && g[y].deps[q] == d;
          assert running[..|running|] == running;
        }
      }
    }
    forall p, q | 0 <= p < q < |l| ensures l[p] != l[q] {
      if p < |launched| && q >= |launched| {
        assert l[q] == inflight[|rest| + q - |launched|];
        assert l[q] !in done;
        if l[p] in rest {
          var m :| 0 <= m < |rest| && rest[m] == l[p];
          assert inflight[m] == l[p];
        }
      } else if p >= |launched| {
        assert l[p] == inflight[|rest| + p - |launched|] && l[q] == inflight[|rest| + q - |launched|];
      }
    }
  }

  /**
   * The failure path of start, as evidently intended: wait for every start
   * still in flight, record the failures (the first one included), and
   * stop everything that did start, dependents first.  A panic in any of
   * those starts ends the process instead.  `started` is what had started
   * when the stop began; `closed` is the order the stop closed it in.
   */
  method Abort(g: seq<Node>, failed: nat, cause: Error, inflight: seq<nat>, running: seq<nat>, parentCancelled: bool, env: Env)
    returns (r: RunResult, started: seq<nat>, ghost closed: seq<nat>)
    requires ValidArena(g) && Acyclic(g) && failed < |g|
    requires InRange(g, inflight) && Distinct(inflight) && Released(g, inflight, running)
    requires Distinct(running) && DepsFirst(g, running) && StartedCleanly(g, running, env)
    requires forall x :: x in inflight ==> x !in running
    ensures r.Crashed? <==> exists k :: 0 <= k < |inflight| && StartOutcomeOf(g, inflight[k], env).Panicked?
    ensures Distinct(started) && DepsFirst(g, started) && StartedCleanly(g, started, env)
    ensures |started| >= |running| && started[..|running|] == running
    ensures r.Crashed? ==> started == running
    ensures r.Finished? ==>
      && (forall x :: x in started <==> x in running || (x in inflight && StartOutcomeOf(g, x, env) == Returned(None)))
      && Distinct(closed) && InRange(g, closed) && Members(closed) == Members(started) && DependentsFirst(g, Members(started), closed)
      && r.err.Some? && r.err.value.Manage? && r.err.value.stop == StopResult(g, closed, env)
      && r.err.value.start.Some?
      && (parentCancelled ==> r.err.value.start.value == Canceled)
      && (!parentCancelled ==>
            && r.err.value.start.value.Service?
            && r.err.value.start.value.errs.Keys == {g[failed].inst} + FailedInsts(g, inflight, env)
            && forall p :: p in r.err.value.start.value.errs ==> r.err.value.start.value.errs[p].Some?)
  {
    var d := DrainIntended(g, failed, cause, inflight, parentCancelled, env);
    if d.DrainCrashed? {
      return Crashed, running, [];
    }
    var all := running + d.toStop;
    forall y | y in d.toStop ensures y < |g| && y !in running && (forall dep :: dep in g[y].deps ==> dep in running) {
      var j :| 0 <= j < |inflight| && inflight[j] == y;
    }
    assert InRange(g, d.toStop) by {
      forall j | 0 <= j < |d.toStop| ensures d.toStop[j] < |g| {
        assert d.toStop[j] in d.toStop;
      }
    }
    DepsFirstAppend(g, running, d.toStop);
    StartedCleanlyAppend(g, running, d.toStop, env);
    assert Distinct(all) by {
      forall p, q | 0 <= p < q < |all| ensures all[p] != all[q] {
        if q >= |running| && p < |running| {
          assert all[q] in d.toStop;
        } else if p >= |running| {
          assert all[p] == d.toStop[p - |running|] && all[q] == d.toStop[q - |running|];
        }
      }
    }
    var stopErr;
    stopErr, closed := StopIntended(g, all, env);
    started := all;
    return Finished(Some(Manage(Some(d.startErr), stopErr))), started, closed;
  }

  /** What start returns after a failed start, and what it stopped on the way. */
  ghost predicate StartFailed(g: seq<Node>, err: Error, launched: seq<nat>, started: seq<nat>, closed: seq<nat>, parentCancelled: bool, env: Env)
  {
    && err.Manage? && err.start.Some?
    && (parentCancelled ==> err.start.value == Canceled)
    && (!parentCancelled ==>
          && err.start.value.Service?
          && forall p :: p in err.start.value.errs ==> err.start.value.errs[p].Some?)
    && (exists i :: && i in launched && i < |g| && InRange(g, g[i].deps) && Failed(StartOutcomeOf(g, i, env))
                    && (!parentCancelled ==> g[i].inst in err.start.value.errs))
    && Distinct(closed) && InRange(g, closed) && err.stop == StopResult(g, closed, env)
    && Members(closed) == Members(started) && DependentsFirst(g, Members(started), closed)
  }

  /** The state of start's loop: counters, launched starts, and the nodes recorded as running. */
  ghost predicate StartState(g: seq<Node>, graph: map<nat, int>, inflight: seq<nat>, done: set<nat>, running: seq<nat>, env: Env)
  {
    && Counting(g, graph, done) && ReadyStack(g, graph, inflight, done)
    && done <= Range(|g|) && |running| == |done| && Distinct(running)
    && (forall x :: x in done <==> x in running) && DepsFirst(g, running)
    && StartedCleanly(g, running, env)
  }

  /** A launched start has all of its dependencies running. */
  lemma LaunchedReleased(g: seq<Node>, graph: map<nat, int>, inflight: seq<nat>, done: set<nat>, running: seq<nat>, env: Env)
    requires ValidArena(g) && StartState(g, graph, inflight, done, running, env)
    ensures Released(g, inflight, running)
  {
    forall k | 0 <= k < |inflight| ensures inflight[k] < |g| && forall d :: d in g[inflight[k]].deps ==> d in running {
      var y := inflight[k];
      PendingZero(g[y].deps, done);
      forall d | d in g[y].deps ensures d in running {
        var j :| 0 <= j < |g[y].deps| && g[y].deps[j] == d;
      }
    }
  }

  /** The starts still in flight besides `inflight[k]` are released and not running. */
  lemma OthersReleased(g: seq<Node>, inflight: seq<nat>, running: seq<nat>, k: nat)
    requires Released(g, inflight, running) && Distinct(inflight) && k < |inflight|
    requires forall j :: 0 <= j < |inflight| ==> inflight[j] !in running
    ensures var rest := inflight[..k] + inflight[k + 1..];
      && InRange(g, rest) && Distinct(rest) && Released(g, rest, running)
      && forall y :: y in rest ==> y !in running
  {
    var rest := inflight[..k] + inflight[k + 1..];
    RemoveAt(inflight, k);
    forall j | 0 <= j < |rest| ensures rest[j] < |g| && forall d :: d in g[rest[j]].deps ==> d in running {
      assert rest[j] in inflight;
      var q :| 0 <= q < |inflight| && inflight[q] == rest[j];
    }
    forall y | y in rest ensures y !in running {
      var q :| 0 <= q < |inflight| && inflight[q] == y;
    }
  }

  /**
   * The start of `x` failed with `cause`: the other launched starts `rest`
   * are drained and what started is stopped.
   */
  method Fail(g: seq<Node>, x: nat, rest: seq<nat>, running: seq<nat>, cause: Error, parentCancelled: bool, env: Env,
              ghost launched: seq<nat>, ghost after: seq<nat>)
    returns (r: RunResult, started: seq<nat>, ghost closed: seq<nat>)
    requires ValidArena(g) && Acyclic(g) && x < |g|
    requires StartOutcomeOf(g, x, env) == Returned(Some(cause))
    requires InRange(g, rest) && Distinct(rest) && Released(g, rest, running)
    requires Distinct(running) && DepsFirst(g, running) && StartedCleanly(g, running, env)
    requires forall y :: y in rest ==> y !in running
    requires LaunchedAfterDeps(g, launched, after, running) && x in launched
    requires forall y :: y in rest ==> y in launched
    ensures r.Crashed? ==> exists i :: i in launched && i < |g| && StartOutcomeOf(g, i, env).Panicked?
    ensures r.Finished? ==> r.err.Some? && StartFailed(g, r.err.value, launched, started, closed, parentCancelled, env)
    ensures Distinct(started) && DepsFirst(g, started) && StartedCleanly(g, started, env)
    ensures LaunchedAfterDeps(g, launched, after, started)
  {
    r, started, closed := Abort(g, x, cause, rest, running, parentCancelled, env);
    assert forall y :: y in started ==> y in running || y in rest;
    LaunchesGrow(g, launched, after, running, started);
    if r.Crashed? {
      ghost var j :| 0 <= j < |rest| && StartOutcomeOf(g, rest[j], env).Panicked?;
      assert rest[j] < |g| && rest[j] in launched;
    } else {
      assert Failed(StartOutcomeOf(g, x, env));
    }
  }

  /**
   * One turn of start's loop: take the result of one launched start.  A
   * panic ends the process; a failure ends the run through the failure
   * path; a success records the node as running and launches the
   * dependents it released.
   */
  method StartStep(g: seq<Node>, graph0: map<nat, int>, inflight0: seq<nat>, ghost done0: set<nat>, running0: seq<nat>, parentCancelled: bool, env: Env,
                   ghost launched0: seq<nat>, ghost after0: seq<nat>)
    returns (halt: Option<RunResult>, graph: map<nat, int>, inflight: seq<nat>, ghost done: set<nat>, running: seq<nat>, ghost closed: seq<nat>,
             ghost launched: seq<nat>, ghost after: seq<nat>)
    requires ValidArena(g) && Acyclic(g) && |inflight0| > 0
    requires StartState(g, graph0, inflight0, done0, running0, env)
    requires LaunchState(g, launched0, after0, inflight0, running0)
    ensures halt.None? ==> StartState(g, graph, inflight, done, running, env) && done0 < done
    ensures halt.None? ==> LaunchState(g, launched, after, inflight, running)
    ensures halt != Some(Finished(None))
    ensures Distinct(running) && DepsFirst(g, running) && StartedCleanly(g, running, env)
    ensures LaunchedAfterDeps(g, launched, after, running)
    ensures halt.Some? && halt.value.Crashed? ==> exists i :: i in launched && i < |g| && StartOutcomeOf(g, i, env).Panicked?
    ensures halt.Some? && halt.value.Finished? ==> StartFailed(g, halt.value.err.value, launched, running, closed, parentCancelled, env)
    ensures (forall i :: 0 <= i < |g| ==> StartOutcomeOf(g, i, env) == Returned(None)) ==> halt.None?
  {
    var k :| 0 <= k < |inflight0|;
    var x := inflight0[k];
    var o := StartService(g, x, env);
    if o.Panicked? {
      assert x < |g| && x in launched0 && StartOutcomeOf(g, x, env).Panicked?;
      return Some(Crashed), graph0, inflight0, done0, running0, [], launched0, after0;
    }
    if o.err.Some? {
      LaunchedReleased(g, graph0, inflight0, done0, running0, env);
      OthersReleased(g, inflight0, running0, k);
      var rest := inflight0[..k] + inflight0[k + 1..];
      assert forall y :: y in rest ==> y in inflight0;
      var r, started;
      r, started, closed := Fail(g, x, rest, running0, o.err.value, parentCancelled, env, launched0, after0);
      return Some(r), graph0, inflight0, done0, started, closed, launched0, after0;
    }
    graph, inflight, done, running, launched, after := Proceed(g, graph0, inflight0, done0, running0, k, env, launched0, after0);
    halt, closed := None, [];
  }

  /** A start that returned nil: record the node as running and release its dependents. */
  method Proceed(g: seq<Node>, graph0: map<nat, int>, inflight0: seq<nat>, ghost done0: set<nat>, running0: seq<nat>, k: nat, env: Env,
                 ghost launched0: seq<nat>, ghost after0: seq<nat>)
    returns (graph: map<nat, int>, inflight: seq<nat>, ghost done: set<nat>, running: seq<nat>, ghost launched: seq<nat>, ghost after: seq<nat>)
    requires ValidArena(g) && Acyclic(g) && k < |inflight0|
    requires StartState(g, graph0, inflight0, done0, running0, env)
    requires LaunchState(g, launched0, after0, inflight0, running0)
    requires inflight0[k] < |g| && StartOutcomeOf(g, inflight0[k], env) == Returned(None)
    ensures StartState(g, graph, inflight, done, running, env) && done0 < done
    ensures LaunchState(g, launched, after, inflight, running)
    ensures running == running0 + [inflight0[k]]
  {
    graph, inflight, done, running := Succeed(g, graph0, inflight0, done0, running0, k, env);
    LaunchSettled(g, graph, done, launched0, after0, running0, inflight0, k, inflight);
    ghost var released := inflight[|inflight0| - 1..];
    launched, after := launched0 + released, after0 + Repeat(|released|, |running|);
  }

  /** The counters and the running list after `inflight0[k]` returned nil; its dependents are pushed after the other starts in flight. */
  method Succeed(g: seq<Node>, graph0: map<nat, int>, inflight0: seq<nat>, ghost done0: set<nat>, running0: seq<nat>, k: nat, env: Env)
    returns (graph: map<nat, int>, inflight: seq<nat>, ghost done: set<nat>, running: seq<nat>)
    requires ValidArena(g) && Acyclic(g) && k < |inflight0|
    requires StartState(g, graph0, inflight0, done0, running0, env)
    requires inflight0[k] < |g| && StartOutcomeOf(g, inflight0[k], env) == Returned(None)
    ensures StartState(g, graph, inflight, done, running, env) && done0 < done
    ensures running == running0 + [inflight0[k]]
    ensures inflight0[..k] + inflight0[k + 1..] <= inflight
  {
    var x := inflight0[k];
    ghost var doneSeq;
    graph, inflight, done, doneSeq := Settle(g, graph0, inflight0, k, done0, running0);
    StartedCleanlyAppend(g, running0, [x], env);
    running := running0 + [x];
  }

  /**
   * The launch record after `inflight0[k]` started successfully: it joins
   * the successful starts, and what it released is launched after them.
   */
  lemma LaunchSettled(g: seq<Node>, graph: map<nat, int>, done: set<nat>, launched0: seq<nat>, after0: seq<nat>,
                      running0: seq<nat>, inflight0: seq<nat>, k: nat, inflight: seq<nat>)
    requires ValidArena(g) && Counting(g, graph, done) && ReadyStack(g, graph, inflight, done)
    requires k < |inflight0| && Distinct(inflight0)
    requires forall y :: y in done <==> y in running0 + [inflight0[k]]
    requires inflight0[..k] + inflight0[k + 1..] <= inflight
    requires LaunchState(g, launched0, after0, inflight0, running0)
    ensures var released, running := inflight[|inflight0| - 1..], running0 + [inflight0[k]];
      LaunchState(g, launched0 + released, after0 + Repeat(|released|, |running|), inflight, running)
  {
    var rest := inflight0[..k] + inflight0[k + 1..];
    var running := running0 + [inflight0[k]];
    RemoveAt(inflight0, k);
    assert |rest| == |inflight0| - 1;
    LaunchesGrow(g, launched0, after0, running0, running);
    LaunchFresh(g, graph, done, launched0, after0, running, rest, inflight);
  }

  /** The counters of start once every node is launched or settled: all started in dependency order, if acyclic. */
  lemma StartedAll(g: seq<Node>, graph: map<nat, int>, done: set<nat>, running: seq<nat>)
    requires ValidArena(g) && Acyclic(g)
    requires Counting(g, graph, done) && ReadyStack(g, graph, [], done)
    requires done <= Range(|g|) && |running| == |done| && Distinct(running)
    requires (forall x :: x in done <==> x in running) && DepsFirst(g, running)
    ensures TopoOrder(g, running)
  {
    NothingStuck(g, graph, done);
    RangeSize(|g|);
    ProcessedAllIsTopo(g, running);
  }

  /** With the ready stack empty, the nodes not processed block themselves. */
  lemma IdleStuck(g: seq<Node>, graph: map<nat, int>, done: set<nat>)
    requires forall i :: 0 <= i < |g| ==> InRange(g, g[i].deps)
    requires Counting(g, graph, done) && ReadyStack(g, graph, [], done)
    ensures SelfBlocking(g, Range(|g|) - done)
  {
    StuckWaitOnStuck(g, graph, done, Range(|g|) - done);
  }

  /** On an acyclic arena, once no node is ready every node has been processed. */
  lemma NothingStuck(g: seq<Node>, graph: map<nat, int>, done: set<nat>)
    requires forall i :: 0 <= i < |g| ==> InRange(g, g[i].deps)
    requires Acyclic(g) && Counting(g, graph, done) && ReadyStack(g, graph, [], done)
    requires done <= Range(|g|)
    ensures done == Range(|g|)
  {
    IdleStuck(g, graph, done);
    NoneBlocked(g, Range(|g|) - done);
    NoneLeft(done, |g|);
  }

  /** A subset of the arena's nodes that leaves none out is all of them. */
  lemma NoneLeft(a: set<nat>, n: nat)
    requires a <= Range(n) && Range(n) - a == {}
    ensures a == Range(n)
  {
    forall i | i in Range(n) ensures i in a {
      assert i !in Range(n) - a;
    }
  }

  /** An acyclic arena has no self-blocking set but the empty one. */
  lemma NoneBlocked(g: seq<Node>, stuck: set<nat>)
    requires Acyclic(g) && SelfBlocking(g, stuck)
    ensures stuck == {}
  {
    if stuck != {} {
      BlockedIsCyclic(g, stuck);
    }
  }

  /** The first launch of start: the nodes without dependencies, with nothing running yet. */
  lemma FirstLaunch(g: seq<Node>, graph: map<nat, int>, inflight: seq<nat>, env: Env)
    requires graph.Keys == Range(|g|) && forall i :: 0 <= i < |g| ==> graph[i] == |g[i].deps|
    requires Distinct(inflight) && forall x :: x in inflight <==> x in graph && graph[x] <= 0
    ensures StartState(g, graph, inflight, {}, [], env)
  {
    forall i | 0 <= i < |g| ensures graph[i] == Pending(g[i].deps, {}) {
      PendingNothingDone(g[i].deps);
    }
    forall k | 0 <= k < |inflight| ensures inflight[k] < |g| {
      assert inflight[k] in graph;
    }
  }

  /** The first launch needs no start to have succeeded: its nodes have no dependencies. */
  lemma FirstLaunchRecord(g: seq<Node>, graph: map<nat, int>, inflight: seq<nat>)
    requires graph.Keys == Range(|g|) && forall i :: 0 <= i < |g| ==> graph[i] == |g[i].deps|
    requires Distinct(inflight) && forall x :: x in inflight <==> x in graph && graph[x] <= 0
    ensures LaunchState(g, inflight, Repeat(|inflight|, 0), inflight, [])
  {
    forall j | 0 <= j < |inflight| ensures DepsStartedBefore(g, inflight[j], [], 0) {
      assert inflight[j] in graph;
    }
  }

  /** The scheduling loop of start, on a graph that passed the cycle check. */
  method Run(g: seq<Node>, parentCancelled: bool, env: Env)
    returns (r: RunResult, ghost started: seq<nat>, ghost closed: seq<nat>, ghost launched: seq<nat>, ghost after: seq<nat>)
    requires ValidArena(g) && Acyclic(g)
    ensures Distinct(started) && DepsFirst(g, started) && StartedCleanly(g, started, env)
    ensures LaunchedAfterDeps(g, launched, after, started)
    ensures r == Finished(None) ==> TopoOrder(g, started)
    ensures (forall i :: 0 <= i < |g| ==> StartOutcomeOf(g, i, env) == Returned(None)) ==> r == Finished(None)
    ensures r.Crashed? ==> exists i :: i in launched && i < |g| && StartOutcomeOf(g, i, env).Panicked?
    ensures r.Finished? && r.err.Some? ==> StartFailed(g, r.err.value, launched, started, closed, parentCancelled, env)
  {
    var graph: map<nat, int> := StartGraph(g);
    var inflight: seq<nat> := Launch(graph);
    FirstLaunch(g, graph, inflight, env);
    launched, after := inflight, Repeat(|inflight|, 0);
    FirstLaunchRecord(g, graph, inflight);
    var running: seq<nat> := [];
    ghost var done: set<nat> := {};
    while |inflight| > 0
      invariant StartState(g, graph, inflight, done, running, env)
      invariant LaunchState(g, launched, after, inflight, running)
      decreases Range(|g|) - done
    {
      var halt;
      halt, graph, inflight, done, running, closed, launched, after :=
        StartStep(g, graph, inflight, done, running, parentCancelled, env, launched, after);
      if halt.Some? {
        return halt.value, running, closed, launched, after;
      }
    }
    StartedAll(g, graph, done, running);
    return Finished(None), running, [], launched, after;
  }

  /**
   * start: check for cycles, then start every node once all its
   * dependencies have started, in whatever order the results come back.
   * `parentCancelled` says whether the caller's context was already
   * cancelled when the first failure came back.  The nodes started
   * successfully (`started`) always come after their dependencies; a clean
   * run starts all of them; when no start can fail or panic the run is
   * clean whatever the order.  After a failure everything that started is
   * stopped again (`closed`), dependents first.
   */
  method Start(g: seq<Node>, parentCancelled: bool, env: Env)
    returns (r: RunResult, ghost started: seq<nat>, ghost closed: seq<nat>, ghost launched: seq<nat>, ghost after: seq<nat>)
    requires ValidArena(g)
    ensures Distinct(started) && DepsFirst(g, started) && StartedCleanly(g, started, env)
    ensures LaunchedAfterDeps(g, launched, after, started)
    ensures !Acyclic(g) ==> r.Finished? && r.err.Some? && r.err.value.Cycle? && started == [] && launched == []
    ensures r == Finished(None) ==> TopoOrder(g, started)
    ensures Acyclic(g) && (forall i :: 0 <= i < |g| ==> StartOutcomeOf(g, i, env) == Returned(None)) ==> r == Finished(None)
    ensures r.Crashed? ==> exists i :: i in launched && i < |g| && StartOutcomeOf(g, i, env).Panicked?
    ensures r.Finished? && r.err.Some? && Acyclic(g) ==> StartFailed(g, r.err.value, launched, started, closed, parentCancelled, env)
  {
    var checkErr, stuck := Check(g);
    if checkErr.Some? {
      return Finished(checkErr), [], [], [], [];
    }
    r, started, closed, launched, after := Run(g, parentCancelled, env);
  }
}
