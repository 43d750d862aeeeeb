/**
 * init.go, `graph`: turn the registry's two maps into the node arena.
 * `serviceMap` (instance -> node) is `index`; a node is created the first
 * time its instance is met, either as the service being visited or as one
 * of its dependencies, and each declared dependency type appends one edge
 * to `deps` and the matching back edge to `rdeps`.
 *
 * The builder is specified as a fold over one iteration order of the
 * `dependencies` map (`Services`), and the properties of the arena it
 * produces are proved about that fold.  `Labels` chooses how a node first
 * met as a dependency is labelled: `AsWritten` reproduces init.go:49-51,
 * which labels it with the dependent `v`; `ByKey` labels it with the
 * dependency itself.
 */
module Graph {
  import opened Wrappers
  import opened Reflect
  import opened Errors
  import opened Service

  datatype Labels = AsWritten | ByKey

  /** The builder's state: the nodes created so far and `serviceMap`. */
  datatype Build = Build(g: seq<Node>, index: map<Inst, nat>)

  /** A builder step either goes on or stops with the missing-dependency error. */
  datatype Outcome = Ok(b: Build) | Fail(err: Error)

  /** Every node index `serviceMap` holds is a node of the arena. */
  ghost predicate Indexed(b: Build)
  {
    forall k :: k in b.index ==> b.index[k] < |b.g|
  }

  /**
   * `serviceMap[key]`, creating the node (labelled `name`) when it is
   * missing; the second component is the node's index.
   */
  function NodeFor(b: Build, key: Inst, name: Inst): (r: (Build, nat))
    requires Indexed(b)
    ensures Indexed(r.0) && r.1 < |r.0.g| && key in r.0.index && r.0.index[key] == r.1
    ensures |b.g| <= |r.0.g| && r.0.g[..|b.g|] == b.g
    ensures forall k :: k in b.index ==> k in r.0.index && r.0.index[k] == b.index[k]
  {
    if key in b.index then (b, b.index[key])
    else (Build(b.g + [Node(name, [], [])], b.index[key := |b.g|]), |b.g|)
  }

  /** `s.deps = append(s.deps, sd)` then `sd.rdeps = append(sd.rdeps, s)`. */
  function Link(g: seq<Node>, s: nat, sd: nat): (r: seq<Node>)
    requires s < |g| && sd < |g|
    ensures |r| == |g|
    ensures forall i :: 0 <= i < |g| ==> r[i].inst == g[i].inst
  {
    var g1 := g[s := g[s].(deps := g[s].deps + [sd])];
    g1[sd := g1[sd].(rdeps := g1[sd].rdeps + [s])]
  }

  /** One dependency type `t` of the visited instance `v`, whose node is `s`. */
  function Edge(impls: map<Iface, Inst>, b: Build, v: Inst, s: nat, t: Iface, labels: Labels): (r: Outcome)
    requires Indexed(b) && s < |b.g|
    ensures r.Ok? ==> Indexed(r.b) && |b.g| <= |r.b.g|
  {
    if t !in impls then Fail(MissingDependency(v, t))
    else
      var (b1, sd) := NodeFor(b, impls[t], if labels == ByKey then impls[t] else v);
      Ok(Build(Link(b1.g, s, sd), b1.index))
  }

  /** The inner loop of graph: the dependency types `ts` of `v`, in order. */
  function AddDeps(impls: map<Iface, Inst>, b: Build, v: Inst, s: nat, ts: seq<Iface>, labels: Labels): (r: Outcome)
    requires Indexed(b) && s < |b.g|
    ensures r.Ok? ==> Indexed(r.b) && |b.g| <= |r.b.g|
  {
    if ts == [] then Ok(b)
    else
      match AddDeps(impls, b, v, s, ts[..|ts| - 1], labels)
      case Fail(e) => Fail(e)
      case Ok(b1) => Edge(impls, b1, v, s, ts[|ts| - 1], labels)
  }

  /** One turn of the outer loop of graph: the node of `v`, then its dependencies. */
  function Visit(impls: map<Iface, Inst>, deps: map<Inst, seq<Iface>>, b: Build, v: Inst, labels: Labels): (r: Outcome)
    requires Indexed(b) && v in deps
    ensures r.Ok? ==> Indexed(r.b)
  {
    var (b1, s) := NodeFor(b, v, v);
    AddDeps(impls, b1, v, s, deps[v], labels)
  }

  /** graph, for the iteration order `order` of the `dependencies` map. */
  function Services(impls: map<Iface, Inst>, deps: map<Inst, seq<Iface>>, order: seq<Inst>, labels: Labels): (r: Outcome)
    requires forall k :: 0 <= k < |order| ==> order[k] in deps
    ensures r.Ok? ==> Indexed(r.b)
  {
    if order == [] then Ok(Build([], map[]))
    else
      match Services(impls, deps, order[..|order| - 1], labels)
      case Fail(e) => Fail(e)
      case Ok(b1) => Visit(impls, deps, b1, order[|order| - 1], labels)
  }

  // ------------------------------------------------------------ the arena

  lemma NewNodeArena(g: seq<Node>, name: Inst)
    requires ValidArena(g)
    ensures ValidArena(g + [Node(name, [], [])])
  {
    var g' := g + [Node(name, [], [])];
    forall i, j | 0 <= i < |g'| && 0 <= j < |g'| ensures multiset(g'[i].deps)[j] == multiset(g'[j].rdeps)[i] {
      if i < |g| && j < |g| {
        assert g'[i] == g[i] && g'[j] == g[j];
      } else if i < |g| {
        assert j !in g[i].deps;
      } else if j < |g| {
        assert i !in g[j].rdeps;
      }
    }
  }

  /** The edges of `Link(g, s, sd)`: one more `sd` in `s`'s deps, one more `s` in `sd`'s rdeps. */
  lemma LinkEdges(g: seq<Node>, s: nat, sd: nat)
    requires s < |g| && sd < |g|
    ensures forall i :: 0 <= i < |g| ==> Link(g, s, sd)[i].deps == if i == s then g[i].deps + [sd] else g[i].deps
    ensures forall i :: 0 <= i < |g| ==> Link(g, s, sd)[i].rdeps == if i == sd then g[i].rdeps + [s] else g[i].rdeps
  {
  }

  lemma LinkInverse(g: seq<Node>, s: nat, sd: nat)
    requires Inverse(g) && s < |g| && sd < |g|
    ensures Inverse(Link(g, s, sd))
  {
    var r := Link(g, s, sd);
    forall i, j | 0 <= i < |r| && 0 <= j < |r| ensures multiset(r[i].deps)[j] == multiset(r[j].rdeps)[i] {
      LinkInverseAt(g, s, sd, i, j);
    }
  }

  /** The edge count between nodes `i` and `j` after linking, seen from both ends. */
  lemma LinkInverseAt(g: seq<Node>, s: nat, sd: nat, i: nat, j: nat)
    requires Inverse(g) && s < |g| && sd < |g| && i < |g| && j < |g|
    ensures multiset(Link(g, s, sd)[i].deps)[j] == multiset(Link(g, s, sd)[j].rdeps)[i]
  {
    var r := Link(g, s, sd);
    LinkEdges(g, s, sd);
    assert multiset(g[i].deps)[j] == multiset(g[j].rdeps)[i];
    if i == s {
      assert multiset(r[i].deps) == multiset(g[i].deps) + multiset{sd};
    }
    if j == sd {
      assert multiset(r[j].rdeps) == multiset(g[j].rdeps) + multiset{s};
    }
  }

  /** Adding an edge and its back edge keeps `rdeps` the inverse of `deps`. */
  lemma LinkArena(g: seq<Node>, s: nat, sd: nat)
    requires ValidArena(g) && s < |g| && sd < |g|
    ensures ValidArena(Link(g, s, sd))
    ensures forall i :: 0 <= i < |g| && i != s ==> Link(g, s, sd)[i].deps == g[i].deps
    ensures Link(g, s, sd)[s].deps == g[s].deps + [sd]
  {
    var r := Link(g, s, sd);
    LinkEdges(g, s, sd);
    LinkInverse(g, s, sd);
    forall i, k | 0 <= i < |r| && 0 <= k < |r[i].deps| ensures r[i].deps[k] < |r| {
      if k < |g[i].deps| {
        assert r[i].deps[k] == g[i].deps[k];
      }
    }
    forall i, k | 0 <= i < |r| && 0 <= k < |r[i].rdeps| ensures r[i].rdeps[k] < |r| {
      if k < |g[i].rdeps| {
        assert r[i].rdeps[k] == g[i].rdeps[k];
      }
    }
  }

  // ------------------------------------------------------- the invariant

  /** No two instances share a node. */
  ghost predicate Injective(index: map<Inst, nat>)
  {
    forall k1, k2 :: k1 in index && k2 in index && k1 != k2 ==> index[k1] != index[k2]
  }

  /** The node of `k` has one dependency per type in `ts`: the node bound to it, in order. */
  ghost predicate Resolved(impls: map<Iface, Inst>, b: Build, k: Inst, ts: seq<Iface>)
    requires Indexed(b) && k in b.index
  {
    && |b.g[b.index[k]].deps| == |ts|
    && forall j :: 0 <= j < |ts| ==>
         ts[j] in impls && impls[ts[j]] in b.index && b.g[b.index[k]].deps[j] == b.index[impls[ts[j]]]
  }

  /** What the node of `k` should depend on so far: all of a visited instance, `ts` for `v`, nothing otherwise. */
  function Expected(deps: map<Inst, seq<Iface>>, visited: set<Inst>, v: Inst, ts: seq<Iface>, k: Inst): seq<Iface>
    requires visited <= deps.Keys
  {
    if k in visited then deps[k] else if k == v then ts else []
  }

  /**
   * The builder's invariant while `v` is being visited after `visited`,
   * with the dependency types `ts` handled so far: one node per instance
   * met, a valid arena, every node's edges as expected, and, labelling by
   * key, every node labelled with its own instance.
   */
  ghost predicate Shaped(impls: map<Iface, Inst>, deps: map<Inst, seq<Iface>>, b: Build,
                         visited: set<Inst>, v: Inst, ts: seq<Iface>, labels: Labels)
  {
    && Indexed(b) && Injective(b.index) && |b.index.Keys| == |b.g|
    && ValidArena(b.g)
    && visited <= deps.Keys && visited <= b.index.Keys
    && b.index.Keys <= visited + {v} + impls.Values
    && (forall k :: k in b.index ==> Resolved(impls, b, k, Expected(deps, visited, v, ts, k)))
    && (labels == ByKey ==> forall k :: k in b.index ==> b.g[b.index[k]].inst == k)
  }

  lemma NodeForShaped(impls: map<Iface, Inst>, deps: map<Inst, seq<Iface>>, b: Build,
                      visited: set<Inst>, v: Inst, ts: seq<Iface>, labels: Labels, key: Inst, name: Inst)
    requires Shaped(impls, deps, b, visited, v, ts, labels)
    requires v in b.index || ts == [] || key in b.index
    requires key in visited + {v} + impls.Values
    requires labels == ByKey ==> name == key
    ensures Shaped(impls, deps, NodeFor(b, key, name).0, visited, v, ts, labels)
  {
    if key !in b.index {
      var b' := NodeFor(b, key, name).0;
      NewNodeArena(b.g, name);
      NewKeyInjective(b.index, key, |b.g|);
      NewNodeResolved(impls, deps, b, visited, v, ts, labels, key, name);
    }
  }

  /** Giving a new key the next node number keeps the index one-to-one. */
  lemma NewKeyInjective(index: map<Inst, nat>, key: Inst, n: nat)
    requires Injective(index) && key !in index && forall k :: k in index ==> index[k] < n
    ensures Injective(index[key := n]) && index[key := n].Keys == index.Keys + {key}
  {
    var index' := index[key := n];
    forall k1, k2 | k1 in index' && k2 in index' && k1 != k2 ensures index'[k1] != index'[k2] {
      if k1 != key && k2 != key {
        assert index[k1] != index[k2];
      }
    }
  }

  /** A node created for an instance not visited has no dependencies yet, as expected; the others keep theirs. */
  lemma NewNodeResolved(impls: map<Iface, Inst>, deps: map<Inst, seq<Iface>>, b: Build,
                        visited: set<Inst>, v: Inst, ts: seq<Iface>, labels: Labels, key: Inst, name: Inst)
    requires Shaped(impls, deps, b, visited, v, ts, labels)
    requires key !in b.index && (v in b.index || ts == [])
    ensures var b' := NodeFor(b, key, name).0;
      forall k :: k in b'.index ==> Resolved(impls, b', k, Expected(deps, visited, v, ts, k))
  {
    var b' := NodeFor(b, key, name).0;
    forall k | k in b'.index ensures Resolved(impls, b', k, Expected(deps, visited, v, ts, k)) {
      if k != key {
        assert Resolved(impls, b, k, Expected(deps, visited, v, ts, k));
        assert b'.g[b'.index[k]] == b.g[b.index[k]];
      } else {
        assert key !in visited;
        assert Expected(deps, visited, v, ts, k) == [];
      }
    }
  }

  lemma LinkShaped(impls: map<Iface, Inst>, deps: map<Inst, seq<Iface>>, b: Build,
                   visited: set<Inst>, v: Inst, ts: seq<Iface>, labels: Labels, t: Iface)
    requires Shaped(impls, deps, b, visited, v, ts, labels)
    requires v in b.index && v !in visited && t in impls && impls[t] in b.index
    ensures Shaped(impls, deps, Build(Link(b.g, b.index[v], b.index[impls[t]]), b.index), visited, v, ts + [t], labels)
  {
    var s, sd := b.index[v], b.index[impls[t]];
    var b' := Build(Link(b.g, s, sd), b.index);
    LinkArena(b.g, s, sd);
    forall k | k in b'.index ensures Resolved(impls, b', k, Expected(deps, visited, v, ts + [t], k)) {
      assert Resolved(impls, b, k, Expected(deps, visited, v, ts, k));
      if k != v {
        assert b.index[k] != s;
        assert Expected(deps, visited, v, ts + [t], k) == Expected(deps, visited, v, ts, k);
      }
    }
  }

  lemma EdgeShaped(impls: map<Iface, Inst>, deps: map<Inst, seq<Iface>>, b: Build,
                   visited: set<Inst>, v: Inst, ts: seq<Iface>, labels: Labels, t: Iface)
    requires Shaped(impls, deps, b, visited, v, ts, labels)
    requires v in b.index && v !in visited
    ensures var r := Edge(impls, b, v, b.index[v], t, labels);
      && (r.Fail? <==> t !in impls)
      && (r.Fail? ==> r.err == MissingDependency(v, t))
      && (r.Ok? ==> Shaped(impls, deps, r.b, visited, v, ts + [t], labels) && v in r.b.index && r.b.index[v] == b.index[v])
  {
    if t in impls {
      var name := if labels == ByKey then impls[t] else v;
      NodeForShaped(impls, deps, b, visited, v, ts, labels, impls[t], name);
      var b1 := NodeFor(b, impls[t], name).0;
      LinkShaped(impls, deps, b1, visited, v, ts, labels, t);
    }
  }

  lemma SplitLast<T>(xs: seq<T>)
    requires xs != []
    ensures xs[..|xs| - 1] + [xs[|xs| - 1]] == xs
  {
  }

  /** `ts[j]` is the first of the types `ts` that nothing is bound to. */
  ghost predicate FirstMissing(impls: map<Iface, Inst>, ts: seq<Iface>, j: nat)
  {
    j < |ts| && ts[j] !in impls && forall k :: 0 <= k < j ==> ts[k] in impls
  }

  /** The first unbound type of a list stays the first one when more types follow. */
  lemma FirstMissingExtend(impls: map<Iface, Inst>, ts: seq<Iface>, t: Iface, j: nat)
    requires FirstMissing(impls, ts, j)
    ensures FirstMissing(impls, ts + [t], j) && (ts + [t])[j] == ts[j]
  {
    assert forall k :: 0 <= k < j ==> (ts + [t])[k] == ts[k];
  }

  /** When all of `ts` are bound and `t` is not, `t` is the first unbound type of `ts + [t]`. */
  lemma FirstMissingLast(impls: map<Iface, Inst>, ts: seq<Iface>, t: Iface)
    requires (forall k :: 0 <= k < |ts| ==> ts[k] in impls) && t !in impls
    ensures FirstMissing(impls, ts + [t], |ts|)
  {
    assert forall k :: 0 <= k < |ts| ==> (ts + [t])[k] == ts[k];
  }

  /** The inner loop stops exactly at the first dependency type nothing is bound to. */
  lemma {:induction false} AddDepsFails(impls: map<Iface, Inst>, b: Build, v: Inst, s: nat, ts: seq<Iface>, labels: Labels)
    requires Indexed(b) && s < |b.g|
    ensures var r := AddDeps(impls, b, v, s, ts, labels);
      && (r.Fail? <==> exists j :: 0 <= j < |ts| && ts[j] !in impls)
      && (r.Fail? ==> exists j: nat :: FirstMissing(impls, ts, j) && r.err == MissingDependency(v, ts[j]))
  {
    if ts != [] {
      var front, t := ts[..|ts| - 1], ts[|ts| - 1];
      assert ts == front + [t];
      AddDepsFails(impls, b, v, s, front, labels);
      var r1 := AddDeps(impls, b, v, s, front, labels);
      if r1.Fail? {
        var j: nat :| FirstMissing(impls, front, j) && r1.err == MissingDependency(v, front[j]);
        FirstMissingExtend(impls, front, t, j);
      } else if t !in impls {
        FirstMissingLast(impls, front, t);
      } else {
        forall j | 0 <= j < |ts| ensures ts[j] in impls {
          if j < |front| {
            assert ts[j] == front[j];
          }
        }
      }
    }
  }

  lemma {:induction false} AddDepsShaped(impls: map<Iface, Inst>, deps: map<Inst, seq<Iface>>, b: Build,
                                         visited: set<Inst>, v: Inst, labels: Labels, ts: seq<Iface>)
    requires Shaped(impls, deps, b, visited, v, [], labels)
    requires v in b.index && v !in visited
    ensures var r := AddDeps(impls, b, v, b.index[v], ts, labels);
      r.Ok? ==> Shaped(impls, deps, r.b, visited, v, ts, labels) && v in r.b.index && r.b.index[v] == b.index[v]
  {
    if ts != [] {
      var front := ts[..|ts| - 1];
      var t := ts[|ts| - 1];
      SplitLast(ts);
      AddDepsShaped(impls, deps, b, visited, v, labels, front);
      var r1 := AddDeps(impls, b, v, b.index[v], front, labels);
      if r1.Ok? {
        EdgeShaped(impls, deps, r1.b, visited, v, front, labels, t);
      }
    }
  }

  /** Finishing the visit of `v` makes it visited; the next visit may start anywhere. */
  lemma VisitedShaped(impls: map<Iface, Inst>, deps: map<Inst, seq<Iface>>, b: Build,
                      visited: set<Inst>, v: Inst, labels: Labels, w: Inst)
    requires v in deps && Shaped(impls, deps, b, visited, v, deps[v], labels) && v in b.index
    ensures Shaped(impls, deps, b, visited + {v}, w, [], labels)
  {
    forall k | k in b.index ensures Resolved(impls, b, k, Expected(deps, visited + {v}, w, [], k)) {
      assert Resolved(impls, b, k, Expected(deps, visited, v, deps[v], k));
    }
  }

  lemma VisitShaped(impls: map<Iface, Inst>, deps: map<Inst, seq<Iface>>, b: Build,
                    visited: set<Inst>, v: Inst, labels: Labels, w: Inst)
    requires v in deps && v !in visited && Shaped(impls, deps, b, visited, v, [], labels)
    ensures var r := Visit(impls, deps, b, v, labels);
      r.Ok? ==> Shaped(impls, deps, r.b, visited + {v}, w, [], labels)
  {
    NodeForShaped(impls, deps, b, visited, v, [], labels, v, v);
    var b1 := NodeFor(b, v, v).0;
    AddDepsShaped(impls, deps, b1, visited, v, labels, deps[v]);
    var r := Visit(impls, deps, b, v, labels);
    if r.Ok? {
      VisitedShaped(impls, deps, r.b, visited, v, labels, w);
    }
  }

  /** Some listed instance declares a dependency type nothing is bound to. */
  ghost predicate Unbound(impls: map<Iface, Inst>, deps: map<Inst, seq<Iface>>, order: seq<Inst>)
    requires forall k :: 0 <= k < |order| ==> order[k] in deps
  {
    exists p, j :: 0 <= p < |order| && 0 <= j < |deps[order[p]]| && deps[order[p]][j] !in impls
  }

  /** Visiting `v` fails exactly at a dependency type of `v` nothing is bound to. */
  lemma VisitFails(impls: map<Iface, Inst>, deps: map<Inst, seq<Iface>>, b: Build, v: Inst, labels: Labels)
    requires Indexed(b) && v in deps
    ensures var r := Visit(impls, deps, b, v, labels);
      && (r.Fail? <==> exists j :: 0 <= j < |deps[v]| && deps[v][j] !in impls)
      && (r.Fail? ==> exists j: nat :: FirstMissing(impls, deps[v], j) && r.err == MissingDependency(v, deps[v][j]))
  {
    var (b1, s) := NodeFor(b, v, v);
    AddDepsFails(impls, b1, v, s, deps[v], labels);
  }

  /**
   * Position `j` of the declared types of `order[p]` is the first unbound
   * type met when visiting `order` in turn: every earlier instance's types
   * and every earlier type of `order[p]` are bound.
   */
  ghost predicate FirstUnbound(impls: map<Iface, Inst>, deps: map<Inst, seq<Iface>>, order: seq<Inst>, p: nat, j: nat)
    requires forall k :: 0 <= k < |order| ==> order[k] in deps
  {
    && p < |order| && j < |deps[order[p]]| && deps[order[p]][j] !in impls
    && (forall k :: 0 <= k < j ==> deps[order[p]][k] in impls)
    && (forall q, k :: 0 <= q < p && 0 <= k < |deps[order[q]]| ==> deps[order[q]][k] in impls)
  }

  /** When every earlier instance's types are bound, the first unbound type of the last instance is the first one met. */
  lemma FirstUnboundLast(impls: map<Iface, Inst>, deps: map<Inst, seq<Iface>>, order: seq<Inst>, j: nat)
    requires (forall k :: 0 <= k < |order| ==> order[k] in deps) && order != []
    requires !Unbound(impls, deps, order[..|order| - 1]) && FirstMissing(impls, deps[order[|order| - 1]], j)
    ensures FirstUnbound(impls, deps, order, |order| - 1, j)
  {
    var front := order[..|order| - 1];
    forall q, k | 0 <= q < |front| && 0 <= k < |deps[order[q]]| ensures deps[order[q]][k] in impls {
      assert order[q] == front[q];
    }
  }

  /** The first unbound type met in a prefix of the order stays the first one met. */
  lemma FirstUnboundExtend(impls: map<Iface, Inst>, deps: map<Inst, seq<Iface>>, order: seq<Inst>, p: nat, j: nat)
    requires (forall k :: 0 <= k < |order| ==> order[k] in deps) && order != []
    requires FirstUnbound(impls, deps, order[..|order| - 1], p, j)
    ensures FirstUnbound(impls, deps, order, p, j) && order[p] == order[..|order| - 1][p]
  {
    var front := order[..|order| - 1];
    assert forall q :: 0 <= q <= p ==> order[q] == front[q];
  }

  /** graph fails exactly when some visited instance declares an unbound type, and names the first one it meets. */
  lemma {:induction false} ServicesFails(impls: map<Iface, Inst>, deps: map<Inst, seq<Iface>>, order: seq<Inst>, labels: Labels)
    requires forall k :: 0 <= k < |order| ==> order[k] in deps
    ensures var r := Services(impls, deps, order, labels);
      && (r.Fail? <==> Unbound(impls, deps, order))
      && (r.Fail? ==> exists p: nat, j: nat :: FirstUnbound(impls, deps, order, p, j)
                                              && r.err == MissingDependency(order[p], deps[order[p]][j]))
  {
    if order != [] {
      var front := order[..|order| - 1];
      var v := order[|order| - 1];
      ServicesFails(impls, deps, front, labels);
      var r1 := Services(impls, deps, front, labels);
      if r1.Ok? {
        VisitFails(impls, deps, r1.b, v, labels);
        var r := Services(impls, deps, order, labels);
        if r.Fail? {
          var j: nat :| FirstMissing(impls, deps[v], j) && r.err == MissingDependency(v, deps[v][j]);
          FirstUnboundLast(impls, deps, order, j);
        } else {
          forall p, j | 0 <= p < |order| && 0 <= j < |deps[order[p]]| ensures deps[order[p]][j] in impls {
            if p < |front| {
              assert front[p] == order[p];
            } else {
              assert order[p] == v;
            }
          }
        }
      } else {
        var p: nat, j: nat :| FirstUnbound(impls, deps, front, p, j) && r1.err == MissingDependency(front[p], deps[front[p]][j]);
        FirstUnboundExtend(impls, deps, order, p, j);
      }
    }
  }

  lemma {:induction false} ServicesShaped(impls: map<Iface, Inst>, deps: map<Inst, seq<Iface>>, order: seq<Inst>, labels: Labels, w: Inst)
    requires forall k :: 0 <= k < |order| ==> order[k] in deps
    requires forall p, q :: 0 <= p < q < |order| ==> order[p] != order[q]
    ensures var r := Services(impls, deps, order, labels);
      r.Ok? ==> Shaped(impls, deps, r.b, (set k | k in order), w, [], labels)
  {
    if order != [] {
      var front := order[..|order| - 1];
      var v := order[|order| - 1];
      var visited := set k | k in front;
      ServicesShaped(impls, deps, front, labels, v);
      var r1 := Services(impls, deps, front, labels);
      assert (set k | k in order) == visited + {v};
      if r1.Ok? {
        assert v !in visited;
        VisitShaped(impls, deps, r1.b, visited, v, labels, w);
      }
    }
  }

  /**
   * graph fails, for any iteration order of `dependencies`, exactly when
   * some registered instance declares a type nothing is bound to, and the
   * error names the first such instance and type the iteration meets.
   */
  lemma GraphFails(impls: map<Iface, Inst>, deps: map<Inst, seq<Iface>>, order: seq<Inst>, labels: Labels)
    requires Enumerates(order, deps.Keys)
    ensures var r := Services(impls, deps, order, labels);
      && (r.Fail? <==> exists v, j :: v in deps && 0 <= j < |deps[v]| && deps[v][j] !in impls)
      && (r.Fail? ==> exists p: nat, j: nat :: FirstUnbound(impls, deps, order, p, j)
                                              && r.err == MissingDependency(order[p], deps[order[p]][j]))
  {
    ServicesFails(impls, deps, order, labels);
    var r := Services(impls, deps, order, labels);
    if r.Fail? {
      var p: nat, j: nat :| FirstUnbound(impls, deps, order, p, j) && r.err == MissingDependency(order[p], deps[order[p]][j]);
    } else {
      forall v, j | v in deps && 0 <= j < |deps[v]| ensures deps[v][j] in impls {
        var p :| 0 <= p < |order| && order[p] == v;
      }
    }
  }

  /**
   * What graph builds when it succeeds, for any iteration order of
   * `dependencies`, when every bound instance has a `dependencies` entry:
   * one node per registered instance, `rdeps` the inverse of `deps`
   * counting multiplicity, each node's `deps` the nodes bound to its
   * declared types in declaration order, and, labelling by key, each node
   * labelled with its own instance.
   */
  lemma GraphBuilt(impls: map<Iface, Inst>, deps: map<Inst, seq<Iface>>, order: seq<Inst>, labels: Labels)
    requires Enumerates(order, deps.Keys)
    requires impls.Values <= deps.Keys
    ensures var r := Services(impls, deps, order, labels);
      r.Ok? ==>
        && ValidArena(r.b.g)
        && r.b.index.Keys == deps.Keys && |r.b.g| == |deps.Keys|
        && Injective(r.b.index) && Indexed(r.b)
        && (forall v :: v in deps ==> Resolved(impls, r.b, v, deps[v]))
        && (labels == ByKey ==> forall v :: v in deps ==> r.b.g[r.b.index[v]].inst == v)
  {
    var w := if order == [] then Inst(0, "", {}, Shape(None, None)) else order[0];
    ServicesShaped(impls, deps, order, labels, w);
    var r := Services(impls, deps, order, labels);
    assert (set k | k in order) == deps.Keys;
    if r.Ok? {
      assert order == [] ==> r.b.index == map[];
      ShapedComplete(impls, deps, r.b, w, labels);
    }
  }

  /** The invariant once every instance has been visited. */
  lemma ShapedComplete(impls: map<Iface, Inst>, deps: map<Inst, seq<Iface>>, b: Build, w: Inst, labels: Labels)
    requires Shaped(impls, deps, b, deps.Keys, w, [], labels)
    requires impls.Values <= deps.Keys && (w in deps || w !in b.index)
    ensures && ValidArena(b.g)
            && b.index.Keys == deps.Keys && |b.g| == |deps.Keys|
            && Injective(b.index) && Indexed(b)
            && (forall v :: v in deps ==> Resolved(impls, b, v, deps[v]))
  {
    forall v | v in deps ensures Resolved(impls, b, v, deps[v]) {
      assert Expected(deps, deps.Keys, w, [], v) == deps[v];
    }
  }
}
