/**
 * Facts about the dependency graph that the cycle check and both schedulers
 * rely on: how many dependencies of a node are still outstanding, what a
 * topological order is, and why a set of nodes that keeps blocking itself
 * rules one out.
 */
module Dag {
  import opened Service

  /** The node indices of an arena with `n` nodes. */
  function Range(n: nat): (r: set<nat>)
    ensures forall i: nat :: i in r <==> i < n
  {
    if n == 0 then {} else Range(n - 1) + {n - 1}
  }

  lemma {:induction false} RangeSize(n: nat)
    ensures |Range(n)| == n
  {
    if n > 0 {
      RangeSize(n - 1);
    }
  }

  /** A set of node indices as large as the arena is all of it. */
  lemma FullSubset(a: set<nat>, n: nat)
    requires a <= Range(n) && |a| >= n
    ensures a == Range(n)
  {
    RangeSize(n);
    var rest := Range(n) - a;
    assert Range(n) == a + rest;
    assert a * rest == {};
    assert |rest| == 0;
  }

  /** The entries of `xs`, with repetition, that are not in `done`. */
  function Pending(xs: seq<nat>, done: set<nat>): (r: nat)
    ensures r <= |xs|
  {
    if xs == [] then 0 else Pending(xs[..|xs| - 1], done) + (if xs[|xs| - 1] in done then 0 else 1)
  }

  lemma {:induction false} PendingNothingDone(xs: seq<nat>)
    ensures Pending(xs, {}) == |xs|
  {
    if xs != [] {
      PendingNothingDone(xs[..|xs| - 1]);
    }
  }

  /** Finishing `x` settles exactly its occurrences. */
  lemma {:induction false} PendingFinish(xs: seq<nat>, done: set<nat>, x: nat)
    requires x !in done
    ensures Pending(xs, done) == Pending(xs, done + {x}) + multiset(xs)[x]
  {
    if xs != [] {
      var front := xs[..|xs| - 1];
      PendingFinish(front, done, x);
      assert xs == front + [xs[|xs| - 1]];
      assert multiset(xs) == multiset(front) + multiset{xs[|xs| - 1]};
    }
  }

  /** Nothing is outstanding exactly when every entry is done. */
  lemma {:induction false} PendingZero(xs: seq<nat>, done: set<nat>)
    ensures Pending(xs, done) == 0 <==> forall k :: 0 <= k < |xs| ==> xs[k] in done
  {
    if xs != [] {
      var front := xs[..|xs| - 1];
      PendingZero(front, done);
      assert forall k :: 0 <= k < |front| ==> front[k] == xs[k];
    }
  }

  /** The entries of `xs`, with repetition, that are in `live`. */
  function Among(xs: seq<nat>, live: set<nat>): (r: nat)
    ensures r <= |xs|
  {
    if xs == [] then 0 else Among(xs[..|xs| - 1], live) + (if xs[|xs| - 1] in live then 1 else 0)
  }

  /** Retiring `x` from `live` removes exactly its occurrences. */
  lemma {:induction false} AmongRetire(xs: seq<nat>, live: set<nat>, x: nat)
    requires x in live
    ensures Among(xs, live) == Among(xs, live - {x}) + multiset(xs)[x]
  {
    if xs != [] {
      var front := xs[..|xs| - 1];
      AmongRetire(front, live, x);
      assert xs == front + [xs[|xs| - 1]];
      assert multiset(xs) == multiset(front) + multiset{xs[|xs| - 1]};
    }
  }

  /** No entry is live exactly when the count is zero. */
  lemma {:induction false} AmongZero(xs: seq<nat>, live: set<nat>)
    ensures Among(xs, live) == 0 <==> forall k :: 0 <= k < |xs| ==> xs[k] !in live
  {
    if xs != [] {
      var front := xs[..|xs| - 1];
      AmongZero(front, live);
      assert forall k :: 0 <= k < |front| ==> front[k] == xs[k];
    }
  }

  /** No index occurs twice. */
  predicate Distinct(xs: seq<nat>)
  {
    forall p, q :: 0 <= p < q < |xs| ==> xs[p] != xs[q]
  }

  /** The node at position `p` of `order` comes after all of its dependencies. */
  ghost predicate DepsBefore(g: seq<Node>, order: seq<nat>, p: nat)
    requires p < |order| && order[p] < |g|
  {
    forall d :: d in g[order[p]].deps ==> d in order[..p]
  }

  /** Every node listed in `order` comes after all of its dependencies. */
  ghost predicate DepsFirst(g: seq<Node>, order: seq<nat>)
  {
    && (forall p :: 0 <= p < |order| ==> order[p] < |g|)
    && (forall p :: 0 <= p < |order| ==> DepsBefore(g, order, p))
  }

  /** `order` lists every node once, each after all of its dependencies. */
  ghost predicate TopoOrder(g: seq<Node>, order: seq<nat>)
  {
    && |order| == |g|
    && Distinct(order)
    && DepsFirst(g, order)
    && (forall i :: 0 <= i < |g| ==> i in order)
  }

  /** A node whose dependencies are all listed may be listed next. */
  lemma DepsFirstExtend(g: seq<Node>, order: seq<nat>, x: nat)
    requires DepsFirst(g, order) && x < |g|
    requires forall d :: d in g[x].deps ==> d in order
    ensures DepsFirst(g, order + [x])
  {
    var o := order + [x];
    forall p | 0 <= p < |o| ensures DepsBefore(g, o, p) {
      assert o[..p] == if p < |order| then order[..p] else order;
      if p < |order| {
        assert DepsBefore(g, order, p);
      }
    }
  }

  /** Nodes whose dependencies are all listed may follow, in any order. */
  lemma DepsFirstAppend(g: seq<Node>, order: seq<nat>, more: seq<nat>)
    requires DepsFirst(g, order)
    requires forall y :: y in more ==> y < |g| && forall d :: d in g[y].deps ==> d in order
    ensures DepsFirst(g, order + more)
  {
    var o := order + more;
    forall p | 0 <= p < |o| ensures o[p] < |g| && DepsBefore(g, o, p) {
      if p < |order| {
        assert o[..p] == order[..p];
        assert DepsBefore(g, order, p);
      } else {
        assert o[p] in more;
        forall d | d in g[o[p]].deps ensures d in o[..p] {
          var q :| 0 <= q < |order| && order[q] == d;
          assert o[q] == d;
        }
      }
    }
  }

  /** The dependency graph has no cycle: some order starts every node after its dependencies. */
  ghost predicate Acyclic(g: seq<Node>)
  {
    exists order :: TopoOrder(g, order)
  }

  /** Node `i` has a dependency in `s`. */
  ghost predicate HasDepIn(g: seq<Node>, i: nat, s: set<nat>)
  {
    i < |g| && exists d :: d in g[i].deps && d in s
  }

  /** Every member of `s` has a dependency in `s`: none of them can ever be started. */
  ghost predicate SelfBlocking(g: seq<Node>, s: set<nat>)
  {
    forall i {:trigger HasDepIn(g, i, s)} :: i in s ==> HasDepIn(g, i, s)
  }

  /** Some member of `s` depends on node `u`. */
  ghost predicate IsDepOfSome(g: seq<Node>, u: nat, s: set<nat>)
  {
    exists r :: r in s && r < |g| && u in g[r].deps
  }

  /** Every member of `s` is a dependency of a member of `s`: none of them can ever be stopped first. */
  ghost predicate DependedOnWithin(g: seq<Node>, s: set<nat>)
  {
    forall u {:trigger IsDepOfSome(g, u, s)} :: u in s ==> IsDepOfSome(g, u, s)
  }

  lemma {:induction false} TopoPrefixAvoids(g: seq<Node>, order: seq<nat>, s: set<nat>, p: nat)
    requires DepsFirst(g, order) && SelfBlocking(g, s) && p <= |order|
    ensures forall q :: 0 <= q < p ==> order[q] !in s
  {
    if p > 0 {
      TopoPrefixAvoids(g, order, s, p - 1);
      var x := order[p - 1];
      assert DepsBefore(g, order, p - 1);
      assert forall d :: d in g[x].deps ==> d !in s by {
        forall d | d in g[x].deps ensures d !in s {
          assert d in order[..p - 1];
          var q :| 0 <= q < p - 1 && order[q] == d;
        }
      }
      assert !HasDepIn(g, x, s);
    }
  }

  /** An acyclic graph has no self-blocking set of nodes. */
  lemma TopoRulesOutSelfBlocking(g: seq<Node>, order: seq<nat>, s: set<nat>)
    requires TopoOrder(g, order) && SelfBlocking(g, s)
    ensures s == {}
  {
    TopoPrefixAvoids(g, order, s, |order|);
    forall i: nat ensures i !in s {
      if i < |g| {
        assert i in order;
        var q :| 0 <= q < |order| && order[q] == i;
      } else {
        assert !HasDepIn(g, i, s);
      }
    }
  }

  lemma {:induction false} TopoSuffixAvoids(g: seq<Node>, order: seq<nat>, s: set<nat>, p: nat)
    requires TopoOrder(g, order) && DependedOnWithin(g, s) && p <= |order|
    ensures forall q :: p <= q < |order| ==> order[q] !in s
    decreases |order| - p
  {
    if p < |order| {
      TopoSuffixAvoids(g, order, s, p + 1);
      var u := order[p];
      forall r | r in s && r < |g| ensures u !in g[r].deps {
        assert r in order;
        var q :| 0 <= q < |order| && order[q] == r;
        assert q <= p;
        assert DepsBefore(g, order, q);
        assert u !in order[..q] by {
          forall t | 0 <= t < q ensures order[t] != u {
            assert t < p;
          }
        }
      }
      assert !IsDepOfSome(g, u, s);
    }
  }

  /** An acyclic graph has no set of nodes each of which another member depends on. */
  lemma TopoRulesOutDependedOnWithin(g: seq<Node>, order: seq<nat>, s: set<nat>)
    requires TopoOrder(g, order) && DependedOnWithin(g, s)
    ensures s == {}
  {
    TopoSuffixAvoids(g, order, s, 0);
    forall r: nat | r < |g| ensures r !in s {
      assert r in order;
      var q :| 0 <= q < |order| && order[q] == r;
    }
    forall u: nat ensures u !in s {
      if u >= |g| {
        assert !IsDepOfSome(g, u, s);
      }
    }
  }
}
