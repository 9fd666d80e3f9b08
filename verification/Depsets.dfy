/**
 Memoised flattening of dep-sets (tools/make-ninja.py:118-145): a worklist per query and one cache
 shared by all queries.
 */
module Depsets {
  type Id = nat
  type Artifact = nat

  datatype Depset = Depset(id: Id, direct: seq<Artifact>, transitive: seq<Id>)

  type Graph = map<Id, Depset>

  /** `{d["id"]: d for d in depsets}`: the last definition of an id wins. */
  function ById(depsets: seq<Depset>): Graph {
    if depsets == [] then map[]
    else ById(depsets[..|depsets| - 1])[depsets[|depsets| - 1].id := depsets[|depsets| - 1]]
  }

  // ----- the simple meaning -----

  ghost predicate IsPath(g: Graph, p: seq<Id>) {
    p != [] && forall i | 0 <= i < |p| - 1 :: Edge(g, p[i], p[i + 1])
  }

  predicate Edge(g: Graph, a: Id, b: Id) {
    a in g && b in g[a].transitive
  }

  ghost predicate Reaches(g: Graph, a: Id, b: Id) {
    exists p :: IsPath(g, p) && p[0] == a && p[|p| - 1] == b
  }

  /** Some node reachable from the root, itself included, lists the artifact directly. */
  ghost predicate Provides(g: Graph, root: Id, x: Artifact) {
    exists n :: Reaches(g, root, n) && n in g && x in g[n].direct
  }

  ghost predicate Complete(g: Graph, root: Id, out: set<Artifact>) {
    forall x :: x in out <==> Provides(g, root, x)
  }

  lemma ReachesSelf(g: Graph, a: Id)
    ensures Reaches(g, a, a)
  {
    var p := [a];
    assert IsPath(g, p) && p[0] == a && p[|p| - 1] == a;
  }

  lemma ReachesEdge(g: Graph, a: Id, b: Id, c: Id)
    requires Reaches(g, a, b) && Edge(g, b, c)
    ensures Reaches(g, a, c)
  {
    var p :| IsPath(g, p) && p[0] == a && p[|p| - 1] == b;
    var q := p + [c];
    assert IsPath(g, q) && q[0] == a && q[|q| - 1] == c;
  }

  lemma ReachesTransitive(g: Graph, a: Id, b: Id, c: Id)
    requires Reaches(g, a, b) && Reaches(g, b, c)
    ensures Reaches(g, a, c)
  {
    var p :| IsPath(g, p) && p[0] == a && p[|p| - 1] == b;
    var q :| IsPath(g, q) && q[0] == b && q[|q| - 1] == c;
    var r := p + q[1..];
    forall i | 0 <= i < |r| - 1 ensures Edge(g, r[i], r[i + 1]) {
      if i >= |p| - 1 {
        assert r[i] == q[i - (|p| - 1)] && r[i + 1] == q[i + 1 - (|p| - 1)];
      }
    }
    assert IsPath(g, r) && r[0] == a && r[|r| - 1] == c;
  }

  lemma ProvidesFrom(g: Graph, a: Id, b: Id, x: Artifact)
    requires Reaches(g, a, b) && Provides(g, b, x)
    ensures Provides(g, a, x)
  {
    var n :| Reaches(g, b, n) && n in g && x in g[n].direct;
    ReachesTransitive(g, a, b, n);
  }

  // ----- the worklist -----

  /** Every id a query can ever push. */
  ghost function Universe(g: Graph, root: Id): set<Id> {
    {root} + g.Keys + set n, t | n in g && t in g[n].transitive :: t
  }

  /** A visited id is fully accounted for: by the cache, or by its artifacts and its children. */
  ghost predicate Settled(g: Graph, cache: map<Id, set<Artifact>>, out: set<Artifact>, seen: set<Id>, stack: seq<Id>, n: Id) {
    if n in cache then cache[n] <= out
    else n in g ==>
      && (forall x | x in g[n].direct :: x in out)
      && (forall t | t in g[n].transitive :: t in seen || t in stack)
  }

  /** With an empty worklist, whatever a visited id provides has been collected. */
  lemma {:induction false} Collected(g: Graph, cache: map<Id, set<Artifact>>, out: set<Artifact>, seen: set<Id>,
                                     p: seq<Id>, x: Artifact)
    requires forall d | d in cache :: Complete(g, d, cache[d])
    requires forall n | n in seen :: Settled(g, cache, out, seen, [], n)
    requires IsPath(g, p) && p[0] in seen && p[|p| - 1] in g && x in g[p[|p| - 1]].direct
    ensures x in out
    decreases |p|
  {
    var n := p[0];
    assert Settled(g, cache, out, seen, [], n);
    if n in cache {
      assert Reaches(g, n, p[|p| - 1]);
      assert Provides(g, n, x);
    } else if |p| > 1 {
      assert Edge(g, p[0], p[1]);
      var rest := p[1..];
      forall i | 0 <= i < |rest| - 1 ensures Edge(g, rest[i], rest[i + 1]) {
        assert Edge(g, p[i + 1], p[i + 2]);
      }
      Collected(g, cache, out, seen, rest, x);
    }
  }

  class Resolver {
    const byId: Graph
    var cache: map<Id, set<Artifact>>

    /** Every cache entry is complete. */
    ghost predicate Valid()
      reads this
    {
      forall d | d in cache :: Complete(byId, d, cache[d])
    }

    /** `flatten_depsets` */
    constructor (depsets: seq<Depset>)
      ensures Valid() && byId == ById(depsets)
    {
      byId := ById(depsets);
      cache := map[];
    }

    /** `set.update` and `list.extend` over one node. */
    static method AddAll(out: set<Artifact>, more: seq<Artifact>) returns (r: set<Artifact>)
      ensures forall x :: x in r <==> x in out || x in more
    {
      r := out;
      for i := 0 to |more|
        invariant forall x :: x in r <==> x in out || x in more[..i]
      {
        r := r + {more[i]};
        assert more[..i + 1] == more[..i] + [more[i]];
      }
      assert more[..|more|] == more;
    }

    /**
     The query: exactly the artifacts of the reachable nodes, for any graph, cyclic or with missing
     nodes, and in any sequence of queries, since the cache stays complete.
     */
    method Resolve(root: Id) returns (out: set<Artifact>)
      requires Valid()
      modifies this`cache
      ensures Valid() && Complete(byId, root, out)
      ensures cache == old(cache)[root := out] || (root in old(cache) && cache == old(cache) && out == cache[root])
    {
      if root in cache {
        return cache[root];
      }
      out := {};
      var stack, seen: set<Id> := [root], {};
      ReachesSelf(byId, root);
      while stack != []
        invariant cache == old(cache)
        invariant root in seen || root in stack
        invariant seen <= Universe(byId, root) && forall n | n in stack :: n in Universe(byId, root)
        invariant forall n | n in seen || n in stack :: Reaches(byId, root, n)
        invariant forall x | x in out :: Provides(byId, root, x)
        invariant forall n | n in seen :: Settled(byId, cache, out, seen, stack, n)
        decreases Universe(byId, root) - seen, |stack|
      {
        ghost var stack0, seen0, out0 := stack, seen, out;
        var cur := stack[|stack| - 1];
        stack := stack[..|stack| - 1];
        assert forall t :: t in stack0 <==> t == cur || t in stack;
        if cur in seen {
          continue;
        }
        seen := seen + {cur};
        if cur in cache {
          Absorb(byId, root, cur, cache);
          out := out + cache[cur];
        } else if cur in byId {
          AddNode(byId, root, cur);
          out := AddAll(out, byId[cur].direct);
          stack := stack + byId[cur].transitive;
        }
        forall n | n in seen ensures Settled(byId, cache, out, seen, stack, n) {
          assert n in seen0 ==> Settled(byId, cache, out0, seen0, stack0, n);
        }
      }
      forall x | Provides(byId, root, x) ensures x in out {
        var n :| Reaches(byId, root, n) && n in byId && x in byId[n].direct;
        var p :| IsPath(byId, p) && p[0] == root && p[|p| - 1] == n;
        Collected(byId, cache, out, seen, p, x);
      }
      cache := cache[root := out];
    }
  }

  lemma Absorb(g: Graph, root: Id, cur: Id, cache: map<Id, set<Artifact>>)
    requires Reaches(g, root, cur) && cur in cache && Complete(g, cur, cache[cur])
    ensures forall x | x in cache[cur] :: Provides(g, root, x)
  {
    forall x | x in cache[cur] ensures Provides(g, root, x) {
      ProvidesFrom(g, root, cur, x);
    }
  }

  lemma AddNode(g: Graph, root: Id, cur: Id)
    requires Reaches(g, root, cur) && cur in g
    ensures forall x | x in g[cur].direct :: Provides(g, root, x)
    ensures forall t | t in g[cur].transitive :: Reaches(g, root, t) && t in Universe(g, root)
  {
    forall t | t in g[cur].transitive ensures Reaches(g, root, t) {
      ReachesEdge(g, root, cur, t);
    }
  }

  /** An id stands for the last depset in the list that has it, and only the ids in the list are known. */
  lemma {:induction false} ByIdExactly(depsets: seq<Depset>, i: Id)
    ensures i in ById(depsets) <==> exists k | 0 <= k < |depsets| :: depsets[k].id == i
    ensures forall k | 0 <= k < |depsets| && depsets[k].id == i && (forall m | k < m < |depsets| :: depsets[m].id != i) ::
              i in ById(depsets) && ById(depsets)[i] == depsets[k]
  {
    if depsets != [] {
      var n := |depsets| - 1;
      var most := depsets[..n];
      ByIdExactly(most, i);
      assert forall k | 0 <= k < n :: most[k] == depsets[k];
      if depsets[n].id == i {
        assert ById(depsets)[i] == depsets[n];
      } else {
        assert i in ById(depsets) <==> i in ById(most);
      }
    }
  }
}
