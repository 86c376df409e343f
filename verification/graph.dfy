/**
 The reverse-dependency ("depended-by") graph: a map from a plugin name to
 the names of the plugins that declare a mandatory or optional dependency
 on it. An edge d -> b means b is in graph[d], that is, b depends on d.
 This module defines walks along these edges, reachability (the transitive
 dependents of a plugin) and acyclicity of the part reachable from a plugin.
 */
module DependencyGraph {
  import opened Seqs

  type Graph = map<string, set<string>>

  /** Every name the graph mentions, as a key or inside an entry. */
  function Nodes(g: Graph): set<string>
  {
    g.Keys + (set k, x | k in g && x in g[k] :: x)
  }

  /** b depends on a: b is in the entry for a. */
  predicate Edge(g: Graph, a: string, b: string)
  {
    a in g && b in g[a]
  }

  /** A non-empty walk in which every element depends on the one before it. */
  ghost predicate IsPath(g: Graph, p: seq<string>)
  {
    |p| > 0 && forall i :: 0 <= i < |p| - 1 ==> Edge(g, p[i], p[i + 1])
  }

  /** b is a (transitive) dependent of a, or a itself. */
  ghost predicate Reachable(g: Graph, a: string, b: string)
  {
    exists p :: IsPath(g, p) && p[0] == a && p[|p| - 1] == b
  }

  /** No walk starting at a visits a name twice: the part of the graph that
      can be reached from a has no cycle (and no plugin in it depends on itself). */
  ghost predicate AcyclicFrom(g: Graph, a: string)
  {
    forall p :: IsPath(g, p) && p[0] == a ==> NoDup(p)
  }

  lemma ReachableSelf(g: Graph, a: string)
    ensures Reachable(g, a, a)
  {
    assert IsPath(g, [a]);
  }

  /** Following one more edge from a reachable name stays reachable. */
  lemma ReachableStep(g: Graph, a: string, b: string, c: string)
    requires Reachable(g, a, b)
    requires b in g && c in g[b]
    ensures Reachable(g, a, c)
  {
    var p :| IsPath(g, p) && p[0] == a && p[|p| - 1] == b;
    var q := p + [c];
    assert forall i :: 0 <= i < |q| - 1 ==> q[i] in g && q[i + 1] in g[q[i]] by {
      forall i | 0 <= i < |q| - 1
        ensures q[i] in g && q[i + 1] in g[q[i]]
      {
        if i < |p| - 1 {
          assert q[i] == p[i] && q[i + 1] == p[i + 1];
        }
      }
    }
    assert IsPath(g, q);
  }

  /** A name reachable from a other than a itself depends on some name. */
  lemma ReachableEnd(g: Graph, a: string, b: string)
    requires Reachable(g, a, b) && b != a
    ensures exists d :: Edge(g, d, b)
  {
    var p :| IsPath(g, p) && p[0] == a && p[|p| - 1] == b;
    assert Edge(g, p[|p| - 2], p[|p| - 1]);
  }

  /** Adding an empty entry for a name that had none adds no edge, so the
      walks, reachability and acyclicity of the graph are unchanged. */
  lemma EmptyEntrySameWalks(g: Graph, k: string)
    requires k !in g
    ensures forall a, b :: Edge(g[k := {}], a, b) <==> Edge(g, a, b)
    ensures forall p :: IsPath(g[k := {}], p) <==> IsPath(g, p)
    ensures forall a, b :: Reachable(g[k := {}], a, b) <==> Reachable(g, a, b)
    ensures forall a :: AcyclicFrom(g[k := {}], a) <==> AcyclicFrom(g, a)
  {
    var h := g[k := {}];
    assert forall a, b :: Edge(h, a, b) <==> Edge(g, a, b);
    forall p
      ensures IsPath(h, p) <==> IsPath(g, p)
    {
    }
  }

  /** Every name on a walk from a lies in {a} + Nodes(g). */
  lemma PathInNodes(g: Graph, p: seq<string>)
    requires IsPath(g, p)
    ensures Elems(p) <= {p[0]} + Nodes(g)
  {
    forall x | x in Elems(p)
      ensures x in {p[0]} + Nodes(g)
    {
      var i :| 0 <= i < |p| && p[i] == x;
      if i > 0 {
        assert p[i - 1] in g && p[i] in g[p[i - 1]];
      }
    }
  }

  /** A set that contains a and is closed under the depended-by edges
      contains everything reachable from a. */
  lemma {:induction false} ClosedContainsReachable(g: Graph, s: set<string>, a: string, b: string)
    requires a in s
    requires forall x :: x in s && x in g ==> g[x] <= s
    requires Reachable(g, a, b)
    ensures b in s
  {
    var p :| IsPath(g, p) && p[0] == a && p[|p| - 1] == b;
    var i := 0;
    while i < |p| - 1
      invariant 0 <= i <= |p| - 1
      invariant p[i] in s
    {
      assert Edge(g, p[i], p[i + 1]);
      i := i + 1;
    }
  }

  /** A walk from a that is extended by k steps, each into a set t in which
      every member still has a dependent inside t. */
  lemma {:induction false} ExtendWithin(g: Graph, t: set<string>, p: seq<string>, k: nat)
    returns (q: seq<string>)
    requires IsPath(g, p) && p[|p| - 1] in t
    requires forall x :: x in t ==> x in g && g[x] * t != {}
    ensures IsPath(g, q) && q[0] == p[0] && |q| == |p| + k && q[|q| - 1] in t
    decreases k
  {
    if k == 0 {
      q := p;
    } else {
      var last := p[|p| - 1];
      var next :| next in g[last] * t;
      var p' := p + [next];
      assert forall i :: 0 <= i < |p'| - 1 ==> p'[i] in g && p'[i + 1] in g[p'[i]] by {
        forall i | 0 <= i < |p'| - 1
          ensures p'[i] in g && p'[i + 1] in g[p'[i]]
        {
          if i < |p| - 1 {
            assert p'[i] == p[i] && p'[i + 1] == p[i + 1];
          }
        }
      }
      q := ExtendWithin(g, t, p', k - 1);
    }
  }

  /** Duplicate-free lists drawn from a set are no longer than the set is large. */
  lemma PigeonHole(p: seq<string>, s: set<string>)
    requires NoDup(p) && Elems(p) <= s
    ensures |p| <= |s|
  {
    NoDupCard(p);
    assert |Elems(p)| <= |s| by {
      SubsetCard(Elems(p), s);
    }
  }

  lemma {:induction false} SubsetCard(a: set<string>, b: set<string>)
    requires a <= b
    ensures |a| <= |b|
    decreases |b|
  {
    if a != {} {
      var x :| x in a;
      SubsetCard(a - {x}, b - {x});
    }
  }

  /** Adding new members of u to d leaves fewer members of u outside d. */
  lemma RemainingShrinks(u: set<string>, d: set<string>, add: set<string>)
    requires add != {} && add <= u && add !! d
    ensures |u - (d + add)| < |u - d|
  {
    assert u - d == (u - (d + add)) + add;
    assert (u - (d + add)) !! add;
  }

  /** If a non-empty set t of names reachable from a has the property that
      each member has a dependent inside t, then the graph has a cycle that
      can be reached from a. */
  lemma StuckMeansCycle(g: Graph, a: string, t: set<string>)
    requires t != {}
    requires forall x :: x in t ==> Reachable(g, a, x)
    requires forall x :: x in t ==> x in g && g[x] * t != {}
    ensures !AcyclicFrom(g, a)
  {
    var x :| x in t;
    var p :| IsPath(g, p) && p[0] == a && p[|p| - 1] == x;
    var universe := {a} + Nodes(g);
    var q := ExtendWithin(g, t, p, |universe|);
    PathInNodes(g, q);
    if NoDup(q) {
      PigeonHole(q, universe);
      assert false;
    }
  }

  /** The names that depend on some member of t. */
  function Dependents(g: Graph, t: set<string>): set<string>
  {
    set it, x | it in t && it in g && x in g[it] :: x
  }

  /** Every name of the list comes after all the names that depend on it. */
  ghost predicate DependentsFirst(g: Graph, order: seq<string>)
  {
    forall j :: 0 <= j < |order| && order[j] in g ==> g[order[j]] <= Elems(order[..j])
  }

  lemma DependentsFirstExtend(g: Graph, order: seq<string>, extra: seq<string>)
    requires DependentsFirst(g, order)
    requires forall x :: x in extra && x in g ==> g[x] <= Elems(order)
    ensures DependentsFirst(g, order + extra)
  {
    var o := order + extra;
    ElemsAppend(order, extra);
    forall j | 0 <= j < |o| && o[j] in g
      ensures g[o[j]] <= Elems(o[..j])
    {
      if j < |order| {
        assert o[..j] == order[..j];
      } else {
        assert o[j] == extra[j - |order|];
        assert o[..j] == order + extra[..j - |order|];
        ElemsAppend(order, extra[..j - |order|]);
      }
    }
  }

  /** The names of such a list are closed under "is depended on by". */
  lemma DependentsFirstClosed(g: Graph, order: seq<string>)
    requires DependentsFirst(g, order)
    ensures forall x :: x in Elems(order) && x in g ==> g[x] <= Elems(order)
  {
    forall x | x in Elems(order) && x in g
      ensures g[x] <= Elems(order)
    {
      var j :| 0 <= j < |order| && order[j] == x;
      assert Elems(order[..j]) <= Elems(order);
    }
  }

  /** In a duplicate-free such list a dependent has a smaller index. */
  lemma DependentBefore(g: Graph, order: seq<string>, i: int, j: int)
    requires NoDup(order) && DependentsFirst(g, order)
    requires 0 <= i < |order| && 0 <= j < |order|
    requires order[j] in g && order[i] in g[order[j]]
    ensures i < j
  {
    assert order[i] in Elems(order[..j]);
    var k :| 0 <= k < j && order[..j][k] == order[i];
    assert order[k] == order[i];
  }

  /** The far end of a walk of at least one edge that starts at order[j]
      occurs in order before j. */
  lemma {:induction false} PathGoesEarlier(g: Graph, order: seq<string>, p: seq<string>, j: int)
    returns (i: nat)
    requires NoDup(order) && DependentsFirst(g, order)
    requires IsPath(g, p) && |p| >= 2
    requires 0 <= j < |order| && order[j] == p[0]
    ensures i < j && order[i] == p[|p| - 1]
    decreases |p|
  {
    assert Edge(g, p[0], p[1]);
    assert p[1] in Elems(order[..j]);
    var k :| 0 <= k < j && order[..j][k] == p[1];
    if |p| == 2 {
      i := k;
    } else {
      var tail := p[1..];
      assert IsPath(g, tail) by {
        forall m | 0 <= m < |tail| - 1
          ensures tail[m] in g && tail[m + 1] in g[tail[m]]
        {
          assert tail[m] == p[m + 1] && tail[m + 1] == p[m + 2];
        }
      }
      i := PathGoesEarlier(g, order, tail, k);
    }
  }

  /** If every name of such a list is reachable from a, then a comes last. */
  lemma LastIsTarget(g: Graph, order: seq<string>, a: string)
    requires NoDup(order) && DependentsFirst(g, order) && a in order
    requires forall x :: x in order ==> Reachable(g, a, x)
    ensures order[|order| - 1] == a
  {
    var n := |order| - 1;
    var y := order[n];
    if y != a {
      assert Reachable(g, a, y);
      var p :| IsPath(g, p) && p[0] == a && p[|p| - 1] == y;
      var j :| 0 <= j < |order| && order[j] == a;
      var i := PathGoesEarlier(g, order, p, j);
      assert false;
    }
  }
}
