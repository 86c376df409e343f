/**
 The two static helpers of Util.java: building the depended-by graph from a
 snapshot of the plugin registry, and peeling that graph from a target
 plugin to obtain the order in which the target and all its transitive
 dependents are unloaded (dependents first, target last).
 */
module Util {
  import opened Seqs
  import opened DependencyGraph

  /** What the model reads of one installed plugin: its name and the
      `depend` and `softdepend` lists of its description file. */
  datatype PluginDescription = PluginDescription(name: string, depend: seq<string>, softDepend: seq<string>)

  /** p declares a dependency on d, mandatory or optional. */
  predicate Declares(p: PluginDescription, d: string)
  {
    d in p.depend || d in p.softDepend
  }

  /** Some plugin of the registry declares a dependency on d. */
  ghost predicate IsDependency(registry: seq<PluginDescription>, d: string)
  {
    exists i :: 0 <= i < |registry| && Declares(registry[i], d)
  }

  /** A plugin named b declares a dependency on d. */
  ghost predicate DependsOn(registry: seq<PluginDescription>, b: string, d: string)
  {
    exists i :: 0 <= i < |registry| && registry[i].name == b && Declares(registry[i], d)
  }

  /** `graph.computeIfAbsent(d, new HashSet).add(b)`. */
  function AddDependedBy(g: Graph, d: string, b: string): Graph
  {
    g[d := (if d in g then g[d] else {}) + {b}]
  }

  /** Records b as depending on every name of ds, first to last. */
  function AddAll(g: Graph, ds: seq<string>, b: string): Graph
  {
    if ds == [] then g else AddDependedBy(AddAll(g, ds[..|ds| - 1], b), ds[|ds| - 1], b)
  }

  /** The graph buildDependedGraph produces for a registry snapshot, plugin by
      plugin, each plugin's `depend` list before its `softdepend` list. */
  function DependedGraph(registry: seq<PluginDescription>): Graph
  {
    if registry == [] then map[]
    else
      var p := registry[|registry| - 1];
      AddAll(AddAll(DependedGraph(registry[..|registry| - 1]), p.depend, p.name), p.softDepend, p.name)
  }

  lemma {:induction false} AddAllEdges(g: Graph, ds: seq<string>, b: string)
    ensures forall d :: d in AddAll(g, ds, b) <==> d in g || d in ds
    ensures forall d, x :: d in AddAll(g, ds, b) && x in AddAll(g, ds, b)[d]
                       <==> (d in g && x in g[d]) || (x == b && d in ds)
  {
    if ds != [] {
      var init := ds[..|ds| - 1];
      AddAllEdges(g, init, b);
      assert ds == init + [ds[|ds| - 1]];
    }
  }

  /** The graph has an entry for exactly the names some plugin declares a
      dependency on. */
  lemma {:induction false} DependedGraphKeys(registry: seq<PluginDescription>)
    ensures forall d :: d in DependedGraph(registry) <==> IsDependency(registry, d)
  {
    if registry != [] {
      var n := |registry| - 1;
      var init := registry[..n];
      var p := registry[n];
      var g0 := DependedGraph(init);
      var g1 := AddAll(g0, p.depend, p.name);
      DependedGraphKeys(init);
      AddAllEdges(g0, p.depend, p.name);
      AddAllEdges(g1, p.softDepend, p.name);
      forall d
        ensures d in DependedGraph(registry) <==> IsDependency(registry, d)
      {
        if d in DependedGraph(registry) && !Declares(p, d) {
          var i :| 0 <= i < n && Declares(init[i], d);
          assert Declares(registry[i], d);
        }
        if IsDependency(registry, d) && !Declares(p, d) {
          var i :| 0 <= i < |registry| && Declares(registry[i], d);
          assert i < n && Declares(init[i], d);
        }
      }
    }
  }

  /** b is in the entry for d exactly when plugin b declares d in either list. */
  lemma {:induction false} DependedGraphEntries(registry: seq<PluginDescription>)
    ensures forall d, b :: d in DependedGraph(registry) && b in DependedGraph(registry)[d]
                       <==> DependsOn(registry, b, d)
  {
    if registry != [] {
      var n := |registry| - 1;
      var init := registry[..n];
      var p := registry[n];
      var g0 := DependedGraph(init);
      var g1 := AddAll(g0, p.depend, p.name);
      DependedGraphEntries(init);
      AddAllEdges(g0, p.depend, p.name);
      AddAllEdges(g1, p.softDepend, p.name);
      forall d, b
        ensures d in DependedGraph(registry) && b in DependedGraph(registry)[d] <==> DependsOn(registry, b, d)
      {
        if d in DependedGraph(registry) && b in DependedGraph(registry)[d] && !(b == p.name && Declares(p, d)) {
          var i :| 0 <= i < n && init[i].name == b && Declares(init[i], d);
          assert registry[i].name == b && Declares(registry[i], d);
        }
        if DependsOn(registry, b, d) && !(b == p.name && Declares(p, d)) {
          var i :| 0 <= i < |registry| && registry[i].name == b && Declares(registry[i], d);
          assert i < n && init[i].name == b && Declares(init[i], d);
          assert DependsOn(init, b, d);
        }
        if b == p.name && Declares(p, d) {
          assert registry[n].name == b && Declares(registry[n], d);
        }
      }
    }
  }

  /** Together: keys are the declared dependencies, entries the declaring
      plugins, and no entry is empty. */
  lemma DependedGraphEdges(registry: seq<PluginDescription>)
    ensures forall d :: d in DependedGraph(registry) <==> IsDependency(registry, d)
    ensures forall d, b :: d in DependedGraph(registry) && b in DependedGraph(registry)[d]
                       <==> DependsOn(registry, b, d)
    ensures forall d :: d in DependedGraph(registry) ==> DependedGraph(registry)[d] != {}
  {
    DependedGraphKeys(registry);
    DependedGraphEntries(registry);
    forall d | d in DependedGraph(registry)
      ensures DependedGraph(registry)[d] != {}
    {
      var i :| 0 <= i < |registry| && Declares(registry[i], d);
      assert DependsOn(registry, registry[i].name, d);
      assert registry[i].name in DependedGraph(registry)[d];
    }
  }

  /** Moving a declaration between the mandatory and the optional list, or
      repeating or reordering declarations, leaves the graph unchanged. */
  lemma OptionalMandatoryEquivalence(r1: seq<PluginDescription>, r2: seq<PluginDescription>)
    requires |r1| == |r2|
    requires forall i :: 0 <= i < |r1| ==> r1[i].name == r2[i].name
    requires forall i, e :: 0 <= i < |r1| ==> (Declares(r1[i], e) <==> Declares(r2[i], e))
    ensures DependedGraph(r1) == DependedGraph(r2)
  {
    var g1, g2 := DependedGraph(r1), DependedGraph(r2);
    DependedGraphKeys(r1);
    DependedGraphKeys(r2);
    DependedGraphEntries(r1);
    DependedGraphEntries(r2);
    forall d
      ensures d in g1 <==> d in g2
      ensures d in g1 ==> g1[d] == g2[d]
    {
      SameDeclarations(r1, r2, d);
    }
  }

  /** Plugins that declare the same names, list for list, declare the same
      dependencies, of the same plugins. */
  lemma SameDeclarations(r1: seq<PluginDescription>, r2: seq<PluginDescription>, d: string)
    requires |r1| == |r2|
    requires forall i :: 0 <= i < |r1| ==> r1[i].name == r2[i].name
    requires forall i, e :: 0 <= i < |r1| ==> (Declares(r1[i], e) <==> Declares(r2[i], e))
    ensures IsDependency(r1, d) <==> IsDependency(r2, d)
    ensures forall b :: DependsOn(r1, b, d) <==> DependsOn(r2, b, d)
  {
    if IsDependency(r1, d) {
      var i :| 0 <= i < |r1| && Declares(r1[i], d);
      assert Declares(r2[i], d);
    }
    if IsDependency(r2, d) {
      var i :| 0 <= i < |r2| && Declares(r2[i], d);
      assert Declares(r1[i], d);
    }
    forall b
      ensures DependsOn(r1, b, d) <==> DependsOn(r2, b, d)
    {
      if DependsOn(r1, b, d) {
        var i :| 0 <= i < |r1| && r1[i].name == b && Declares(r1[i], d);
        assert r2[i].name == b && Declares(r2[i], d);
      }
      if DependsOn(r2, b, d) {
        var i :| 0 <= i < |r2| && r2[i].name == b && Declares(r2[i], d);
        assert r1[i].name == b && Declares(r1[i], d);
      }
    }
  }

  /** buildDependedGraph over an explicit registry snapshot. */
  method BuildDependedGraph(registry: seq<PluginDescription>) returns (graph: Graph)
    ensures graph == DependedGraph(registry)
    ensures forall d :: d in graph <==> IsDependency(registry, d)
    ensures forall d, b :: d in graph && b in graph[d] <==> DependsOn(registry, b, d)
    ensures forall d :: d in graph ==> graph[d] != {}
  {
    graph := map[];
    for i := 0 to |registry|
      invariant graph == DependedGraph(registry[..i])
    {
      var it := registry[i];
      assert registry[..i + 1][..i] == registry[..i];
      ghost var before := graph;
      for j := 0 to |it.depend|
        invariant graph == AddAll(before, it.depend[..j], it.name)
      {
        var depend := it.depend[j];
        if depend !in graph {
          graph := graph[depend := {}];
        }
        graph := graph[depend := graph[depend] + {it.name}];
        assert it.depend[..j + 1][..j] == it.depend[..j];
      }
      assert it.depend[..|it.depend|] == it.depend;
      ghost var middle := graph;
      for j := 0 to |it.softDepend|
        invariant graph == AddAll(middle, it.softDepend[..j], it.name)
      {
        var depend := it.softDepend[j];
        if depend !in graph {
          graph := graph[depend := {}];
        }
        graph := graph[depend := graph[depend] + {it.name}];
        assert it.softDepend[..j + 1][..j] == it.softDepend[..j];
      }
      assert it.softDepend[..|it.softDepend|] == it.softDepend;
    }
    assert registry[..|registry|] == registry;
    DependedGraphEdges(registry);
  }

  /** The entry of `it` is missing or empty: nothing unplaced depends on it. */
  predicate Ready(g: Graph, it: string)
  {
    it !in g || g[it] == {}
  }

  /** The `for (String it : todo)` scan of one round of findPluginDependencies,
      visiting the names of todo in an unspecified order: a name whose entry
      is missing or empty is appended to the order and to doRemove; otherwise
      each of its dependents not yet seen is marked seen and put in doAdd. */
  method ScanRound(graph: Graph, todo: set<string>, done: set<string>, order: seq<string>)
    returns (order': seq<string>, done': set<string>, doRemove: seq<string>, doAdd: set<string>)
    ensures order' == order + doRemove
    ensures NoDup(doRemove) && Elems(doRemove) == set it | it in todo && Ready(graph, it)
    ensures doAdd !! done && done' == done + doAdd
    ensures doAdd <= Dependents(graph, todo)
    ensures forall it :: it in todo && !Ready(graph, it) ==> graph[it] <= done'
  {
    order', done' := order, done;
    doRemove, doAdd := [], {};
    var rest := todo;
    while rest != {}
      invariant rest <= todo
      invariant order' == order + doRemove
      invariant NoDup(doRemove) && Elems(doRemove) == set it | it in todo - rest && Ready(graph, it)
      invariant doAdd !! done && done' == done + doAdd
      invariant doAdd <= Dependents(graph, todo - rest)
      invariant forall it :: it in todo - rest && !Ready(graph, it) ==> graph[it] <= done'
      decreases rest
    {
      var it :| it in rest;
      rest := rest - {it};
      if Ready(graph, it) {
        ElemsAppend(doRemove, [it]);
        NoDupAppend(doRemove, [it]);
        order' := order' + [it];
        doRemove := doRemove + [it];
      } else {
        var dependedSet := graph[it];
        doAdd := doAdd + (dependedSet - done');
        done' := done' + dependedSet;
      }
    }
  }

  /** The end of a round of findPluginDependencies: every entry of the graph
      loses the names placed in that round; no entry is added or dropped. */
  method RemovePlaced(graph: Graph, placed: set<string>) returns (graph': Graph)
    ensures graph'.Keys == graph.Keys
    ensures forall k :: k in graph ==> graph'[k] == graph[k] - placed
  {
    graph' := graph;
    var keys := graph.Keys;
    while keys != {}
      invariant keys <= graph.Keys && graph'.Keys == graph.Keys
      invariant forall k :: k in graph ==> graph'[k] == if k in keys then graph[k] else graph[k] - placed
      decreases keys
    {
      var k :| k in keys;
      keys := keys - {k};
      graph' := graph'[k := graph'[k] - placed];
    }
  }

  /** On a graph with no cycle reachable from name, every round places a
      name or discovers a new dependent: a round that did neither would leave
      each name of todo with a dependent inside todo. */
  lemma RoundMakesProgress(g0: Graph, name: string, graph: Graph, todo: set<string>, placed: set<string>,
                           doRemove: seq<string>, doAdd: set<string>, done: set<string>)
    requires AcyclicFrom(g0, name)
    requires todo != {} && todo !! placed
    requires forall x :: x in todo ==> Reachable(g0, name, x)
    requires graph.Keys == g0.Keys && forall k :: k in g0 ==> graph[k] == g0[k] - placed
    requires Elems(doRemove) == set it | it in todo && Ready(graph, it)
    requires done == todo + placed + doAdd
    requires forall it :: it in todo && !Ready(graph, it) ==> graph[it] <= done
    ensures doAdd != {} || doRemove != []
  {
    if doAdd == {} && doRemove == [] {
      forall x | x in todo
        ensures x in g0 && g0[x] * todo != {}
      {
        assert x !in Elems(doRemove);
        assert graph[x] != {} && graph[x] <= todo;
      }
      StuckMeansCycle(g0, name, todo);
    }
  }

  /** The loop measure (unseen names, names still to do) drops in every
      round that places a name or discovers a new dependent. */
  lemma MeasureDecreases(universe: set<string>, todo: set<string>, done0: set<string>, placed: set<string>,
                         doAdd: set<string>, doRemove: seq<string>)
    requires doAdd != {} || doRemove != []
    requires placed == Elems(doRemove) && placed <= todo
    requires doAdd !! done0 && done0 + doAdd <= universe
    ensures || |universe - (done0 + doAdd)| < |universe - done0|
            || (|universe - (done0 + doAdd)| == |universe - done0| && |todo - placed + doAdd| < |todo|)
  {
    if doAdd != {} {
      RemainingShrinks(universe, done0, doAdd);
    } else {
      assert doRemove[0] in placed;
      RemainingShrinks(todo, {}, placed);
      assert todo - placed + doAdd == todo - ({} + placed);
      assert done0 + doAdd == done0;
    }
  }

  /** The invariant of the `while (!todo.isEmpty())` loop: the live graph is
      the original one minus the names placed so far; the order has no
      duplicates and lists dependents first; `done` holds exactly the names
      still to do and the names placed, all of them reachable from name. */
  ghost predicate PeelInvariant(g0: Graph, name: string, graph: Graph, todo: set<string>, done: set<string>, order: seq<string>)
  {
    && graph.Keys == g0.Keys
    && (forall k :: k in g0 ==> graph[k] == g0[k] - Elems(order))
    && NoDup(order) && DependentsFirst(g0, order)
    && todo !! Elems(order) && done == todo + Elems(order)
    && name in done && done <= {name} + Nodes(g0)
    && (forall x :: x in done ==> Reachable(g0, name, x))
  }

  /** After a round the live graph is the original minus every name placed so far. */
  lemma RoundGraph(g0: Graph, graph: Graph, order0: seq<string>, doRemove: seq<string>, graph': Graph)
    requires graph.Keys == g0.Keys && forall k :: k in g0 ==> graph[k] == g0[k] - Elems(order0)
    requires graph'.Keys == graph.Keys && forall k :: k in graph ==> graph'[k] == graph[k] - Elems(doRemove)
    ensures graph'.Keys == g0.Keys && forall k :: k in g0 ==> graph'[k] == g0[k] - Elems(order0 + doRemove)
  {
    ElemsAppend(order0, doRemove);
  }

  /** The names placed in a round are new and have no unplaced dependents. */
  lemma RoundOrder(g0: Graph, graph: Graph, todo: set<string>, order0: seq<string>, doRemove: seq<string>)
    requires graph.Keys == g0.Keys && forall k :: k in g0 ==> graph[k] == g0[k] - Elems(order0)
    requires NoDup(order0) && DependentsFirst(g0, order0) && todo !! Elems(order0)
    requires NoDup(doRemove) && Elems(doRemove) == set it | it in todo && Ready(graph, it)
    ensures NoDup(order0 + doRemove) && DependentsFirst(g0, order0 + doRemove)
  {
    NoDupAppend(order0, doRemove);
    forall x | x in doRemove && x in g0
      ensures g0[x] <= Elems(order0)
    {
      assert x in Elems(doRemove);
      assert x in graph && graph[x] == {} && graph[x] == g0[x] - Elems(order0);
      forall y | y in g0[x]
        ensures y in Elems(order0)
      {
        assert y !in graph[x];
      }
    }
    DependentsFirstExtend(g0, order0, doRemove);
  }

  /** After a round, todo and the placed names still split `done`. */
  lemma RoundSets(name: string, todo: set<string>, done0: set<string>, order0: seq<string>,
                  doRemove: seq<string>, doAdd: set<string>, done: set<string>)
    requires todo !! Elems(order0) && done0 == todo + Elems(order0) && name in done0
    requires Elems(doRemove) <= todo && doAdd !! done0 && done == done0 + doAdd
    ensures todo - Elems(doRemove) + doAdd !! Elems(order0 + doRemove)
    ensures done == todo - Elems(doRemove) + doAdd + Elems(order0 + doRemove)
    ensures name in done
  {
    ElemsAppend(order0, doRemove);
  }

  /** The dependents discovered in a round are reachable from name. */
  lemma RoundReach(g0: Graph, name: string, graph: Graph, todo: set<string>, done0: set<string>,
                   doAdd: set<string>, done: set<string>)
    requires graph.Keys == g0.Keys && forall k :: k in g0 ==> graph[k] <= g0[k]
    requires todo <= done0 && done0 <= {name} + Nodes(g0)
    requires forall x :: x in done0 ==> Reachable(g0, name, x)
    requires doAdd <= Dependents(graph, todo) && done == done0 + doAdd
    ensures done <= {name} + Nodes(g0)
    ensures forall x :: x in done ==> Reachable(g0, name, x)
  {
    forall x | x in doAdd
      ensures Reachable(g0, name, x) && x in {name} + Nodes(g0)
    {
      var it :| it in todo && it in graph && x in graph[it];
      ReachableStep(g0, name, it, x);
    }
  }

  /** One round (a scan, then the removal of the placed names from every
      entry and the update of todo) preserves the loop invariant and, when no
      cycle can be reached from name, decreases the loop measure. */
  lemma RoundPreservesInvariant(g0: Graph, name: string, graph: Graph, todo: set<string>, done0: set<string>,
                                order0: seq<string>, doRemove: seq<string>, doAdd: set<string>, done: set<string>,
                                graph': Graph)
    requires AcyclicFrom(g0, name) && todo != {}
    requires PeelInvariant(g0, name, graph, todo, done0, order0)
    requires NoDup(doRemove) && Elems(doRemove) == set it | it in todo && Ready(graph, it)
    requires doAdd !! done0 && done == done0 + doAdd
    requires doAdd <= Dependents(graph, todo)
    requires forall it :: it in todo && !Ready(graph, it) ==> graph[it] <= done
    requires graph'.Keys == graph.Keys && forall k :: k in graph ==> graph'[k] == graph[k] - Elems(doRemove)
    ensures PeelInvariant(g0, name, graph', todo - Elems(doRemove) + doAdd, done, order0 + doRemove)
    ensures var universe := {name} + Nodes(g0);
            || |universe - done| < |universe - done0|
            || (|universe - done| == |universe - done0| && |todo - Elems(doRemove) + doAdd| < |todo|)
  {
    assert Elems(doRemove) <= todo;
    RoundGraph(g0, graph, order0, doRemove, graph');
    RoundOrder(g0, graph, todo, order0, doRemove);
    RoundSets(name, todo, done0, order0, doRemove, doAdd, done);
    RoundReach(g0, name, graph, todo, done0, doAdd, done);
    RoundMakesProgress(g0, name, graph, todo, Elems(order0), doRemove, doAdd, done);
    MeasureDecreases({name} + Nodes(g0), todo, done0, Elems(doRemove), doAdd, doRemove);
  }

  /** When todo is empty the order holds exactly the target and its
      transitive dependents, each once, every dependent before what it depends
      on, the target last; the live graph has lost exactly the placed names. */
  lemma PeelComplete(g0: Graph, name: string, graph: Graph, done: set<string>, order: seq<string>)
    requires PeelInvariant(g0, name, graph, {}, done, order)
    ensures |order| > 0 && order[|order| - 1] == name
    ensures NoDup(order)
    ensures forall x :: x in order <==> Reachable(g0, name, x)
    ensures DependentsFirst(g0, order)
    ensures Ready(g0, name) ==> order == [name]
    ensures graph.Keys == g0.Keys && forall k :: k in g0 ==> graph[k] == g0[k] - Elems(order)
  {
    DependentsFirstClosed(g0, order);
    forall x | Reachable(g0, name, x)
      ensures x in order
    {
      ClosedContainsReachable(g0, Elems(order), name, x);
    }
    LastIsTarget(g0, order, name);
    if Ready(g0, name) {
      forall x | Reachable(g0, name, x)
        ensures x == name
      {
        var p :| IsPath(g0, p) && p[0] == name && p[|p| - 1] == x;
        assert |p| == 1 || Edge(g0, p[0], p[1]);
      }
      assert Elems(order) == {name};
      NoDupCard(order);
      assert order == [order[0]];
    }
  }

  /** One pass of the while loop: scan todo, drop the placed names from
      every entry, then replace the placed names in todo by the newly
      discovered dependents. */
  method Round(ghost g0: Graph, ghost name: string, graph: Graph, todo: set<string>, done: set<string>,
               order: seq<string>)
    returns (graph': Graph, todo': set<string>, done': set<string>, order': seq<string>)
    requires AcyclicFrom(g0, name) && todo != {}
    requires PeelInvariant(g0, name, graph, todo, done, order)
    ensures PeelInvariant(g0, name, graph', todo', done', order')
    ensures var universe := {name} + Nodes(g0);
            || |universe - done'| < |universe - done|
            || (|universe - done'| == |universe - done| && |todo'| < |todo|)
  {
    var doRemove, doAdd;
    order', done', doRemove, doAdd := ScanRound(graph, todo, done, order);
    var placed := Elems(doRemove);
    graph' := RemovePlaced(graph, placed);
    RoundPreservesInvariant(g0, name, graph, todo, done, order, doRemove, doAdd, done', graph');
    todo' := todo - placed + doAdd;
  }

  /** findPluginDependencies. Rounds of a layered peel starting at `name`:
      every name of the current round whose entry is missing or empty is
      appended to the order, the others contribute their dependents to the
      next round; at the end of a round the names placed in it are removed
      from every entry. The names of one round are visited in an unspecified
      order. The graph the source changes in place is returned as graph'.
      The source has no guard against a cycle reachable from `name`; the
      model requires that none can be reached. */
  method FindPluginDependencies(name: string, dependedGraph: Graph) returns (order: seq<string>, graph': Graph)
    requires AcyclicFrom(dependedGraph, name)
    ensures |order| > 0 && order[|order| - 1] == name
    ensures NoDup(order)
    ensures forall x :: x in order <==> Reachable(dependedGraph, name, x)
    ensures DependentsFirst(dependedGraph, order)
    ensures Ready(dependedGraph, name) ==> order == [name]
    ensures graph'.Keys == dependedGraph.Keys
    ensures forall k :: k in dependedGraph ==> graph'[k] == dependedGraph[k] - Elems(order)
  {
    ghost var universe := {name} + Nodes(dependedGraph);
    var graph := dependedGraph;
    var todo: set<string> := {name};
    var done: set<string> := {name};
    order := [];
    ReachableSelf(dependedGraph, name);
    while todo != {}
      invariant PeelInvariant(dependedGraph, name, graph, todo, done, order)
      decreases |universe - done|, |todo|
    {
      graph, todo, done, order := Round(dependedGraph, name, graph, todo, done, order);
    }
    PeelComplete(dependedGraph, name, graph, done, order);
    graph' := graph;
  }
}
