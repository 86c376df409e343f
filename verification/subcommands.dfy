/**
 The `depend` and `reload` subcommands of PlugInfoCommand.java, over an
 explicit snapshot of the plugin registry. Messages to the sender become
 the data they report; the console commands `plugman unload <name>` and
 `plugman load <name>` that reload dispatches become a returned list of
 commands, whose effect on the set of loaded plugins is modelled by Run.
 */
module Subcommands {
  import opened Seqs
  import opened DependencyGraph
  import opened Util

  /** The names of the installed plugins. */
  function Installed(registry: seq<PluginDescription>): (r: set<string>)
    ensures forall i :: 0 <= i < |registry| ==> registry[i].name in r
    ensures forall x :: x in r ==> exists i :: 0 <= i < |registry| && registry[i].name == x
  {
    set p | p in registry :: p.name
  }

  /** Every name in an entry of the graph is an installed plugin. */
  lemma DependentsAreInstalled(registry: seq<PluginDescription>, d: string, b: string)
    requires Edge(DependedGraph(registry), d, b)
    ensures b in Installed(registry)
  {
    DependedGraphEntries(registry);
    assert DependsOn(registry, b, d);
  }

  // ---------------------------------------------------------------- depend

  /** What `/pluginfo depend <plugin>` does: return false on a wrong number
      of arguments, report an unknown plugin, or report the direct
      dependents (a set), the depending list and the count it prints. */
  datatype DependOutcome =
    | DependUsage
    | DependNotFound(arg: string)
    | DependReport(directlyDepending: set<string>, depending: seq<string>, count: int)

  /** The "depending" list of depend: the order without its last element
      (the plugin itself), reversed. */
  function DependingList(order: seq<string>): (r: seq<string>)
    requires |order| > 0
    ensures |r| == |order| - 1
    ensures forall k :: 0 <= k < |r| ==> r[k] == order[|order| - 2 - k]
  {
    Reverse(order[..|order| - 1])
  }

  /** The depending list holds each transitive dependent of the plugin once,
      and lists what a plugin depends on before the plugin. */
  lemma DependingListFacts(g: Graph, arg: string, order: seq<string>)
    requires |order| > 0 && order[|order| - 1] == arg && NoDup(order)
    requires forall x :: x in order <==> Reachable(g, arg, x)
    requires DependentsFirst(g, order)
    ensures NoDup(DependingList(order))
    ensures forall x :: x in DependingList(order) <==> x != arg && Reachable(g, arg, x)
    ensures forall i, j ::
              (0 <= i < |DependingList(order)| && 0 <= j < |DependingList(order)| &&
               Edge(g, DependingList(order)[i], DependingList(order)[j])) ==> i < j
  {
    DependingListNoDup(order);
    DependingListMembers(g, arg, order);
    DependingListOrder(g, order);
  }

  lemma DependingListNoDup(order: seq<string>)
    requires |order| > 0 && NoDup(order)
    ensures NoDup(DependingList(order))
  {
    var d := DependingList(order);
    var n := |order|;
    forall i, j | 0 <= i < j < |d|
      ensures d[i] != d[j]
    {
      assert d[i] == order[n - 2 - i] && d[j] == order[n - 2 - j];
    }
  }

  lemma DependingListMembers(g: Graph, arg: string, order: seq<string>)
    requires |order| > 0 && order[|order| - 1] == arg && NoDup(order)
    requires forall x :: x in order <==> Reachable(g, arg, x)
    ensures forall x :: x in DependingList(order) <==> x != arg && Reachable(g, arg, x)
  {
    var d := DependingList(order);
    var n := |order|;
    forall x
      ensures x in d <==> x != arg && Reachable(g, arg, x)
    {
      if x in d {
        var k :| 0 <= k < |d| && d[k] == x;
        assert x == order[n - 2 - k] && x in order;
      }
      if x != arg && Reachable(g, arg, x) {
        var m :| 0 <= m < n && order[m] == x;
        assert m != n - 1;
        assert d[n - 2 - m] == x;
      }
    }
  }

  lemma DependingListOrder(g: Graph, order: seq<string>)
    requires |order| > 0 && NoDup(order) && DependentsFirst(g, order)
    ensures forall i, j ::
              (0 <= i < |DependingList(order)| && 0 <= j < |DependingList(order)| &&
               Edge(g, DependingList(order)[i], DependingList(order)[j])) ==> i < j
  {
    var d := DependingList(order);
    var n := |order|;
    forall i, j | 0 <= i < |d| && 0 <= j < |d| && Edge(g, d[i], d[j])
      ensures i < j
    {
      DependentBefore(g, order, n - 2 - j, n - 2 - i);
    }
  }

  /** The direct dependents are among the transitive ones: an edge from the
      plugin leads to a reachable name, which differs from the plugin
      because no cycle is reachable. */
  lemma DirectAreDepending(g: Graph, arg: string, b: string)
    requires AcyclicFrom(g, arg) && Edge(g, arg, b)
    ensures b != arg && Reachable(g, arg, b)
  {
    ReachableSelf(g, arg);
    ReachableStep(g, arg, arg, b);
    assert IsPath(g, [arg, b]) && [arg, b][0] == arg;
    assert NoDup([arg, b]) && [arg, b][1] == b;
  }

  /** depend. When the plugin is installed: the direct dependents are the
      plugins declaring it in either list; the depending list holds each
      transitive dependent once, what a plugin depends on first; the count
      is the length of that list. */
  method Depend(registry: seq<PluginDescription>, args: seq<string>) returns (r: DependOutcome)
    requires |args| == 1 && args[0] in Installed(registry) ==> AcyclicFrom(DependedGraph(registry), args[0])
    ensures r == DependUsage <==> |args| != 1
    ensures r.DependNotFound? <==> |args| == 1 && args[0] !in Installed(registry)
    ensures r.DependNotFound? ==> r.arg == args[0]
    ensures r.DependReport? ==>
              && (forall b :: b in r.directlyDepending <==> DependsOn(registry, b, args[0]))
              && NoDup(r.depending)
              && (forall x :: x in r.depending <==> x != args[0] && Reachable(DependedGraph(registry), args[0], x))
              && (forall i, j ::
                    (0 <= i < |r.depending| && 0 <= j < |r.depending| &&
                     Edge(DependedGraph(registry), r.depending[i], r.depending[j])) ==> i < j)
              && r.count == |r.depending|
              && r.directlyDepending <= Elems(r.depending)
              && (r.directlyDepending == {} ==> r.depending == [])
  {
    if |args| != 1 {
      return DependUsage;
    }
    var arg := args[0];
    if arg !in Installed(registry) {
      return DependNotFound(arg);
    }
    var dependedGraph := GraphWithEntry(registry, arg);
    var directlyDepending := dependedGraph[arg];
    var dependencies, _ := FindPluginDependencies(arg, dependedGraph);
    var all := DependingList(dependencies);
    r := DependReport(directlyDepending, all, |dependencies| - 1);
    ReportFacts(registry, DependedGraph(registry), dependedGraph, arg, dependencies);
  }

  /** The graph depend searches: the depended-by graph, with an empty entry
      for the plugin when nothing depends on it (computeIfAbsent). The entry
      adds no edge, so the part reachable from the plugin stays acyclic. */
  method GraphWithEntry(registry: seq<PluginDescription>, arg: string) returns (h: Graph)
    requires arg in Installed(registry) ==> AcyclicFrom(DependedGraph(registry), arg)
    ensures h == if arg in DependedGraph(registry) then DependedGraph(registry) else DependedGraph(registry)[arg := {}]
    ensures arg in h
    ensures arg in Installed(registry) ==> AcyclicFrom(h, arg)
  {
    h := BuildDependedGraph(registry);
    if arg !in h {
      EmptyEntrySameWalks(h, arg);
      h := h[arg := {}];
    }
  }

  /** The report of depend, from the facts findPluginDependencies
      establishes on the graph with an entry added for the plugin. */
  lemma ReportFacts(registry: seq<PluginDescription>, g: Graph, h: Graph, arg: string, order: seq<string>)
    requires g == DependedGraph(registry)
    requires h == if arg in g then g else g[arg := {}]
    requires AcyclicFrom(h, arg)
    requires |order| > 0 && order[|order| - 1] == arg && NoDup(order)
    requires forall x :: x in order <==> Reachable(h, arg, x)
    requires DependentsFirst(h, order)
    requires Ready(h, arg) ==> order == [arg]
    ensures arg in h
    ensures forall b :: b in h[arg] <==> DependsOn(registry, b, arg)
    ensures NoDup(DependingList(order))
    ensures forall x :: x in DependingList(order) <==> x != arg && Reachable(g, arg, x)
    ensures forall i, j ::
              (0 <= i < |DependingList(order)| && 0 <= j < |DependingList(order)| &&
               Edge(g, DependingList(order)[i], DependingList(order)[j])) ==> i < j
    ensures h[arg] <= Elems(DependingList(order))
    ensures h[arg] == {} ==> DependingList(order) == []
  {
    DependedGraphEdges(registry);
    if arg !in g {
      EmptyEntrySameWalks(g, arg);
    }
    DependingListFacts(h, arg, order);
    forall b | b in h[arg]
      ensures b in DependingList(order)
    {
      DirectAreDepending(h, arg, b);
    }
  }

  // ---------------------------------------------------------------- reload

  /** A console command reload dispatches: `plugman unload <name>` or
      `plugman load <name>`. */
  datatype ConsoleCommand = Unload(plugin: string) | Load(plugin: string)

  /** What `/pluginfo reload <plugin>` does: return false on a wrong number
      of arguments, report an unknown plugin, or report the disable order
      and dispatch the console commands. */
  datatype ReloadOutcome =
    | ReloadUsage
    | ReloadNotFound(arg: string)
    | Reloaded(order: seq<string>, dispatched: seq<ConsoleCommand>)

  /** One unload per name, in the order given. */
  function Unloads(s: seq<string>): (r: seq<ConsoleCommand>)
    ensures |r| == |s| && forall k :: 0 <= k < |s| ==> r[k] == Unload(s[k])
  {
    if s == [] then [] else Unloads(s[..|s| - 1]) + [Unload(s[|s| - 1])]
  }

  /** One load per name, last name first. */
  function LoadsBackwards(s: seq<string>): (r: seq<ConsoleCommand>)
    ensures |r| == |s| && forall k :: 0 <= k < |s| ==> r[k] == Load(s[|s| - 1 - k])
  {
    if s == [] then [] else LoadsBackwards(s[1..]) + [Load(s[0])]
  }

  /** The effect of a console command on the set of loaded plugins. */
  function Apply(loaded: set<string>, c: ConsoleCommand): set<string>
  {
    match c
    case Unload(x) => loaded - {x}
    case Load(x) => loaded + {x}
  }

  /** The loaded plugins after running the commands in turn. */
  function Run(loaded: set<string>, cs: seq<ConsoleCommand>): set<string>
  {
    if cs == [] then loaded else Apply(Run(loaded, cs[..|cs| - 1]), cs[|cs| - 1])
  }

  /** A command is safe when it unloads a plugin no loaded plugin depends
      on, or loads a plugin after every installed plugin it depends on. */
  ghost predicate SafeCommand(g: Graph, installed: set<string>, loaded: set<string>, c: ConsoleCommand)
  {
    match c
    case Unload(x) => forall b :: Edge(g, x, b) ==> b !in loaded
    case Load(x) => forall d :: Edge(g, d, x) && d in installed ==> d in loaded
  }

  /** Every command of the list is safe in the state the earlier ones leave. */
  ghost predicate SafeRun(g: Graph, installed: set<string>, loaded: set<string>, cs: seq<ConsoleCommand>)
  {
    cs == [] ||
    (SafeRun(g, installed, loaded, cs[..|cs| - 1]) &&
     SafeCommand(g, installed, Run(loaded, cs[..|cs| - 1]), cs[|cs| - 1]))
  }

  lemma {:induction false} RunAppend(g: Graph, installed: set<string>, loaded: set<string>,
                                     a: seq<ConsoleCommand>, b: seq<ConsoleCommand>)
    ensures Run(loaded, a + b) == Run(Run(loaded, a), b)
    ensures SafeRun(g, installed, loaded, a + b) <==>
            SafeRun(g, installed, loaded, a) && SafeRun(g, installed, Run(loaded, a), b)
    decreases |b|
  {
    if b == [] {
      assert a + b == a;
    } else {
      var b' := b[..|b| - 1];
      assert (a + b)[..|a + b| - 1] == a + b';
      RunAppend(g, installed, loaded, a, b');
    }
  }

  /** The order as findPluginDependencies returns it, seen by reload: no
      duplicate, dependents first, and closed under the depended-by edges. */
  ghost predicate UnloadOrder(g: Graph, order: seq<string>)
  {
    && NoDup(order)
    && DependentsFirst(g, order)
    && (forall x, b :: x in order && Edge(g, x, b) ==> b in order)
  }

  /** Running one more command. */
  lemma RunStep(g: Graph, installed: set<string>, loaded: set<string>, cs: seq<ConsoleCommand>, c: ConsoleCommand)
    requires SafeRun(g, installed, loaded, cs) && SafeCommand(g, installed, Run(loaded, cs), c)
    ensures SafeRun(g, installed, loaded, cs + [c])
    ensures Run(loaded, cs + [c]) == Apply(Run(loaded, cs), c)
  {
    assert (cs + [c])[..|cs|] == cs;
  }

  lemma UnloadsStep(order: seq<string>, k: nat)
    requires k < |order|
    ensures Unloads(order[..k + 1]) == Unloads(order[..k]) + [Unload(order[k])]
    ensures Elems(order[..k + 1]) == Elems(order[..k]) + {order[k]}
  {
    assert order[..k + 1][..k] == order[..k];
    assert order[..k + 1] == order[..k] + [order[k]];
    ElemsAppend(order[..k], [order[k]]);
  }

  lemma LoadsStep(order: seq<string>, i: nat)
    requires i < |order|
    ensures LoadsBackwards(order[i..]) == LoadsBackwards(order[i + 1..]) + [Load(order[i])]
    ensures Elems(order[i..]) == Elems(order[i + 1..]) + {order[i]}
  {
    assert order[i..][1..] == order[i + 1..];
    assert order[i..] == [order[i]] + order[i + 1..];
    ElemsAppend([order[i]], order[i + 1..]);
  }

  /** Once the first k names are unloaded, nothing loaded depends on name k. */
  lemma UnloadIsSafe(g: Graph, installed: set<string>, order: seq<string>, k: nat)
    requires UnloadOrder(g, order) && k < |order|
    ensures SafeCommand(g, installed, installed - Elems(order[..k]), Unload(order[k]))
  {
    forall b | Edge(g, order[k], b)
      ensures b in Elems(order[..k])
    {
      var i :| 0 <= i < |order| && order[i] == b;
      DependentBefore(g, order, i, k);
      assert order[..k][i] == b;
    }
  }

  /** Once the names after i are loaded again, every installed plugin name i
      depends on is loaded. */
  lemma LoadIsSafe(g: Graph, installed: set<string>, order: seq<string>, i: nat)
    requires UnloadOrder(g, order) && i < |order|
    ensures SafeCommand(g, installed, installed - Elems(order) + Elems(order[i + 1..]), Load(order[i]))
  {
    forall d | Edge(g, d, order[i]) && d in installed && d in order
      ensures d in Elems(order[i + 1..])
    {
      var j :| 0 <= j < |order| && order[j] == d;
      DependentBefore(g, order, i, j);
      assert order[i + 1..][j - i - 1] == d;
    }
  }

  /** Unloading a list of names leaves exactly those names unloaded. */
  lemma {:induction false} UnloadsRun(loaded: set<string>, s: seq<string>)
    ensures Run(loaded, Unloads(s)) == loaded - Elems(s)
  {
    if s != [] {
      var n := |s| - 1;
      UnloadsRun(loaded, s[..n]);
      UnloadsStep(s, n);
      assert s[..n + 1] == s;
      assert Unloads(s)[..n] == Unloads(s[..n]);
    }
  }

  /** Loading a list of names, last name first, adds exactly those names. */
  lemma {:induction false} LoadsRun(loaded: set<string>, s: seq<string>)
    ensures Run(loaded, LoadsBackwards(s)) == loaded + Elems(s)
  {
    if s != [] {
      LoadsRun(loaded, s[1..]);
      LoadsStep(s, 0);
      assert s[0..] == s;
      assert LoadsBackwards(s)[..|s| - 1] == LoadsBackwards(s[1..]);
    }
  }

  /** Unloading the first k names of such an order is safe. */
  lemma {:induction false} UnloadPhase(g: Graph, installed: set<string>, order: seq<string>, k: nat)
    requires UnloadOrder(g, order) && k <= |order|
    ensures SafeRun(g, installed, installed, Unloads(order[..k]))
  {
    if k > 0 {
      var cs, c := Unloads(order[..k - 1]), Unload(order[k - 1]);
      UnloadPhase(g, installed, order, k - 1);
      assert SafeCommand(g, installed, Run(installed, cs), c) by {
        UnloadsRun(installed, order[..k - 1]);
        UnloadIsSafe(g, installed, order, k - 1);
      }
      assert Unloads(order[..k]) == cs + [c] by {
        UnloadsStep(order, k - 1);
      }
      RunStep(g, installed, installed, cs, c);
    }
  }

  /** Loading the names from index i to the end, last name first, into the
      state the unload phase leaves is safe. */
  lemma {:induction false} LoadPhase(g: Graph, installed: set<string>, order: seq<string>, i: nat)
    requires UnloadOrder(g, order) && i <= |order|
    ensures SafeRun(g, installed, installed - Elems(order), LoadsBackwards(order[i..]))
    decreases |order| - i
  {
    if i < |order| {
      var cs, c := LoadsBackwards(order[i + 1..]), Load(order[i]);
      LoadPhase(g, installed, order, i + 1);
      assert SafeCommand(g, installed, Run(installed - Elems(order), cs), c) by {
        LoadsRun(installed - Elems(order), order[i + 1..]);
        LoadIsSafe(g, installed, order, i);
      }
      assert LoadsBackwards(order[i..]) == cs + [c] by {
        LoadsStep(order, i);
      }
      RunStep(g, installed, installed - Elems(order), cs, c);
    } else {
      assert order[i..] == [];
    }
  }

  /** The commands reload dispatches for an order: every name unloaded in
      the order, then every name loaded in the reverse order. */
  function ReloadCommands(order: seq<string>): seq<ConsoleCommand>
  {
    Unloads(order) + LoadsBackwards(order)
  }

  /** Reload never unloads a plugin while a loaded plugin depends on it, never
      loads a plugin before an installed plugin it depends on, and in the end
      every installed plugin is loaded again. */
  lemma ReloadIsSafe(g: Graph, installed: set<string>, order: seq<string>)
    requires UnloadOrder(g, order) && Elems(order) <= installed
    ensures SafeRun(g, installed, installed, ReloadCommands(order))
    ensures Run(installed, ReloadCommands(order)) == installed
  {
    var unloads, loads := Unloads(order), LoadsBackwards(order);
    assert SafeRun(g, installed, installed, unloads) && Run(installed, unloads) == installed - Elems(order) by {
      UnloadPhase(g, installed, order, |order|);
      assert order[..|order|] == order;
      UnloadsRun(installed, order);
    }
    assert SafeRun(g, installed, installed - Elems(order), loads) && Run(installed - Elems(order), loads) == installed by {
      LoadPhase(g, installed, order, 0);
      assert order[0..] == order;
      LoadsRun(installed - Elems(order), order);
    }
    RunAppend(g, installed, installed, unloads, loads);
  }

  /** The first loop of reload: unload every name of the order, first to last. */
  method DispatchUnloads(order: seq<string>) returns (dispatched: seq<ConsoleCommand>)
    ensures dispatched == Unloads(order)
  {
    dispatched := [];
    for i := 0 to |order|
      invariant dispatched == Unloads(order[..i])
    {
      UnloadsStep(order, i);
      dispatched := dispatched + [Unload(order[i])];
    }
    assert order[..|order|] == order;
  }

  /** The second loop of reload: load every name of the order, last to first,
      after the commands already dispatched. */
  method DispatchLoads(order: seq<string>, before: seq<ConsoleCommand>) returns (dispatched: seq<ConsoleCommand>)
    ensures dispatched == before + LoadsBackwards(order)
  {
    dispatched := before;
    var i := |order| - 1;
    while i >= 0
      invariant -1 <= i < |order|
      invariant dispatched == before + LoadsBackwards(order[i + 1..])
      decreases i + 1
    {
      LoadsStep(order, i);
      dispatched := dispatched + [Load(order[i])];
      i := i - 1;
    }
    assert order[0..] == order;
  }

  /** reload. When the plugin is installed: the order is the target and its
      transitive dependents, target last; the dispatched commands unload the
      order and then load it backwards, which is safe and restores every
      installed plugin. */
  method Reload(registry: seq<PluginDescription>, args: seq<string>) returns (r: ReloadOutcome)
    requires |args| == 1 && args[0] in Installed(registry) ==> AcyclicFrom(DependedGraph(registry), args[0])
    ensures r == ReloadUsage <==> |args| != 1
    ensures r.ReloadNotFound? <==> |args| == 1 && args[0] !in Installed(registry)
    ensures r.ReloadNotFound? ==> r.arg == args[0]
    ensures r.Reloaded? ==>
              && |r.order| > 0 && r.order[|r.order| - 1] == args[0]
              && (forall x :: x in r.order <==> Reachable(DependedGraph(registry), args[0], x))
              && UnloadOrder(DependedGraph(registry), r.order)
              && r.dispatched == ReloadCommands(r.order)
              && SafeRun(DependedGraph(registry), Installed(registry), Installed(registry), r.dispatched)
              && Run(Installed(registry), r.dispatched) == Installed(registry)
  {
    if |args| != 1 {
      return ReloadUsage;
    }
    var arg := args[0];
    if arg !in Installed(registry) {
      return ReloadNotFound(arg);
    }
    var dependedGraph := BuildDependedGraph(registry);
    var order, _ := FindPluginDependencies(arg, dependedGraph);
    var dispatched := DispatchUnloads(order);
    dispatched := DispatchLoads(order, dispatched);
    r := Reloaded(order, dispatched);
    OrderFacts(registry, dependedGraph, arg, order);
  }

  /** The order findPluginDependencies returns is closed under the edges and
      made of installed plugins, so ReloadIsSafe applies to it. */
  lemma OrderFacts(registry: seq<PluginDescription>, g: Graph, arg: string, order: seq<string>)
    requires g == DependedGraph(registry) && arg in Installed(registry)
    requires NoDup(order) && DependentsFirst(g, order)
    requires forall x :: x in order <==> Reachable(g, arg, x)
    ensures UnloadOrder(g, order)
    ensures SafeRun(g, Installed(registry), Installed(registry), ReloadCommands(order))
    ensures Run(Installed(registry), ReloadCommands(order)) == Installed(registry)
  {
    forall x, b | x in order && Edge(g, x, b)
      ensures b in order
    {
      ReachableStep(g, arg, x, b);
    }
    forall x | x in Elems(order)
      ensures x in Installed(registry)
    {
      if x != arg {
        ReachableEnd(g, arg, x);
        var d :| Edge(g, d, x);
        DependentsAreInstalled(registry, d, x);
      }
    }
    ReloadIsSafe(g, Installed(registry), order);
  }
}
